/** `HuffmanTree` and `HuffmanTreeIterator` (Jpeg.h:12-46, Jpeg.cpp:3-74).
    The pointer tree is kept as an arena: node `i` is `nodes[i]`, a child
    pointer is an optional index, and the root is node 0. The ghost `index`
    says which tree path each node sits at; through it the arena means a
    `Trie`, and every operation is proved against the trie functions. */
module Huffman {
  import opened Common
  import opened HuffmanTrie

  /** `HuffmanTree::Node`: two child pointers, `_value` and `_code_end`. */
  datatype Node = Node(left: Option<nat>, right: Option<nat>, value: Byte, codeEnd: bool)

  /** `Node()`: no children, `_value(-1)` stored in a byte, not a code end. */
  const FreshNode := Node(None, None, 0xFF, false)

  /** The child pointer `Step(side)` follows. */
  function ChildOf(n: Node, side: Bit): Option<nat>
  {
    if side == 0 then n.left else n.right
  }

  /** `n` with its child pointer on `side` set to `c`. */
  function WithChild(n: Node, side: Bit, c: nat): (r: Node)
    ensures ChildOf(r, side) == Some(c) && ChildOf(r, 1 - side) == ChildOf(n, 1 - side)
    ensures r.value == n.value && r.codeEnd == n.codeEnd
  {
    if side == 0 then n.(left := Some(c)) else n.(right := Some(c))
  }

  function LabelOf(n: Node): Label
  {
    Label(n.value, n.codeEnd)
  }

  /** `index` places the tree's paths at distinct nodes of the arena (`paths`
      is its inverse), the child pointers are exactly the index's children,
      and the paths form a tree. */
  ghost predicate Arena(nodes: seq<Node>, index: map<Path, nat>, paths: seq<Path>)
  {
    && |paths| == |nodes|
    && [] in index && index[[]] == 0
    && (forall p | p in index :: index[p] < |nodes| && paths[index[p]] == p)
    && (forall p, b: Bit {:trigger ChildOf(nodes[index[p]], b)} | p in index ::
          ChildOf(nodes[index[p]], b) == if p + [b] in index then Some(index[p + [b]]) else None)
    && (forall p: Path, b: Bit | p + [b] in index :: p in index)
  }

  /** What the arena means: every path with its node's label. */
  ghost function Meaning(nodes: seq<Node>, index: map<Path, nat>): Trie
    requires forall p | p in index :: index[p] < |nodes|
  {
    map p | p in index :: LabelOf(nodes[index[p]])
  }

  /** `if (current_node == nullptr) current_node = new Node();` for the child
      `side` of node `pa` at path `at`: the new node goes at the end of the
      arena and the tree gains the path `at + [side]` with a fresh label. */
  lemma CreateStep(nodes: seq<Node>, index: map<Path, nat>, paths: seq<Path>, at: Path, side: Bit)
    requires Arena(nodes, index, paths) && at in index && at + [side] !in index
    ensures var pa, c := index[at], |nodes|;
      var nodes' := nodes[pa := WithChild(nodes[pa], side, c)] + [FreshNode];
      var index' := index[at + [side] := c];
      && Arena(nodes', index', paths + [at + [side]])
      && Meaning(nodes', index') == Created(Meaning(nodes, index), at + [side])
  {
    var pa, c, q := index[at], |nodes|, at + [side];
    var nodes' := nodes[pa := WithChild(nodes[pa], side, c)] + [FreshNode];
    var index' := index[q := c];
    forall p, b: Bit | p in index'
      ensures ChildOf(nodes'[index'[p]], b) == if p + [b] in index' then Some(index'[p + [b]]) else None
    {
      if p == q {
        assert p + [b] !in index;
      } else if p == at {
        Snoc(p, b, at, side);
        assert p + [b] in index' <==> b == side || p + [b] in index;
      } else {
        Snoc(p, b, at, side);
        assert index'[p] == index[p] != pa;
      }
    }
    forall p: Path, b: Bit | p + [b] in index' ensures p in index' {
      Snoc(p, b, at, side);
    }
    assert Meaning(nodes', index') == Meaning(nodes, index)[q := FreshLabel] by {
      forall p | p in index && p != q ensures index'[p] != pa ==> nodes'[index'[p]] == nodes[index[p]] {
      }
    }
  }

  /** Appending one step is injective. */
  lemma Snoc(p: Path, b: Bit, q: Path, c: Bit)
    ensures p + [b] == q + [c] <==> p == q && b == c
  {
    if p + [b] == q + [c] {
      assert p == (p + [b])[..|p|] && q == (q + [c])[..|q|];
    }
  }

  /** `current_node->_value = value; current_node->_code_end = true;` */
  lemma MarkStep(nodes: seq<Node>, index: map<Path, nat>, paths: seq<Path>, at: Path, v: Byte)
    requires Arena(nodes, index, paths) && at in index
    ensures var c := index[at];
      var nodes' := nodes[c := nodes[c].(value := v, codeEnd := true)];
      && Arena(nodes', index, paths)
      && Meaning(nodes', index) == Meaning(nodes, index)[at := Label(v, true)]
  {
    var c := index[at];
    var nodes' := nodes[c := nodes[c].(value := v, codeEnd := true)];
    forall p, b: Bit | p in index
      ensures ChildOf(nodes'[index[p]], b) == if p + [b] in index then Some(index[p + [b]]) else None
    {
      assert ChildOf(nodes'[index[p]], b) == ChildOf(nodes[index[p]], b);
    }
    assert Meaning(nodes', index) == Meaning(nodes, index)[at := Label(v, true)] by {
      forall p | p in index && p != at ensures nodes'[index[p]] == nodes[index[p]] {
        assert paths[index[p]] != paths[c];
      }
    }
  }

  /** The paths of an arena form a tree. */
  lemma ArenaIsTrie(nodes: seq<Node>, index: map<Path, nat>, paths: seq<Path>)
    requires Arena(nodes, index, paths)
    ensures IsTrie(Meaning(nodes, index))
  {
  }

  /** Creating the node first does not change what `add_element` does. */
  lemma CreatedFirst(t: Trie, at: Path, len: nat, v: Byte)
    requires !(at in t && t[at].codeEnd)
    ensures AddAt(Created(t, at), at, len, v) == AddAt(t, at, len, v)
  {
    assert Created(Created(t, at), at) == Created(t, at);
  }

  /** Every path of `a` is in `b` at the same node. */
  ghost predicate Grows(a: map<Path, nat>, b: map<Path, nat>)
  {
    forall p | p in a :: p in b && b[p] == a[p]
  }

  lemma GrowsTrans(a: map<Path, nat>, b: map<Path, nat>, c: map<Path, nat>)
    requires Grows(a, b) && Grows(b, c)
    ensures Grows(a, c)
  {
  }

  /** Which `Node*&` `add_element` is handed: `_root`, or the child pointer on
      `side` of node `parent`. */
  datatype Slot = Root | ChildSlot(parent: nat, side: Bit)

  class HuffmanTree {
    var nodes: seq<Node>
    ghost var index: map<Path, nat>
    ghost var paths: seq<Path>

    ghost predicate Valid()
      reads this
    {
      Arena(nodes, index, paths)
    }

    /** The tree the arena holds. */
    ghost function Content(): Trie
      reads this
      requires Valid()
    {
      Meaning(nodes, index)
    }

    /** `HuffmanTree()`: a tree of just the root node. */
    constructor ()
      ensures Valid() && Content() == EmptyTrie
    {
      nodes := [FreshNode];
      index := map[[] := 0];
      paths := [[]];
      new;
      assert Content() == EmptyTrie by {
        assert index.Keys == {[]};
      }
    }

    /** `slot` is the pointer of the path `at`: the root pointer, or the
        pointer on the last step of `at` in the node of its parent path. */
    ghost predicate SlotOf(slot: Slot, at: Path)
      reads this
    {
      match slot
      case Root => at == []
      case ChildSlot(pa, side) =>
        |at| > 0 && at[|at| - 1] == side && at[..|at| - 1] in index && index[at[..|at| - 1]] == pa
    }

    /** The node a slot points to, if any. */
    function Target(slot: Slot): Option<nat>
      reads this
      requires slot.ChildSlot? ==> slot.parent < |nodes|
    {
      match slot
      case Root => Some(0)
      case ChildSlot(pa, side) => ChildOf(nodes[pa], side)
    }

    /** `add_element(current_node, lenght, value)`: creates the missing nodes
        on its way and marks the node it settles on, exactly as `AddAt` says;
        nodes already in the tree keep their place in the arena. */
    method Insert(slot: Slot, ghost at: Path, len: nat, v: Byte) returns (ok: bool)
      requires Valid() && SlotOf(slot, at)
      modifies this
      ensures Valid()
      ensures ok == AddAt(old(Content()), at, len, v).ok
      ensures Content() == AddAt(old(Content()), at, len, v).trie
      ensures Grows(old(index), index)
      decreases len, 2
    {
      ghost var t, index0 := Content(), index;
      if slot.ChildSlot? {
        assert at == at[..|at| - 1] + [slot.side];
      }
      var cur := Target(slot);
      if cur.Some? && nodes[cur.value].codeEnd {
        assert at in index && index[at] == cur.value;
        return false;
      }
      var c: nat;
      if cur.None? {
        c := NewChild(slot.parent, at[..|at| - 1], slot.side);
      } else {
        c := cur.value;
        assert at in index && index[at] == c;
      }
      assert Content() == Created(t, at);
      CreatedFirst(t, at, len, v);
      ghost var index1 := index;
      ok := Settle(c, at, len, v);
      GrowsTrans(index0, index1, index);
    }

    /** `current_node = new Node();` where `current_node` is the missing child
        `side` of node `pa` at path `up`. */
    method NewChild(pa: nat, ghost up: Path, side: Bit) returns (c: nat)
      requires Valid() && up in index && index[up] == pa && up + [side] !in index
      modifies this
      ensures Valid() && index == old(index)[up + [side] := c]
      ensures Content() == Created(old(Content()), up + [side])
    {
      CreateStep(nodes, index, paths, up, side);
      c := |nodes|;
      nodes := nodes[pa := WithChild(nodes[pa], side, c)] + [FreshNode];
      index := index[up + [side] := c];
      paths := paths + [up + [side]];
    }

    /** The rest of `add_element` once `current_node` is the existing node `c`
        at path `at`, not a code end. */
    method Settle(c: nat, ghost at: Path, len: nat, v: Byte) returns (ok: bool)
      requires Valid() && at in index && index[at] == c && !nodes[c].codeEnd
      modifies this
      ensures Valid()
      ensures ok == AddAt(old(Content()), at, len, v).ok
      ensures Content() == AddAt(old(Content()), at, len, v).trie
      ensures Grows(old(index), index)
      decreases len, 1
    {
      assert Created(Content(), at) == Content();
      if len == 0 {
        MarkStep(nodes, index, paths, at, v);
        nodes := nodes[c := nodes[c].(value := v, codeEnd := true)];
        return true;
      }
      ok := Descend(c, at, len, v);
    }

    /** `add_element` on the left child, then, if that failed, on the right. */
    method Descend(c: nat, ghost at: Path, len: nat, v: Byte) returns (ok: bool)
      requires Valid() && at in index && index[at] == c && len > 0
      modifies this
      ensures Valid()
      ensures var l := AddAt(old(Content()), at + [0], len - 1, v);
        && ok == (l.ok || AddAt(l.trie, at + [1], len - 1, v).ok)
        && Content() == (if l.ok then l.trie else AddAt(l.trie, at + [1], len - 1, v).trie)
      ensures Grows(old(index), index)
      decreases len, 0
    {
      ghost var index0, index1 := index, index;
      assert (at + [0])[..|at|] == at && (at + [1])[..|at|] == at;
      ok := Insert(ChildSlot(c, 0), at + [0], len - 1, v);
      GrowsTrans(index0, index1, index);
      if ok {
        return;
      }
      ghost var index2 := index;
      ok := Insert(ChildSlot(c, 1), at + [1], len - 1, v);
      GrowsTrans(index0, index2, index);
    }

    /** `AddElement(lenght_, value_)`: an insertion at the root whose result is
        dropped. */
    method AddElement(length: nat, value: Byte)
      requires Valid()
      modifies this
      ensures Valid() && Content() == Add(old(Content()), length, value)
    {
      var _ := Insert(Root, [], length, value);
    }

    /** `GetRoot()`. */
    function GetRoot(): (r: nat)
      reads this
      requires Valid()
      ensures r in index.Values && paths[r] == []
    {
      0
    }
  }

  /** `HuffmanTreeIterator`: a cursor on one node of a tree. */
  class HuffmanTreeIterator {
    const tree: HuffmanTree
    var state: nat
    ghost var at: Path

    /** The cursor is the node of the path `at`. */
    ghost predicate Valid()
      reads this, tree
    {
      tree.Valid() && at in tree.index && state == tree.index[at]
    }

    /** `HuffmanTreeIterator(tree_)`: starts at the root. */
    constructor (t: HuffmanTree)
      requires t.Valid()
      ensures tree == t && Valid() && at == []
    {
      tree := t;
      state := t.GetRoot();
      at := [];
    }

    /** `Step(way_)`: to the left child for 0, the right one otherwise; a
        missing child is an error (the C++ code throws). */
    method Step(way: int) returns (o: Outcome)
      requires Valid()
      modifies this
      ensures var next := old(at) + [if way == 0 then 0 else 1];
        && (o == Pass <==> next in tree.Content())
        && (o.Fail? ==> o.error == InvalidHuffmanCode)
        && (o == Pass ==> Valid() && at == next)
    {
      var side: Bit := if way == 0 then 0 else 1;
      var target := ChildOf(tree.nodes[state], side);
      if target.None? {
        return Fail(InvalidHuffmanCode);
      }
      state := target.value;
      at := at + [side];
      o := Pass;
    }

    /** `IsCodeEnd()`: whether the current node is a code end. */
    function IsCodeEnd(): (r: bool)
      reads this, tree
      requires Valid()
      ensures r == tree.Content()[at].codeEnd
    {
      tree.nodes[state].codeEnd
    }

    /** `GetValue()`: the value of the current node. */
    function GetValue(): (r: Byte)
      reads this, tree
      requires Valid()
      ensures r == tree.Content()[at].value
    {
      tree.nodes[state].value
    }

    /** `Reset()`: back to the root. */
    method Reset()
      requires Valid()
      modifies this
      ensures Valid() && at == []
    {
      state := tree.GetRoot();
      at := [];
    }
  }
}
