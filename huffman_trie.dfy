/** The abstract meaning of a `HuffmanTree` (Jpeg.cpp:3-47): the set of node
    paths that exist below the root, each with the node's `_value` and
    `_code_end`, and `add_element` as a function on that set. */
module HuffmanTrie {
  import opened Common

  /** A path from the root: 0 is the left child (`Step(0)`), 1 the right one. */
  type Path = seq<Bit>

  /** The data a node carries besides its two child pointers. */
  datatype Label = Label(value: Byte, codeEnd: bool)

  /** `Node()`: `_value(-1)` stored in a byte, and `_code_end(false)`. */
  const FreshLabel := Label(0xFF, false)

  type Trie = map<Path, Label>

  /** A tree: the root exists and every other node's parent exists. */
  ghost predicate IsTrie(t: Trie)
  {
    && [] in t
    && forall p: Path, b: Bit | p + [b] in t :: p in t
  }

  /** The tree a fresh `HuffmanTree()` holds: a root and nothing else. */
  const EmptyTrie: Trie := map[[] := FreshLabel]

  /** No node from depth `from` to the end of `q` (both included) is a code end
      of `t`: an insertion along `q` passes no leaf. */
  ghost predicate Free(t: Trie, from: nat, q: Path)
  {
    forall j | from <= j <= |q| :: !(q[..j] in t && t[q[..j]].codeEnd)
  }

  /** `p` comes before `q` in left-first order (equal lengths): at the first
      position where they differ, `p` turns left. */
  ghost predicate LexLe(p: Path, q: Path)
  {
    forall i | 0 <= i < |p| && i < |q| && p[..i] == q[..i] && p[i] != q[i] :: p[i] < q[i]
  }

  /** The outcome of `add_element`: its result, the path at which the value was
      placed (meaningful when `ok`), and the tree afterwards. */
  datatype Placement = Placement(ok: bool, code: Path, trie: Trie)

  /** `add_element(current_node, lenght, value)` with `current_node` the node
      (existing or not) at path `at` (Jpeg.cpp:11-34). */
  function AddAt(t: Trie, at: Path, len: nat, v: Byte): Placement
    decreases len
  {
    if at in t && t[at].codeEnd then Placement(false, [], t)
    else
      var t1 := Created(t, at);
      if len == 0 then Placement(true, at, t1[at := Label(v, true)])
      else
        var l := AddAt(t1, at + [0], len - 1, v);
        if l.ok then l else AddAt(l.trie, at + [1], len - 1, v)
  }

  /** `if (current_node == nullptr) current_node = new Node();` */
  function Created(t: Trie, at: Path): Trie
  {
    if at in t then t else t[at := FreshLabel]
  }

  /** `AddElement`: an insertion at the root whose result is dropped. */
  function Add(t: Trie, len: nat, v: Byte): Trie
  {
    AddAt(t, [], len, v).trie
  }

  //--------------------------------------------------------------------------
  // What add_element does
  //--------------------------------------------------------------------------

  /** `at` is an existing node of `t` or a missing child of an existing node:
      what a `Node*&` passed to `add_element` can refer to. */
  ghost predicate AtSlot(t: Trie, at: Path)
  {
    IsTrie(t) && (at in t || (|at| > 0 && at[..|at| - 1] in t))
  }

  lemma SlotStep(t: Trie, at: Path, b: Bit)
    requires IsTrie(t) && at in t
    ensures AtSlot(t, at + [b])
  {
    assert (at + [b])[..|at|] == at;
  }

  /** A missing node's children are missing too. */
  lemma ChildOfAbsent(t: Trie, at: Path, b: Bit)
    requires IsTrie(t) && at !in t
    ensures at + [b] !in t
  {
    assert (at + [b])[..|at|] == at;
  }

  /** Creating the node at a slot keeps a tree a tree. */
  lemma CreateKeepsTrie(t: Trie, at: Path, l: Label)
    requires AtSlot(t, at)
    ensures IsTrie(t[at := l])
  {
  }

  /** Inserting at a missing node always succeeds: a fresh node is never a
      code end, and its children are missing too. */
  lemma {:induction false} AbsentSucceeds(t: Trie, at: Path, len: nat, v: Byte)
    requires AtSlot(t, at) && at !in t
    ensures AddAt(t, at, len, v).ok
    decreases len
  {
    if len > 0 {
      var t1 := t[at := FreshLabel];
      CreateKeepsTrie(t, at, FreshLabel);
      SlotStep(t1, at, 0);
      ChildOfAbsent(t, at, 0);
      AbsentSucceeds(t1, at + [0], len - 1, v);
    }
  }

  /** A failed insertion changes nothing. */
  lemma {:induction false} FailureChangesNothing(t: Trie, at: Path, len: nat, v: Byte)
    requires AtSlot(t, at)
    ensures !AddAt(t, at, len, v).ok ==> AddAt(t, at, len, v).trie == t
    decreases len
  {
    if !(at in t && t[at].codeEnd) && len > 0 {
      var t1 := if at in t then t else t[at := FreshLabel];
      CreateKeepsTrie(t, at, FreshLabel);
      SlotStep(t1, at, 0);
      if at !in t {
        ChildOfAbsent(t, at, 0);
        AbsentSucceeds(t1, at + [0], len - 1, v);
      } else {
        FailureChangesNothing(t, at + [0], len - 1, v);
        SlotStep(t, at, 1);
        FailureChangesNothing(t, at + [1], len - 1, v);
      }
    }
  }

  /** A successful insertion places the value, as a code end, at a path of
      exactly `len` steps below `at` that passes no code end of the old tree. */
  lemma {:induction false} SuccessPlaces(t: Trie, at: Path, len: nat, v: Byte)
    requires AtSlot(t, at)
    ensures var r := AddAt(t, at, len, v);
      r.ok ==> && |r.code| == |at| + len && r.code[..|at|] == at
               && r.code in r.trie && r.trie[r.code] == Label(v, true)
               && Free(t, |at|, r.code)
    decreases len
  {
    var r := AddAt(t, at, len, v);
    if r.ok && len > 0 {
      var t1 := if at in t then t else t[at := FreshLabel];
      CreateKeepsTrie(t, at, FreshLabel);
      SlotStep(t1, at, 0);
      var l := AddAt(t1, at + [0], len - 1, v);
      var b: Bit;
      if l.ok {
        b := 0;
        SuccessPlaces(t1, at + [0], len - 1, v);
      } else {
        FailureChangesNothing(t1, at + [0], len - 1, v);
        SlotStep(t1, at, 1);
        b := 1;
        SuccessPlaces(t1, at + [1], len - 1, v);
      }
      PlacedBelow(t, t1, at, b, r.code);
    }
  }

  /** The step of SuccessPlaces from a child slot back to `at`. */
  lemma PlacedBelow(t: Trie, t1: Trie, at: Path, b: Bit, code: Path)
    requires at !in t || !t[at].codeEnd
    requires t1 == if at in t then t else t[at := FreshLabel]
    requires |code| >= |at| + 1 && code[..|at| + 1] == at + [b] && Free(t1, |at| + 1, code)
    ensures code[..|at|] == at && Free(t, |at|, code)
  {
    assert code[..|at|] == code[..|at| + 1][..|at|];
    forall j | |at| <= j <= |code| ensures !(code[..j] in t && t[code[..j]].codeEnd) {
      if j > |at| {
        assert code[..j][..|at| + 1] == at + [b];
        assert code[..j] != at;
      }
    }
  }

  /** What else an insertion changes: old nodes stay, every new node lies on
      the path to the placed value, and all nodes but the placed one keep
      their labels (new ones are fresh). The result is again a tree. */
  ghost predicate Framed(t: Trie, at: Path, r: Placement)
  {
    && (forall q | q in t :: q in r.trie)
    && (forall q | q in r.trie && q !in t :: r.ok && |at| <= |q| <= |r.code| && q == r.code[..|q|])
    && (forall q | q in r.trie && !(r.ok && q == r.code) ::
          r.trie[q] == if q in t then t[q] else FreshLabel)
    && IsTrie(r.trie)
  }

  lemma {:induction false} InsertionFrame(t: Trie, at: Path, len: nat, v: Byte)
    requires AtSlot(t, at)
    ensures Framed(t, at, AddAt(t, at, len, v))
    decreases len, 1
  {
    if at in t && t[at].codeEnd {
    } else if len == 0 {
      FrameBase(t, at, v);
    } else {
      var t1 := Created(t, at);
      var l := AddAt(t1, at + [0], len - 1, v);
      if l.ok {
        FrameLeft(t, at, len, v);
      } else {
        CreateKeepsTrie(t, at, FreshLabel);
        SlotStep(t1, at, 0);
        if at !in t {
          ChildOfAbsent(t, at, 0);
          AbsentSucceeds(t1, at + [0], len - 1, v);
        }
        FailureChangesNothing(t1, at + [0], len - 1, v);
        FrameRight(t, at, len, v);
      }
    }
  }

  lemma {:induction false} FrameLeft(t: Trie, at: Path, len: nat, v: Byte)
    requires AtSlot(t, at) && len > 0
    ensures Framed(t, at, AddAt(Created(t, at), at + [0], len - 1, v))
    decreases len, 0
  {
    var t1 := Created(t, at);
    var l := AddAt(t1, at + [0], len - 1, v);
    assert Framed(t1, at + [0], l) by {
      CreateKeepsTrie(t, at, FreshLabel);
      SlotStep(t1, at, 0);
      InsertionFrame(t1, at + [0], len - 1, v);
    }
    LeftFacts(t, at, len, v);
    FramedStep(t, t1, at, 0, l);
  }

  /** The facts FramedStep needs about the left insertion. */
  lemma LeftFacts(t: Trie, at: Path, len: nat, v: Byte)
    requires AtSlot(t, at) && len > 0
    ensures var l := AddAt(Created(t, at), at + [0], len - 1, v);
      && (l.ok ==> |l.code| >= |at| + 1 && l.code[..|at| + 1] == at + [0])
      && (at !in t ==> l.ok)
  {
    var t1 := Created(t, at);
    CreateKeepsTrie(t, at, FreshLabel);
    SlotStep(t1, at, 0);
    SuccessPlaces(t1, at + [0], len - 1, v);
    if at !in t {
      ChildOfAbsent(t, at, 0);
      AbsentSucceeds(t1, at + [0], len - 1, v);
    }
  }

  lemma {:induction false} FrameRight(t: Trie, at: Path, len: nat, v: Byte)
    requires AtSlot(t, at) && at in t && len > 0
    ensures Framed(t, at, AddAt(t, at + [1], len - 1, v))
    decreases len, 0
  {
    SlotStep(t, at, 1);
    var r := AddAt(t, at + [1], len - 1, v);
    assert Framed(t, at + [1], r) by {
      InsertionFrame(t, at + [1], len - 1, v);
    }
    assert r.ok ==> |r.code| >= |at| + 1 && r.code[..|at| + 1] == at + [1] by {
      SuccessPlaces(t, at + [1], len - 1, v);
    }
    FramedStep(t, t, at, 1, r);
  }

  lemma FrameBase(t: Trie, at: Path, v: Byte)
    requires AtSlot(t, at) && !(at in t && t[at].codeEnd)
    ensures Framed(t, at, AddAt(t, at, 0, v))
  {
    var t1 := if at in t then t else t[at := FreshLabel];
    CreateKeepsTrie(t1, at, Label(v, true));
    assert at[..|at|] == at;
  }

  /** The step of InsertionFrame from a child slot back to `at`. */
  lemma FramedStep(t: Trie, t1: Trie, at: Path, b: Bit, r: Placement)
    requires t1 == if at in t then t else t[at := FreshLabel]
    requires Framed(t1, at + [b], r)
    requires r.ok ==> |r.code| >= |at| + 1 && r.code[..|at| + 1] == at + [b]
    requires at !in t ==> r.ok
    ensures Framed(t, at, r)
  {
    if r.ok {
      assert r.code[..|at|] == r.code[..|at| + 1][..|at|];
    }
    forall q | q in r.trie && q !in t ensures r.ok && |at| <= |q| <= |r.code| && q == r.code[..|q|] {
      if q in t1 {
        assert q == at;
      }
    }
  }

  //--------------------------------------------------------------------------
  // Left first: the placed path is the least free one
  //--------------------------------------------------------------------------

  /** `q` is a path of exactly `len` steps below `at`. */
  ghost predicate Below(at: Path, len: nat, q: Path)
  {
    |q| == |at| + len && q[..|at|] == at
  }

  /** `p` and `q` first differ at `i`, where `p` turns left. */
  lemma FirstDifference(p: Path, q: Path, i: nat)
    requires |p| == |q| && i < |p| && p[..i] == q[..i] && p[i] < q[i]
    ensures LexLe(p, q)
  {
  }

  lemma LexLeRefl(p: Path)
    ensures LexLe(p, p)
  {
  }

  /** Below a node that is not a code end, freedom from `at` on is freedom
      from the child on, in the tree where `at` exists. */
  lemma FreeBelow(t: Trie, at: Path, q: Path)
    requires !(at in t && t[at].codeEnd) && |q| > |at| && q[..|at|] == at
    ensures Free(t, |at|, q) <==> Free(Created(t, at), |at| + 1, q)
  {
    var t1 := Created(t, at);
    forall j | |at| + 1 <= j <= |q|
      ensures (q[..j] in t && t[q[..j]].codeEnd) <==> (q[..j] in t1 && t1[q[..j]].codeEnd)
    {
      assert |q[..j]| != |at|;
    }
    if Free(Created(t, at), |at| + 1, q) {
      forall j | |at| <= j <= |q| ensures !(q[..j] in t && t[q[..j]].codeEnd) {
        if j == |at| {
          assert q[..j] == at;
        }
      }
    }
  }

  /** The paths of `len` steps below `at` that pass no code end of `t` from
      `at` on: where an insertion from `at` may place its value. */
  ghost function FreePaths(t: Trie, at: Path, len: nat): iset<Path>
  {
    iset q | Below(at, len, q) && Free(t, |at|, q)
  }

  /** `r` succeeded exactly when there is a free path, and then its path is
      the left-most one. */
  ghost predicate LeastOf(t: Trie, at: Path, len: nat, r: Placement)
  {
    && (r.ok <==> exists q :: q in FreePaths(t, at, len))
    && (r.ok ==> forall q | q in FreePaths(t, at, len) :: LexLe(r.code, q))
  }

  /** add_element succeeds exactly when some path of `len` steps below `at`
      passes no code end, and then it places the value at the left-most such
      path. */
  lemma {:induction false} LeastFree(t: Trie, at: Path, len: nat, v: Byte)
    requires AtSlot(t, at)
    ensures LeastOf(t, at, len, AddAt(t, at, len, v))
    decreases len
  {
    if at in t && t[at].codeEnd {
    } else if len == 0 {
      assert at[..|at|] == at;
      assert at in FreePaths(t, at, len);
      forall q | q in FreePaths(t, at, len) ensures q == at {
        assert q == q[..|at|];
      }
    } else {
      LeastFreeStep(t, at, len, v);
    }
  }

  /** The free paths below `at` are those below its two children, in the
      tree where `at` exists. */
  lemma FreeSplit(t: Trie, at: Path, len: nat)
    requires !(at in t && t[at].codeEnd) && len > 0
    ensures FreePaths(t, at, len)
         == FreePaths(Created(t, at), at + [0], len - 1) + FreePaths(Created(t, at), at + [1], len - 1)
  {
    var t1 := Created(t, at);
    forall q | q in FreePaths(t, at, len)
      ensures q in FreePaths(t1, at + [q[|at|]], len - 1)
    {
      FreeBelow(t, at, q);
      assert q[..|at| + 1] == q[..|at|] + [q[|at|]];
    }
    forall b: Bit, q | q in FreePaths(t1, at + [b], len - 1)
      ensures q in FreePaths(t, at, len)
    {
      assert q[..|at|] == q[..|at| + 1][..|at|];
      FreeBelow(t, at, q);
    }
  }

  lemma {:induction false} LeastFreeStep(t: Trie, at: Path, len: nat, v: Byte)
    requires AtSlot(t, at) && !(at in t && t[at].codeEnd) && len > 0
    ensures LeastOf(t, at, len, AddAt(t, at, len, v))
    decreases len, 1
  {
    var t1 := Created(t, at);
    var l := AddAt(t1, at + [0], len - 1, v);
    if l.ok {
      LeastFreeLeft(t, at, len, v);
    } else {
      assert AddAt(t, at, len, v) == AddAt(t1, at + [1], len - 1, v) by {
        CreateKeepsTrie(t, at, FreshLabel);
        SlotStep(t1, at, 0);
        FailureChangesNothing(t1, at + [0], len - 1, v);
      }
      LeastFreeRight(t, at, len, v);
    }
  }

  lemma {:induction false} LeastFreeLeft(t: Trie, at: Path, len: nat, v: Byte)
    requires AtSlot(t, at) && !(at in t && t[at].codeEnd) && len > 0
    requires AddAt(Created(t, at), at + [0], len - 1, v).ok
    ensures LeastOf(t, at, len, AddAt(Created(t, at), at + [0], len - 1, v))
    decreases len, 0
  {
    var t1 := Created(t, at);
    var l := AddAt(t1, at + [0], len - 1, v);
    assert LeastOf(t1, at + [0], len - 1, l) by {
      CreateKeepsTrie(t, at, FreshLabel);
      SlotStep(t1, at, 0);
      LeastFree(t1, at + [0], len - 1, v);
    }
    assert |l.code| == |at| + len && l.code[..|at|] == at && l.code[|at|] == 0 by {
      CreateKeepsTrie(t, at, FreshLabel);
      SlotStep(t1, at, 0);
      SuccessPlaces(t1, at + [0], len - 1, v);
      assert l.code[..|at|] == l.code[..|at| + 1][..|at|];
      assert l.code[|at|] == l.code[..|at| + 1][|at|];
    }
    RightComesAfter(t1, at, len, l.code);
    FreeSplit(t, at, len);
  }

  /** A path that turns left at `at` comes before every path below the right
      child. */
  lemma RightComesAfter(t: Trie, at: Path, len: nat, code: Path)
    requires len > 0 && |code| == |at| + len && code[..|at|] == at && code[|at|] == 0
    ensures forall q | q in FreePaths(t, at + [1], len - 1) :: LexLe(code, q)
  {
    forall q | q in FreePaths(t, at + [1], len - 1) ensures LexLe(code, q) {
      assert q[..|at|] == q[..|at| + 1][..|at|];
      assert q[|at|] == q[..|at| + 1][|at|];
      FirstDifference(code, q, |at|);
    }
  }

  lemma {:induction false} LeastFreeRight(t: Trie, at: Path, len: nat, v: Byte)
    requires AtSlot(t, at) && !(at in t && t[at].codeEnd) && len > 0
    requires !AddAt(Created(t, at), at + [0], len - 1, v).ok
    ensures LeastOf(t, at, len, AddAt(Created(t, at), at + [1], len - 1, v))
    decreases len, 0
  {
    var t1 := Created(t, at);
    CreateKeepsTrie(t, at, FreshLabel);
    SlotStep(t1, at, 0);
    SlotStep(t1, at, 1);
    assert LeastOf(t1, at + [0], len - 1, AddAt(t1, at + [0], len - 1, v)) by {
      LeastFree(t1, at + [0], len - 1, v);
    }
    assert LeastOf(t1, at + [1], len - 1, AddAt(t1, at + [1], len - 1, v)) by {
      LeastFree(t1, at + [1], len - 1, v);
    }
    FreeSplit(t, at, len);
  }

  //--------------------------------------------------------------------------
  // One insertion at the root, and a table of them
  //--------------------------------------------------------------------------

  /** `q` is a code end of `t`: a node where decoding stops. */
  ghost predicate IsEnd(t: Trie, q: Path)
  {
    q in t && t[q].codeEnd
  }

  /** Everything about `AddElement(len, v)` on a tree: it stays a tree; it
      succeeds exactly when a free path of length `len` exists and then uses the
      left-most one, which becomes a code end holding `v`; no other node's
      label changes, so the code ends grow by exactly that path; a failure
      changes nothing. */
  lemma AddFacts(t: Trie, len: nat, v: Byte)
    requires IsTrie(t)
    ensures var r := AddAt(t, [], len, v);
      && IsTrie(r.trie)
      && LeastOf(t, [], len, r)
      && (r.ok ==> |r.code| == len && r.code in r.trie && r.trie[r.code] == Label(v, true) && Free(t, 0, r.code))
      && (!r.ok ==> r.trie == t)
      && (forall q | q in t && !(r.ok && q == r.code) :: q in r.trie && r.trie[q] == t[q])
      && (forall q :: IsEnd(r.trie, q) <==> IsEnd(t, q) || (r.ok && q == r.code))
  {
    var r := AddAt(t, [], len, v);
    InsertionFrame(t, [], len, v);
    LeastFree(t, [], len, v);
    SuccessPlaces(t, [], len, v);
    FailureChangesNothing(t, [], len, v);
    forall q ensures IsEnd(r.trie, q) <==> IsEnd(t, q) || (r.ok && q == r.code) {
      if r.ok && q == r.code {
      } else if q in r.trie && q !in t {
        assert !r.trie[q].codeEnd;
      }
    }
  }

  /** The tree after inserting `values[k]` with code length `sizes[k]` for
      k = 0, 1, ... in this order (the loop of process_huffman_table). */
  function InsertAll(t: Trie, sizes: seq<nat>, values: seq<Byte>): Trie
    requires |sizes| == |values|
    decreases |sizes|
  {
    if |sizes| == 0 then t
    else Add(InsertAll(t, sizes[..|sizes| - 1], values[..|values| - 1]), sizes[|sizes| - 1], values[|values| - 1])
  }

  lemma {:induction false} InsertAllKeepsTrie(t: Trie, sizes: seq<nat>, values: seq<Byte>)
    requires IsTrie(t) && |sizes| == |values|
    ensures IsTrie(InsertAll(t, sizes, values))
    decreases |sizes|
  {
    if |sizes| > 0 {
      var n := |sizes|;
      InsertAllKeepsTrie(t, sizes[..n - 1], values[..n - 1]);
      AddFacts(InsertAll(t, sizes[..n - 1], values[..n - 1]), sizes[n - 1], values[n - 1]);
    }
  }
}
