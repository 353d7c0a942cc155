/** Annex C of ISO/IEC 10918-1 (Figures C.1 and C.2) derives the code of every
    value of a Huffman table from the number of codes of each length. The
    decoder never computes those codes: it inserts the values, shortest length
    first, into a tree with the left-first `add_element`. This module proves
    that the two agree: the tree's code ends are exactly the Annex C codes,
    each holding its value, as long as the codes fit in their lengths; a
    value whose code does not fit is silently dropped. */
module Canonical {
  import opened Common
  import opened Binary
  import opened HuffmanTrie

  ghost predicate Ascending(sizes: seq<nat>)
  {
    forall i, j | 0 <= i < j < |sizes| :: sizes[i] <= sizes[j]
  }

  /** Figure C.1 (HUFFSIZE): `counts[i]` codes of length `i + 1`, shortest
      first. This is the order in which process_huffman_table inserts. */
  function HuffSize(counts: seq<nat>): (r: seq<nat>)
    decreases |counts|
  {
    if |counts| == 0 then []
    else HuffSize(counts[..|counts| - 1]) + seq(counts[|counts| - 1], _ => |counts|)
  }

  function Sum(counts: seq<nat>): nat
    decreases |counts|
  {
    if |counts| == 0 then 0 else Sum(counts[..|counts| - 1]) + counts[|counts| - 1]
  }

  /** HUFFSIZE lists `Sum(counts)` lengths, ascending, each between 1 and the
      number of counts. */
  lemma {:induction false} HuffSizeShape(counts: seq<nat>)
    ensures var r := HuffSize(counts);
      && |r| == Sum(counts)
      && Ascending(r)
      && forall k | 0 <= k < |r| :: 1 <= r[k] <= |counts|
    decreases |counts|
  {
    if |counts| > 0 {
      HuffSizeShape(counts[..|counts| - 1]);
    }
  }

  /** Figure C.2 (HUFFCODE) as a recurrence: the first code is 0; the next code
      is one more than the previous one, shifted left by the growth in length. */
  function HuffCode(sizes: seq<nat>): (r: seq<nat>)
    requires Ascending(sizes)
    ensures |r| == |sizes|
    decreases |sizes|
  {
    if |sizes| == 0 then []
    else if |sizes| == 1 then [0]
    else
      var c := HuffCode(sizes[..|sizes| - 1]);
      c + [(c[|c| - 1] + 1) * Pow2(sizes[|sizes| - 1] - sizes[|sizes| - 2])]
  }

  /** Every code fits in its length (the table is not over-subscribed). */
  ghost predicate Fits(sizes: seq<nat>)
    requires Ascending(sizes)
  {
    forall i | 0 <= i < |sizes| :: HuffCode(sizes)[i] < Pow2(sizes[i])
  }

  /** The code of the `i`-th value as a path from the root. */
  function Code(sizes: seq<nat>, i: nat): Path
    requires Ascending(sizes) && i < |sizes|
  {
    LowBits(HuffCode(sizes)[i], sizes[i])
  }

  /** The least code of length `s` that the first `|sizes|` codes leave free:
      the next code of Figure C.2 for length `s`. */
  function Next(sizes: seq<nat>, s: nat): nat
    requires Ascending(sizes) && (|sizes| > 0 ==> s >= sizes[|sizes| - 1])
  {
    if |sizes| == 0 then 0
    else (HuffCode(sizes)[|sizes| - 1] + 1) * Pow2(s - sizes[|sizes| - 1])
  }

  /** The code ends of `t` are the codes of `sizes`. */
  ghost predicate EndsAreCodes(t: Trie, sizes: seq<nat>)
    requires Ascending(sizes)
  {
    forall q :: IsEnd(t, q) <==> exists i | 0 <= i < |sizes| :: q == Code(sizes, i)
  }

  /** The codes of a prefix of the lengths are a prefix of the codes. */
  lemma PrefixCodes(sizes: seq<nat>, i: nat)
    requires Ascending(sizes) && i < |sizes| - 1
    ensures Ascending(sizes[..|sizes| - 1])
    ensures HuffCode(sizes[..|sizes| - 1])[i] == HuffCode(sizes)[i]
    ensures Code(sizes[..|sizes| - 1], i) == Code(sizes, i)
  {
  }

  /** Dropping the last length keeps the lengths ascending and fitting. */
  lemma PrefixFits(sizes: seq<nat>)
    requires Ascending(sizes) && Fits(sizes) && |sizes| > 0
    ensures Ascending(sizes[..|sizes| - 1]) && Fits(sizes[..|sizes| - 1])
  {
    var sizes' := sizes[..|sizes| - 1];
    assert Ascending(sizes');
    forall i | 0 <= i < |sizes'| ensures HuffCode(sizes')[i] < Pow2(sizes'[i]) {
      PrefixCodes(sizes, i);
    }
  }

  //--------------------------------------------------------------------------
  // Arithmetic of Figure C.2
  //--------------------------------------------------------------------------

  /** `Next` for a prefix of the lengths is the next code shifted to length `s`. */
  lemma NextOfPrefix(sizes: seq<nat>, s: nat)
    requires Ascending(sizes) && |sizes| > 1 && s >= sizes[|sizes| - 1]
    ensures Ascending(sizes[..|sizes| - 1])
    ensures Next(sizes[..|sizes| - 1], s) == HuffCode(sizes)[|sizes| - 1] * Pow2(s - sizes[|sizes| - 1])
  {
    var n := |sizes|;
    var k := HuffCode(sizes[..n - 1])[n - 2] + 1;
    var a, p := Pow2(sizes[n - 1] - sizes[n - 2]), Pow2(s - sizes[n - 1]);
    Pow2Add(sizes[n - 1] - sizes[n - 2], s - sizes[n - 1]);
    assert Pow2(s - sizes[n - 2]) == a * p;
    assert HuffCode(sizes)[n - 1] == k * a;
    MulAssoc(k, a, p);
  }

  lemma MulSucc(c: nat, p: nat)
    ensures (c + 1) * p == c * p + p
  {
  }

  lemma MulAssoc(k: nat, a: nat, p: nat)
    ensures k * (a * p) == (k * a) * p
  {
  }

  /** The codes are packed (1/2): a number of `s` bits that starts with one of
      the codes lies below `Next(sizes, s)`. */
  lemma {:induction false} PackedBelow(sizes: seq<nat>, s: nat, x: nat, i: nat)
    requires Ascending(sizes) && i < |sizes| && s >= sizes[|sizes| - 1]
    requires x / Pow2(s - sizes[i]) == HuffCode(sizes)[i]
    ensures x < Next(sizes, s)
    decreases |sizes|
  {
    var n := |sizes|;
    var c := HuffCode(sizes);
    var p := Pow2(s - sizes[n - 1]);
    if i == n - 1 {
      DivRange(x, p, c[n - 1]);
    } else {
      PrefixCodes(sizes, i);
      assert sizes[..n - 1][i] == sizes[i];
      PackedBelow(sizes[..n - 1], s, x, i);
      NextOfPrefix(sizes, s);
      MulSucc(c[n - 1], p);
      assert Next(sizes, s) == c[n - 1] * p + p;
    }
  }

  /** The codes are packed (2/2): a number of `s` bits below `Next(sizes, s)`
      starts with one of the codes. */
  lemma {:induction false} PackedWitness(sizes: seq<nat>, s: nat, x: nat) returns (i: nat)
    requires Ascending(sizes) && |sizes| > 0 && s >= sizes[|sizes| - 1]
    requires x < Next(sizes, s)
    ensures i < |sizes| && x / Pow2(s - sizes[i]) == HuffCode(sizes)[i]
    decreases |sizes|
  {
    var n := |sizes|;
    var c := HuffCode(sizes);
    var p := Pow2(s - sizes[n - 1]);
    DivRange(x, p, c[n - 1]);
    if x / p == c[n - 1] {
      i := n - 1;
    } else {
      assert n > 1;
      NextOfPrefix(sizes, s);
      i := PackedWitness(sizes[..n - 1], s, x);
      PrefixCodes(sizes, i);
    }
  }

  /** Left-first order on paths of one length is numeric order. */
  lemma {:induction false} LexIsNumeric(p: Path, q: Path)
    requires |p| == |q| && LexLe(p, q) && p != q
    ensures FromBits(p) < FromBits(q)
    decreases |p|
  {
    var n := |p|;
    var p', q' := p[..n - 1], q[..n - 1];
    if p' == q' {
      assert p[n - 1] != q[n - 1];
    } else {
      forall i | 0 <= i < n - 1 && p'[..i] == q'[..i] && p'[i] != q'[i] ensures p'[i] < q'[i] {
        assert p'[..i] == p[..i] && q'[..i] == q[..i];
      }
      LexIsNumeric(p', q');
    }
  }

  //--------------------------------------------------------------------------
  // The left-first tree holds the Annex C codes
  //--------------------------------------------------------------------------

  /** In a tree whose code ends are the codes of `sizes`, a path at least as
      long as all of them passes no code end exactly when its number is at
      least `Next`. */
  lemma FreeIffAbove(t: Trie, sizes: seq<nat>, q: Path)
    requires Ascending(sizes) && Fits(sizes) && EndsAreCodes(t, sizes)
    requires |sizes| > 0 ==> |q| >= sizes[|sizes| - 1]
    ensures Free(t, 0, q) <==> FromBits(q) >= Next(sizes, |q|)
  {
    if FromBits(q) < Next(sizes, |q|) {
      BelowIsNotFree(t, sizes, q);
    } else {
      AboveIsFree(t, sizes, q);
    }
  }

  /** A path whose number is below `Next` starts with a code. */
  lemma BelowIsNotFree(t: Trie, sizes: seq<nat>, q: Path)
    requires Ascending(sizes) && EndsAreCodes(t, sizes)
    requires |sizes| > 0 ==> |q| >= sizes[|sizes| - 1]
    requires FromBits(q) < Next(sizes, |q|)
    ensures !Free(t, 0, q)
  {
    if |sizes| > 0 {
      var i := PackedWitness(sizes, |q|, FromBits(q));
      StartsWithCode(sizes, q, i);
      assert IsEnd(t, q[..sizes[i]]);
    }
  }

  /** A path whose number is at least `Next` passes no code. */
  lemma AboveIsFree(t: Trie, sizes: seq<nat>, q: Path)
    requires Ascending(sizes) && Fits(sizes) && EndsAreCodes(t, sizes)
    requires |sizes| > 0 ==> |q| >= sizes[|sizes| - 1]
    requires FromBits(q) >= Next(sizes, |q|)
    ensures Free(t, 0, q)
  {
    forall j | 0 <= j <= |q| ensures !IsEnd(t, q[..j]) {
      if IsEnd(t, q[..j]) {
        var i :| 0 <= i < |sizes| && q[..j] == Code(sizes, i);
        PrefixIsNoCode(sizes, q, j, i);
      }
    }
  }

  /** The step of AboveIsFree: no prefix of a path whose number is at least
      `Next` is a code. */
  lemma PrefixIsNoCode(sizes: seq<nat>, q: Path, j: nat, i: nat)
    requires Ascending(sizes) && Fits(sizes) && i < |sizes| && j <= |q|
    requires |q| >= sizes[|sizes| - 1] && FromBits(q) >= Next(sizes, |q|)
    ensures q[..j] != Code(sizes, i)
  {
    if q[..j] == Code(sizes, i) {
      CodeOfPrefix(sizes, q, j, i);
      PackedBelow(sizes, |q|, FromBits(q), i);
    }
  }

  /** A path whose number starts with the `i`-th code has that code as prefix. */
  lemma StartsWithCode(sizes: seq<nat>, q: Path, i: nat)
    requires Ascending(sizes) && i < |sizes| && sizes[i] <= |q|
    requires FromBits(q) / Pow2(|q| - sizes[i]) == HuffCode(sizes)[i]
    ensures q[..sizes[i]] == Code(sizes, i)
  {
    FromBitsPrefix(q, sizes[i]);
    LowFromBits(q[..sizes[i]]);
  }

  /** A prefix of `q` that is the `i`-th code makes `q`'s number start with
      that code. */
  lemma CodeOfPrefix(sizes: seq<nat>, q: Path, j: nat, i: nat)
    requires Ascending(sizes) && Fits(sizes) && i < |sizes| && j <= |q|
    requires q[..j] == Code(sizes, i)
    ensures j == sizes[i] && FromBits(q) / Pow2(|q| - sizes[i]) == HuffCode(sizes)[i]
  {
    FromBitsLowFits(HuffCode(sizes)[i], sizes[i]);
    FromBitsPrefix(q, j);
  }

  /** The step of CanonicalCodes: with the codes of `sizes` in the tree, the
      next insertion places its value at the next Annex C code. */
  lemma NextInsertion(t: Trie, sizes: seq<nat>, s: nat, v: Byte)
    requires Ascending(sizes) && Ascending(sizes + [s]) && Fits(sizes + [s])
    requires IsTrie(t) && EndsAreCodes(t, sizes)
    ensures var r := AddAt(t, [], s, v);
      r.ok && r.code == Code(sizes + [s], |sizes|)
  {
    var all := sizes + [s];
    assert all[..|sizes|] == sizes;
    var r := AddAt(t, [], s, v);
    AddFacts(t, s, v);
    var c := HuffCode(all);
    PrefixFits(all);
    var w := Code(all, |sizes|);
    assert Next(sizes, s) == c[|sizes|];
    FromBitsLowFits(c[|sizes|], s);
    FreeIffAbove(t, sizes, w);
    assert w[..0] == [];
    assert w in FreePaths(t, [], s);
    assert r.ok;
    FreeIffAbove(t, sizes, r.code);
    assert LexLe(r.code, w);
    if r.code != w {
      LexIsNumeric(r.code, w);
    }
    LowFromBits(r.code);
  }

  /** When the next Figure C.2 code does not fit in its length `s`, no path
      of `s` steps is free: `AddElement` fails and the value is silently
      dropped, the tree unchanged. */
  lemma OverfullDrops(t: Trie, sizes: seq<nat>, s: nat, v: Byte)
    requires Ascending(sizes) && Ascending(sizes + [s]) && Fits(sizes)
    requires IsTrie(t) && EndsAreCodes(t, sizes)
    requires HuffCode(sizes + [s])[|sizes|] >= Pow2(s)
    ensures !AddAt(t, [], s, v).ok && Add(t, s, v) == t
  {
    var all := sizes + [s];
    assert all[..|sizes|] == sizes;
    assert Next(sizes, s) == HuffCode(all)[|sizes|];
    AddFacts(t, s, v);
    forall q | q in FreePaths(t, [], s) ensures false {
      FreeIffAbove(t, sizes, q);
    }
  }

  /** `t` holds the Annex C code table of `sizes` and `values`: every value
      sits at its code, as a code end, and there are no other code ends. */
  ghost predicate CanonicalTable(t: Trie, sizes: seq<nat>, values: seq<Byte>)
    requires Ascending(sizes) && |values| == |sizes|
  {
    && IsTrie(t)
    && EndsAreCodes(t, sizes)
    && forall i | 0 <= i < |sizes| :: Code(sizes, i) in t && t[Code(sizes, i)] == Label(values[i], true)
  }

  /** Inserting values with ascending lengths, as process_huffman_table does,
      reproduces Annex C when the codes fit. */
  lemma {:induction false} CanonicalCodes(sizes: seq<nat>, values: seq<Byte>)
    requires Ascending(sizes) && Fits(sizes) && |values| == |sizes|
    ensures CanonicalTable(InsertAll(EmptyTrie, sizes, values), sizes, values)
    decreases |sizes|
  {
    var n := |sizes|;
    if n == 0 {
      EmptyIsCanonical();
    } else {
      PrefixFits(sizes);
      CanonicalCodes(sizes[..n - 1], values[..n - 1]);
      CanonicalStep(InsertAll(EmptyTrie, sizes[..n - 1], values[..n - 1]), sizes, values);
    }
  }

  /** A fresh tree holds the empty table. */
  lemma EmptyIsCanonical()
    ensures CanonicalTable(EmptyTrie, [], [])
  {
    forall q ensures !IsEnd(EmptyTrie, q) {
    }
  }

  /** One step of CanonicalCodes: inserting the last value into the table of
      the others gives the table of all. */
  lemma CanonicalStep(t: Trie, sizes: seq<nat>, values: seq<Byte>)
    requires Ascending(sizes) && Fits(sizes) && |sizes| > 0 && |values| == |sizes|
    requires Ascending(sizes[..|sizes| - 1])
    requires CanonicalTable(t, sizes[..|sizes| - 1], values[..|sizes| - 1])
    ensures CanonicalTable(Add(t, sizes[|sizes| - 1], values[|sizes| - 1]), sizes, values)
  {
    var n := |sizes|;
    var sizes', values' := sizes[..n - 1], values[..n - 1];
    assert sizes == sizes' + [sizes[n - 1]];
    StepPlaces(t, sizes', sizes[n - 1], values[n - 1]);
    AddFacts(t, sizes[n - 1], values[n - 1]);
    StepBookkeeping(t, sizes, values);
  }

  /** What StepBookkeeping needs to know of the step's insertion. */
  lemma StepPlaces(t: Trie, sizes: seq<nat>, s: nat, v: Byte)
    requires Ascending(sizes) && Ascending(sizes + [s]) && Fits(sizes + [s])
    requires IsTrie(t) && EndsAreCodes(t, sizes)
    ensures var r := AddAt(t, [], s, v);
      && r.ok && r.code == Code(sizes + [s], |sizes|) && !IsEnd(t, r.code)
      && r.code in r.trie && r.trie[r.code] == Label(v, true)
      && (forall q | q in t && q != r.code :: q in r.trie && r.trie[q] == t[q])
      && (forall q :: IsEnd(r.trie, q) <==> IsEnd(t, q) || q == r.code)
  {
    NextInsertion(t, sizes, s, v);
    AddFacts(t, s, v);
    var r := AddAt(t, [], s, v);
    assert r.code[..|r.code|] == r.code;
  }

  /** The bookkeeping of CanonicalStep: code ends and labels. */
  lemma StepBookkeeping(t: Trie, sizes: seq<nat>, values: seq<Byte>)
    requires Ascending(sizes) && |sizes| > 0 && |values| == |sizes|
    requires var n := |sizes|;
      && Ascending(sizes[..n - 1])
      && EndsAreCodes(t, sizes[..n - 1])
      && (forall i | 0 <= i < n - 1 :: Code(sizes[..n - 1], i) in t && t[Code(sizes[..n - 1], i)] == Label(values[i], true))
    requires var r := AddAt(t, [], sizes[|sizes| - 1], values[|sizes| - 1]);
      && r.ok && r.code == Code(sizes, |sizes| - 1) && !IsEnd(t, r.code)
      && r.code in r.trie && r.trie[r.code] == Label(values[|sizes| - 1], true)
      && (forall q | q in t && q != r.code :: q in r.trie && r.trie[q] == t[q])
      && (forall q :: IsEnd(r.trie, q) <==> IsEnd(t, q) || q == r.code)
    ensures var t' := AddAt(t, [], sizes[|sizes| - 1], values[|sizes| - 1]).trie;
      && EndsAreCodes(t', sizes)
      && forall i | 0 <= i < |sizes| :: Code(sizes, i) in t' && t'[Code(sizes, i)] == Label(values[i], true)
  {
    var n := |sizes|;
    var r := AddAt(t, [], sizes[n - 1], values[n - 1]);
    forall i | 0 <= i < n - 1 ensures Code(sizes[..n - 1], i) == Code(sizes, i) {
      PrefixCodes(sizes, i);
    }
    forall q ensures IsEnd(r.trie, q) <==> exists i | 0 <= i < n :: q == Code(sizes, i) {
      if q == r.code {
        assert q == Code(sizes, n - 1);
      } else if IsEnd(t, q) {
        var i :| 0 <= i < n - 1 && q == Code(sizes[..n - 1], i);
        assert q == Code(sizes, i);
      } else {
        forall i | 0 <= i < n ensures q != Code(sizes, i) {
          if i < n - 1 {
            assert Code(sizes[..n - 1], i) == Code(sizes, i);
          }
        }
      }
    }
    forall i | 0 <= i < n ensures Code(sizes, i) in r.trie && r.trie[Code(sizes, i)] == Label(values[i], true) {
      if i < n - 1 {
        var q := Code(sizes, i);
        assert q == Code(sizes[..n - 1], i);
        assert IsEnd(t, q);
      }
    }
  }

  //--------------------------------------------------------------------------
  // The codes are prefix-free
  //--------------------------------------------------------------------------

  /** The recurrence of Figure C.2 holds at every position. */
  lemma {:induction false} CodeRecurrence(sizes: seq<nat>, k: nat)
    requires Ascending(sizes) && 0 < k < |sizes|
    ensures HuffCode(sizes)[k] == (HuffCode(sizes)[k - 1] + 1) * Pow2(sizes[k] - sizes[k - 1])
    decreases |sizes|
  {
    var n := |sizes|;
    var p := sizes[..n - 1];
    assert Ascending(p);
    var c, d := HuffCode(sizes), HuffCode(p);
    if k < n - 1 {
      PrefixCodes(sizes, k);
      PrefixCodes(sizes, k - 1);
      CodeRecurrence(p, k);
      assert p[k] == sizes[k] && p[k - 1] == sizes[k - 1];
    } else {
      assert c == d + [(d[n - 2] + 1) * Pow2(sizes[n - 1] - sizes[n - 2])];
      assert c[k - 1] == d[n - 2];
    }
  }

  /** A later code is at least one past an earlier one, shifted to its length. */
  lemma {:induction false} CodesGrow(sizes: seq<nat>, i: nat, k: nat)
    requires Ascending(sizes) && i < k < |sizes|
    ensures HuffCode(sizes)[k] >= (HuffCode(sizes)[i] + 1) * Pow2(sizes[k] - sizes[i])
    decreases k - i
  {
    var c := HuffCode(sizes);
    CodeRecurrence(sizes, k);
    if k > i + 1 {
      CodesGrow(sizes, i, k - 1);
      var a, b := Pow2(sizes[k - 1] - sizes[i]), Pow2(sizes[k] - sizes[k - 1]);
      Pow2Add(sizes[k - 1] - sizes[i], sizes[k] - sizes[k - 1]);
      assert Pow2(sizes[k] - sizes[i]) == a * b;
      ScaleAtLeast(c[k - 1] + 1, (c[i] + 1) * a, b);
      MulAssoc(c[i] + 1, a, b);
    }
  }

  lemma ScaleAtLeast(x: nat, y: nat, b: nat)
    requires x >= y
    ensures x * b >= y * b
  {
  }

  lemma QuotientAtLeast(x: nat, d: nat, m: nat)
    requires d > 0 && x >= m * d
    ensures x / d >= m
  {
    if x / d < m {
      DivRange(x, d, x / d);
      ScaleAtLeast(m, x / d + 1, d);
    }
  }

  /** No code is a prefix of another: the first `sizes[i]` bits of any other
      code of at least that length differ from code `i`. */
  lemma PrefixFree(sizes: seq<nat>, i: nat, k: nat)
    requires Ascending(sizes) && Fits(sizes) && i < |sizes| && k < |sizes| && i != k
    requires sizes[i] <= sizes[k]
    ensures Code(sizes, k)[..sizes[i]] != Code(sizes, i)
  {
    var c := HuffCode(sizes);
    if Code(sizes, k)[..sizes[i]] == Code(sizes, i) {
      CodeOfPrefix(sizes, Code(sizes, k), sizes[i], i);
      FromBitsLowFits(c[k], sizes[k]);
      if i < k {
        CodesGrow(sizes, i, k);
        QuotientAtLeast(c[k], Pow2(sizes[k] - sizes[i]), c[i] + 1);
      } else {
        CodesGrow(sizes, k, i);
      }
    }
  }

  //--------------------------------------------------------------------------
  // The table of the constructor's commented-out scaffold
  //--------------------------------------------------------------------------

  /** The (length, value) pairs the scaffold of Jpeg.h:999-1006 inserts. */
  const ScaffoldSizes: seq<nat> := [1, 3, 3, 4, 4, 4, 5]
  const ScaffoldValues: seq<Byte> := [1, 0, 12, 2, 11, 31, 21]

  /** The first code of Figure C.2 is 0. */
  lemma {:induction false} FirstCode(sizes: seq<nat>)
    requires Ascending(sizes) && |sizes| > 0
    ensures HuffCode(sizes)[0] == 0
    decreases |sizes|
  {
    if |sizes| > 1 {
      PrefixCodes(sizes, 0);
      FirstCode(sizes[..|sizes| - 1]);
    }
  }

  /** The scaffold's Figure C.2 codes as numbers: 0, 4, 5, 12, 13, 14, 30. */
  lemma ScaffoldNumbers()
    ensures Ascending(ScaffoldSizes)
    ensures var c := HuffCode(ScaffoldSizes);
      c[0] == 0 && c[1] == 4 && c[2] == 5 && c[3] == 12 && c[4] == 13 && c[5] == 14 && c[6] == 30
  {
    var s := ScaffoldSizes;
    assert Ascending(s);
    FirstCode(s);
    CodeRecurrence(s, 1);
    CodeRecurrence(s, 2);
    CodeRecurrence(s, 3);
    CodeRecurrence(s, 4);
    CodeRecurrence(s, 5);
    CodeRecurrence(s, 6);
  }

  /** The three-bit code of a number below 8, most significant first. */
  lemma ThreeBits(x: nat)
    requires x < 8
    ensures LowBits(x, 3) == [x / 4, x / 2 % 2, x % 2]
  {
    assert Pow2(0) == 1 && Pow2(1) == 2 && Pow2(2) == 4;
    var d := LowBits(x, 3);
    assert d[0] == x / 4 && d[1] == x / 2 % 2 && d[2] == x % 2;
  }

  /** The four-bit code of a number below 16, most significant first. */
  lemma FourBits(x: nat)
    requires x < 16
    ensures LowBits(x, 4) == [x / 8, x / 4 % 2, x / 2 % 2, x % 2]
  {
    assert Pow2(0) == 1 && Pow2(1) == 2 && Pow2(2) == 4 && Pow2(3) == 8;
    var d := LowBits(x, 4);
    assert d[0] == x / 8 && d[1] == x / 4 % 2 && d[2] == x / 2 % 2 && d[3] == x % 2;
  }

  /** The bits of the scaffold's code number 30, most significant first. */
  lemma FiveBits()
    ensures LowBits(30, 5) == [1, 1, 1, 1, 0]
  {
    assert Pow2(0) == 1 && Pow2(1) == 2 && Pow2(2) == 4 && Pow2(3) == 8 && Pow2(4) == 16;
    var g := LowBits(30, 5);
    assert g[0] == 1 && g[1] == 1 && g[2] == 1 && g[3] == 1 && g[4] == 0;
  }

  /** The scaffold's lengths are ascending and their codes fit. */
  lemma ScaffoldFits()
    ensures Ascending(ScaffoldSizes) && Fits(ScaffoldSizes)
  {
    var s := ScaffoldSizes;
    ScaffoldNumbers();
    forall i | 0 <= i < |s| ensures HuffCode(s)[i] < Pow2(s[i]) {
      if i == 0 {} else if i == 1 {} else if i == 2 {} else if i == 3 {} else if i == 4 {} else if i == 5 {} else {}
    }
  }

  /** The scaffold's codes are 0, 100, 101, 1100, 1101, 1110 and 11110. */
  lemma ScaffoldCodes()
    ensures Ascending(ScaffoldSizes)
    ensures Code(ScaffoldSizes, 0) == [0]
    ensures Code(ScaffoldSizes, 1) == [1, 0, 0] && Code(ScaffoldSizes, 2) == [1, 0, 1]
    ensures Code(ScaffoldSizes, 3) == [1, 1, 0, 0] && Code(ScaffoldSizes, 4) == [1, 1, 0, 1]
    ensures Code(ScaffoldSizes, 5) == [1, 1, 1, 0] && Code(ScaffoldSizes, 6) == [1, 1, 1, 1, 0]
  {
    ScaffoldNumbers();
    assert LowBits(0, 1)[0] == 0;
    ThreeBits(4); ThreeBits(5); FourBits(12); FourBits(13); FourBits(14); FiveBits();
  }

  /** A path that is none of the codes is no code end of the table. */
  lemma NoCodeNoEnd(t: Trie, sizes: seq<nat>, q: Path)
    requires Ascending(sizes) && EndsAreCodes(t, sizes)
    requires forall i | 0 <= i < |sizes| :: Code(sizes, i) != q
    ensures !IsEnd(t, q)
  {
  }

  /** With the left-first insertion, the walk 1, 1, 1, 0 of the scaffold
      passes three inner nodes and ends on a code end holding 31. */
  lemma ScaffoldTree()
    ensures var t := InsertAll(EmptyTrie, ScaffoldSizes, ScaffoldValues);
      && [1] in t && !t[[1]].codeEnd
      && [1, 1] in t && !t[[1, 1]].codeEnd
      && [1, 1, 1] in t && !t[[1, 1, 1]].codeEnd
      && [1, 1, 1, 0] in t && t[[1, 1, 1, 0]] == Label(31, true)
  {
    var s := ScaffoldSizes;
    var t := InsertAll(EmptyTrie, s, ScaffoldValues);
    ScaffoldFits();
    ScaffoldCodes();
    CanonicalCodes(s, ScaffoldValues);
    assert Code(s, 5) in t;
    assert [1, 1, 1] + [0] == [1, 1, 1, 0];
    assert [1, 1] + [1] == [1, 1, 1];
    assert [1] + [1] == [1, 1];
    forall i | 0 <= i < |s|
      ensures Code(s, i) != [1] && Code(s, i) != [1, 1] && Code(s, i) != [1, 1, 1]
    {
      if i == 0 {} else if i == 1 {} else if i == 2 {} else if i == 3 {} else if i == 4 {} else if i == 5 {} else {}
    }
    NoCodeNoEnd(t, s, [1]);
    NoCodeNoEnd(t, s, [1, 1]);
    NoCodeNoEnd(t, s, [1, 1, 1]);
  }
}
