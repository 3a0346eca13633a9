/**
 Splitting a sequence at a separator with the semantics of Rust's
 `str::split`: every occurrence of the separator ends one piece and starts
 the next, so n separators give n + 1 pieces, and pieces may be empty
 (a leading or trailing separator, or two separators in a row).

 The proofs below unfold `Split` only through `SplitWhole` and `SplitAt`.
 */
module Labels {

  /** Position of the first `sep` in `s`, or `|s|` when `s` holds none. */
  function IndexOf<T(==)>(s: seq<T>, sep: T): (k: nat)
    ensures k <= |s|
    ensures k < |s| ==> s[k] == sep
    ensures forall i :: 0 <= i < k ==> s[i] != sep
  {
    if |s| == 0 then 0
    else if s[0] == sep then 0
    else 1 + IndexOf(s[1..], sep)
  }

  /** The pieces joined back together with one `sep` between neighbours. */
  function Join<T>(pieces: seq<seq<T>>, sep: T): (joined: seq<T>)
  {
    if |pieces| == 0 then []
    else if |pieces| == 1 then pieces[0]
    else pieces[0] + [sep] + Join(pieces[1..], sep)
  }

  /** The pieces of `s` between consecutive occurrences of `sep`. */
  function Split<T(==)>(s: seq<T>, sep: T): (pieces: seq<seq<T>>)
    ensures |pieces| > 0
    decreases |s|
  {
    var k := IndexOf(s, sep);
    if k == |s| then [s]
    else [s[..k]] + Split(s[k+1..], sep)
  }

  /** The last piece of a split. */
  function Last<T>(pieces: seq<seq<T>>): (piece: seq<T>)
    requires |pieces| > 0
  {
    pieces[|pieces| - 1]
  }

  // ---------------------------------------------------------------------
  // Unfolding steps and slice facts.

  /** Without a separator, `s` is one piece. */
  lemma SplitWhole<T>(s: seq<T>, sep: T)
    requires IndexOf(s, sep) == |s|
    ensures Split(s, sep) == [s]
  {
  }

  /** With its first separator at `k`, `s` splits into `s[..k]` and the pieces of the rest. */
  lemma SplitAt<T>(s: seq<T>, sep: T, k: nat)
    requires k == IndexOf(s, sep) < |s|
    ensures Split(s, sep) == [s[..k]] + Split(s[k+1..], sep)
  {
  }

  /** `s` is its part before position `k`, the element at `k`, and the rest. */
  lemma Around<T>(s: seq<T>, k: nat)
    requires k < |s|
    ensures s == s[..k] + [s[k]] + s[k+1..]
  {
  }

  /** Cutting `a + [y] + b` before and after a position inside `a`. */
  lemma SlicesAround<T>(a: seq<T>, y: T, b: seq<T>, k: nat)
    requires k < |a|
    ensures (a + [y] + b)[..k] == a[..k]
    ensures (a + [y] + b)[k+1..] == a[k+1..] + [y] + b
  {
  }

  /** Cutting `a + [y] + b` around the `y`. */
  lemma SlicesAt<T>(a: seq<T>, y: T, b: seq<T>)
    ensures (a + [y] + b)[..|a|] == a
    ensures (a + [y] + b)[|a|+1..] == b
  {
  }

  /** Cutting `s + [x]` before and after a position inside `s`. */
  lemma SlicesAfter<T>(s: seq<T>, x: T, k: nat)
    requires k < |s|
    ensures (s + [x])[..k] == s[..k]
    ensures (s + [x])[k+1..] == s[k+1..] + [x]
  {
  }

  /** The first separator of `a + c` is the first one of `a` when `a` holds one. */
  lemma IndexOfAppend<T>(a: seq<T>, c: seq<T>, sep: T)
    ensures IndexOf(a, sep) < |a| ==> IndexOf(a + c, sep) == IndexOf(a, sep)
    ensures IndexOf(a, sep) == |a| ==> IndexOf(a + c, sep) == |a| + IndexOf(c, sep)
  {
    var k, j := IndexOf(a, sep), IndexOf(c, sep);
    if k < |a| {
      assert (a + c)[k] == sep;
      assert forall i :: 0 <= i < k ==> (a + c)[i] == a[i];
    } else {
      assert forall i :: 0 <= i < |a| ==> (a + c)[i] == a[i];
      assert forall i :: 0 <= i < j ==> (a + c)[|a| + i] == c[i];
      if j < |c| {
        assert (a + c)[|a| + j] == sep;
      }
    }
  }

  /** Where the first separator of `a + [sep] + b` lies. */
  lemma IndexOfAround<T>(a: seq<T>, b: seq<T>, sep: T)
    ensures IndexOf(a + [sep] + b, sep) == IndexOf(a, sep)
  {
    IndexOfAppend(a, [sep] + b, sep);
    assert a + [sep] + b == a + ([sep] + b);
  }

  /** Prepending one element and appending a sequence commute. */
  lemma ConsAppend<T>(x: T, p: seq<T>, q: seq<T>)
    ensures [x] + (p + q) == ([x] + p) + q
  {
  }

  // ---------------------------------------------------------------------
  // What a split is: its size, its pieces, its inverse.

  /** There is one more piece than there are separators. */
  lemma {:induction false} SplitCount<T>(s: seq<T>, sep: T)
    ensures |Split(s, sep)| == multiset(s)[sep] + 1
    decreases |s|
  {
    var k := IndexOf(s, sep);
    if k == |s| {
      SplitWhole(s, sep);
      assert sep !in s;
    } else {
      SplitAt(s, sep, k);
      SplitCount(s[k+1..], sep);
      Around(s, k);
      assert sep !in s[..k];
      assert multiset(s) == multiset(s[..k]) + multiset{sep} + multiset(s[k+1..]);
    }
  }

  /** No piece contains the separator. */
  lemma {:induction false} SplitPiecesFree<T>(s: seq<T>, sep: T)
    ensures forall i :: 0 <= i < |Split(s, sep)| ==> sep !in Split(s, sep)[i]
    decreases |s|
  {
    var k := IndexOf(s, sep);
    if k == |s| {
      SplitWhole(s, sep);
    } else {
      SplitAt(s, sep, k);
      SplitPiecesFree(s[k+1..], sep);
      assert sep !in s[..k];
    }
  }

  /** Joining the pieces with the separator gives back the input. */
  lemma {:induction false} JoinSplit<T>(s: seq<T>, sep: T)
    ensures Join(Split(s, sep), sep) == s
    decreases |s|
  {
    var k := IndexOf(s, sep);
    if k == |s| {
      SplitWhole(s, sep);
    } else {
      var rest := Split(s[k+1..], sep);
      SplitAt(s, sep, k);
      JoinSplit(s[k+1..], sep);
      Around(s, k);
      assert ([s[..k]] + rest)[1..] == rest;
    }
  }

  /** A separator after a separator-free `a` ends the single piece `a`. */
  lemma SplitAfterFirst<T>(a: seq<T>, b: seq<T>, sep: T)
    requires IndexOf(a, sep) == |a|
    ensures Split(a + [sep] + b, sep) == [a] + Split(b, sep)
  {
    IndexOfAround(a, b, sep);
    SplitAt(a + [sep] + b, sep, |a|);
    SlicesAt(a, sep, b);
  }

  /** One step of `Split` on `a + [sep] + b` when `a` holds a separator. */
  lemma SplitAroundStep<T>(a: seq<T>, b: seq<T>, sep: T, k: nat)
    requires k == IndexOf(a, sep) < |a|
    ensures Split(a + [sep] + b, sep) == [a[..k]] + Split(a[k+1..] + [sep] + b, sep)
  {
    IndexOfAround(a, b, sep);
    SplitAt(a + [sep] + b, sep, k);
    SlicesAround(a, sep, b, k);
  }

  /** Splitting at a separator occurrence splits both sides independently. */
  lemma {:induction false} SplitConcat<T>(a: seq<T>, b: seq<T>, sep: T)
    ensures Split(a + [sep] + b, sep) == Split(a, sep) + Split(b, sep)
    decreases |a|
  {
    var k := IndexOf(a, sep);
    if k == |a| {
      SplitWhole(a, sep);
      SplitAfterFirst(a, b, sep);
    } else {
      SplitAt(a, sep, k);
      SplitAroundStep(a, b, sep, k);
      SplitConcat(a[k+1..], b, sep);
      ConsAppend(a[..k], Split(a[k+1..], sep), Split(b, sep));
    }
  }

  /** Appending a separator adds one empty piece at the end. */
  lemma SplitAppendSep<T>(s: seq<T>, sep: T)
    ensures Split(s + [sep], sep) == Split(s, sep) + [[]]
  {
    SplitConcat(s, [], sep);
    SplitWhole([], sep);
    assert s + [sep] + [] == s + [sep];
  }

  /** Two separators in a row produce one empty piece between their neighbours. */
  lemma SplitDoubledSep<T>(a: seq<T>, b: seq<T>, sep: T)
    ensures Split(a + [sep, sep] + b, sep) == Split(a, sep) + [[]] + Split(b, sep)
  {
    assert a + [sep, sep] + b == (a + [sep]) + [sep] + b;
    SplitConcat(a + [sep], b, sep);
    SplitAppendSep(a, sep);
  }

  /** `q` is `p` with `x` appended to its last piece. */
  predicate ExtendsLast<T(==)>(p: seq<seq<T>>, q: seq<seq<T>>, x: T) {
    |q| == |p| > 0 && q[..|q| - 1] == p[..|p| - 1] && Last(q) == Last(p) + [x]
  }

  lemma ExtendsLastCons<T>(h: seq<T>, p: seq<seq<T>>, q: seq<seq<T>>, x: T)
    requires ExtendsLast(p, q, x)
    ensures ExtendsLast([h] + p, [h] + q, x)
  {
    assert ([h] + q)[..|q|] == [h] + q[..|q| - 1];
    assert ([h] + p)[..|p|] == [h] + p[..|p| - 1];
  }

  /** A non-separator appended to a separator-free `s` joins its one piece. */
  lemma SnocWithoutSep<T>(s: seq<T>, x: T, sep: T)
    requires IndexOf(s, sep) == |s| && x != sep
    ensures Split(s, sep) == [s] && Split(s + [x], sep) == [s + [x]]
  {
    IndexOfAppend(s, [x], sep);
    assert IndexOf([x], sep) == 1;
    SplitWhole(s, sep);
    SplitWhole(s + [x], sep);
  }

  /** A non-separator appended after the first separator of `s` stays in the rest. */
  lemma SnocAfterSep<T>(s: seq<T>, x: T, sep: T, k: nat)
    requires k == IndexOf(s, sep) < |s|
    ensures Split(s + [x], sep) == [s[..k]] + Split(s[k+1..] + [x], sep)
  {
    IndexOfAppend(s, [x], sep);
    SplitAt(s + [x], sep, k);
    SlicesAfter(s, x, k);
  }

  /** Appending a non-separator extends the last piece and nothing else. */
  lemma {:induction false} SplitSnoc<T>(s: seq<T>, x: T, sep: T)
    requires x != sep
    ensures ExtendsLast(Split(s, sep), Split(s + [x], sep), x)
    decreases |s|
  {
    var k := IndexOf(s, sep);
    if k == |s| {
      SnocWithoutSep(s, x, sep);
    } else {
      SplitAt(s, sep, k);
      SnocAfterSep(s, x, sep, k);
      SplitSnoc(s[k+1..], x, sep);
      ExtendsLastCons(s[..k], Split(s[k+1..], sep), Split(s[k+1..] + [x], sep), x);
    }
  }

  /** Splitting a joined list of separator-free pieces gives the pieces back. */
  lemma {:induction false} SplitJoin<T>(pieces: seq<seq<T>>, sep: T)
    requires |pieces| > 0
    requires forall i :: 0 <= i < |pieces| ==> sep !in pieces[i]
    ensures Split(Join(pieces, sep), sep) == pieces
    decreases |pieces|
  {
    var p := pieces[0];
    assert IndexOf(p, sep) == |p| by {
      assert forall i :: 0 <= i < |p| ==> p[i] in p;
    }
    SplitWhole(p, sep);
    if |pieces| > 1 {
      SplitJoin(pieces[1..], sep);
      SplitConcat(p, Join(pieces[1..], sep), sep);
      assert pieces == [p] + pieces[1..];
    }
  }
}
