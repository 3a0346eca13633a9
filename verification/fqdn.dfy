/**
 The fully-qualified-domain-name validator: a name is accepted when it is
 ASCII, between 1 and 252 bytes long, and every label (piece between dots,
 empty pieces included) is at most 61 bytes long.
 */
module Fqdn {
  import opened Bytes
  import opened Labels

  /** The label separator, ASCII `.`. */
  const Dot: byte := 0x2E

  /** Exclusive upper bound on the byte length of a whole name. */
  const NameLimit: nat := 253

  /** Exclusive upper bound on the byte length of one label. */
  const LabelLimit: nat := 62

  /** Every label is shorter than `LabelLimit` (the closure given to `Iterator::all`). */
  predicate AllLabelsShort(labels: seq<seq<byte>>) {
    forall i :: 0 <= i < |labels| ==> |labels[i]| < LabelLimit
  }

  /** `is_valid_fqdn` as written: the ASCII test, then the length window,
      then the length of every label of the split at `.`. */
  predicate IsValidFqdn(s: seq<byte>) {
    if !IsAscii(s) then false
    else if 0 < |s| && |s| < NameLimit then AllLabelsShort(Split(s, Dot))
    else false
  }

  // An independent statement of the same rule, in terms of positions
  // instead of a split: no `LabelLimit` consecutive bytes are free of dots.

  /** Some byte of the window of `LabelLimit` bytes starting at `i` is a dot. */
  predicate DotInWindow(s: seq<byte>, i: int) {
    exists k :: 0 <= i <= k < i + LabelLimit && k < |s| && s[k] == Dot
  }

  /** Every window of `LabelLimit` bytes inside `s` holds a dot. */
  predicate NoLongRun(s: seq<byte>) {
    forall i :: 0 <= i && i + LabelLimit <= |s| ==> DotInWindow(s, i)
  }

  /** The acceptance rule stated without splitting. */
  predicate ValidFqdn(s: seq<byte>) {
    IsAscii(s) && 0 < |s| < NameLimit && NoLongRun(s)
  }

  /** The labels are all short iff the first one is and the others are. */
  lemma AllLabelsShortCons(x: seq<byte>, rest: seq<seq<byte>>)
    ensures AllLabelsShort([x] + rest) <==> |x| < LabelLimit && AllLabelsShort(rest)
  {
    var labels := [x] + rest;
    assert labels[0] == x;
    assert forall i :: 0 <= i < |rest| ==> labels[i + 1] == rest[i];
    assert forall i :: 1 <= i < |labels| ==> labels[i] == rest[i - 1];
  }

  /** A dot among the first `LabelLimit` bytes puts the first dot there. */
  lemma DotInFirstWindow(s: seq<byte>)
    requires DotInWindow(s, 0)
    ensures IndexOf(s, Dot) < LabelLimit
  {
    var m :| 0 <= m < LabelLimit && m < |s| && s[m] == Dot;
    assert IndexOf(s, Dot) <= m;
  }

  /** A name whose first dot is at `k` has no long run iff its first label
      is short and the rest after that dot has no long run. */
  lemma NoLongRunStep(s: seq<byte>, k: nat)
    requires k == IndexOf(s, Dot) < |s|
    ensures NoLongRun(s) <==> k < LabelLimit && NoLongRun(s[k+1..])
  {
    var t := s[k+1..];
    if NoLongRun(s) {
      if LabelLimit <= |s| {
        DotInFirstWindow(s);
      }
      forall i | 0 <= i && i + LabelLimit <= |t|
        ensures DotInWindow(t, i)
      {
        assert DotInWindow(s, i + k + 1);
        var m :| i + k + 1 <= m < i + k + 1 + LabelLimit && m < |s| && s[m] == Dot;
        assert t[m - k - 1] == Dot;
      }
    }
    if k < LabelLimit && NoLongRun(t) {
      forall i | 0 <= i && i + LabelLimit <= |s|
        ensures DotInWindow(s, i)
      {
        if i > k {
          assert DotInWindow(t, i - k - 1);
          var m :| i - k - 1 <= m < i - k - 1 + LabelLimit && m < |t| && t[m] == Dot;
          assert s[m + k + 1] == Dot;
        }
      }
    }
  }

  /** A name without any dot has no long run iff it is shorter than the limit. */
  lemma NoLongRunWithoutDot(s: seq<byte>)
    requires IndexOf(s, Dot) == |s|
    ensures NoLongRun(s) <==> |s| < LabelLimit
  {
    assert !DotInWindow(s, 0);
  }

  /** The labels of the split are all short exactly when no window of
      `LabelLimit` bytes is free of dots. */
  lemma {:induction false} LabelsShortIffNoLongRun(s: seq<byte>)
    ensures AllLabelsShort(Split(s, Dot)) <==> NoLongRun(s)
    decreases |s|
  {
    var k := IndexOf(s, Dot);
    if k == |s| {
      SplitWhole(s, Dot);
      NoLongRunWithoutDot(s);
      AllLabelsShortCons(s, []);
      assert [s] + [] == [s];
    } else {
      SplitAt(s, Dot, k);
      LabelsShortIffNoLongRun(s[k+1..]);
      AllLabelsShortCons(s[..k], Split(s[k+1..], Dot));
      NoLongRunStep(s, k);
    }
  }

  /** Full characterisation of the validator. */
  lemma IsValidFqdnMeetsSpec(s: seq<byte>)
    ensures IsValidFqdn(s) <==> ValidFqdn(s)
  {
    LabelsShortIffNoLongRun(s);
  }

  /** Appending one byte never shortens a label. */
  lemma LongLabelPersistsStep(p: seq<byte>, x: byte)
    requires !AllLabelsShort(Split(p, Dot))
    ensures !AllLabelsShort(Split(p + [x], Dot))
  {
    var labels, labels' := Split(p, Dot), Split(p + [x], Dot);
    var j :| 0 <= j < |labels| && |labels[j]| >= LabelLimit;
    if x == Dot {
      SplitAppendSep(p, Dot);
      assert labels'[j] == labels[j];
    } else {
      SplitSnoc(p, x, Dot);
      if j < |labels| - 1 {
        assert labels'[j] == labels'[..|labels'| - 1][j];
        assert labels[j] == labels[..|labels| - 1][j];
      } else {
        assert |Last(labels')| == |labels[j]| + 1;
      }
    }
  }

  /** Whatever is appended, a label that is already too long stays in the split:
      the pieces before the last one are kept and the last one only grows. */
  lemma {:induction false} LongLabelPersists(p: seq<byte>, q: seq<byte>)
    requires !AllLabelsShort(Split(p, Dot))
    ensures !AllLabelsShort(Split(p + q, Dot))
    decreases |q|
  {
    if |q| > 0 {
      LongLabelPersistsStep(p, q[0]);
      LongLabelPersists(p + [q[0]], q[1..]);
      assert p + [q[0]] + q[1..] == p + q;
    } else {
      assert p + q == p;
    }
  }

  /** Extending the last label keeps the labels short while it stays short. */
  lemma AllLabelsShortExtend(labels: seq<seq<byte>>, labels': seq<seq<byte>>, x: byte)
    requires ExtendsLast(labels, labels', x)
    requires AllLabelsShort(labels) && |Last(labels')| < LabelLimit
    ensures AllLabelsShort(labels')
  {
    forall i | 0 <= i < |labels'| - 1
      ensures |labels'[i]| < LabelLimit
    {
      assert labels'[i] == labels'[..|labels'| - 1][i];
      assert labels[i] == labels[..|labels| - 1][i];
    }
  }

  /** What one more byte does to the labels of a prefix: a dot starts a new,
      empty label; any other byte lengthens the last label by one. */
  lemma ScanStep(p: seq<byte>, b: byte)
    ensures b == Dot ==>
      |Last(Split(p + [b], Dot))| == 0 &&
      (AllLabelsShort(Split(p + [b], Dot)) <==> AllLabelsShort(Split(p, Dot)))
    ensures b != Dot ==>
      |Last(Split(p + [b], Dot))| == |Last(Split(p, Dot))| + 1 &&
      (AllLabelsShort(Split(p, Dot)) && |Last(Split(p, Dot))| + 1 < LabelLimit ==>
        AllLabelsShort(Split(p + [b], Dot)))
  {
    if b == Dot {
      SplitAppendSep(p, Dot);
      AllLabelsShortAppendEmpty(Split(p, Dot));
    } else {
      SplitSnoc(p, b, Dot);
      if AllLabelsShort(Split(p, Dot)) && |Last(Split(p, Dot))| + 1 < LabelLimit {
        AllLabelsShortExtend(Split(p, Dot), Split(p + [b], Dot), b);
      }
    }
  }

  /** A label of `LabelLimit` bytes at the end of a prefix rejects the name. */
  lemma RejectedAfterLongLabel(s: seq<byte>, i: nat)
    requires i <= |s| && |Last(Split(s[..i], Dot))| >= LabelLimit
    ensures !IsValidFqdn(s)
  {
    LongLabelPersists(s[..i], s[i..]);
    assert s[..i] + s[i..] == s;
  }

  /** A single pass over the bytes that keeps the length of the current label,
      stopping at the first non-ASCII byte or the first label to reach
      `LabelLimit` bytes; it decides exactly what `IsValidFqdn` decides. */
  method CheckFqdn(s: seq<byte>) returns (valid: bool)
    ensures valid == IsValidFqdn(s)
    ensures valid <==> ValidFqdn(s)
  {
    IsValidFqdnMeetsSpec(s);
    if |s| == 0 || |s| >= NameLimit {
      return false;
    }
    var i, current := 0, 0;
    while i < |s|
      invariant 0 <= i <= |s|
      invariant IsAscii(s[..i])
      invariant AllLabelsShort(Split(s[..i], Dot))
      invariant current == |Last(Split(s[..i], Dot))|
    {
      var b := s[i];
      if b >= 0x80 {
        return false;
      }
      assert s[..i+1] == s[..i] + [b];
      IsAsciiConcat(s[..i], [b]);
      ScanStep(s[..i], b);
      if b == Dot {
        current := 0;
      } else {
        current := current + 1;
        if current >= LabelLimit {
          RejectedAfterLongLabel(s, i + 1);
          return false;
        }
      }
      i := i + 1;
    }
    assert s[..i] == s;
    return true;
  }

  /** A byte of 0x80 or above anywhere rejects the name, whatever its length. */
  lemma NonAsciiRejected(s: seq<byte>, i: nat)
    requires i < |s| && s[i] >= 0x80
    ensures !IsValidFqdn(s)
  {
  }

  /** The empty name is rejected. */
  lemma EmptyRejected()
    ensures !IsValidFqdn([])
  {
  }

  /** A name of `NameLimit` bytes or more is rejected. */
  lemma TooLongRejected(s: seq<byte>)
    requires |s| >= NameLimit
    ensures !IsValidFqdn(s)
  {
  }

  /** A name with `LabelLimit` consecutive bytes none of which is a dot is
      rejected: they all belong to one label. */
  lemma LongLabelRejected(s: seq<byte>, i: nat)
    requires i + LabelLimit <= |s|
    requires forall k :: i <= k < i + LabelLimit ==> s[k] != Dot
    ensures !IsValidFqdn(s)
  {
    IsValidFqdnMeetsSpec(s);
    assert !DotInWindow(s, i);
  }

  /** A name shorter than `LabelLimit` never has a long label. */
  lemma ShortNameHasShortLabels(s: seq<byte>)
    requires |s| < LabelLimit
    ensures AllLabelsShort(Split(s, Dot))
  {
    LabelsShortIffNoLongRun(s);
  }

  /** A trailing dot (an absolute name) changes nothing but the length. */
  lemma TrailingDotHarmless(s: seq<byte>)
    requires 0 < |s| && |s| + 1 < NameLimit
    ensures IsValidFqdn(s + [Dot]) <==> IsValidFqdn(s)
  {
    SplitAppendSep(s, Dot);
    AllLabelsShortAppendEmpty(Split(s, Dot));
    IsAsciiConcat(s, [Dot]);
  }

  /** A leading dot only adds an empty first label, which changes nothing. */
  lemma LeadingDotHarmless(s: seq<byte>)
    requires 0 < |s| && |s| + 1 < NameLimit
    ensures IsValidFqdn([Dot] + s) <==> IsValidFqdn(s)
  {
    SplitConcat([], s, Dot);
    SplitWhole([], Dot);
    assert [] + [Dot] + s == [Dot] + s;
    AllLabelsShortCons([], Split(s, Dot));
    IsAsciiConcat([Dot], s);
  }

  /** Doubling a dot only adds an empty label, which never causes rejection. */
  lemma DoubledDotHarmless(a: seq<byte>, b: seq<byte>)
    requires |a| + |b| + 2 < NameLimit
    ensures IsValidFqdn(a + [Dot, Dot] + b) <==> IsValidFqdn(a + [Dot] + b)
  {
    var la, lb := Split(a, Dot), Split(b, Dot);
    SplitDoubledSep(a, b, Dot);
    SplitConcat(a, b, Dot);
    AllLabelsShortConcat(la + [[]], lb);
    AllLabelsShortAppendEmpty(la);
    AllLabelsShortConcat(la, lb);
    IsAsciiConcat(a + [Dot, Dot], b);
    IsAsciiConcat(a, [Dot, Dot]);
    IsAsciiConcat(a + [Dot], b);
    IsAsciiConcat(a, [Dot]);
  }

  /** An empty label at the end never makes a difference. */
  lemma AllLabelsShortAppendEmpty(labels: seq<seq<byte>>)
    ensures AllLabelsShort(labels + [[]]) <==> AllLabelsShort(labels)
  {
    assert forall i :: 0 <= i < |labels| ==> (labels + [[]])[i] == labels[i];
  }

  /** Two lists of labels are all short iff each of them is. */
  lemma AllLabelsShortConcat(l1: seq<seq<byte>>, l2: seq<seq<byte>>)
    ensures AllLabelsShort(l1 + l2) <==> AllLabelsShort(l1) && AllLabelsShort(l2)
  {
    assert forall i :: 0 <= i < |l1| ==> (l1 + l2)[i] == l1[i];
    assert forall i :: 0 <= i < |l2| ==> (l1 + l2)[|l1| + i] == l2[i];
  }

  /** The root name `.` alone is accepted: its two labels are both empty. */
  lemma RootAccepted()
    ensures IsValidFqdn([Dot])
  {
    SplitAppendSep([], Dot);
    SplitWhole([], Dot);
    assert [] + [Dot] == [Dot];
  }
}
