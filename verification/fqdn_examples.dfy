/**
 The unit tests of the validator, stated as lemmas about the model, plus the
 length boundary of 252 and 253 bytes.
 */
module FqdnExamples {
  import opened Bytes
  import opened Fqdn

  /** Every character of `t` lies between `lo` and `hi`. */
  predicate InRange(t: string, lo: char, hi: char) {
    forall k :: 0 <= k < |t| ==> lo <= t[k] <= hi
  }

  /** Every character of `t` from position `i` on lies between `lo` and `hi`;
      defined one position at a time, so that it can be decided for a literal. */
  predicate InRangeFrom(t: string, i: nat, lo: char, hi: char)
    decreases |t| - i
  {
    i >= |t| || (lo <= t[i] <= hi && InRangeFrom(t, i + 1, lo, hi))
  }

  lemma {:induction false} InRangeFromAll(t: string, i: nat, lo: char, hi: char)
    requires InRangeFrom(t, i, lo, hi)
    ensures forall k :: i <= k < |t| ==> lo <= t[k] <= hi
    decreases |t| - i
  {
    if i < |t| {
      InRangeFromAll(t, i + 1, lo, hi);
    }
  }

  /** Decides `InRange` for a short literal. */
  lemma InRangeOf(t: string, lo: char, hi: char)
    requires InRangeFrom(t, 0, lo, hi)
    ensures InRange(t, lo, hi)
  {
    InRangeFromAll(t, 0, lo, hi);
  }

  lemma InRangeConcat(a: string, b: string, lo: char, hi: char)
    requires InRange(a, lo, hi) && InRange(b, lo, hi)
    ensures InRange(a + b, lo, hi)
  {
    assert forall k :: |a| <= k < |a + b| ==> (a + b)[k] == b[k - |a|];
  }

  /** A printable ASCII text is ASCII. */
  predicate Printable(t: string) {
    InRange(t, ' ', '~')
  }

  /** The empty string is rejected. */
  lemma RejectEmptyString()
    ensures !IsValidFqdn(FromAscii(""))
  {
  }

  /** The 63-letter label of the long-label test. */
  const LongLabel: string :=
    "thisisaverylongl" + "abelandshouldnot" + "beacceptedIreall" + "yhopesthisworks"

  lemma LongLabelIsLetters()
    ensures |LongLabel| == 63 && InRange(LongLabel, 'A', 'z')
  {
    assert InRange("thisisaverylongl", 'A', 'z') by {
      InRangeOf("thisisaverylongl", 'A', 'z');
    }
    assert InRange("abelandshouldnot", 'A', 'z') by {
      InRangeOf("abelandshouldnot", 'A', 'z');
    }
    assert InRange("beacceptedIreall", 'A', 'z') by {
      InRangeOf("beacceptedIreall", 'A', 'z');
    }
    assert InRange("yhopesthisworks", 'A', 'z') by {
      InRangeOf("yhopesthisworks", 'A', 'z');
    }
    InRangeConcat("thisisaverylongl", "abelandshouldnot", 'A', 'z');
    InRangeConcat("thisisaverylongl" + "abelandshouldnot", "beacceptedIreall", 'A', 'z');
    InRangeConcat("thisisaverylongl" + "abelandshouldnot" + "beacceptedIreall", "yhopesthisworks", 'A', 'z');
  }

  /** A label of `LabelLimit` or more characters from `A` to `z` (a range
      without the dot), followed by a dot, is rejected. */
  lemma RejectLongLabelThenDot(name: string)
    requires InRange(name, 'A', 'z') && |name| >= LabelLimit
    ensures var t := name + ".";
      Printable(t) && !IsValidFqdn(FromAscii(t))
  {
    var t := name + ".";
    assert Printable(t) by {
      assert forall k :: 0 <= k < |name| ==> t[k] == name[k];
    }
    var s := FromAscii(t);
    forall k | 0 <= k < LabelLimit
      ensures s[k] != Dot
    {
      assert t[k] == name[k];
    }
    LongLabelRejected(s, 0);
  }

  /** The 63-byte label followed by a dot is rejected. */
  lemma RejectVeryLongLabel()
    ensures |LongLabel + "."| == 64
    ensures Printable(LongLabel + ".") && !IsValidFqdn(FromAscii(LongLabel + "."))
  {
    LongLabelIsLetters();
    RejectLongLabelThenDot(LongLabel);
  }

  /** A relative name with short labels is accepted. */
  lemma AcceptValidFqdn()
    ensures Printable("this.is.a." + "valid.fqdn")
    ensures IsValidFqdn(FromAscii("this.is.a." + "valid.fqdn"))
  {
    InRangeOf("this.is.a.", ' ', '~');
    InRangeOf("valid.fqdn", ' ', '~');
    InRangeConcat("this.is.a.", "valid.fqdn", ' ', '~');
    ShortNameHasShortLabels(FromAscii("this.is.a." + "valid.fqdn"));
  }

  /** An absolute name, ending in a dot, with short labels is accepted. */
  lemma AcceptValidAbsoluteFqdn()
    ensures Printable("this.is.a." + "valid.abso" + "lute.fqdn.")
    ensures IsValidFqdn(FromAscii("this.is.a." + "valid.abso" + "lute.fqdn."))
  {
    InRangeOf("this.is.a.", ' ', '~');
    InRangeOf("valid.abso", ' ', '~');
    InRangeOf("lute.fqdn.", ' ', '~');
    InRangeConcat("this.is.a.", "valid.abso", ' ', '~');
    InRangeConcat("this.is.a." + "valid.abso", "lute.fqdn.", ' ', '~');
    ShortNameHasShortLabels(FromAscii("this.is.a." + "valid.abso" + "lute.fqdn."));
  }

  /** The UTF-8 bytes of the two-character text U+00C3 U+00BC are rejected. */
  lemma RejectNotAscii()
    ensures !IsValidFqdn([0xC3, 0x83, 0xC2, 0xBC])
  {
    NonAsciiRejected([0xC3, 0x83, 0xC2, 0xBC], 0);
  }

  /** `a.a.a.…`: one-byte labels, of any total length. */
  function Alternating(n: nat): (s: seq<byte>)
    ensures |s| == n && IsAscii(s)
    ensures forall i :: 0 <= i < n ==> s[i] == (if i % 2 == 0 then 0x61 else Dot)
  {
    seq(n, i => if i % 2 == 0 then 0x61 else Dot)
  }

  /** Every window of `LabelLimit` bytes of `Alternating(n)` holds a dot. */
  lemma AlternatingHasNoLongRun(n: nat)
    ensures NoLongRun(Alternating(n))
  {
    var s := Alternating(n);
    forall i | 0 <= i && i + LabelLimit <= n
      ensures DotInWindow(s, i)
    {
      if i % 2 == 0 {
        assert s[i + 1] == Dot;
      } else {
        assert s[i] == Dot;
      }
    }
  }

  /** 252 bytes of short labels are accepted and 253 bytes of them are not. */
  lemma NameLengthBoundary()
    ensures IsValidFqdn(Alternating(NameLimit - 1))
    ensures !IsValidFqdn(Alternating(NameLimit))
  {
    AlternatingHasNoLongRun(NameLimit - 1);
    IsValidFqdnMeetsSpec(Alternating(NameLimit - 1));
  }
}
