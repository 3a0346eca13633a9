# fqdn — a verified model of `is_valid_fqdn`

The `fqdn` crate has one operation. `is_valid_fqdn` decides whether a string is a
syntactically acceptable fully qualified domain name. A name passes when all three
of these hold:

1. the string is ASCII;
2. its byte length is strictly between 0 and 253;
3. every label is shorter than 62 bytes. A label is a piece of the string after
   splitting at every `.`, and empty pieces count as labels.

This project models that predicate in Dafny and proves properties of it.

- `bytes.dfy` (module `Bytes`): the input is the UTF-8 byte sequence of the
  Rust `str`, written `seq<byte>`. Rust's `len()` and `is_ascii()` both work on
  bytes.
- `labels.dfy` (module `Labels`): `Split` behaves like Rust's `str::split`.
  With n separators it gives n + 1 pieces, which may be empty. `Join` is its
  inverse. The file also proves how `Split` behaves under concatenation and
  appending.
- `fqdn.dfy` (module `Fqdn`):
  - `IsValidFqdn` follows the source branch for branch.
  - `ValidFqdn` states the same rule a second way, by positions and without
    splitting: no window of 62 consecutive bytes is free of dots.
  - A lemma proves the two definitions agree.
  - `CheckFqdn` is a single-pass method that tracks the length of the current
    label. It is proved to decide exactly what `IsValidFqdn` decides.
- `fqdn_examples.dfy` (module `FqdnExamples`): the crate's unit tests as lemmas,
  plus the 252/253-byte length boundary.

The thresholds are the code's own: the name must be shorter than 253 bytes and
each label shorter than 62 bytes. They are stricter than section 2.3.4 of
RFC 1035: labels of at most 61 bytes instead of 63, and names of at most 252
bytes instead of 255. The model keeps the code's values.

## Model

| member | source | states |
|---|---|---|
| `Labels.IndexOf` | src/lib.rs:29 | the search inside `split`: the result is the position of the first `.`, or the length when there is none; no `.` comes before it |
| `Labels.SplitCount` | src/lib.rs:29 | splitting gives one more label than the input has `.` bytes |
| `Labels.SplitPiecesFree` | src/lib.rs:29 | no label contains a `.` |
| `Labels.JoinSplit` | src/lib.rs:29 | joining the labels with `.` gives back the input |
| `Labels.SplitJoin` | src/lib.rs:29 | the other direction: joining `.`-free labels with `.` and then splitting gives back those labels |
| `Labels.SplitConcat` | src/lib.rs:29 | the labels of `a . b` are the labels of `a` followed by the labels of `b` |
| `Labels.SplitAppendSep` | src/lib.rs:29 | a trailing `.` adds one empty label at the end and changes nothing else |
| `Labels.SplitDoubledSep` | src/lib.rs:29 | `..` produces one empty label between the labels on either side |
| `Labels.SplitSnoc` | src/lib.rs:29 | appending a byte that is not `.` makes the last label one byte longer and leaves the other labels alone |
| `Bytes.IsAsciiConcat` | src/lib.rs:25-27 | a concatenation is ASCII exactly when both parts are |
| `Fqdn.IsValidFqdnMeetsSpec` | src/lib.rs:24-33 | full characterisation: accepted exactly when the input is ASCII, 0 < length < 253, and no 62 consecutive bytes are all non-`.` |
| `Fqdn.LabelsShortIffNoLongRun` | src/lib.rs:29 | every label of the split is shorter than 62 bytes exactly when every window of 62 consecutive bytes contains a `.` |
| `Fqdn.CheckFqdn` | src/lib.rs:24-33 | the single-pass checker returns true exactly when `is_valid_fqdn` holds, which is exactly when the position-based rule holds |
| `Fqdn.NonAsciiRejected` | src/lib.rs:25-27 | a byte of 0x80 or above anywhere gives `false`, whatever the length |
| `Fqdn.EmptyRejected` | src/lib.rs:28-31 | the empty string gives `false` |
| `Fqdn.TooLongRejected` | src/lib.rs:28-31 | any input of 253 bytes or more gives `false` |
| `Fqdn.LongLabelRejected` | src/lib.rs:29 | if 62 consecutive bytes contain no `.`, the input is rejected |
| `Fqdn.LongLabelPersists` | src/lib.rs:29 | once a prefix has a label of 62 bytes or more, no suffix can make the labels short again |
| `Fqdn.ShortNameHasShortLabels` | src/lib.rs:29 | an input shorter than 62 bytes never fails the label check |
| `Fqdn.TrailingDotHarmless` | src/lib.rs:29 | for a non-empty name below the length limit, a trailing `.` (an absolute name) does not change the verdict |
| `Fqdn.LeadingDotHarmless` | src/lib.rs:29 | for a non-empty name below the length limit, a leading `.` (an empty first label) does not change the verdict |
| `Fqdn.DoubledDotHarmless` | src/lib.rs:29 | turning a `.` into `..` (an empty label between two others) does not change the verdict while the length stays below the limit |
| `Fqdn.RootAccepted` | src/lib.rs:24-33 | the one-byte name `.` is accepted, because both of its labels are empty |
| `FqdnExamples.RejectEmptyString` | src/lib.rs:39-42 | `""` is rejected |
| `FqdnExamples.RejectVeryLongLabel` | src/lib.rs:43-46 | the 63-letter label followed by `.` (64 bytes) is rejected |
| `FqdnExamples.AcceptValidFqdn` | src/lib.rs:47-50 | `this.is.a.valid.fqdn` is accepted |
| `FqdnExamples.AcceptValidAbsoluteFqdn` | src/lib.rs:51-54 | `this.is.a.valid.absolute.fqdn.` is accepted |
| `FqdnExamples.RejectNotAscii` | src/lib.rs:55-58 | the UTF-8 bytes of the test's two-character text `Ã¼` (C3 83 C2 BC) are rejected |
| `FqdnExamples.NameLengthBoundary` | src/lib.rs:28 | 252 bytes of one-byte labels are accepted, and 253 bytes of the same pattern are rejected |

## Left out

- The `FQDN` trait and its `impl for str` (src/lib.rs:3-7) are modelled as a plain predicate on bytes. The `AsciiExt` import (src/lib.rs:1) has no counterpart.
- Unicode decoding is left out, because `len()` and `is_ascii()` work on bytes. The input is taken as its UTF-8 bytes, and `FromAscii` builds those bytes for the ASCII test strings.
- `split('.')` splits at the character `.`. The model splits at the byte 0x2E. The two give the same result on ASCII input, and only ASCII input reaches the split.
- The doc comment (src/lib.rs:12-23) says "less than 255 bytes" and describes labels as "62 for the bytes". The code checks `< 253` and `< 62`, and the model follows the code.
- `CheckFqdn` tests the length before the ASCII check, while the source checks ASCII first. Both paths return `false`, so the result is the same.
- Rules on label characters (letters, digits, hyphen), case folding and IDNA are not modelled, because the code does none of them.
- The string literals in the test lemmas are written as concatenations of short pieces. For example, `"this.is.a." + "valid.fqdn"` stands for the source's `"this.is.a.valid.fqdn"`. The bytes are identical.
