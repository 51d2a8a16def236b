/** The log-line encoder (common/clogging/cenc/encoder.go): the formatters of
    a pattern write the front of the line, and the structured fields of the
    record, encoded by a wrapped logfmt encoder, follow it. */
module Encoder {
  import opened Wrappers
  import opened Formatters

  /** A structured field attached to a log record, as key and value text. */
  datatype Field = Field(key: string, value: string)

  /** The wrapped logfmt encoder, which the model does not interpret: it
      turns a record and its fields into text ending in the line ending,
      or fails with an error message. */
  type FieldEncoder = (Entry, seq<Field>) -> Result<string, string>

  /** A FormatEncoder: the wrapped field encoder and the formatters of the pattern. */
  datatype FormatEncoder = FormatEncoder(fields: FieldEncoder, formatters: seq<Formatter>)

  /** Clone: a copy of the wrapped encoder sharing the same formatters. */
  function Clone(f: FormatEncoder): (r: FormatEncoder)
    ensures r.formatters == f.formatters
    ensures forall e, fs :: r.fields(e, fs) == f.fields(e, fs)
  {
    FormatEncoder(f.fields, f.formatters)
  }

  /** The separator between the formatted text and the encoded fields: a
      space when the formatters wrote something and the encoded fields are
      more than the bare line ending. */
  function Separator(line: string, encoded: string): (r: string)
    ensures r == " " <==> |line| > 0 && |encoded| != 1
    ensures r == "" <==> !(|line| > 0 && |encoded| != 1)
  {
    if |line| > 0 && |encoded| != 1 then " " else ""
  }

  /** EncodeEntry: run every formatter in order (moving the sequence
      counter), then encode the fields. A field-encoding error is returned
      as is, after the formatters have already run; otherwise the line is
      the formatted text, the separator, and the encoded fields. */
  function EncodeEntry(f: FormatEncoder, p: Printer, e: Entry, fs: seq<Field>, counter: nat): (r: (Result<string, string>, nat))
    requires counter < U64
    ensures r.1 == RenderAll(f.formatters, p, e, counter).1
    ensures r.1 == (counter + SequenceCount(f.formatters)) % U64
    ensures r.0.Failure? <==> f.fields(e, fs).Failure?
    ensures r.0.Failure? ==> r.0.error == f.fields(e, fs).error
    ensures r.0.Success? ==> IsLine(r.0.value, RenderAll(f.formatters, p, e, counter).0, f.fields(e, fs).value)
  {
    var (line, next) := RenderAll(f.formatters, p, e, counter);
    match f.fields(e, fs)
    case Failure(err) => (Failure(err), next)
    case Success(encoded) =>
      var out := line + Separator(line, encoded) + encoded;
      assert out[..|line|] == line;
      assert out[|out| - |encoded|..] == encoded;
      (Success(out), next)
  }

  /** `out` starts with the formatted text `line` and ends with the encoded
      fields, with exactly one space between them when `line` is not empty
      and the encoded fields are more than one character, and nothing between
      them otherwise. */
  predicate IsLine(out: string, line: string, encoded: string)
  {
    var gap := if |line| > 0 && |encoded| != 1 then 1 else 0;
    && |out| == |line| + gap + |encoded|
    && out[..|line|] == line
    && out[|out| - |encoded|..] == encoded
    && (gap == 1 ==> out[|line|] == ' ')
  }

  /** IsLine pins the line down: only one text has a given front, fields and gap. */
  lemma IsLineUnique(a: string, b: string, line: string, encoded: string)
    requires IsLine(a, line, encoded) && IsLine(b, line, encoded)
    ensures a == b
  {
    var gap := if |line| > 0 && |encoded| != 1 then 1 else 0;
    forall i | 0 <= i < |a|
      ensures a[i] == b[i]
    {
      if i < |line| {
        assert a[i] == a[..|line|][i] && b[i] == b[..|line|][i];
      } else if i >= |line| + gap {
        var k := i - (|a| - |encoded|);
        assert a[i] == a[|a| - |encoded|..][k] && b[i] == b[|b| - |encoded|..][k];
      }
    }
  }

  /** A record without fields: the logfmt encoder writes just the line
      ending, so the line is the formatted text and the line ending, with no
      space. With fields, a non-empty formatted text is followed by one space. */
  lemma EncodeEntryShapes(f: FormatEncoder, p: Printer, e: Entry, fs: seq<Field>, counter: nat)
    requires counter < U64 && f.fields(e, fs).Success?
    ensures var line := RenderAll(f.formatters, p, e, counter).0;
            var encoded := f.fields(e, fs).value;
            && (encoded == "\n" ==> EncodeEntry(f, p, e, fs, counter).0 == Success(line + "\n"))
            && (|line| > 0 && |encoded| != 1 ==> EncodeEntry(f, p, e, fs, counter).0 == Success(line + " " + encoded))
            && (|line| == 0 ==> EncodeEntry(f, p, e, fs, counter).0 == Success(encoded))
  {
    var line := RenderAll(f.formatters, p, e, counter).0;
    var encoded := f.fields(e, fs).value;
    var out := EncodeEntry(f, p, e, fs, counter).0.value;
    if encoded == "\n" {
      var want := line + "\n";
      assert want[..|line|] == line && want[|want| - 1..] == "\n";
      IsLineUnique(out, want, line, encoded);
    }
    if |line| > 0 && |encoded| != 1 {
      var want := line + " " + encoded;
      assert want[..|line|] == line && want[|want| - |encoded|..] == encoded && want[|line|] == ' ';
      IsLineUnique(out, want, line, encoded);
    }
    if |line| == 0 {
      assert encoded[|encoded| - |encoded|..] == encoded;
      IsLineUnique(out, encoded, line, encoded);
    }
  }

  /** A clone encodes every record exactly like the original, and moves the
      sequence counter alike. */
  lemma CloneEncodesAlike(f: FormatEncoder, p: Printer, e: Entry, fs: seq<Field>, counter: nat)
    requires counter < U64
    ensures EncodeEntry(Clone(f), p, e, fs, counter) == EncodeEntry(f, p, e, fs, counter)
  {
  }
}
