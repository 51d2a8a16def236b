/** Terminal colours (common/clogging/cenc/color.go): Select Graphic Rendition
    control sequences of ECMA-48 (section 8.3.117), written as
    ESC '[' <decimal parameter> ['; 1'] 'm'. Parameter 0 resets every
    attribute, 1 selects bold, and 30 to 37 select a foreground colour. */
module Colors {
  import opened Wrappers
  import opened Strings

  /** Go `Color` is a `uint8`. */
  type Color = c: int | 0 <= c < 256

  const ColorNone: Color := 0
  const ColorBlack: Color := 30
  const ColorRed: Color := 31
  const ColorGreen: Color := 32
  const ColorYellow: Color := 33
  const ColorBlue: Color := 34
  const ColorMagenta: Color := 35
  const ColorCyan: Color := 36
  const ColorWhite: Color := 37

  /** The control character ESC (0x1b) that opens every sequence. */
  const Esc: char := 27 as char

  /** The parameters one SGR sequence carries: a colour code and whether
      the bold parameter follows it. */
  datatype Sgr = Sgr(code: nat, bold: bool)

  /** Reads a sequence of the shape ESC '[' digits 'm' or
      ESC '[' digits ";1m" back into its parameters, the digits being a
      decimal numeral without leading zeros; anything else is None. */
  function ParseSgr(s: string): (r: Option<Sgr>)
    ensures r.Some? ==> |s| >= 4 && s[0] == Esc && s[1] == '[' && s[|s| - 1] == 'm'
  {
    if |s| < 4 || s[0] != Esc || s[1] != '[' || s[|s| - 1] != 'm' then None
    else
      var inner := s[2..|s| - 1];
      if CanonicalDigits(inner) then Some(Sgr(ParseNat(inner), false))
      else if |inner| >= 3 && inner[|inner| - 2..] == ";1" && CanonicalDigits(inner[..|inner| - 2])
      then Some(Sgr(ParseNat(inner[..|inner| - 2]), true))
      else None
  }

  /** Normal: the plain sequence selecting colour `c`; it reads back as
      exactly that parameter, without bold. */
  function Normal(c: Color): (r: string)
    ensures |r| >= 4 && r[0] == Esc && r[1] == '[' && r[|r| - 1] == 'm'
    ensures ParseSgr(r) == Some(Sgr(c, false))
  {
    var digits := NatToString(c);
    var r := [Esc, '['] + digits + "m";
    assert r[2..|r| - 1] == digits;
    NatToStringCanonical(c);
    ParseNatToString(c);
    r
  }

  /** Bold: colour `c` followed by the bold parameter, except that the
      no-colour code gives the plain reset sequence. */
  function Bold(c: Color): (r: string)
    ensures c == ColorNone ==> r == Normal(c)
    ensures ParseSgr(r) == Some(Sgr(c, c != ColorNone))
  {
    if c == ColorNone then Normal(c)
    else
      var digits := NatToString(c);
      var r := [Esc, '['] + digits + ";1m";
      var inner := digits + ";1";
      assert r[2..|r| - 1] == inner;
      assert inner[|inner| - 2] == ';';
      assert inner[|inner| - 2..] == ";1";
      assert inner[..|inner| - 2] == digits;
      NatToStringCanonical(c);
      ParseNatToString(c);
      r
  }

  /** ResetColor: the sequence that resets every attribute. */
  function ResetColor(): (r: string)
    ensures r == [Esc, '[', '0', 'm']
    ensures ParseSgr(r) == Some(Sgr(0, false))
  {
    Normal(ColorNone)
  }

  /** Distinct colours give distinct sequences, and a colour's bold sequence
      is never its plain one unless the colour is the no-colour code. */
  lemma SequencesDistinguish(a: Color, b: Color)
    ensures Normal(a) == Normal(b) <==> a == b
    ensures Bold(a) == Bold(b) <==> a == b
    ensures Bold(a) == Normal(b) <==> a == b && a == ColorNone
  {
    if Bold(a) == Normal(b) {
      assert ParseSgr(Bold(a)) == ParseSgr(Normal(b));
    }
  }

  /** A sequence is determined by what it reads back as: the plain sequence
      of a colour and the bold sequence of a colour other than the no-colour
      code are the only texts that read back as their parameters. */
  lemma SgrReadsBackExactly(s: string, c: Color)
    ensures ParseSgr(s) == Some(Sgr(c, false)) ==> s == Normal(c)
    ensures ParseSgr(s) == Some(Sgr(c, true)) && c != ColorNone ==> s == Bold(c)
  {
    if ParseSgr(s) == Some(Sgr(c, false)) {
      PlainReadsBack(s, c);
    }
    if ParseSgr(s) == Some(Sgr(c, true)) && c != ColorNone {
      BoldReadsBack(s, c);
    }
  }

  lemma PlainReadsBack(s: string, c: Color)
    requires ParseSgr(s) == Some(Sgr(c, false))
    ensures s == Normal(c)
  {
    var inner := s[2..|s| - 1];
    NatToStringParseNat(inner);
    assert s == [Esc, '['] + inner + "m";
  }

  lemma BoldReadsBack(s: string, c: Color)
    requires ParseSgr(s) == Some(Sgr(c, true)) && c != ColorNone
    ensures s == Bold(c)
  {
    var inner := s[2..|s| - 1];
    var digits := inner[..|inner| - 2];
    assert !CanonicalDigits(inner) by {
      assert inner[|inner| - 2] == ';';
    }
    NatToStringParseNat(digits);
    assert inner == digits + ";1";
    assert s == [Esc, '['] + digits + ";1m";
  }

  /** The colour codes are the ECMA-48 foreground parameters 30 to 37 in
      the order black, red, green, yellow, blue, magenta, cyan, white. */
  lemma ColorCodes()
    ensures [ColorBlack, ColorRed, ColorGreen, ColorYellow, ColorBlue, ColorMagenta, ColorCyan, ColorWhite]
         == seq(8, i => 30 + i)
  {
  }

  /** The byte strings the terminal receives for a few colours. */
  lemma EscapeExamples()
    ensures Normal(ColorBlue) == [Esc] + "[34m"
    ensures Bold(ColorRed) == [Esc] + "[31;1m"
    ensures Bold(ColorNone) == [Esc] + "[0m"
  {
    assert NatToString(34) == "34";
    assert NatToString(31) == "31";
  }
}
