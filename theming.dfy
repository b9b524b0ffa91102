/** The theme colour of `CSharpRepl.Services.Theming.Color`: a named colour
    whose `foreground` text is resolved, when asked for, either as a
    `#RRGGBB` hexadecimal literal or as one of the prompt library's colour
    names, compared without regard to case. */
module Theming {
  import opened Wrappers
  import opened Ansi

  // ---------------------------------------------------------------------
  // Case folding. `StringComparer.OrdinalIgnoreCase` is modelled on ASCII.
  // ---------------------------------------------------------------------

  function LowerChar(c: char): char {
    if 'A' <= c <= 'Z' then (c as int + 32) as char else c
  }

  /** `s` with every ASCII capital replaced by its small letter. */
  function AsciiLower(s: string): (r: string)
    ensures |r| == |s|
    ensures forall i :: 0 <= i < |s| ==> r[i] == LowerChar(s[i])
  {
    if s == [] then [] else [LowerChar(s[0])] + AsciiLower(s[1..])
  }

  /** Equality under `StringComparer.OrdinalIgnoreCase`, restricted to ASCII. */
  predicate EqualsIgnoreCase(s: string, t: string)
    ensures EqualsIgnoreCase(s, t) <==>
      |s| == |t| && forall i :: 0 <= i < |s| ==> LowerChar(s[i]) == LowerChar(t[i])
  {
    AsciiLower(s) == AsciiLower(t)
  }

  // ---------------------------------------------------------------------
  // Hexadecimal bytes
  // ---------------------------------------------------------------------

  predicate IsHexDigit(c: char) {
    '0' <= c <= '9' || 'a' <= c <= 'f' || 'A' <= c <= 'F'
  }

  function HexDigitValue(c: char): (v: nat)
    requires IsHexDigit(c)
    ensures v < 16
  {
    if '0' <= c <= '9' then c as int - '0' as int
    else if 'a' <= c <= 'f' then c as int - 'a' as int + 10
    else c as int - 'A' as int + 10
  }

  /** The upper-case hexadecimal digit of `v`. */
  function HexChar(v: nat): (c: char)
    requires v < 16
    ensures IsHexDigit(c) && HexDigitValue(c) == v
  {
    if v < 10 then ('0' as int + v) as char else ('A' as int + v - 10) as char
  }

  /** The byte as the two upper-case hexadecimal digits it takes in `#RRGGBB`. */
  function ToHex2(b: Byte): (s: string)
    ensures |s| == 2 && IsHexDigit(s[0]) && IsHexDigit(s[1])
  {
    [HexChar(b / 16), HexChar(b % 16)]
  }

  /** `byte.TryParse(span, NumberStyles.AllowHexSpecifier, null, out b)` on a
      two-character span: both characters must be hexadecimal digits (no
      sign, no prefix, no white space), and the value always fits a byte. */
  function TryParseHexByte(digits: string): (r: Option<Byte>)
    requires |digits| == 2
    ensures r.Some? <==> IsHexDigit(digits[0]) && IsHexDigit(digits[1])
  {
    if IsHexDigit(digits[0]) && IsHexDigit(digits[1])
    then Some(16 * HexDigitValue(digits[0]) + HexDigitValue(digits[1]))
    else None
  }

  /** Parsing undoes `ToHex2`. */
  lemma HexByteRoundTrip(b: Byte)
    ensures TryParseHexByte(ToHex2(b)) == Some(b)
  {
  }

  /** Every digit pair that parses to `b` is `ToHex2(b)` up to case: the pair
      determines the byte and nothing else is accepted. */
  lemma HexByteCanonical(digits: string, b: Byte)
    requires |digits| == 2 && TryParseHexByte(digits) == Some(b)
    ensures EqualsIgnoreCase(digits, ToHex2(b))
  {
    var hex := ToHex2(b);
    HexDigitLowerCase(digits[0]);
    HexDigitLowerCase(digits[1]);
    HexDigitLowerCase(hex[0]);
    HexDigitLowerCase(hex[1]);
    HexDigitCaseInsensitive(digits[0], hex[0]);
    HexDigitCaseInsensitive(digits[1], hex[1]);
    assert AsciiLower(digits)[0] == AsciiLower(hex)[0];
    assert AsciiLower(digits)[1] == AsciiLower(hex)[1];
  }

  /** Lower-casing a hexadecimal digit keeps it one, with the same value. */
  lemma HexDigitLowerCase(c: char)
    ensures IsHexDigit(c) <==> IsHexDigit(LowerChar(c))
    ensures IsHexDigit(c) ==> HexDigitValue(LowerChar(c)) == HexDigitValue(c)
  {
  }

  /** Two hexadecimal digits have the same value exactly when they agree up to case. */
  lemma HexDigitCaseInsensitive(c: char, d: char)
    requires IsHexDigit(c) && IsHexDigit(d)
    ensures HexDigitValue(c) == HexDigitValue(d) <==> LowerChar(c) == LowerChar(d)
  {
  }

  // ---------------------------------------------------------------------
  // Colour names
  // ---------------------------------------------------------------------

  /** The name of the public static `AnsiColor` field holding each named colour. */
  function FieldName(c: NamedColor): string {
    match c
    case Black => "Black"
    case Red => "Red"
    case Green => "Green"
    case Yellow => "Yellow"
    case Blue => "Blue"
    case Magenta => "Magenta"
    case Cyan => "Cyan"
    case White => "White"
    case BrightBlack => "BrightBlack"
    case BrightRed => "BrightRed"
    case BrightGreen => "BrightGreen"
    case BrightYellow => "BrightYellow"
    case BrightBlue => "BrightBlue"
    case BrightMagenta => "BrightMagenta"
    case BrightCyan => "BrightCyan"
    case BrightWhite => "BrightWhite"
  }

  /** The public static `AnsiColor` fields, in declaration order: the list
      the dictionary below is built from. */
  const AnsiColorFields: seq<NamedColor> := [
    Black, Red, Green, Yellow, Blue, Magenta, Cyan, White,
    BrightBlack, BrightRed, BrightGreen, BrightYellow,
    BrightBlue, BrightMagenta, BrightCyan, BrightWhite]

  /** Every named colour is one of the fields. */
  lemma AllColorsAreFields(c: NamedColor)
    ensures c in AnsiColorFields
  {
    match c
    case _ =>
  }

  /** The field list names every colour. */
  lemma AllFieldsListed()
    ensures forall c: NamedColor :: c in AnsiColorFields
  {
    forall c: NamedColor
      ensures c in AnsiColorFields
    {
      AllColorsAreFields(c);
    }
  }

  /** No two field names are equal up to case, so the dictionary below,
      whose comparer ignores case, never sees a duplicate key. */
  lemma FieldNamesDistinctIgnoringCase()
    ensures forall c: NamedColor, d: NamedColor ::
      EqualsIgnoreCase(FieldName(c), FieldName(d)) ==> c == d
  {
    forall c: NamedColor, d: NamedColor | EqualsIgnoreCase(FieldName(c), FieldName(d))
      ensures c == d
    {
      var k, k' := AsciiLower(FieldName(c)), AsciiLower(FieldName(d));
      // length, first letter and seventh letter tell the sixteen names apart
      assert |k| == |k'| && k[0] == k'[0];
      if |k| > 6 { assert k[6] == k'[6]; }
    }
  }

  /** The process-wide dictionary `ansiColorNames`: field name to colour,
      built once from the field list. Its comparer ignores case, so it is
      keyed here by the lower-cased field name. It holds exactly the field
      names: each key is the folded name of the colour it maps to, and each
      colour's folded field name is a key mapping to that colour. */
  function AnsiColorNames(): (names: map<string, NamedColor>)
    ensures forall key :: key in names ==> AsciiLower(FieldName(names[key])) == key
    ensures forall c: NamedColor ::
      AsciiLower(FieldName(c)) in names && names[AsciiLower(FieldName(c))] == c
  {
    FieldNamesDistinctIgnoringCase();
    AllFieldsListed();
    map c | c in AnsiColorFields :: AsciiLower(FieldName(c)) := c
  }

  /** `ansiColorNames.TryGetValue(input, out color)`. */
  function LookupColorName(input: string): (r: Option<AnsiColor>)
    ensures r.Some? <==> AsciiLower(input) in AnsiColorNames()
    ensures r.Some? ==> r.value.Named?
  {
    var names := AnsiColorNames();
    var key := AsciiLower(input);
    if key in names then Some(Named(names[key])) else None
  }

  /** No colour name begins with `#`, so the name lookup never accepts a
      string that the hexadecimal path looked at. */
  lemma NoColorNameStartsWithHash(input: string)
    requires |input| > 0 && input[0] == '#'
    ensures LookupColorName(input) == None
  {
    var key := AsciiLower(input);
    assert key[0] == '#';
    if key in AnsiColorNames() {
      var c :| c in AnsiColorFields && AsciiLower(FieldName(c)) == key;
      FieldNameStartsWithCapital(c);
      assert false;
    }
  }

  /** Every field name starts with one of the capitals B, C, G, M, R, W, Y. */
  lemma FieldNameStartsWithCapital(c: NamedColor)
    ensures |FieldName(c)| > 0
    ensures var first := FieldName(c)[0];
      first == 'B' || first == 'C' || first == 'G' || first == 'M'
      || first == 'R' || first == 'W' || first == 'Y'
  {
  }

  // ---------------------------------------------------------------------
  // Parsing a foreground specification
  // ---------------------------------------------------------------------

  /** `#RRGGBB`: seven characters, a `#` and six hexadecimal digits of either case. */
  predicate IsHexColorLiteral(s: string) {
    |s| == 7 && s[0] == '#'
    && IsHexDigit(s[1]) && IsHexDigit(s[2]) && IsHexDigit(s[3])
    && IsHexDigit(s[4]) && IsHexDigit(s[5]) && IsHexDigit(s[6])
  }

  /** The byte written by the two hexadecimal digits `s[i]`, `s[i + 1]`. */
  function HexPairAt(s: string, i: nat): Byte
    requires i + 1 < |s| && IsHexDigit(s[i]) && IsHexDigit(s[i + 1])
  {
    16 * HexDigitValue(s[i]) + HexDigitValue(s[i + 1])
  }

  /** The canonical literal `#RRGGBB` of a colour, in upper case. */
  function HexColorLiteral(r: Byte, g: Byte, b: Byte): string {
    "#" + ToHex2(r) + ToHex2(g) + ToHex2(b)
  }

  /** `Color.TryParseAnsiColor`: the hexadecimal path first, then the names. */
  function TryParseAnsiColor(input: string): (result: Option<AnsiColor>)
    ensures IsHexColorLiteral(input) ==>
      result == Some(Rgb(HexPairAt(input, 1), HexPairAt(input, 3), HexPairAt(input, 5)))
    ensures result.Some? && result.value.Rgb? ==> IsHexColorLiteral(input)
    ensures !IsHexColorLiteral(input) ==> result == LookupColorName(input)
  {
    if |input| > 0 && input[0] == '#' && |input| == 7
      && TryParseHexByte(input[1..3]).Some?
      && TryParseHexByte(input[3..5]).Some?
      && TryParseHexByte(input[5..7]).Some?
    then
      Some(Rgb(TryParseHexByte(input[1..3]).value,
               TryParseHexByte(input[3..5]).value,
               TryParseHexByte(input[5..7]).value))
    else
      LookupColorName(input)
  }

  /** Parsing fails exactly when the text is neither a `#RRGGBB` literal nor,
      up to case, a colour name; a well-formed literal always resolves to RGB. */
  lemma ParseFailsExactly(input: string)
    ensures TryParseAnsiColor(input).None? <==>
      !IsHexColorLiteral(input) && AsciiLower(input) !in AnsiColorNames()
    ensures IsHexColorLiteral(input) ==> TryParseAnsiColor(input).value.Rgb?
  {
  }

  /** Hexadecimal round trip: the literal of any colour parses back to it. */
  lemma HexColorRoundTrip(r: Byte, g: Byte, b: Byte)
    ensures TryParseAnsiColor(HexColorLiteral(r, g, b)) == Some(Rgb(r, g, b))
  {
    var s := HexColorLiteral(r, g, b);
    assert s[1..3] == ToHex2(r) && s[3..5] == ToHex2(g) && s[5..7] == ToHex2(b);
    HexByteRoundTrip(r);
    HexByteRoundTrip(g);
    HexByteRoundTrip(b);
  }

  /** Conversely, every string that parses to an RGB colour is that colour's
      literal, up to the case of its hexadecimal digits. */
  lemma RgbOnlyFromItsLiteral(input: string, r: Byte, g: Byte, b: Byte)
    requires TryParseAnsiColor(input) == Some(Rgb(r, g, b))
    ensures EqualsIgnoreCase(input, HexColorLiteral(r, g, b))
  {
    var lit := HexColorLiteral(r, g, b);
    assert lit[1..3] == ToHex2(r) && lit[3..5] == ToHex2(g) && lit[5..7] == ToHex2(b);
    assert TryParseHexByte(input[1..3]) == Some(r);
    assert TryParseHexByte(input[3..5]) == Some(g);
    assert TryParseHexByte(input[5..7]) == Some(b);
    HexByteCanonical(input[1..3], r);
    HexByteCanonical(input[3..5], g);
    HexByteCanonical(input[5..7], b);
    forall i | 0 <= i < 7
      ensures LowerChar(input[i]) == LowerChar(lit[i])
    {
      if 1 <= i < 3 {
        assert AsciiLower(input[1..3])[i - 1] == AsciiLower(ToHex2(r))[i - 1];
      } else if 3 <= i < 5 {
        assert AsciiLower(input[3..5])[i - 3] == AsciiLower(ToHex2(g))[i - 3];
      } else if 5 <= i {
        assert AsciiLower(input[5..7])[i - 5] == AsciiLower(ToHex2(b))[i - 5];
      }
    }
    assert AsciiLower(input) == AsciiLower(lit);
  }

  /** Parsing ignores case on both paths: strings equal up to ASCII case
      resolve to the same colour, or both fail. */
  lemma ParseIgnoresCase(s: string, t: string)
    requires EqualsIgnoreCase(s, t)
    ensures TryParseAnsiColor(s) == TryParseAnsiColor(t)
  {
    assert |s| == |AsciiLower(s)| == |t|;
    forall i | 0 <= i < |s|
      ensures LowerChar(s[i]) == LowerChar(t[i])
      ensures IsHexDigit(s[i]) <==> IsHexDigit(t[i])
      ensures IsHexDigit(s[i]) ==> HexDigitValue(s[i]) == HexDigitValue(t[i])
    {
      assert AsciiLower(s)[i] == AsciiLower(t)[i];
      HexDigitLowerCase(s[i]);
      HexDigitLowerCase(t[i]);
    }
    if IsHexColorLiteral(s) {
      assert IsHexColorLiteral(t);
      assert HexPairAt(s, 1) == HexPairAt(t, 1);
      assert HexPairAt(s, 3) == HexPairAt(t, 3);
      assert HexPairAt(s, 5) == HexPairAt(t, 5);
    } else {
      assert !IsHexColorLiteral(t);
      assert LookupColorName(s) == LookupColorName(t);
    }
  }

  /** Every casing of a colour's field name resolves to that colour. */
  lemma FieldNameCasingsResolve(input: string, c: NamedColor)
    requires EqualsIgnoreCase(input, FieldName(c))
    ensures TryParseAnsiColor(input) == Some(Named(c))
  {
    assert AsciiLower(FieldName(c)) in AnsiColorNames();
    assert FieldName(c)[0] != '#';
    assert !IsHexColorLiteral(FieldName(c));
    ParseIgnoresCase(input, FieldName(c));
  }

  /** The converse: a text that resolves to a named colour is that colour's
      field name up to case. */
  lemma NamedOnlyFromItsName(input: string, c: NamedColor)
    requires TryParseAnsiColor(input) == Some(Named(c))
    ensures EqualsIgnoreCase(input, FieldName(c))
  {
    assert !IsHexColorLiteral(input);
    assert LookupColorName(input) == Some(Named(c));
  }

  // ---------------------------------------------------------------------
  // The theme colour
  // ---------------------------------------------------------------------

  /** The `ArgumentException` thrown for an unresolvable foreground; it names the text. */
  datatype UnknownColorError = UnknownColor(foreground: string)

  /** A theme colour as deserialised from a theme file. */
  datatype Color = Color(name: string, foreground: string) {

    /** `Color.ToAnsiColor`: the colour `TryParseAnsiColor(Foreground)`
        resolves to, or an error naming `Foreground` when it fails. */
    function ToAnsiColor(): (r: Result<AnsiColor, UnknownColorError>)
      ensures r.Success? <==> IsHexColorLiteral(foreground) || AsciiLower(foreground) in AnsiColorNames()
      ensures r.Success? ==> TryParseAnsiColor(foreground) == Some(r.value)
      ensures r.Failure? ==> r.error == UnknownColor(foreground)
    {
      match TryParseAnsiColor(foreground)
      case Some(color) => Success(color)
      case None => Failure(UnknownColor(foreground))
    }
  }

  /** The JSON constructor: both texts are expected non-empty and are stored unchanged. */
  function NewColor(name: string, foreground: string): (c: Color)
    requires name != [] && foreground != []
    ensures c.name == name && c.foreground == foreground
  {
    Color(name, foreground)
  }

  // ---------------------------------------------------------------------
  // Worked cases
  // ---------------------------------------------------------------------

  /** A `#` string of the wrong length fails: it never reaches the hexadecimal
      path and no colour name starts with `#`. */
  lemma WrongLengthHexFails()
    ensures TryParseAnsiColor("#12345") == None
    ensures TryParseAnsiColor("#1234567") == None
  {
    NoColorNameStartsWithHash("#12345");
    NoColorNameStartsWithHash("#1234567");
  }

  /** A bad digit in an otherwise well-shaped literal fails. */
  lemma BadHexDigitFails()
    ensures TryParseAnsiColor("#GG0000") == None
  {
    NoColorNameStartsWithHash("#GG0000");
    assert !IsHexDigit("#GG0000"[1]);
  }

  /** An unknown name fails: no field name starts with `n`. */
  lemma UnknownNameFails()
    ensures TryParseAnsiColor("not-a-color") == None
  {
    var key := AsciiLower("not-a-color");
    assert key[0] == 'n';
    if key in AnsiColorNames() {
      var c :| c in AnsiColorFields && AsciiLower(FieldName(c)) == key;
      FieldNameStartsWithCapital(c);
      assert false;
    }
    assert LookupColorName("not-a-color") == None;
  }

  /** The empty string fails: no field name is empty. */
  lemma EmptyTextFails()
    ensures TryParseAnsiColor("") == None
  {
    if AsciiLower("") in AnsiColorNames() {
      var c :| c in AnsiColorFields && AsciiLower(FieldName(c)) == [];
      FieldNameStartsWithCapital(c);
      assert false;
    }
    assert LookupColorName("") == None;
  }

  /** Upper- and lower-case digits give the same colour. */
  lemma HexLiteralExamples()
    ensures TryParseAnsiColor("#ff8000") == Some(Rgb(255, 128, 0))
    ensures TryParseAnsiColor("#FF8000") == Some(Rgb(255, 128, 0))
  {
    assert IsHexColorLiteral("#ff8000") && IsHexColorLiteral("#FF8000");
    assert HexPairAt("#ff8000", 1) == HexPairAt("#FF8000", 1) == 255;
    assert HexPairAt("#ff8000", 3) == HexPairAt("#FF8000", 3) == 128;
    assert HexPairAt("#ff8000", 5) == HexPairAt("#FF8000", 5) == 0;
  }

  /** A mixed-case name resolves like its field name. */
  lemma MixedCaseNameExample()
    ensures TryParseAnsiColor("ReD") == Some(Named(Red))
  {
    assert AsciiLower("ReD") == AsciiLower(FieldName(Red));
    FieldNameCasingsResolve("ReD", Red);
  }
}
