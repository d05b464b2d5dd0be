/**
 * Design tokens: the `colors` table and the `hexToRgba` helper, which reads a
 * `#RRGGBB` colour two hex digits at a time and writes the CSS text
 * `rgba(r, g, b, alpha)`.
 *
 * `parseInt(text, 16)` is modelled on strings of one to 13 hex digits,
 * which include the only inputs `hexToRgba` hands it when the colour is
 * well formed: two-digit slices. The
 * `alpha` argument is carried as the text its template-literal conversion
 * produces; `None` stands for an omitted argument, which defaults to 1.
 */
module Tokens {
  import opened Options

  // ---------------------------------------------------------------------
  // Hex digits, as `parseInt(_, 16)` reads them
  // ---------------------------------------------------------------------

  predicate IsHexDigit(c: char) {
    ('0' <= c <= '9') || ('a' <= c <= 'f') || ('A' <= c <= 'F')
  }

  predicate IsUpperHexLetter(c: char) {
    'A' <= c <= 'F'
  }

  predicate AllHexDigits(s: string) {
    forall i :: 0 <= i < |s| ==> IsHexDigit(s[i])
  }

  /** Lower-cases the letters A to F; every other character is kept. */
  function LowerHex(c: char): (l: char)
    ensures IsHexDigit(c) <==> IsHexDigit(l)
    ensures !IsUpperHexLetter(l)
    ensures !IsUpperHexLetter(c) ==> l == c
  {
    if IsUpperHexLetter(c) then (c as int - 'A' as int + 'a' as int) as char else c
  }

  /** Lower-case hex digit of a value below 16: what a `#rrggbb` encoder writes. */
  function HexDigitChar(d: nat): (c: char)
    requires d < 16
    ensures IsHexDigit(c) && !IsUpperHexLetter(c)
  {
    if d < 10 then ('0' as int + d) as char else ('a' as int + d - 10) as char
  }

  /**
   * Radix-16 value of one digit, in either case: the value whose
   * lower-case digit is this digit lower-cased.
   */
  function HexDigitValue(c: char): (v: nat)
    requires IsHexDigit(c)
    ensures v < 16
    ensures HexDigitChar(v) == LowerHex(c)
  {
    if '0' <= c <= '9' then c as int - '0' as int
    else if 'a' <= c <= 'f' then c as int - 'a' as int + 10
    else c as int - 'A' as int + 10
  }

  /** Reading back a digit the encoder wrote gives the value it encoded. */
  lemma DigitRoundTrip(d: nat)
    requires d < 16
    ensures HexDigitValue(HexDigitChar(d)) == d
  {
  }

  /** Upper- and lower-case forms of a digit have the same value. */
  lemma DigitCaseInsensitive(c: char, e: char)
    requires IsHexDigit(c) && IsHexDigit(e)
    ensures HexDigitValue(c) == HexDigitValue(e) <==> LowerHex(c) == LowerHex(e)
  {
    if LowerHex(c) == LowerHex(e) {
      DigitRoundTrip(HexDigitValue(c));
      DigitRoundTrip(HexDigitValue(e));
    }
  }

  function Pow16(k: nat): (p: nat)
    ensures p >= 1
  {
    if k == 0 then 1 else 16 * Pow16(k - 1)
  }

  /**
   * `parseInt(s, 16)` on a non-empty string of at most 13 hex digits: the
   * digits read most significant first. Up to 13 digits the value is below
   * 16^13 = 2^52, so the double `parseInt` returns holds it exactly. A
   * number of k digits is below 16^k.
   */
  function ParseHex(s: string): (n: nat)
    requires 1 <= |s| <= 13 && AllHexDigits(s)
    ensures n < Pow16(|s|)
    decreases |s|
  {
    if |s| == 1 then HexDigitValue(s[0])
    else 16 * ParseHex(s[..|s| - 1]) + HexDigitValue(s[|s| - 1])
  }

  /** A two-digit string is read as sixteen times its first digit plus its second. */
  lemma ParsePair(s: string)
    requires |s| == 2 && AllHexDigits(s)
    ensures ParseHex(s) == 16 * HexDigitValue(s[0]) + HexDigitValue(s[1])
  {
    assert s[..1] == [s[0]];
  }

  // ---------------------------------------------------------------------
  // Decoding `#RRGGBB`
  // ---------------------------------------------------------------------

  /**
   * What `hexToRgba` needs of its colour: characters 1 to 6 are hex digits
   * in either case. JavaScript slices a string by UTF-16 code units, so
   * character 0 (normally '#') must take one code unit, that is, lie below
   * U+10000; then the slices are characters 1-2, 3-4 and 5-6. Character 0
   * is read only for that width, and anything after character 6 is never
   * read.
   */
  predicate WellFormed(hex: string) {
    |hex| >= 7 && hex[0] as int < 0x1_0000 &&
    forall i :: 1 <= i < 7 ==> IsHexDigit(hex[i])
  }

  /**
   * The length of a string in UTF-16 code units, the unit JavaScript's
   * `slice` counts: one for a character below U+10000, two for any other.
   */
  function Utf16Length(s: string): nat {
    if s == [] then 0
    else Utf16Length(s[..|s| - 1]) + (if s[|s| - 1] as int < 0x1_0000 then 1 else 2)
  }

  lemma {:induction false} WellFormedPrefixWidth(hex: string, i: nat)
    requires WellFormed(hex) && i <= 7
    ensures Utf16Length(hex[..i]) == i
  {
    if i > 0 {
      WellFormedPrefixWidth(hex, i - 1);
      assert hex[..i][..i - 1] == hex[..i - 1];
    }
  }

  /**
   * On a well-formed colour the first i characters take i code units, for
   * every i up to 7, so `hex.slice(1, 3)`, `hex.slice(3, 5)` and
   * `hex.slice(5, 7)` are characters 1-2, 3-4 and 5-6.
   */
  lemma SlicesFallOnCharacters(hex: string)
    requires WellFormed(hex)
    ensures forall i :: 0 <= i <= 7 ==> Utf16Length(hex[..i]) == i
  {
    forall i | 0 <= i <= 7
      ensures Utf16Length(hex[..i]) == i
    {
      WellFormedPrefixWidth(hex, i);
    }
  }

  /**
   * A character 0 outside the Basic Multilingual Plane takes two code
   * units, which would shift every slice by one; `WellFormed` rejects it.
   */
  lemma WideFirstCharacterShifts(hex: string)
    requires |hex| >= 1 && hex[0] as int >= 0x1_0000
    ensures Utf16Length(hex[..1]) == 2
    ensures !WellFormed(hex)
  {
    assert hex[..1][..0] == [];
  }

  datatype Rgb = Rgb(r: nat, g: nat, b: nat)

  predicate InRange(c: Rgb) {
    c.r < 256 && c.g < 256 && c.b < 256
  }

  /**
   * The three channels `hexToRgba` decodes, each `parseInt` of a two-character
   * slice: `hex.slice(1, 3)`, `hex.slice(3, 5)` and `hex.slice(5, 7)`.
   */
  function Channels(hex: string): (c: Rgb)
    requires WellFormed(hex)
    ensures InRange(c)
    ensures c.r == 16 * HexDigitValue(hex[1]) + HexDigitValue(hex[2])
    ensures c.g == 16 * HexDigitValue(hex[3]) + HexDigitValue(hex[4])
    ensures c.b == 16 * HexDigitValue(hex[5]) + HexDigitValue(hex[6])
  {
    ParsePair(hex[1..3]);
    ParsePair(hex[3..5]);
    ParsePair(hex[5..7]);
    Rgb(ParseHex(hex[1..3]), ParseHex(hex[3..5]), ParseHex(hex[5..7]))
  }

  /** `#rrggbb` with lower-case digits: the encoder `Channels` inverts. */
  function ToHex(c: Rgb): (hex: string)
    requires InRange(c)
    ensures WellFormed(hex) && |hex| == 7 && hex[0] == '#'
    ensures forall i :: 1 <= i < 7 ==> !IsUpperHexLetter(hex[i])
  {
    ['#',
     HexDigitChar(c.r / 16), HexDigitChar(c.r % 16),
     HexDigitChar(c.g / 16), HexDigitChar(c.g % 16),
     HexDigitChar(c.b / 16), HexDigitChar(c.b % 16)]
  }

  /** Decoding an encoded colour gives back its channels. */
  lemma DecodeEncode(c: Rgb)
    requires InRange(c)
    ensures Channels(ToHex(c)) == c
  {
    var hex := ToHex(c);
    DigitRoundTrip(c.r / 16);
    DigitRoundTrip(c.r % 16);
    DigitRoundTrip(c.g / 16);
    DigitRoundTrip(c.g % 16);
    DigitRoundTrip(c.b / 16);
    DigitRoundTrip(c.b % 16);
  }

  /** Encoding the channels of a lower-case `#rrggbb` colour gives back its first seven characters. */
  lemma EncodeDecode(hex: string)
    requires WellFormed(hex) && hex[0] == '#'
    requires forall i :: 1 <= i < 7 ==> !IsUpperHexLetter(hex[i])
    ensures ToHex(Channels(hex)) == hex[..7]
  {
    var c := Channels(hex);
    PairDigits(hex[1], hex[2]);
    PairDigits(hex[3], hex[4]);
    PairDigits(hex[5], hex[6]);
  }

  /** The two digits of a channel are recovered by division and remainder by 16. */
  lemma PairDigits(hi: char, lo: char)
    requires IsHexDigit(hi) && IsHexDigit(lo)
    requires !IsUpperHexLetter(hi) && !IsUpperHexLetter(lo)
    ensures var v := 16 * HexDigitValue(hi) + HexDigitValue(lo);
      v < 256 && HexDigitChar(v / 16) == hi && HexDigitChar(v % 16) == lo
  {
    var v := 16 * HexDigitValue(hi) + HexDigitValue(lo);
    assert v / 16 == HexDigitValue(hi) && v % 16 == HexDigitValue(lo);
  }

  /** Upper- and lower-case spellings of the same colour decode to the same channels. */
  lemma CaseInsensitive(h1: string, h2: string)
    requires WellFormed(h1) && WellFormed(h2)
    requires forall i :: 1 <= i < 7 ==> LowerHex(h1[i]) == LowerHex(h2[i])
    ensures Channels(h1) == Channels(h2)
  {
    forall i | 1 <= i < 7
      ensures HexDigitValue(h1[i]) == HexDigitValue(h2[i])
    {
      DigitCaseInsensitive(h1[i], h2[i]);
    }
  }

  // ---------------------------------------------------------------------
  // Writing `rgba(r, g, b, alpha)`
  // ---------------------------------------------------------------------

  predicate IsDecimalDigit(c: char) {
    '0' <= c <= '9'
  }

  predicate AllDecimalDigits(s: string) {
    forall i :: 0 <= i < |s| ==> IsDecimalDigit(s[i])
  }

  /** The number a string of decimal digits denotes, most significant first. */
  function DecimalValue(s: string): nat
    requires AllDecimalDigits(s)
  {
    if s == [] then 0
    else 10 * DecimalValue(s[..|s| - 1]) + (s[|s| - 1] as int - '0' as int)
  }

  /**
   * A non-negative integer below 10^21, such as a channel, as a template
   * literal writes it: base 10 without leading zeros, denoting the number it
   * was made from. (From 10^21 on JavaScript writes exponent notation,
   * which no channel reaches.)
   */
  function DecimalString(n: nat): (s: string)
    ensures |s| >= 1 && AllDecimalDigits(s)
    ensures s[0] == '0' <==> n == 0
    ensures DecimalValue(s) == n
    decreases n
  {
    var last := ('0' as int + n % 10) as char;
    if n < 10 then [last] else
      var prefix := DecimalString(n / 10);
      assert (prefix + [last])[..|prefix|] == prefix;
      prefix + [last]
  }

  /** Two numbers with the same decimal text are the same number. */
  lemma DecimalStringInjective(m: nat, n: nat)
    requires DecimalString(m) == DecimalString(n)
    ensures m == n
  {
  }

  /** `${alpha}` for the optional argument; an omitted one is the default 1. */
  function AlphaText(alpha: Option<string>): (t: string)
    ensures alpha.None? ==> t == "1"
    ensures alpha.Some? ==> t == alpha.value
  {
    alpha.GetOr("1")
  }

  /** The length of the longest prefix of `s` made of decimal digits. */
  function DigitRun(s: string): (k: nat)
    ensures k <= |s|
    ensures forall i :: 0 <= i < k ==> IsDecimalDigit(s[i])
    ensures k < |s| ==> !IsDecimalDigit(s[k])
  {
    if s == [] || !IsDecimalDigit(s[0]) then 0 else 1 + DigitRun(s[1..])
  }

  /** A digit string followed by a non-digit is exactly the digit run. */
  lemma {:induction false} DigitRunOf(d: string, rest: string)
    requires AllDecimalDigits(d)
    requires rest != [] && !IsDecimalDigit(rest[0])
    ensures DigitRun(d + rest) == |d|
    decreases |d|
  {
    if d != [] {
      assert (d + rest)[1..] == d[1..] + rest;
      DigitRunOf(d[1..], rest);
    }
  }

  /** Reads one channel field `<digits>, ` off the front of `s`. */
  function ReadField(s: string): Option<(nat, string)> {
    var k := DigitRun(s);
    if 1 <= k && k + 2 <= |s| && s[k..k + 2] == ", "
    then Some((DecimalValue(s[..k]), s[k + 2..]))
    else None
  }

  lemma ReadFieldOf(n: nat, rest: string)
    ensures ReadField(Field(n, rest)) == Some((n, rest))
  {
    var d := DecimalString(n);
    var s := Field(n, rest);
    assert s == d + (", " + rest);
    DigitRunOf(d, ", " + rest);
    assert s[..|d|] == d;
    assert s[|d|..|d| + 2] == ", ";
    assert s[|d| + 2..] == rest;
  }

  /** Reads the three channel fields and the alpha text that follows them. */
  function ParseFields(body: string): Option<(Rgb, string)> {
    match ReadField(body)
    case None => None
    case Some((r, afterR)) =>
      match ReadField(afterR)
      case None => None
      case Some((g, afterG)) =>
        match ReadField(afterG)
        case None => None
        case Some((b, alphaText)) => Some((Rgb(r, g, b), alphaText))
  }

  /**
   * Reads `rgba(r, g, b, alpha)` back into its channels and the alpha text:
   * the decimal fields are read from the left, and the alpha text is what
   * lies between the third separator and the closing parenthesis.
   */
  function ParseRgba(s: string): Option<(Rgb, string)> {
    if |s| < 6 || s[..5] != "rgba(" || s[|s| - 1] != ')' then None
    else ParseFields(s[5..|s| - 1])
  }

  /** One channel field: the channel in decimal, then the separator `, `. */
  function Field(n: nat, rest: string): string {
    DecimalString(n) + ", " + rest
  }

  /** The text `rgba(r, g, b, alpha)`. */
  function Serialize(c: Rgb, alphaText: string): string {
    "rgba(" + DecimalString(c.r) + ", " + DecimalString(c.g) + ", " +
    DecimalString(c.b) + ", " + alphaText + ")"
  }

  lemma SerializeShape(c: Rgb, alphaText: string)
    ensures Serialize(c, alphaText) == "rgba(" + Field(c.r, Field(c.g, Field(c.b, alphaText))) + ")"
  {
  }

  lemma UnwrapRgba(body: string)
    ensures var s := "rgba(" + body + ")";
      |s| >= 6 && s[..5] == "rgba(" && s[|s| - 1] == ')' && s[5..|s| - 1] == body
  {
  }

  lemma FieldsParse(c: Rgb, alphaText: string)
    ensures ParseFields(Field(c.r, Field(c.g, Field(c.b, alphaText)))) == Some((c, alphaText))
  {
    ReadFieldOf(c.r, Field(c.g, Field(c.b, alphaText)));
    ReadFieldOf(c.g, Field(c.b, alphaText));
    ReadFieldOf(c.b, alphaText);
  }

  /** Reading the text back gives the channels and the alpha text it was written from. */
  lemma SerializeParses(c: Rgb, alphaText: string)
    ensures ParseRgba(Serialize(c, alphaText)) == Some((c, alphaText))
  {
    var body := Field(c.r, Field(c.g, Field(c.b, alphaText)));
    SerializeShape(c, alphaText);
    UnwrapRgba(body);
    FieldsParse(c, alphaText);
  }

  /** `hexToRgba(hex, alpha)`: the CSS text of the decoded colour. */
  function HexToRgba(hex: string, alpha: Option<string>): string
    requires WellFormed(hex)
  {
    Serialize(Channels(hex), AlphaText(alpha))
  }

  /** The output reads back as the channels at characters 1-2, 3-4 and 5-6 and the alpha text. */
  lemma HexToRgbaParses(hex: string, alpha: Option<string>)
    requires WellFormed(hex)
    ensures ParseRgba(HexToRgba(hex, alpha)) == Some((Channels(hex), AlphaText(alpha)))
  {
    SerializeParses(Channels(hex), AlphaText(alpha));
  }

  lemma SerializeOf(c: Rgb, r: nat, g: nat, b: nat, alphaText: string)
    requires c.r == r && c.g == g && c.b == b
    ensures Serialize(c, alphaText) ==
      "rgba(" + DecimalString(r) + ", " + DecimalString(g) + ", " +
      DecimalString(b) + ", " + alphaText + ")"
  {
  }

  /**
   * The exact text written: each channel in decimal, computed from its two
   * hex digits, then the alpha text.
   */
  lemma OutputText(hex: string, alpha: Option<string>, r: nat, g: nat, b: nat)
    requires WellFormed(hex)
    requires r == 16 * HexDigitValue(hex[1]) + HexDigitValue(hex[2])
    requires g == 16 * HexDigitValue(hex[3]) + HexDigitValue(hex[4])
    requires b == 16 * HexDigitValue(hex[5]) + HexDigitValue(hex[6])
    ensures HexToRgba(hex, alpha) ==
      "rgba(" + DecimalString(r) + ", " + DecimalString(g) + ", " +
      DecimalString(b) + ", " + AlphaText(alpha) + ")"
  {
    assert HexToRgba(hex, alpha) == Serialize(Channels(hex), AlphaText(alpha));
    SerializeOf(Channels(hex), r, g, b, AlphaText(alpha));
  }


  /** Omitting `alpha` is the same as passing 1. */
  lemma DefaultAlpha(hex: string)
    requires WellFormed(hex)
    ensures HexToRgba(hex, None) == HexToRgba(hex, Some("1"))
  {
  }

  /** Only characters 1 to 6 of the colour affect the output. */
  lemma OnlyDigitsRead(h1: string, h2: string, alpha: Option<string>)
    requires WellFormed(h1) && WellFormed(h2)
    requires h1[1..7] == h2[1..7]
    ensures HexToRgba(h1, alpha) == HexToRgba(h2, alpha)
  {
    assert forall i :: 1 <= i < 7 ==> h1[i] == h1[1..7][i - 1] == h2[i];
    assert Channels(h1) == Channels(h2);
  }

  /** The output text determines the decoded colour and the alpha text. */
  lemma OutputDeterminesColour(h1: string, a1: Option<string>, h2: string, a2: Option<string>)
    requires WellFormed(h1) && WellFormed(h2)
    ensures HexToRgba(h1, a1) == HexToRgba(h2, a2) ==>
      Channels(h1) == Channels(h2) && AlphaText(a1) == AlphaText(a2)
  {
    HexToRgbaParses(h1, a1);
    HexToRgbaParses(h2, a2);
  }

  /** Encoding any in-range colour as `#rrggbb` and converting it writes exactly its channels. */
  lemma RoundTripText(c: Rgb, alpha: Option<string>)
    requires InRange(c)
    ensures HexToRgba(ToHex(c), alpha) ==
      "rgba(" + DecimalString(c.r) + ", " + DecimalString(c.g) + ", " +
      DecimalString(c.b) + ", " + AlphaText(alpha) + ")"
  {
    DecodeEncode(c);
  }

  // ---------------------------------------------------------------------
  // The `colors` table
  // ---------------------------------------------------------------------

  /** The keys of the `colors` object. */
  datatype ColorName =
    | Primary | Secondary | Success | Error | Text | TextLight | TextDisabled
    | Bg | BgLight | BgTertiary | Border

  /** The `colors` object: the colour string stored under each key. */
  function Colors(name: ColorName): string {
    match name
    case Primary => "#0ea5e9"
    case Secondary => "#a855f7"
    case Success => "#10b981"
    case Error => "#ef4444"
    case Text => "#171717"
    case TextLight => "#737373"
    case TextDisabled => "#a3a3a3"
    case Bg => "#ffffff"
    case BgLight => "#fafafa"
    case BgTertiary => "#f5f5f5"
    case Border => "#e5e5e5"
  }

  /** `#` followed by six lower-case hex digits. */
  predicate IsLowerHexColor(s: string) {
    WellFormed(s) && |s| == 7 && s[0] == '#' &&
    forall i :: 1 <= i < 7 ==> !IsUpperHexLetter(s[i])
  }

  /** Every entry of the table is `#` and six lower-case hex digits, so `hexToRgba` accepts it. */
  lemma ColorsWellFormed(name: ColorName)
    ensures IsLowerHexColor(Colors(name))
  {
  }

  /** The primary colour converts to `rgba(14, 165, 233, 1)`. */
  lemma PrimaryToRgba()
    ensures WellFormed(Colors(Primary))
    ensures HexToRgba(Colors(Primary), None) == "rgba(14, 165, 233, 1)"
  {
    var hex := Colors(Primary);
    assert Channels(hex) == Rgb(14, 165, 233);
    assert DecimalString(14) == "14";
    assert DecimalString(165) == "165";
    assert DecimalString(233) == "233";
    OutputText(hex, None, 14, 165, 233);
  }
}
