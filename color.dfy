/** The colour converter (src/routes/api.js:166-179): `#RRGGBB` to the text
    `rgb(r, g, b)` by reading three two-character slices in base 16, and
    `rgb(r, g, b)` back to upper-case `#RRGGBB`. */
module Color {
  import opened JsText

  /** A JavaScript number as `parseInt` produces it: NaN or an integer. */
  datatype Num = NaN | Int(value: int)

  /** `String(n)` / `${n}`: NaN prints as "NaN". */
  function NumText(n: Num): string {
    match n
    case NaN => "NaN"
    case Int(v) => NumberString(v)
  }

  /** `s.slice(from, to)` for 0 <= from <= to: both ends are clamped to the length. */
  function Slice(s: string, from: nat, to: nat): (r: string)
    requires from <= to
    ensures |r| <= to - from
  {
    var i := if from < |s| then from else |s|;
    var j := if to < |s| then to else |s|;
    s[i..j]
  }

  /** The longest prefix of hexadecimal digits. */
  function HexPrefix(s: string): (r: string)
    ensures |r| <= |s| && r == s[..|r|]
    ensures forall i :: 0 <= i < |r| ==> IsHexDigit(r[i])
  {
    if s != [] && IsHexDigit(s[0]) then [s[0]] + HexPrefix(s[1..]) else []
  }

  /** `parseInt(s, 16)`: leading white space is skipped, then an optional sign and
      an optional `0x`/`0X`; the longest run of hex digits that follows is the
      value, and no digits at all give NaN. */
  function ParseIntHex(s: string): Num {
    var t := DropSpaces(s);
    var negative := t != [] && t[0] == '-';
    var u := if t != [] && (t[0] == '-' || t[0] == '+') then t[1..] else t;
    var w := if |u| >= 2 && u[0] == '0' && (u[1] == 'x' || u[1] == 'X') then u[2..] else u;
    var digits := HexPrefix(w);
    var v: int := if digits == [] then 0 else HexValue(digits);
    if digits == [] then NaN else Int(if negative then -v else v)
  }

  /** What the hex branch returns: the three components and the `rgb(...)` text. */
  datatype RgbResult = RgbResult(r: Num, g: Num, b: Num, rgb: string)

  /** The template `rgb(${r}, ${g}, ${b})`. */
  function RgbText(r: Num, g: Num, b: Num): string {
    "rgb(" + (NumText(r) + (", " + (NumText(g) + (", " + (NumText(b) + ")")))))
  }

  /** The hex branch: characters 1-2, 3-4 and 5-6 are read with `parseInt(_, 16)`. */
  function HexToRgb(hex: string): RgbResult {
    var r := ParseIntHex(Slice(hex, 1, 3));
    var g := ParseIntHex(Slice(hex, 3, 5));
    var b := ParseIntHex(Slice(hex, 5, 7));
    RgbResult(r, g, b, RgbText(r, g, b))
  }

  /** The three capture groups of `/rgb\((\d+),\s*(\d+),\s*(\d+)\)/`. */
  datatype Groups = Groups(r: string, g: string, b: string)

  predicate AllDigits(s: string) {
    forall i :: 0 <= i < |s| ==> IsAsciiDigit(s[i])
  }

  /** The longest prefix of decimal digits: `\d+` is greedy, and a shorter run
      would leave a digit where the pattern needs `,` or `)`. */
  function DigitPrefix(s: string): (r: string)
    ensures |r| <= |s| && r == s[..|r|] && AllDigits(r)
  {
    if s != [] && IsAsciiDigit(s[0]) then [s[0]] + DigitPrefix(s[1..]) else []
  }

  /** A group `(\d+)` followed by the character `close`: the digits and what
      follows `close`. */
  datatype Part = Part(digits: string, rest: string)

  function GroupThen(t: string, close: char): (r: Option<Part>)
    ensures r.Some? ==> r.value.digits != [] && AllDigits(r.value.digits)
  {
    var d := DigitPrefix(t);
    var after := t[|d|..];
    if d == [] || after == [] || after[0] != close then None else Some(Part(d, after[1..]))
  }

  /** The pattern tried at the start of `t`; `\s*` between the groups is greedy
      in the same way. */
  function MatchAt(t: string): (m: Option<Groups>)
    ensures m.Some? ==> AllDigits(m.value.r) && AllDigits(m.value.g) && AllDigits(m.value.b)
  {
    if |t| < 4 || t[..4] != "rgb(" then None else AfterOpen(t[4..])
  }

  function AfterOpen(t: string): (m: Option<Groups>)
    ensures m.Some? ==> AllDigits(m.value.r) && AllDigits(m.value.g) && AllDigits(m.value.b)
  {
    match GroupThen(t, ',')
    case None => None
    case Some(red) => AfterRed(red.digits, DropSpaces(red.rest))
  }

  function AfterRed(r: string, t: string): (m: Option<Groups>)
    requires AllDigits(r)
    ensures m.Some? ==> AllDigits(m.value.r) && AllDigits(m.value.g) && AllDigits(m.value.b)
  {
    match GroupThen(t, ',')
    case None => None
    case Some(green) => AfterGreen(r, green.digits, DropSpaces(green.rest))
  }

  function AfterGreen(r: string, g: string, t: string): (m: Option<Groups>)
    requires AllDigits(r) && AllDigits(g)
    ensures m.Some? ==> AllDigits(m.value.r) && AllDigits(m.value.g) && AllDigits(m.value.b)
  {
    match GroupThen(t, ')')
    case None => None
    case Some(blue) => Some(Groups(r, g, blue.digits))
  }

  /** `s.match(re)` without the `g` flag: the first position where the pattern
      matches. */
  function Search(s: string): (m: Option<Groups>)
    ensures m.Some? ==> AllDigits(m.value.r) && AllDigits(m.value.g) && AllDigits(m.value.b)
  {
    match MatchAt(s)
    case Some(groups) => Some(groups)
    case None => if s == [] then None else Search(s[1..])
  }

  /** `parseInt(n).toString(16).padStart(2, '0')` for a string of decimal digits. */
  function ToHex(n: string): string
    requires AllDigits(n)
  {
    PadStart2(HexDigits(DecimalValue(n)))
  }

  function PadStart2(s: string): string {
    if |s| >= 2 then s else seq(2 - |s|, _ => '0') + s
  }

  /** The rgb branch: nothing when the pattern does not match, otherwise the
      upper-cased `#` and the three components in two-digit hex. */
  function RgbToHex(rgb: string): Option<string> {
    match Search(rgb)
    case None => None
    case Some(groups) => Some(Upper("#" + ToHex(groups.r) + ToHex(groups.g) + ToHex(groups.b)))
  }

  // ----- properties

  lemma {:induction false} HexPrefixOf(d: string, rest: string)
    requires forall i :: 0 <= i < |d| ==> IsHexDigit(d[i])
    requires rest == [] || !IsHexDigit(rest[0])
    ensures HexPrefix(d + rest) == d
  {
    if d != [] {
      assert (d + rest)[1..] == d[1..] + rest;
      HexPrefixOf(d[1..], rest);
      assert d == [d[0]] + d[1..];
    } else {
      assert d + rest == rest;
    }
  }

  lemma {:induction false} DigitPrefixOf(d: string, rest: string)
    requires forall i :: 0 <= i < |d| ==> IsAsciiDigit(d[i])
    requires rest == [] || !IsAsciiDigit(rest[0])
    ensures DigitPrefix(d + rest) == d
  {
    if d != [] {
      assert (d + rest)[1..] == d[1..] + rest;
      DigitPrefixOf(d[1..], rest);
      assert d == [d[0]] + d[1..];
    } else {
      assert d + rest == rest;
    }
  }

  /** The byte two hex digits denote, high nibble first. */
  function Byte(hi: char, lo: char): nat
    requires IsHexDigit(hi) && IsHexDigit(lo)
  {
    16 * HexDigitValue(hi) + HexDigitValue(lo)
  }

  lemma HexValueTwo(d: string)
    requires |d| == 2 && IsHexDigit(d[0]) && IsHexDigit(d[1])
    ensures HexValue(d) == 16 * HexDigitValue(d[0]) + HexDigitValue(d[1])
  {
    var first := d[..1];
    assert first == [d[0]] && first[..0] == [];
    assert HexValue(first) == HexDigitValue(d[0]);
    assert d[..|d| - 1] == first;
  }

  /** Two hex digits read as one byte: 16 times the first plus the second. */
  lemma HexPair(a: char, b: char)
    requires IsHexDigit(a) && IsHexDigit(b)
    ensures ParseIntHex([a, b]) == Int(Byte(a, b)) && Byte(a, b) <= 255
  {
    var s := [a, b];
    assert DropSpaces(s) == s;
    HexPrefixOf(s, []);
    assert s + [] == s;
    HexValueTwo(s);
  }

  /** A component slice of at most two characters reads as NaN or as an integer
      from -15 (a sign and one digit) to 255 (two digits). */
  lemma ComponentBounds(s: string)
    requires |s| <= 2
    ensures ParseIntHex(s).NaN? || -15 <= ParseIntHex(s).value <= 255
  {
    var t := DropSpaces(s);
    var u := if t != [] && (t[0] == '-' || t[0] == '+') then t[1..] else t;
    var w := if |u| >= 2 && u[0] == '0' && (u[1] == 'x' || u[1] == 'X') then u[2..] else u;
    var d := HexPrefix(w);
    if d != [] {
      if |d| == 1 {
        assert HexValue(d) == HexDigitValue(d[0]) by { assert d[..0] == []; }
      } else {
        HexValueTwo(d);
      }
    }
  }

  /** Two lower-case hex digits for every byte: `toHex` of 0..255 is exactly two
      characters, high nibble first. */
  lemma ToHexOfByte(v: nat)
    requires v <= 255
    ensures ToHex(DecimalDigits(v)) == [HexChar(v / 16), HexChar(v % 16)]
  {
    DecimalRoundTrip(v);
    if v < 16 {
      assert HexDigits(v) == [HexChar(v)];
      assert PadStart2([HexChar(v)]) == ['0'] + [HexChar(v)];
    } else {
      assert HexDigits(v / 16) == [HexChar(v / 16)];
    }
  }

  lemma GroupThenOf(d: string, close: char, rest: string)
    requires d != [] && AllDigits(d) && !IsAsciiDigit(close)
    ensures GroupThen(d + ([close] + rest), close) == Some(Part(d, rest))
  {
    var t := d + ([close] + rest);
    DigitPrefixOf(d, [close] + rest);
    assert t[|d|..] == [close] + rest;
  }

  lemma DropOneSpace(x: string)
    requires x != [] && !IsSpace(x[0])
    ensures DropSpaces(" " + x) == x
  {
    assert (" " + x)[1..] == x;
  }

  lemma MatchGreen(R: string, G: string, B: string)
    requires AllDigits(R) && G != [] && AllDigits(G) && B != [] && AllDigits(B)
    ensures AfterRed(R, G + (", " + (B + ")"))) == Some(Groups(R, G, B))
  {
    var blue := B + ")";
    assert ", " + blue == [','] + (" " + blue);
    GroupThenOf(G, ',', " " + blue);
    DropOneSpace(blue);
    MatchBlue(R, G, B);
  }

  lemma MatchBlue(R: string, G: string, B: string)
    requires AllDigits(R) && AllDigits(G) && B != [] && AllDigits(B)
    ensures AfterGreen(R, G, B + ")") == Some(Groups(R, G, B))
  {
    GroupThenOf(B, ')', []);
    assert B + ([')'] + []) == B + ")";
  }

  lemma MatchRed(R: string, G: string, B: string)
    requires R != [] && AllDigits(R) && G != [] && AllDigits(G) && B != [] && AllDigits(B)
    ensures AfterOpen(R + (", " + (G + (", " + (B + ")"))))) == Some(Groups(R, G, B))
  {
    var green := G + (", " + (B + ")"));
    assert ", " + green == [','] + (" " + green);
    GroupThenOf(R, ',', " " + green);
    DropOneSpace(green);
    MatchGreen(R, G, B);
  }

  lemma MatchLayout(r: nat, g: nat, b: nat)
    ensures MatchAt(RgbText(Int(r), Int(g), Int(b))) ==
            Some(Groups(DecimalDigits(r), DecimalDigits(g), DecimalDigits(b)))
  {
    var R := DecimalDigits(r);
    var G := DecimalDigits(g);
    var B := DecimalDigits(b);
    var red := R + (", " + (G + (", " + (B + ")"))));
    var t := RgbText(Int(r), Int(g), Int(b));
    assert t == "rgb(" + red;
    assert t[..4] == "rgb(" && t[4..] == red;
    MatchRed(R, G, B);
  }

  /** The `rgb(...)` text of three components is matched at its start, and the
      groups are the components' digits. */
  lemma MatchRgbText(r: nat, g: nat, b: nat)
    ensures Search(RgbText(Int(r), Int(g), Int(b))) ==
            Some(Groups(DecimalDigits(r), DecimalDigits(g), DecimalDigits(b)))
  {
    MatchLayout(r, g, b);
  }

  /** The hex digit `HexChar` writes for a digit's value is that digit up to case. */
  lemma HexCharCase(c: char)
    requires IsHexDigit(c)
    ensures UpperChar(HexChar(HexDigitValue(c))) == UpperChar(c)
  {
  }

  /** The pair `ByteHex` writes for the byte of two hex digits is those digits up
      to case. */
  lemma PairAgree(a: char, b: char)
    requires IsHexDigit(a) && IsHexDigit(b)
    ensures Byte(a, b) <= 255
    ensures UpperChar(HexChar(Byte(a, b) / 16)) == UpperChar(a)
    ensures UpperChar(HexChar(Byte(a, b) % 16)) == UpperChar(b)
  {
    assert Byte(a, b) / 16 == HexDigitValue(a) && Byte(a, b) % 16 == HexDigitValue(b);
    HexCharCase(a);
    HexCharCase(b);
  }

  /** The three bytes of `#RRGGBB`. */
  lemma HexToRgbOfDigits(hex: string)
    requires |hex| >= 7
    requires forall i :: 1 <= i < 7 ==> IsHexDigit(hex[i])
    ensures var r := Byte(hex[1], hex[2]);
      var g := Byte(hex[3], hex[4]);
      var b := Byte(hex[5], hex[6]);
      r <= 255 && g <= 255 && b <= 255 &&
      HexToRgb(hex) == RgbResult(Int(r), Int(g), Int(b), RgbText(Int(r), Int(g), Int(b)))
  {
    assert Slice(hex, 1, 3) == [hex[1], hex[2]];
    assert Slice(hex, 3, 5) == [hex[3], hex[4]];
    assert Slice(hex, 5, 7) == [hex[5], hex[6]];
    HexPair(hex[1], hex[2]);
    HexPair(hex[3], hex[4]);
    HexPair(hex[5], hex[6]);
  }

  function ByteHex(v: nat): string
    requires v <= 255
  {
    [HexChar(v / 16), HexChar(v % 16)]
  }

  /** The hex text of three bytes. */
  lemma RgbToHexOfBytes(r: nat, g: nat, b: nat)
    requires r <= 255 && g <= 255 && b <= 255
    ensures RgbToHex(RgbText(Int(r), Int(g), Int(b))) ==
            Some(Upper("#" + ByteHex(r) + ByteHex(g) + ByteHex(b)))
  {
    MatchRgbText(r, g, b);
    ToHexOfByte(r);
    ToHexOfByte(g);
    ToHexOfByte(b);
  }

  /** From `#RRGGBB` to `rgb(r, g, b)` and back gives `#RRGGBB` in upper case;
      anything after the seventh character is ignored. */
  lemma HexRoundTrip(hex: string)
    requires |hex| >= 7 && hex[0] == '#'
    requires forall i :: 1 <= i < 7 ==> IsHexDigit(hex[i])
    ensures var res := HexToRgb(hex);
      res.r.Int? && res.g.Int? && res.b.Int? &&
      0 <= res.r.value <= 255 && 0 <= res.g.value <= 255 && 0 <= res.b.value <= 255 &&
      RgbToHex(res.rgb) == Some(Upper(hex[..7]))
  {
    var r := Byte(hex[1], hex[2]);
    var g := Byte(hex[3], hex[4]);
    var b := Byte(hex[5], hex[6]);
    HexToRgbOfDigits(hex);
    RgbToHexOfBytes(r, g, b);
    PairAgree(hex[1], hex[2]);
    PairAgree(hex[3], hex[4]);
    PairAgree(hex[5], hex[6]);
    var x := "#" + ByteHex(r) + ByteHex(g) + ByteHex(b);
    SevenChars(r, g, b);
    var y := hex[..7];
    assert y[0] == hex[0] && y[1] == hex[1] && y[2] == hex[2] && y[3] == hex[3];
    assert y[4] == hex[4] && y[5] == hex[5] && y[6] == hex[6];
    UpperAgreeSeven(x, y);
  }

  /** The characters of `#` followed by three byte pairs. */
  lemma SevenChars(r: nat, g: nat, b: nat)
    requires r <= 255 && g <= 255 && b <= 255
    ensures var x := "#" + ByteHex(r) + ByteHex(g) + ByteHex(b);
      |x| == 7 && x[0] == '#' &&
      x[1] == HexChar(r / 16) && x[2] == HexChar(r % 16) &&
      x[3] == HexChar(g / 16) && x[4] == HexChar(g % 16) &&
      x[5] == HexChar(b / 16) && x[6] == HexChar(b % 16)
  {
  }

  /** Seven-character texts that agree character by character up to case
      upper-case alike. */
  lemma UpperAgreeSeven(x: string, y: string)
    requires |x| == 7 && |y| == 7
    requires UpperChar(x[0]) == UpperChar(y[0]) && UpperChar(x[1]) == UpperChar(y[1])
    requires UpperChar(x[2]) == UpperChar(y[2]) && UpperChar(x[3]) == UpperChar(y[3])
    requires UpperChar(x[4]) == UpperChar(y[4]) && UpperChar(x[5]) == UpperChar(y[5])
    requires UpperChar(x[6]) == UpperChar(y[6])
    ensures Upper(x) == Upper(y)
  {
    forall i | 0 <= i < 7 ensures UpperChar(x[i]) == UpperChar(y[i]) {
      if i < 3 {
        assert i == 0 || i == 1 || i == 2;
      } else {
        assert i == 3 || i == 4 || i == 5 || i == 6;
      }
    }
    UpperPointwise(x, y);
  }

  lemma UpperPointwise(x: string, y: string)
    requires |x| == |y| && forall i :: 0 <= i < |x| ==> UpperChar(x[i]) == UpperChar(y[i])
    ensures Upper(x) == Upper(y)
  {
    assert forall i :: 0 <= i < |x| ==> Upper(x)[i] == Upper(y)[i];
  }

  /** From `rgb(r, g, b)` with components 0..255 to hex and back gives the same
      components and the same text. */
  lemma RgbRoundTrip(r: nat, g: nat, b: nat)
    requires r <= 255 && g <= 255 && b <= 255
    ensures var text := RgbText(Int(r), Int(g), Int(b));
      RgbToHex(text).Some? && |RgbToHex(text).value| == 7 &&
      HexToRgb(RgbToHex(text).value) == RgbResult(Int(r), Int(g), Int(b), text)
  {
    RgbToHexOfBytes(r, g, b);
    var hex := Upper("#" + ByteHex(r) + ByteHex(g) + ByteHex(b));
    UpperSeven(r, g, b, hex);
    HexToRgbOfDigits(hex);
  }

  /** The upper-cased hex text of three bytes has hex digits after `#`, and
      its pairs read as the bytes. */
  lemma UpperSeven(r: nat, g: nat, b: nat, hex: string)
    requires r <= 255 && g <= 255 && b <= 255
    requires hex == Upper("#" + ByteHex(r) + ByteHex(g) + ByteHex(b))
    ensures |hex| == 7
    ensures forall i :: 1 <= i < 7 ==> IsHexDigit(hex[i])
    ensures Byte(hex[1], hex[2]) == r && Byte(hex[3], hex[4]) == g && Byte(hex[5], hex[6]) == b
  {
    SevenChars(r, g, b);
    UpperByte(r, hex[1], hex[2]);
    UpperByte(g, hex[3], hex[4]);
    UpperByte(b, hex[5], hex[6]);
    forall i | 1 <= i < 7 ensures IsHexDigit(hex[i]) {
      if i == 1 || i == 2 { } else if i == 3 || i == 4 { } else { }
    }
  }

  /** The upper-cased digits of a byte still read as that byte. */
  lemma UpperByte(v: nat, hi: char, lo: char)
    requires v <= 255 && hi == UpperChar(HexChar(v / 16)) && lo == UpperChar(HexChar(v % 16))
    ensures IsHexDigit(hi) && IsHexDigit(lo) && Byte(hi, lo) == v
  {
  }
}
