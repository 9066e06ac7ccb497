/**
 * Colour helpers of the content script: `hexToRgba` (content.js:25-36) turns a term's
 * `#rgb`/`#rrggbb` colour into the background channels of its highlight spans, and
 * `getContrastColor` (content.js:38-52) picks black or white text by the YIQ brightness.
 */
module Colors {
  import opened Wrappers

  datatype Rgb = Rgb(red: int, green: int, blue: int)

  datatype Shade = Black | White

  /** The yellow `hexToRgba` falls back to for anything that is not a hex colour. */
  const Fallback := Rgb(255, 255, 0)

  predicate IsHexDigit(c: char) {
    '0' <= c <= '9' || 'a' <= c <= 'f' || 'A' <= c <= 'F'
  }

  function HexValue(c: char): (v: nat)
    requires IsHexDigit(c)
    ensures v < 16
  {
    if '0' <= c <= '9' then c as int - '0' as int
    else if 'a' <= c <= 'f' then c as int - 'a' as int + 10
    else c as int - 'A' as int + 10
  }

  /** The test `/^#([A-Fa-f0-9]{3}){1,2}$/`: a `#` and then three or six hex digits. */
  predicate IsHexColor(s: string) {
    (|s| == 4 || |s| == 7) && s[0] == '#' && forall i :: 1 <= i < |s| ==> IsHexDigit(s[i])
  }

  /** Value of a run of hex digits, most significant first (what `'0x' + digits` converts to). */
  function HexNumber(d: string): nat
    requires forall i :: 0 <= i < |d| ==> IsHexDigit(d[i])
  {
    if d == [] then 0 else HexNumber(d[..|d| - 1]) * 16 + HexValue(d[|d| - 1])
  }

  /** The byte written by the two hex digits at `i` and `i + 1`. */
  function Pair(s: string, i: nat): nat
    requires i + 1 < |s| && IsHexDigit(s[i]) && IsHexDigit(s[i + 1])
  {
    HexValue(s[i]) * 16 + HexValue(s[i + 1])
  }

  /** The six digits `hexToRgba` reads: the short form has every digit doubled. */
  function SixDigits(hex: string): (d: string)
    requires IsHexColor(hex)
    ensures |d| == 6 && forall i :: 0 <= i < 6 ==> IsHexDigit(d[i])
  {
    if |hex| == 4 then [hex[1], hex[1], hex[2], hex[2], hex[3], hex[3]] else hex[1..]
  }

  /**
   * The channels `hexToRgba` writes into `rgba(...)`: `(c >> 16) & 255`, `(c >> 8) & 255`
   * and `c & 255` of the 24-bit number, or the yellow fallback.
   */
  function HexToRgb(hex: string): (c: Rgb)
    ensures 0 <= c.red < 256 && 0 <= c.green < 256 && 0 <= c.blue < 256
    ensures !IsHexColor(hex) ==> c == Fallback
  {
    if IsHexColor(hex) then
      var v := HexNumber(SixDigits(hex));
      Rgb(v / 65536 % 256, v / 256 % 256, v % 256)
    else Fallback
  }

  lemma SixDigitValue(d: string)
    requires |d| == 6 && forall i :: 0 <= i < 6 ==> IsHexDigit(d[i])
    ensures HexNumber(d) == Pair(d, 0) * 65536 + Pair(d, 2) * 256 + Pair(d, 4)
  {
    var v := seq(6, i requires 0 <= i < 6 => HexValue(d[i]));
    assert d[..1][..0] == [];
    assert HexNumber(d[..1]) == v[0];
    assert d[..2][..1] == d[..1];
    assert HexNumber(d[..2]) == v[0] * 16 + v[1];
    assert d[..3][..2] == d[..2];
    assert HexNumber(d[..3]) == (v[0] * 16 + v[1]) * 16 + v[2];
    assert d[..4][..3] == d[..3];
    assert HexNumber(d[..4]) == ((v[0] * 16 + v[1]) * 16 + v[2]) * 16 + v[3];
    assert d[..5][..4] == d[..4];
    assert HexNumber(d[..5]) == (((v[0] * 16 + v[1]) * 16 + v[2]) * 16 + v[3]) * 16 + v[4];
    assert d[..6] == d && d[..5] == d[..|d| - 1];
  }

  /** Each channel is the byte written by its own pair of digits. */
  lemma HexToRgbChannels(hex: string)
    requires IsHexColor(hex)
    ensures var d := SixDigits(hex);
            HexToRgb(hex) == Rgb(Pair(d, 0), Pair(d, 2), Pair(d, 4))
  {
    var d := SixDigits(hex);
    SixDigitValue(d);
    ByteSplit(Pair(d, 0), Pair(d, 2), Pair(d, 4));
  }

  /** The shifts and masks of `hexToRgba` recover the three bytes of a 24-bit number. */
  lemma ByteSplit(a: nat, b: nat, c: nat)
    requires a < 256 && b < 256 && c < 256
    ensures var v := a * 65536 + b * 256 + c;
            v / 65536 % 256 == a && v / 256 % 256 == b && v % 256 == c
  {
    var v := a * 65536 + b * 256 + c;
    assert v / 65536 == a;
    assert v / 256 == a * 256 + b;
  }

  /** `#abc` is read as `#aabbcc`. */
  lemma ShortFormDoubles(hex: string)
    requires IsHexColor(hex) && |hex| == 4
    ensures var long := ['#', hex[1], hex[1], hex[2], hex[2], hex[3], hex[3]];
            IsHexColor(long) && HexToRgb(hex) == HexToRgb(long)
            && HexToRgb(hex) == Rgb(HexValue(hex[1]) * 17, HexValue(hex[2]) * 17, HexValue(hex[3]) * 17)
  {
    var long := ['#', hex[1], hex[1], hex[2], hex[2], hex[3], hex[3]];
    assert SixDigits(long) == SixDigits(hex);
    HexToRgbChannels(hex);
  }

  /** The characters JavaScript's `parseInt` skips before a number (white space and line terminators). */
  predicate IsJsSpace(c: char) {
    c == '\t' || c == '\n' || c == '\U{000B}' || c == '\U{000C}' || c == '\r' || c == ' '
    || c == '\U{00A0}' || c == '\U{1680}' || '\U{2000}' <= c <= '\U{200A}' || c == '\U{2028}'
    || c == '\U{2029}' || c == '\U{202F}' || c == '\U{205F}' || c == '\U{3000}' || c == '\U{FEFF}'
  }

  function TrimStart(s: string): (r: string)
    ensures |r| <= |s| && (r != [] ==> !IsJsSpace(r[0]))
  {
    if s != [] && IsJsSpace(s[0]) then TrimStart(s[1..]) else s
  }

  /** The longest prefix of hex digits. */
  function HexPrefix(s: string): (r: string)
    ensures |r| <= |s| && r == s[..|r|] && forall i :: 0 <= i < |r| ==> IsHexDigit(r[i])
  {
    if s != [] && IsHexDigit(s[0]) then [s[0]] + HexPrefix(s[1..]) else []
  }

  /**
   * `parseInt(s, 16)`: skip leading white space, take one sign, drop a `0x`/`0X` prefix,
   * read the longest run of hex digits; `None` stands for `NaN` (no digit at all).
   */
  function ParseHex(s: string): (r: Option<int>)
  {
    var t := TrimStart(s);
    var negative := t != [] && t[0] == '-';
    var u := if t != [] && (t[0] == '-' || t[0] == '+') then t[1..] else t;
    var w := if |u| >= 2 && u[0] == '0' && (u[1] == 'x' || u[1] == 'X') then u[2..] else u;
    var digits := HexPrefix(w);
    if digits == [] then None
    else Some(if negative then -(HexNumber(digits) as int) else HexNumber(digits) as int)
  }

  lemma ParseHexPair(a: char, b: char)
    requires IsHexDigit(a) && IsHexDigit(b)
    ensures ParseHex([a, b]) == Some(HexValue(a) * 16 + HexValue(b))
  {
    var t := [a, b];
    assert TrimStart(t) == t;
    assert !(t[0] == '-' || t[0] == '+');
    assert !(t[0] == '0' && (t[1] == 'x' || t[1] == 'X'));
    PairDigits(a, b);
  }

  lemma PairDigits(a: char, b: char)
    requires IsHexDigit(a) && IsHexDigit(b)
    ensures HexPrefix([a, b]) == [a, b] && HexNumber([a, b]) == HexValue(a) * 16 + HexValue(b)
  {
    var t := [a, b];
    assert t[1..] == [b] && [b][1..] == [];
    assert HexPrefix([b]) == [b];
    assert t[..1] == [a] && [a][..0] == [];
    assert HexNumber([a]) == HexValue(a);
  }

  /**
   * `getContrastColor`: channels from `parseInt` of the doubled digit (length 4) or of the
   * digit pair (length 7), all zero for any other length; the `#` is not checked. A `NaN`
   * channel makes `yiq >= 128` false. `yiq / 1000 >= 128` is the integer test `yiq >= 128000`.
   */
  function ContrastColor(hex: string): (shade: Shade)
    ensures |hex| != 4 && |hex| != 7 ==> shade == White
  {
    var r := if |hex| == 4 then ParseHex([hex[1], hex[1]]) else if |hex| == 7 then ParseHex(hex[1..3]) else Some(0);
    var g := if |hex| == 4 then ParseHex([hex[2], hex[2]]) else if |hex| == 7 then ParseHex(hex[3..5]) else Some(0);
    var b := if |hex| == 4 then ParseHex([hex[3], hex[3]]) else if |hex| == 7 then ParseHex(hex[5..7]) else Some(0);
    if r.Some? && g.Some? && b.Some? && r.value * 299 + g.value * 587 + b.value * 114 >= 128000
    then Black
    else White
  }

  /**
   * On a hex colour `getContrastColor` reads the same channels as `hexToRgba`, so the text is
   * black exactly when the YIQ brightness of the highlight's colour reaches 128.
   */
  lemma ContrastMatchesChannels(hex: string)
    requires IsHexColor(hex)
    ensures var c := HexToRgb(hex);
            ContrastColor(hex) == (if 299 * c.red + 587 * c.green + 114 * c.blue >= 128000 then Black else White)
  {
    HexToRgbChannels(hex);
    var d := SixDigits(hex);
    if |hex| == 4 {
      ParseHexPair(hex[1], hex[1]);
      ParseHexPair(hex[2], hex[2]);
      ParseHexPair(hex[3], hex[3]);
    } else {
      assert hex[1..3] == [d[0], d[1]] && hex[3..5] == [d[2], d[3]] && hex[5..7] == [d[4], d[5]];
      ParseHexPair(d[0], d[1]);
      ParseHexPair(d[2], d[3]);
      ParseHexPair(d[4], d[5]);
    }
  }
}
