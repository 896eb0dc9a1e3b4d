/**
 * Colour generation of the game: one colour is the CSS text
 * `rgb(r, g, b)` of three channels, a palette is a list of such texts, and
 * the win colour is one entry of the palette. The random draws are
 * parameters. `ParseRgb` reads a colour text back; it is the partner that
 * shows that distinct channel triples give distinct texts, which the string
 * comparison of the tile-click handler relies on.
 */
module Colors {
  import opened Wrappers

  /** A channel value: `Math.floor(Math.random() * 256)` lies in [0, 255]. */
  type Channel = x: nat | x < 256

  /** One random draw of the three channels. */
  datatype Rgb = Rgb(red: Channel, green: Channel, blue: Channel)

  predicate IsDigit(c: char) {
    '0' <= c <= '9'
  }

  predicate AllDigits(s: string) {
    forall k :: 0 <= k < |s| ==> IsDigit(s[k])
  }

  function DigitChar(d: nat): (c: char)
    requires d < 10
    ensures IsDigit(c)
  {
    ('0' as int + d) as char
  }

  function DigitValue(c: char): (d: nat)
    requires IsDigit(c)
    ensures d < 10
  {
    c as int - '0' as int
  }

  /** The decimal text of `n`, as JavaScript's string concatenation writes a non-negative integer. */
  function Decimal(n: nat): (s: string)
    ensures s != [] && AllDigits(s)
  {
    if n < 10 then [DigitChar(n)] else Decimal(n / 10) + [DigitChar(n % 10)]
  }

  /** The number a string of decimal digits denotes. */
  function DigitsValue(s: string): nat
    requires AllDigits(s)
  {
    if s == [] then 0 else DigitsValue(s[..|s| - 1]) * 10 + DigitValue(s[|s| - 1])
  }

  lemma {:induction false} DecimalRoundTrip(n: nat)
    ensures DigitsValue(Decimal(n)) == n
  {
    if n >= 10 {
      var s := Decimal(n);
      assert s[..|s| - 1] == Decimal(n / 10);
      DecimalRoundTrip(n / 10);
    }
  }

  /** Length of the longest prefix of `s` made of digits. */
  function DigitRun(s: string): (k: nat)
    ensures k <= |s| && AllDigits(s[..k])
    ensures k < |s| ==> !IsDigit(s[k])
  {
    if s == [] || !IsDigit(s[0]) then 0 else 1 + DigitRun(s[1..])
  }

  /** The leading decimal field of `s` (at least one digit) and the text after it. */
  function Field(s: string): Option<(nat, string)> {
    var k := DigitRun(s);
    if k == 0 then None else Some((DigitsValue(s[..k]), s[k..]))
  }

  /** A leading channel value of `s`, followed by `sep`, and the text after `sep`. */
  function ChannelThen(s: string, sep: string): Option<(Channel, string)> {
    match Field(s)
    case None => None
    case Some((v, t)) =>
      if v < 256 && |sep| <= |t| && t[..|sep|] == sep then Some((v, t[|sep|..])) else None
  }

  /** Reads back a colour text of the form `rgb(r, g, b)`. */
  function ParseRgb(s: string): Option<Rgb> {
    if |s| < 4 || s[..4] != "rgb(" then None
    else
      match ChannelThen(s[4..], ", ")
      case None => None
      case Some((r, t1)) =>
        match ChannelThen(t1, ", ")
        case None => None
        case Some((g, t2)) =>
          match ChannelThen(t2, ")")
          case None => None
          case Some((b, t3)) => if t3 == [] then Some(Rgb(r, g, b)) else None
  }

  /** A text the game uses as a palette colour. */
  predicate IsColorText(s: string) {
    ParseRgb(s).Some?
  }

  /** `generateColor` once its three random channels are drawn: the CSS text `rgb(r, g, b)`. */
  function GenerateColor(red: Channel, green: Channel, blue: Channel): (s: string)
    ensures |s| > 4 && s[..4] == "rgb(" && s[|s| - 1] == ')'
  {
    "rgb(" + Decimal(red) + ", " + Decimal(green) + ", " + Decimal(blue) + ")"
  }

  lemma ChannelThenDecimal(n: Channel, sep: string, rest: string)
    requires sep != [] && !IsDigit(sep[0])
    ensures ChannelThen(Decimal(n) + sep + rest, sep) == Some((n, rest))
  {
    var d := Decimal(n);
    var s := d + sep + rest;
    var k := DigitRun(s);
    assert s[|d|] == sep[0];
    assert forall j :: 0 <= j < |d| ==> s[j] == d[j];
    assert k == |d|;
    assert s[..k] == d;
    DecimalRoundTrip(n);
    assert s[k..] == sep + rest;
  }

  /** Reading a generated colour back gives its channels. */
  lemma ColorRoundTrip(red: Channel, green: Channel, blue: Channel)
    ensures ParseRgb(GenerateColor(red, green, blue)) == Some(Rgb(red, green, blue))
  {
    var s := GenerateColor(red, green, blue);
    var tb := Decimal(blue) + ")";
    var tg := Decimal(green) + ", " + tb;
    var tr := Decimal(red) + ", " + tg;
    assert s == "rgb(" + tr;
    assert Decimal(blue) + ")" + [] == tb;
    ChannelThenDecimal(red, ", ", tg);
    ChannelThenDecimal(green, ", ", tb);
    ChannelThenDecimal(blue, ")", []);
    ParseFields(s, tr, tg, tb, red, green, blue);
  }

  lemma ParseFields(s: string, tr: string, tg: string, tb: string, red: Channel, green: Channel, blue: Channel)
    requires s == "rgb(" + tr
    requires ChannelThen(tr, ", ") == Some((red, tg))
    requires ChannelThen(tg, ", ") == Some((green, tb))
    requires ChannelThen(tb, ")") == Some((blue, []))
    ensures ParseRgb(s) == Some(Rgb(red, green, blue))
  {
    assert s[..4] == "rgb(" && s[4..] == tr;
  }

  /** Distinct channel triples give distinct colour texts. */
  lemma GenerateColorInjective(a: Rgb, b: Rgb)
    requires GenerateColor(a.red, a.green, a.blue) == GenerateColor(b.red, b.green, b.blue)
    ensures a == b
  {
    ColorRoundTrip(a.red, a.green, a.blue);
    ColorRoundTrip(b.red, b.green, b.blue);
  }

  /** The text a wrong click writes is never a palette colour. */
  lemma TransparentIsNoColor()
    ensures !IsColorText("transparent")
  {
    assert "transparent"[..4] != "rgb(" by {
      assert "transparent"[0] == 't';
    }
  }

  /** The colours `generateRandomColors` produces from the given draws, one per draw. */
  function Palette(samples: seq<Rgb>): (colors: seq<string>)
    ensures |colors| == |samples|
    ensures forall k :: 0 <= k < |colors| ==> |colors[k]| > 4 && colors[k][..4] == "rgb("
  {
    seq(|samples|, k requires 0 <= k < |samples| => GenerateColor(samples[k].red, samples[k].green, samples[k].blue))
  }

  /** Every palette entry reads back as the draw it was generated from. */
  lemma PaletteRoundTrip(samples: seq<Rgb>)
    ensures |Palette(samples)| == |samples|
    ensures forall k :: 0 <= k < |samples| ==> ParseRgb(Palette(samples)[k]) == Some(samples[k])
  {
    forall k | 0 <= k < |samples|
      ensures ParseRgb(Palette(samples)[k]) == Some(samples[k])
    {
      ColorRoundTrip(samples[k].red, samples[k].green, samples[k].blue);
    }
  }

  /** `generateRandomColors(numberOfColors)`: exactly that many colours, duplicates kept. */
  method GenerateRandomColors(numberOfColors: nat, samples: seq<Rgb>) returns (colors: seq<string>)
    requires |samples| == numberOfColors
    ensures |colors| == numberOfColors
    ensures colors == Palette(samples)
  {
    colors := [];
    for i := 0 to numberOfColors
      invariant colors == Palette(samples[..i])
    {
      colors := colors + [GenerateColor(samples[i].red, samples[i].green, samples[i].blue)];
    }
    assert samples[..numberOfColors] == samples;
  }

  /** `getWinColor` once its random index is drawn: an entry of the palette. */
  function GetWinColor(colors: seq<string>, pick: nat): (winColor: string)
    requires pick < |colors|
    ensures winColor in colors
  {
    colors[pick]
  }
}
