/**
 Colour text helpers the gradient libraries and the colour pickers share:
 reading the channels out of a hex colour, printing `rgba(...)`, printing a
 colour back as `#rrggbb`, and drawing a random `#RRGGBB` colour.
 */
module ColorCodec {
  import opened Js
  import opened GradientModel

  /** Three channels as parseInt left them: a number, or NaN when no digit was read. */
  datatype Rgb = Rgb(r: JsInt, g: JsInt, b: JsInt)

  // ---------------------------------------------------------------------
  // Reading channels

  /** `parseInt(color.slice(from, from + 2), 16)`. */
  function Channel(color: string, from: nat): JsInt
  {
    ParseHex(Slice(color, from, from + 2))
  }

  lemma ChannelOfPair(color: string, from: nat)
    requires from + 1 < |color| && IsHexDigit(color[from]) && IsHexDigit(color[from + 1])
    ensures Channel(color, from) == Num(PairValue(color, from))
  {
    ParseHexSlice(color, from);
  }

  /** `hex.replace(/^#/, '')`: one leading '#' comes off. */
  function StripHash(hex: string): string
  {
    if |hex| > 0 && hex[0] == '#' then hex[1..] else hex
  }

  /** The hex parser of the client library and picker: three digits are doubled, six
      digits are read as three pairs, any other length is black. */
  function HexToRgb(hex: string): Rgb
  {
    var h := StripHash(hex);
    if |h| == 3 then
      Rgb(ParseHex([h[0], h[0]]), ParseHex([h[1], h[1]]), ParseHex([h[2], h[2]]))
    else if |h| == 6 then
      Rgb(Channel(h, 0), Channel(h, 2), Channel(h, 4))
    else
      Rgb(Num(0), Num(0), Num(0))
  }

  lemma HexToRgbSix(hex: string, h: string)
    requires StripHash(hex) == h && |h| == 6
    ensures HexToRgb(hex) == Rgb(Channel(h, 0), Channel(h, 2), Channel(h, 4))
  {
  }

  lemma HexToRgbThree(hex: string, h: string)
    requires StripHash(hex) == h && |h| == 3
    ensures HexToRgb(hex) == Rgb(ParseHex([h[0], h[0]]), ParseHex([h[1], h[1]]), ParseHex([h[2], h[2]]))
  {
  }

  lemma StripHashOf(h: string)
    ensures StripHash("#" + h) == h
  {
    assert ("#" + h)[1..] == h;
  }

  /** A `#RRGGBB` colour reads as the bytes its three digit pairs spell. */
  lemma HexToRgbLong(hex: string)
    requires IsHexColor(hex)
    ensures HexToRgb(hex) == Rgb(Num(PairValue(hex, 1)), Num(PairValue(hex, 3)), Num(PairValue(hex, 5)))
  {
    ShiftedPair(hex, 0, 1);
    ShiftedPair(hex, 2, 3);
    ShiftedPair(hex, 4, 5);
    ReadSix(hex, hex[1..], Num(PairValue(hex, 1)), Num(PairValue(hex, 3)), Num(PairValue(hex, 5)));
  }

  lemma ReadSix(hex: string, h: string, x: JsInt, y: JsInt, z: JsInt)
    requires |hex| > 0 && hex[0] == '#' && h == hex[1..] && |h| == 6
    requires Channel(h, 0) == x && Channel(h, 2) == y && Channel(h, 4) == z
    ensures HexToRgb(hex) == Rgb(x, y, z)
  {
    HexToRgbSix(hex, h);
  }

  /** The pair at i after the '#' is the pair at i + 1 of the whole colour. */
  lemma ShiftedPair(hex: string, i: nat, j: nat)
    requires j == i + 1 && j + 1 < |hex| && IsHexDigit(hex[j]) && IsHexDigit(hex[j + 1])
    ensures Channel(hex[1..], i) == Num(PairValue(hex, j))
  {
    var h := hex[1..];
    assert h[i] == hex[i + 1] && h[i + 1] == hex[i + 2];
    ChannelOfPair(h, i);
  }

  /** A `#RGB` colour reads each digit twice: the channel is 17 times the digit. */
  lemma HexToRgbShort(hex: string)
    requires IsHexInput(hex) && |hex| == 4
    ensures HexToRgb(hex) == Rgb(Num(17 * HexDigitValue(hex[1])), Num(17 * HexDigitValue(hex[2])),
                                 Num(17 * HexDigitValue(hex[3])))
  {
    var h := hex[1..];
    HexToRgbThree(hex, h);
    DoubledDigit(h[0]);
    DoubledDigit(h[1]);
    DoubledDigit(h[2]);
  }

  /** `parseInt(d + d, 16)` for a hex digit d. */
  lemma DoubledDigit(d: char)
    requires IsHexDigit(d)
    ensures ParseHex([d, d]) == Num(17 * HexDigitValue(d))
  {
    ParseHexPair([d, d]);
  }

  /** The '#' is optional: the digits alone read the same. */
  lemma HashOptional(digits: string)
    requires |digits| > 0 && digits[0] != '#'
    ensures HexToRgb("#" + digits) == HexToRgb(digits)
  {
    assert ("#" + digits)[1..] == digits;
  }

  /** Every text the hex input pattern accepts yields three channels in 0..255. */
  lemma HexInputChannels(hex: string)
    requires IsHexInput(hex)
    ensures var c := HexToRgb(hex);
            && c.r.Num? && c.g.Num? && c.b.Num?
            && 0 <= c.r.n < 256 && 0 <= c.g.n < 256 && 0 <= c.b.n < 256
  {
    if |hex| == 7 {
      HexToRgbLong(hex);
    } else {
      HexToRgbShort(hex);
    }
  }

  // ---------------------------------------------------------------------
  // Printing

  /** `rgba(${r}, ${g}, ${b}, 1)`. */
  function RgbaOf(r: JsInt, g: JsInt, b: JsInt): string
  {
    "rgba(" + JsIntToString(r) + ", " + JsIntToString(g) + ", " + JsIntToString(b) + ", 1)"
  }

  /** An rgba text holds no `%` and no quote of either kind. */
  lemma RgbaOfPlain(r: JsInt, g: JsInt, b: JsInt)
    ensures '%' !in RgbaOf(r, g, b) && '"' !in RgbaOf(r, g, b) && '\'' !in RgbaOf(r, g, b)
  {
    JsIntToStringPlain(r);
    JsIntToStringPlain(g);
    JsIntToStringPlain(b);
    RgbaAvoids(JsIntToString(r), JsIntToString(g), JsIntToString(b), '%');
    RgbaAvoids(JsIntToString(r), JsIntToString(g), JsIntToString(b), '"');
    RgbaAvoids(JsIntToString(r), JsIntToString(g), JsIntToString(b), '\'');
  }

  lemma RgbaAvoids(a: string, b: string, c: string, x: char)
    requires x !in a && x !in b && x !in c && x !in "rgba(, 1)"
    ensures x !in "rgba(" + a + ", " + b + ", " + c + ", 1)"
  {
  }

  /** rgbToHex: `"#" + ((1 << 24) + (r << 16) + (g << 8) + b).toString(16).slice(1)`. */
  function RgbToHex(r: int, g: int, b: int): string
  {
    "#" + DropFirst(IntToHex(ShiftLeft(1, 24) + ShiftLeft(r, 16) + ShiftLeft(g, 8) + b))
  }

  /** For bytes the leading 1 keeps the zeros: two lower-case digits per channel. */
  lemma RgbToHexDigits(r: nat, g: nat, b: nat)
    requires r < 256 && g < 256 && b < 256
    ensures RgbToHex(r, g, b) == "#" + (HexDigits(r, 2) + HexDigits(g, 2) + HexDigits(b, 2))
  {
    Pow2Table();
    Pow16Table();
    ShiftLeftSmall(1, 24);
    ShiftLeftSmall(r, 16);
    ShiftLeftSmall(g, 8);
    var hi := r * 256 + g;
    var w := hi * 256 + b;
    assert ShiftLeft(1, 24) + ShiftLeft(r, 16) + ShiftLeft(g, 8) + b == Pow16(6) + w;
    NatToHexLeadingOne(6, w);
    assert DropFirst("1" + HexDigits(w, 6)) == HexDigits(w, 6);
    HexDigitsSplit(hi, b, 4, 2, w);
    HexDigitsSplit(r, g, 2, 2, hi);
  }

  /** Printing three bytes and reading them back gives the same bytes. */
  lemma RgbHexRoundTrip(r: nat, g: nat, b: nat)
    requires r < 256 && g < 256 && b < 256
    ensures HexToRgb(RgbToHex(r, g, b)) == Rgb(Num(r), Num(g), Num(b))
  {
    RgbToHexDigits(r, g, b);
    ReadDigitsBack(r, g, b);
  }

  /** Bytes print as a `#rrggbb` colour: seven characters, lower-case digits after '#'. */
  lemma RgbToHexColor(r: nat, g: nat, b: nat)
    requires r < 256 && g < 256 && b < 256
    ensures IsHexColor(RgbToHex(r, g, b))
    ensures forall i :: 1 <= i < 7 ==> IsLowerHexDigit(RgbToHex(r, g, b)[i])
  {
    RgbToHexDigits(r, g, b);
    var h := HexDigits(r, 2) + HexDigits(g, 2) + HexDigits(b, 2);
    assert forall i :: 0 <= i < 6 ==> IsLowerHexDigit(h[i]) by {
      forall i | 0 <= i < 6
        ensures IsLowerHexDigit(h[i])
      {
        if i < 2 {
          assert h[i] == HexDigits(r, 2)[i];
        } else if i < 4 {
          assert h[i] == HexDigits(g, 2)[i - 2];
        } else {
          assert h[i] == HexDigits(b, 2)[i - 4];
        }
      }
    }
    assert forall i :: 1 <= i < 7 ==> ("#" + h)[i] == h[i - 1];
  }

  lemma ReadDigitsBack(r: nat, g: nat, b: nat)
    requires r < 256 && g < 256 && b < 256
    ensures HexToRgb("#" + (HexDigits(r, 2) + HexDigits(g, 2) + HexDigits(b, 2))) == Rgb(Num(r), Num(g), Num(b))
  {
    var h := HexDigits(r, 2) + HexDigits(g, 2) + HexDigits(b, 2);
    assert Channel(h, 0) == Num(r) && Channel(h, 2) == Num(g) && Channel(h, 4) == Num(b) by {
      ThreePairs(HexDigits(r, 2), HexDigits(g, 2), HexDigits(b, 2));
      ByteBack(h, 0, r);
      ByteBack(h, 2, g);
      ByteBack(h, 4, b);
    }
    StripHashOf(h);
    HexToRgbSix("#" + h, h);
  }

  lemma ThreePairs(a: string, b: string, c: string)
    requires |a| == 2 && |b| == 2 && |c| == 2
    ensures var h := a + b + c; |h| == 6 && h[0..2] == a && h[2..4] == b && h[4..6] == c
  {
  }

  /** Two fixed digits of a byte, found at h[from..from + 2], read back as the byte. */
  lemma ByteBack(h: string, from: nat, v: nat)
    requires v < 256 && from + 2 <= |h| && h[from..from + 2] == HexDigits(v, 2)
    ensures Channel(h, from) == Num(v)
  {
    HexDigitsByte(v);
    assert h[from] == LowerHexDigit(v / 16) && h[from + 1] == LowerHexDigit(v % 16);
    ChannelOfPair(h, from);
  }

  /** Reading a `#RRGGBB` colour and printing it again gives the same colour in lower case. */
  lemma HexRgbRoundTrip(hex: string)
    requires IsHexColor(hex)
    ensures var c := HexToRgb(hex);
            && c.r.Num? && c.g.Num? && c.b.Num?
            && RgbToHex(c.r.n, c.g.n, c.b.n) == "#" + LowerHexString(hex[1..])
  {
    HexToRgbLong(hex);
    PrintPairs(hex);
  }

  lemma PrintPairs(hex: string)
    requires IsHexColor(hex)
    ensures RgbToHex(PairValue(hex, 1), PairValue(hex, 3), PairValue(hex, 5)) == "#" + LowerHexString(hex[1..])
  {
    var r, g, b := PairValue(hex, 1), PairValue(hex, 3), PairValue(hex, 5);
    var h := hex[1..];
    assert HexDigits(r, 2) + HexDigits(g, 2) + HexDigits(b, 2) == LowerHexString(h) by {
      PairDigits(hex, 1);
      PairDigits(hex, 3);
      PairDigits(hex, 5);
      assert h[0] == hex[1] && h[1] == hex[2] && h[2] == hex[3] && h[3] == hex[4] && h[4] == hex[5] && h[5] == hex[6];
      LowerSix(h);
    }
    RgbToHexDigits(r, g, b);
  }

  lemma LowerSix(h: string)
    requires |h| == 6 && forall i :: 0 <= i < 6 ==> IsHexDigit(h[i])
    ensures LowerHexString(h) == [LowerHex(h[0]), LowerHex(h[1])] + [LowerHex(h[2]), LowerHex(h[3])]
                                 + [LowerHex(h[4]), LowerHex(h[5])]
  {
  }

  /** The fixed digits of a pair's byte are the pair in lower case. */
  lemma PairDigits(hex: string, i: nat)
    requires i + 1 < |hex| && IsHexDigit(hex[i]) && IsHexDigit(hex[i + 1])
    ensures HexDigits(PairValue(hex, i), 2) == [LowerHex(hex[i]), LowerHex(hex[i + 1])]
  {
    var v := PairValue(hex, i);
    HexDigitsByte(v);
    assert v / 16 == HexDigitValue(hex[i]) && v % 16 == HexDigitValue(hex[i + 1]);
  }

  // ---------------------------------------------------------------------
  // Random colour

  const Letters := "0123456789ABCDEF"

  /** Values Math.random() can return. */
  predicate Draws(ds: seq<real>)
  {
    forall i :: 0 <= i < |ds| ==> 0.0 <= ds[i] < 1.0
  }

  /** The digit a draw picks: `Math.floor(Math.random() * 16)`. */
  function Sixteenth(d: real): (k: nat)
    requires 0.0 <= d < 1.0
    ensures k < 16 && k as real <= d * 16.0 < k as real + 1.0
  {
    (d * 16.0).Floor
  }

  /** getRandomColor: '#' and six digits, one draw each. */
  function RandomColor(ds: seq<real>): (c: string)
    requires |ds| == 6 && Draws(ds)
    ensures IsHexColor(c)
    ensures forall i :: 1 <= i < 7 ==> c[i] in Letters && HexDigitValue(c[i]) == Sixteenth(ds[i - 1])
  {
    LettersValues();
    var c := "#" + seq(6, i requires 0 <= i < 6 => Letters[Sixteenth(ds[i])]);
    assert forall i :: 1 <= i < 7 ==> c[i] == Letters[Sixteenth(ds[i - 1])];
    c
  }

  /** Each letter of the digit alphabet is the hex digit of its own index. */
  lemma LettersValues()
    ensures forall k :: 0 <= k < 16 ==> IsHexDigit(Letters[k]) && HexDigitValue(Letters[k]) == k
  {
    forall k | 0 <= k < 16
      ensures IsHexDigit(Letters[k]) && HexDigitValue(Letters[k]) == k
    {
      if k < 10 {
        assert Letters[k] == DecimalDigit(k);
      }
    }
  }
}
