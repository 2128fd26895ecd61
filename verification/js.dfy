/**
 The JavaScript built-ins the gradient core leans on, written out exactly:
 Math.round, the `%` operator, integer-to-string conversion (radix 10 and 16),
 parseInt with radix 16, String.prototype.slice / padStart / trim, Array
 join, Number.prototype.toFixed(2) and the 32-bit `<<` operator.
 Numbers are exact: `int` where the source only ever holds integers, `real`
 otherwise. Floating-point rounding error is not modelled.
 */
module Js {

  datatype Option<T> = None | Some(value: T)

  /** An operation that either returns a value or throws an Error with a message. */
  datatype Result<T> = Ok(value: T) | Err(message: string)

  /** A number produced by parseInt: NaN, or an integer. */
  datatype JsInt = NaN | Num(n: int)

  // ---------------------------------------------------------------------
  // Math

  function Min(a: real, b: real): real { if a <= b then a else b }

  function Max(a: real, b: real): real { if a >= b then a else b }

  function Abs(x: real): real { if x < 0.0 then -x else x }

  /** Math.round: the nearest integer, halves rounded up (towards +infinity). */
  function Round(x: real): (r: int)
    ensures x - 0.5 < r as real <= x + 0.5
  {
    (x + 0.5).Floor
  }

  /** Rounding is the nearest integer: any integer within a half of x is the one chosen. */
  lemma RoundUnique(x: real, n: int)
    requires x - 0.5 < n as real <= x + 0.5
    ensures Round(x) == n
  {
  }

  lemma RoundMonotone(x: real, y: real)
    requires x <= y
    ensures Round(x) <= Round(y)
  {
  }

  /** Math.max(0, Math.min(1, v)). */
  function Clamp01(v: real): (r: real)
    ensures 0.0 <= r <= 1.0
    ensures 0.0 <= v <= 1.0 ==> r == v
  {
    Max(0.0, Min(1.0, v))
  }

  /** Truncation towards zero, as used by the `%` operator. */
  function Trunc(x: real): (r: int)
    ensures Abs(r as real) <= Abs(x) < Abs(r as real) + 1.0
    ensures (r < 0 ==> x < 0.0) && (r > 0 ==> x > 0.0)
  {
    if x >= 0.0 then x.Floor else -((-x).Floor)
  }

  /** The `%` operator on numbers: the remainder of the truncating division, carrying the
      sign of the dividend (unlike Dafny's Euclidean `%`). */
  function Rem(a: real, n: real): real
    requires n != 0.0
  {
    a - n * (Trunc(a / n) as real)
  }

  /** For a non-negative dividend the remainder lies in [0, n). */
  lemma RemOfNonNegative(a: real, n: real)
    requires 0.0 <= a && 0.0 < n
    ensures 0.0 <= Rem(a, n) < n
  {
    var q := a / n;
    var t := Trunc(q);
    var d := q - t as real;
    assert 0.0 <= d < 1.0;
    assert Rem(a, n) == a - n * (t as real);
    assert a == n * q;
    assert n * q - n * (t as real) == n * d;
    assert Rem(a, n) == n * d;
    ScaleFraction(n, d);
    assert 0.0 <= n * d < n;
  }

  lemma ScaleFraction(n: real, d: real)
    requires 0.0 < n && 0.0 <= d < 1.0
    ensures 0.0 <= n * d < n
  {
    assert n - n * d == n * (1.0 - d);
  }

  /** `a % n` on integers, truncating like JavaScript. */
  function IntRem(a: int, n: int): (r: int)
    requires n > 0
    ensures -n < r < n
    ensures a < 0 ==> r <= 0
    ensures a >= 0 ==> r == a % n
  {
    if a >= 0 then a % n else -((-a) % n)
  }

  /** A non-negative angle and the same angle one full turn further leave the same remainder. */
  lemma IntRemTurn(a: int)
    requires a >= 0
    ensures IntRem(a + 360, 360) == IntRem(a, 360)
  {
    var q := a / 360;
    assert a == q * 360 + a % 360;
    assert a + 360 == (q + 1) * 360 + a % 360;
  }

  /** Math.cos(d * Math.PI / 180) and Math.sin(d * Math.PI / 180) as functions of an
      angle d in degrees. Their values are left abstract. */
  datatype Trig = Trig(cosDeg: real -> real, sinDeg: real -> real)

  // ---------------------------------------------------------------------
  // Characters

  predicate IsDecimalDigit(c: char) { '0' <= c <= '9' }

  predicate IsHexDigit(c: char) { '0' <= c <= '9' || 'a' <= c <= 'f' || 'A' <= c <= 'F' }

  /** Hex digits as `toString(16)` writes them. */
  predicate IsLowerHexDigit(c: char) { '0' <= c <= '9' || 'a' <= c <= 'f' }

  function DecimalDigitValue(c: char): (d: nat)
    requires IsDecimalDigit(c)
    ensures d < 10
  {
    c as int - '0' as int
  }

  function HexDigitValue(c: char): (d: nat)
    requires IsHexDigit(c)
    ensures d < 16
  {
    if '0' <= c <= '9' then c as int - '0' as int
    else if 'a' <= c <= 'f' then c as int - 'a' as int + 10
    else c as int - 'A' as int + 10
  }

  function DecimalDigit(d: nat): (c: char)
    requires d < 10
    ensures IsDecimalDigit(c) && DecimalDigitValue(c) == d
  {
    "0123456789"[d]
  }

  function LowerHexDigit(d: nat): (c: char)
    requires d < 16
    ensures IsLowerHexDigit(c) && IsHexDigit(c) && HexDigitValue(c) == d
  {
    "0123456789abcdef"[d]
  }

  /** The lower-case spelling of a hex digit (what toLowerCase does to it). */
  function LowerHex(c: char): (r: char)
    requires IsHexDigit(c)
    ensures IsLowerHexDigit(r) && HexDigitValue(r) == HexDigitValue(c)
    ensures IsLowerHexDigit(c) ==> r == c
  {
    LowerHexDigit(HexDigitValue(c))
  }

  function LowerHexString(s: string): (r: string)
    requires forall i :: 0 <= i < |s| ==> IsHexDigit(s[i])
    ensures |r| == |s|
    ensures forall i :: 0 <= i < |s| ==> r[i] == LowerHex(s[i])
  {
    if |s| == 0 then "" else [LowerHex(s[0])] + LowerHexString(s[1..])
  }

  /** WhiteSpace and LineTerminator code points, which trim() and parseInt skip. */
  predicate IsWhitespace(c: char)
  {
    var k := c as int;
    k == 0x09 || k == 0x0A || k == 0x0B || k == 0x0C || k == 0x0D || k == 0x20
    || k == 0xA0 || k == 0x1680 || (0x2000 <= k <= 0x200A) || k == 0x2028
    || k == 0x2029 || k == 0x202F || k == 0x205F || k == 0x3000 || k == 0xFEFF
  }

  /** `s.trim() === ""`. */
  predicate IsBlank(s: string)
  {
    forall i :: 0 <= i < |s| ==> IsWhitespace(s[i])
  }

  // ---------------------------------------------------------------------
  // Strings

  /** The number of occurrences of c in s. */
  function Count(c: char, s: string): nat
  {
    if |s| == 0 then 0 else (if s[0] == c then 1 else 0) + Count(c, s[1..])
  }

  /** Occurrences in a concatenation add up. */
  lemma {:induction false} CountConcat(c: char, a: string, b: string)
    ensures Count(c, a + b) == Count(c, a) + Count(c, b)
  {
    if |a| == 0 {
      assert a + b == b;
    } else {
      assert (a + b)[1..] == a[1..] + b;
      CountConcat(c, a[1..], b);
    }
  }

  /** The count is zero exactly when the character does not occur. */
  lemma {:induction false} CountAbsent(c: char, s: string)
    ensures Count(c, s) == 0 <==> c !in s
  {
    if |s| > 0 {
      CountAbsent(c, s[1..]);
      assert s == [s[0]] + s[1..];
    }
  }

  function Repeat(c: char, n: nat): (r: string)
    ensures |r| == n && forall i :: 0 <= i < n ==> r[i] == c
  {
    if n == 0 then "" else [c] + Repeat(c, n - 1)
  }

  /** s.padStart(width, c). */
  function PadStart(s: string, width: nat, c: char): (r: string)
    ensures |r| == if |s| >= width then |s| else width
    ensures r[|r| - |s|..] == s
    ensures forall i :: 0 <= i < |r| - |s| ==> r[i] == c
  {
    if |s| >= width then s else Repeat(c, width - |s|) + s
  }

  /** A prefix of q is a prefix of q followed by anything. */
  lemma PrefixExtend(p: string, q: string, x: string)
    requires p <= q
    ensures p <= q + x
  {
    assert (q + x)[..|p|] == q[..|p|];
  }

  /** s.slice(from, to) (and s.substring(from, to)) for non-negative indices. */
  function Slice(s: string, from: nat, to: nat): string
  {
    var a := if from <= |s| then from else |s|;
    var b := if to <= |s| then to else |s|;
    if a < b then s[a..b] else ""
  }

  /** s.slice(1): everything after the first character. */
  function DropFirst(s: string): string
  {
    if |s| == 0 then "" else s[1..]
  }

  /** Array.prototype.join(sep) on an array of strings. */
  function Join(ts: seq<string>, sep: string): string
  {
    if |ts| == 0 then ""
    else if |ts| == 1 then ts[0]
    else ts[0] + sep + Join(ts[1..], sep)
  }

  /** Joining a longer list puts the separator after its first piece. */
  lemma JoinCons(d: string, ts: seq<string>, sep: string)
    requires |ts| >= 1
    ensures Join([d] + ts, sep) == d + sep + Join(ts, sep)
  {
    assert ([d] + ts)[1..] == ts;
  }

  /** The concatenation of a list of strings (code built up with `+=`). */
  function Concat(parts: seq<string>): string
  {
    if |parts| == 0 then "" else parts[0] + Concat(parts[1..])
  }

  /** A character absent from the separator occurs in a join exactly as often as in
      the pieces; each separator between n pieces contributes its own count. */
  lemma {:induction false} CountJoin(c: char, ts: seq<string>, sep: string)
    ensures Count(c, Join(ts, sep)) == SumCounts(c, ts) + (if |ts| == 0 then 0 else (|ts| - 1) * Count(c, sep))
  {
    if |ts| > 1 {
      var rest := Join(ts[1..], sep);
      var k := Count(c, sep);
      assert Join(ts, sep) == ts[0] + sep + rest;
      CountJoin(c, ts[1..], sep);
      CountConcat(c, ts[0], sep);
      CountConcat(c, ts[0] + sep, rest);
      assert Count(c, Join(ts, sep)) == Count(c, ts[0]) + k + Count(c, rest);
      MulStep(|ts| - 1, k);
    }
  }

  lemma MulStep(m: nat, k: nat)
    requires m >= 1
    ensures (m - 1) * k + k == m * k
  {
  }

  function SumCounts(c: char, ts: seq<string>): nat
  {
    if |ts| == 0 then 0 else Count(c, ts[0]) + SumCounts(c, ts[1..])
  }

  lemma {:induction false} SumCountsZero(c: char, ts: seq<string>)
    requires forall i :: 0 <= i < |ts| ==> c !in ts[i]
    ensures SumCounts(c, ts) == 0
  {
    if |ts| > 0 {
      CountAbsent(c, ts[0]);
      SumCountsZero(c, ts[1..]);
    }
  }

  lemma SumCountsOnes(c: char, ts: seq<string>)
    requires forall i :: 0 <= i < |ts| ==> Count(c, ts[i]) == 1
    ensures SumCounts(c, ts) == |ts|
  {
  }

  /** s.split(c) for a one-character separator: the pieces between occurrences of c. */
  function Split(s: string, c: char): (r: seq<string>)
    ensures |r| >= 1
  {
    if |s| == 0 then [""]
    else
      var rest := Split(s[1..], c);
      if s[0] == c then [""] + rest else [[s[0]] + rest[0]] + rest[1..]
  }

  lemma {:induction false} SplitNoSeparator(a: string, c: char)
    requires c !in a
    ensures Split(a, c) == [a]
  {
    if |a| > 0 {
      SplitNoSeparator(a[1..], c);
      assert [a[0]] + a[1..] == a;
    }
  }

  lemma {:induction false} SplitAtSeparator(a: string, b: string, c: char)
    requires c !in a
    ensures Split(a + [c] + b, c) == [a] + Split(b, c)
  {
    if |a| == 0 {
      assert a + [c] + b == [c] + b;
      assert ([c] + b)[1..] == b;
    } else {
      assert (a + [c] + b)[1..] == a[1..] + [c] + b;
      SplitAtSeparator(a[1..], b, c);
      assert [a[0]] + a[1..] == a;
    }
  }

  /** The three parts of a framed string are recovered by slicing. */
  lemma FramedParts(open: string, body: string, close: string)
    ensures var line := open + body + close;
      && line[..|open|] == open
      && line[|line| - |close|..] == close
      && line[|open|..|line| - |close|] == body
  {
    var line := open + body + close;
    assert forall i :: 0 <= i < |open| ==> line[i] == open[i];
    assert forall i :: 0 <= i < |body| ==> line[|open| + i] == body[i];
    assert forall i :: 0 <= i < |close| ==> line[|open| + |body| + i] == close[i];
  }

  /** Each string behind a space. */
  function Spaced(ts: seq<string>): (r: seq<string>)
    ensures |r| == |ts| && forall i :: 0 <= i < |ts| ==> r[i] == " " + ts[i]
  {
    if |ts| == 0 then [] else [" " + ts[0]] + Spaced(ts[1..])
  }

  /** Splitting a ", "-join at its commas gives back the pieces, all but the first
      behind the space of the separator. */
  lemma {:induction false} SplitJoinComma(ts: seq<string>)
    requires |ts| >= 1 && forall i :: 0 <= i < |ts| ==> ',' !in ts[i]
    ensures Split(Join(ts, ", "), ',') == [ts[0]] + Spaced(ts[1..])
  {
    if |ts| == 1 {
      SplitNoSeparator(ts[0], ',');
    } else {
      var tail := Join(ts[1..], ", ");
      SplitJoinComma(ts[1..]);
      assert Join(ts, ", ") == ts[0] + [','] + ([' '] + tail);
      SplitAtSeparator(ts[0], [' '] + tail, ',');
      assert ([' '] + tail)[1..] == tail;
      assert Split([' '] + tail, ',') == [" " + ts[1]] + Spaced(ts[2..]) by {
        assert ts[1..][1..] == ts[2..];
      }
      assert Spaced(ts[1..]) == [" " + ts[1]] + Spaced(ts[2..]);
    }
  }

  /** Splitting `d, t1, t2, ...` at its commas gives d and the spaced pieces. */
  lemma SplitHeadJoinComma(d: string, ts: seq<string>)
    requires |ts| >= 1 && ',' !in d && forall i :: 0 <= i < |ts| ==> ',' !in ts[i]
    ensures Split(d + ", " + Join(ts, ", "), ',') == [d] + Spaced(ts)
  {
    var all := [d] + ts;
    JoinCons(d, ts, ", ");
    forall i | 0 <= i < |all|
      ensures ',' !in all[i]
    {
      if i > 0 {
        assert all[i] == ts[i - 1];
      }
    }
    SplitJoinComma(all);
    assert all[1..] == ts;
  }

  /** Reads back a ", "-joined list of items each wrapped in the quote character q. */
  function ReadQuotedList(text: string, q: char): Option<seq<string>>
  {
    var pieces := Split(text, ',');
    if |pieces[0]| < 2 || pieces[0][0] != q || pieces[0][|pieces[0]| - 1] != q then None
    else
      match ReadSpacedQuoted(pieces[1..], q)
      case None => None
      case Some(rest) => Some([pieces[0][1..|pieces[0]| - 1]] + rest)
  }

  function ReadSpacedQuoted(pieces: seq<string>, q: char): Option<seq<string>>
  {
    if |pieces| == 0 then Some([])
    else
      var p := pieces[0];
      if |p| < 3 || p[0] != ' ' || p[1] != q || p[|p| - 1] != q then None
      else
        match ReadSpacedQuoted(pieces[1..], q)
        case None => None
        case Some(rest) => Some([p[2..|p| - 1]] + rest)
  }

  /** Each item wrapped in the quote character q. */
  function Quoted(items: seq<string>, q: char): (r: seq<string>)
    ensures |r| == |items| && forall i :: 0 <= i < |items| ==> r[i] == [q] + items[i] + [q]
  {
    if |items| == 0 then [] else [[q] + items[0] + [q]] + Quoted(items[1..], q)
  }

  lemma {:induction false} ReadSpacedQuotedRoundTrip(items: seq<string>, q: char)
    ensures ReadSpacedQuoted(Spaced(Quoted(items, q)), q) == Some(items)
  {
    if |items| > 0 {
      ReadSpacedQuotedRoundTrip(items[1..], q);
      var p := " " + ([q] + items[0] + [q]);
      assert Quoted(items, q)[1..] == Quoted(items[1..], q);
      assert Spaced(Quoted(items, q))[0] == p;
      assert Spaced(Quoted(items, q))[1..] == Spaced(Quoted(items[1..], q));
      assert |p| >= 3 && p[0] == ' ' && p[1] == q && p[|p| - 1] == q;
      assert p[2..|p| - 1] == items[0];
      assert [items[0]] + items[1..] == items;
    }
  }

  /** A quoted list whose items hold no comma reads back as the items. */
  lemma QuotedListRoundTrip(items: seq<string>, q: char)
    requires |items| >= 1 && q != ',' && forall i :: 0 <= i < |items| ==> ',' !in items[i]
    ensures ReadQuotedList(Join(Quoted(items, q), ", "), q) == Some(items)
  {
    var qs := Quoted(items, q);
    forall i | 0 <= i < |qs|
      ensures ',' !in qs[i]
    {
      assert qs[i] == [q] + items[i] + [q];
    }
    SplitJoinComma(qs);
    ReadSpacedQuotedRoundTrip(items[1..], q);
    assert qs[1..] == Quoted(items[1..], q);
    assert qs[0][1..|qs[0]| - 1] == items[0];
    assert [items[0]] + items[1..] == items;
  }

  // ---------------------------------------------------------------------
  // Numbers to strings

  /** The decimal digits of n without leading zeros ("0" for zero). */
  function NatToDecimal(n: nat): (s: string)
    ensures 1 <= |s|
    ensures forall i :: 0 <= i < |s| ==> IsDecimalDigit(s[i])
    ensures |s| > 1 ==> s[0] != '0'
  {
    if n < 10 then [DecimalDigit(n)] else NatToDecimal(n / 10) + [DecimalDigit(n % 10)]
  }

  /** The value of a string of decimal digits. */
  function DecimalValue(s: string): nat
    requires forall i :: 0 <= i < |s| ==> IsDecimalDigit(s[i])
  {
    if |s| == 0 then 0 else 10 * DecimalValue(s[..|s| - 1]) + DecimalDigitValue(s[|s| - 1])
  }

  /** The digits printed for n denote n. */
  lemma {:induction false} DecimalRoundTrip(n: nat)
    ensures DecimalValue(NatToDecimal(n)) == n
  {
    if n >= 10 {
      DecimalRoundTrip(n / 10);
      var s := NatToDecimal(n);
      assert s[..|s| - 1] == NatToDecimal(n / 10);
    }
  }

  /** String(n) for an integer n (of magnitude below 10^21). */
  function IntToString(n: int): (s: string)
    ensures 1 <= |s|
    ensures forall i :: 0 <= i < |s| ==> IsDecimalDigit(s[i]) || (i == 0 && s[i] == '-')
    ensures (s[0] == '-') <==> n < 0
  {
    if n < 0 then "-" + NatToDecimal(-n) else NatToDecimal(n)
  }

  /** The decimal rendering of an integer can be read back: it is injective. */
  lemma IntToStringInjective(a: int, b: int)
    requires IntToString(a) == IntToString(b)
    ensures a == b
  {
    IntToStringRoundTrip(a);
    IntToStringRoundTrip(b);
  }

  /** A rendered integer never contains a percent sign, comma, quote or space. */
  lemma IntToStringPlain(n: int)
    ensures '%' !in IntToString(n) && ',' !in IntToString(n) && ' ' !in IntToString(n)
    ensures '\'' !in IntToString(n) && '"' !in IntToString(n) && '\n' !in IntToString(n)
  {
    var s := IntToString(n);
    forall i | 0 <= i < |s| ensures s[i] != '%' && s[i] != ',' && s[i] != ' ' && s[i] != '\'' && s[i] != '"' && s[i] != '\n' {
    }
  }

  predicate AllDecimalDigits(s: string)
  {
    forall i :: 0 <= i < |s| ==> IsDecimalDigit(s[i])
  }

  /** Reads an optionally negative run of decimal digits. */
  function ParseInteger(s: string): Option<int>
  {
    if |s| > 1 && s[0] == '-' && AllDecimalDigits(s[1..]) then Some(-(DecimalValue(s[1..]) as int))
    else if |s| > 0 && AllDecimalDigits(s) then Some(DecimalValue(s))
    else None
  }

  /** Every rendered integer reads back as itself. */
  lemma IntToStringRoundTrip(n: int)
    ensures ParseInteger(IntToString(n)) == Some(n)
  {
    if n < 0 {
      NegativeRoundTrip(NatToDecimal(-n), -n);
    } else {
      var s := NatToDecimal(n);
      assert AllDecimalDigits(s);
      assert s[0] != '-';
      DecimalRoundTrip(n);
    }
  }

  lemma NegativeRoundTrip(digits: string, m: nat)
    requires digits == NatToDecimal(m) && m > 0
    ensures ParseInteger("-" + digits) == Some(-(m as int))
  {
    var s := "-" + digits;
    assert s[1..] == digits;
    assert AllDecimalDigits(digits);
    DecimalRoundTrip(m);
  }

  /** `${x}` for a parseInt result. */
  function JsIntToString(x: JsInt): string
  {
    match x
    case NaN => "NaN"
    case Num(n) => IntToString(n)
  }

  lemma JsIntToStringPlain(x: JsInt)
    ensures '%' !in JsIntToString(x) && ',' !in JsIntToString(x) && ' ' !in JsIntToString(x)
    ensures '\'' !in JsIntToString(x) && '"' !in JsIntToString(x)
  {
    if x.Num? { IntToStringPlain(x.n); }
  }

  /** String(x) for a number held as an exact real: integral values print as their
      decimal digits; any other value prints as `fraction` says, which stands for
      JavaScript's shortest round-trip decimal and is not modelled. */
  function NumberToString(x: real, fraction: real -> string): (s: string)
    ensures x == x.Floor as real ==> s == IntToString(x.Floor)
  {
    if x == x.Floor as real then IntToString(x.Floor) else fraction(x)
  }

  /** String(x) of every number of a list. */
  function NumberTexts(ps: seq<real>, fraction: real -> string): (r: seq<string>)
    ensures |r| == |ps| && forall i :: 0 <= i < |ps| ==> r[i] == NumberToString(ps[i], fraction)
  {
    if |ps| == 0 then [] else [NumberToString(ps[0], fraction)] + NumberTexts(ps[1..], fraction)
  }

  /** n.toString(16) for n >= 0: lower-case hex digits without leading zeros. */
  function NatToHex(n: nat): (s: string)
    ensures 1 <= |s|
    ensures forall i :: 0 <= i < |s| ==> IsLowerHexDigit(s[i])
  {
    if n < 16 then [LowerHexDigit(n)] else NatToHex(n / 16) + [LowerHexDigit(n % 16)]
  }

  /** n.toString(16) for an integer n. */
  function IntToHex(n: int): string
  {
    if n < 0 then "-" + NatToHex(-n) else NatToHex(n)
  }

  /** The `width` lowest hex digits of n, most significant first. */
  function HexDigits(n: nat, width: nat): (s: string)
    ensures |s| == width
    ensures forall i :: 0 <= i < |s| ==> IsLowerHexDigit(s[i])
  {
    if width == 0 then "" else HexDigits(n / 16, width - 1) + [LowerHexDigit(n % 16)]
  }

  function Pow16(k: nat): (p: nat)
    ensures p >= 1
  {
    if k == 0 then 1 else 16 * Pow16(k - 1)
  }

  lemma Pow16Table()
    ensures Pow16(2) == 256 && Pow16(4) == 65536 && Pow16(6) == 16777216
  {
    assert Pow16(2) == 256;
    assert Pow16(4) == 256 * Pow16(2);
    assert Pow16(6) == 256 * Pow16(4);
  }

  /** toString(16) of a number with a leading 1 digit followed by k digits. */
  lemma {:induction false} NatToHexLeadingOne(k: nat, w: nat)
    requires w < Pow16(k)
    ensures NatToHex(Pow16(k) + w) == "1" + HexDigits(w, k)
  {
    if k > 0 {
      var n := Pow16(k) + w;
      assert n / 16 == Pow16(k - 1) + w / 16 && n % 16 == w % 16;
      NatToHexLeadingOne(k - 1, w / 16);
    }
  }

  /** A number below 16^k pads to exactly its toString(16) digits. */
  lemma {:induction false} NatToHexPadded(k: nat, n: nat)
    requires 1 <= k && n < Pow16(k)
    ensures PadStart(NatToHex(n), k, '0') == HexDigits(n, k)
  {
    if n < 16 {
      HexDigitsSmall(k, n);
    } else {
      NatToHexPadded(k - 1, n / 16);
    }
  }

  lemma HexDigitsSmall(k: nat, n: nat)
    requires 1 <= k && n < 16
    ensures HexDigits(n, k) == Repeat('0', k - 1) + [LowerHexDigit(n)]
  {
    assert n / 16 == 0 && n % 16 == n;
    HexDigitsZero(k - 1);
  }

  /** Zero in k digits is k zeros. */
  lemma {:induction false} HexDigitsZero(k: nat)
    ensures HexDigits(0, k) == Repeat('0', k)
  {
    if k > 0 {
      HexDigitsZero(k - 1);
      assert LowerHexDigit(0) == '0';
      RepeatSnoc(k - 1);
    }
  }

  lemma {:induction false} RepeatSnoc(n: nat)
    ensures Repeat('0', n + 1) == Repeat('0', n) + ['0']
  {
    if n > 0 {
      RepeatSnoc(n - 1);
    }
  }

  /** Fixed-width digits split at a digit boundary. */
  lemma {:induction false} HexDigitsSplit(hi: nat, lo: nat, k: nat, m: nat, n: nat)
    requires lo < Pow16(m) && n == hi * Pow16(m) + lo
    ensures HexDigits(n, k + m) == HexDigits(hi, k) + HexDigits(lo, m)
  {
    if m == 0 {
      assert n == hi;
    } else {
      var p := Pow16(m - 1);
      var q := hi * p + lo / 16;
      SplitArith(hi, lo, p, n, q);
      HexDigitsSplit(hi, lo / 16, k, m - 1, q);
      var c := [LowerHexDigit(lo % 16)];
      HexDigitsUnfold(n, k + m, q, lo % 16);
      HexDigitsUnfold(lo, m, lo / 16, lo % 16);
      ConcatAssoc(HexDigits(hi, k), HexDigits(lo / 16, m - 1), c);
    }
  }

  lemma HexDigitsUnfold(n: nat, w: nat, q: nat, r: nat)
    requires w > 0 && n / 16 == q && n % 16 == r
    ensures HexDigits(n, w) == HexDigits(q, w - 1) + [LowerHexDigit(r)]
  {
  }

  lemma ConcatAssoc(a: string, b: string, c: string)
    ensures (a + b) + c == a + (b + c)
  {
  }

  lemma SplitArith(hi: nat, lo: nat, p: nat, n: nat, q: nat)
    requires lo < 16 * p && n == hi * (16 * p) + lo && q == hi * p + lo / 16
    ensures n / 16 == q && n % 16 == lo % 16 && lo / 16 < p
  {
    assert n == q * 16 + lo % 16;
    DivMod16(n, q, lo % 16);
  }

  lemma DivMod16(n: int, q: int, r: int)
    requires n == q * 16 + r && 0 <= r < 16
    ensures n / 16 == q && n % 16 == r
  {
  }

  /** Two fixed digits of a byte are its high and low nibble. */
  lemma HexDigitsByte(v: nat)
    requires v < 256
    ensures HexDigits(v, 2) == [LowerHexDigit(v / 16), LowerHexDigit(v % 16)]
  {
    var h := v / 16;
    assert h < 16;
    assert h / 16 == 0 && h % 16 == h;
    assert HexDigits(h, 1) == HexDigits(0, 0) + [LowerHexDigit(h)];
  }

  // ---------------------------------------------------------------------
  // parseInt(s, 16)

  function TrimStart(s: string): (r: string)
    ensures |r| <= |s|
    ensures |r| > 0 ==> !IsWhitespace(r[0])
  {
    if |s| > 0 && IsWhitespace(s[0]) then TrimStart(s[1..]) else s
  }

  /** The longest prefix of s made of hex digits. */
  function HexPrefix(s: string): (r: string)
    ensures r <= s
    ensures forall i :: 0 <= i < |r| ==> IsHexDigit(r[i])
    ensures |r| < |s| ==> !IsHexDigit(s[|r|])
  {
    if |s| > 0 && IsHexDigit(s[0]) then [s[0]] + HexPrefix(s[1..]) else ""
  }

  /** The value of a string of hex digits. */
  function HexValue(s: string): nat
    requires forall i :: 0 <= i < |s| ==> IsHexDigit(s[i])
  {
    if |s| == 0 then 0 else 16 * HexValue(s[..|s| - 1]) + HexDigitValue(s[|s| - 1])
  }

  /** parseInt(s, 16): skip leading white space, take one optional sign, drop an optional
      0x / 0X prefix, then read the longest run of hex digits; no digits gives NaN. */
  function ParseHex(s: string): JsInt
  {
    var t := TrimStart(s);
    var negative := |t| > 0 && t[0] == '-';
    var u := if |t| > 0 && (t[0] == '-' || t[0] == '+') then t[1..] else t;
    var v := if |u| >= 2 && u[0] == '0' && (u[1] == 'x' || u[1] == 'X') then u[2..] else u;
    var digits := HexPrefix(v);
    var value: int := if |digits| == 0 then 0 else HexValue(digits);
    if |digits| == 0 then NaN
    else if negative then Num(-value)
    else Num(value)
  }

  /** Two hex digits parse to the byte they spell. */
  lemma ParseHexPair(t: string)
    requires |t| == 2 && IsHexDigit(t[0]) && IsHexDigit(t[1])
    ensures ParseHex(t) == Num(16 * HexDigitValue(t[0]) + HexDigitValue(t[1]))
  {
    assert !IsWhitespace(t[0]);
    assert TrimStart(t) == t;
    assert !(t[0] == '0' && (t[1] == 'x' || t[1] == 'X'));
    assert HexPrefix(t) == t by {
      assert HexPrefix(t[1..]) == t[1..] by { assert t[1..][1..] == ""; }
      assert [t[0]] + t[1..] == t;
    }
    assert t[..1] == [t[0]];
    assert HexValue([t[0]]) == HexDigitValue(t[0]) by { assert [t[0]][..0] == ""; }
  }

  /** Two hex digits sliced out of a longer string parse to the byte they spell. */
  lemma ParseHexSlice(s: string, from: nat)
    requires from + 1 < |s| && IsHexDigit(s[from]) && IsHexDigit(s[from + 1])
    ensures ParseHex(Slice(s, from, from + 2)) == Num(16 * HexDigitValue(s[from]) + HexDigitValue(s[from + 1]))
  {
    var t := Slice(s, from, from + 2);
    SliceTwo(s, from);
    ParseHexPair(t);
  }

  lemma SliceTwo(s: string, from: nat)
    requires from + 1 < |s|
    ensures var t := Slice(s, from, from + 2); |t| == 2 && t[0] == s[from] && t[1] == s[from + 1]
  {
  }

  /** A string whose first character is not a hex digit, sign, space or '0' parses to NaN. */
  lemma ParseHexNaN(s: string)
    requires |s| > 0 && !IsHexDigit(s[0]) && !IsWhitespace(s[0]) && s[0] != '-' && s[0] != '+'
    ensures ParseHex(s) == NaN
  {
  }

  // ---------------------------------------------------------------------
  // Number.prototype.toFixed(2)

  /** x.toFixed(2) for |x| < 10^21: the integer n with n/100 nearest x (the larger on a
      tie), written with two decimals; a minus sign is kept for negative x even when the
      digits are all zero. */
  function ToFixed2(x: real): string
  {
    if x < 0.0 then "-" + FixedDigits2(-x) else FixedDigits2(x)
  }

  function FixedDigits2(x: real): (s: string)
    requires x >= 0.0
    ensures |s| >= 4 && s[|s| - 3] == '.'
  {
    var n := (x * 100.0 + 0.5).Floor;
    var m := PadStart(NatToDecimal(n), 3, '0');
    m[..|m| - 2] + "." + m[|m| - 2..]
  }

  /** The centre coordinate is printed as 0.50. */
  lemma ToFixed2Half()
    ensures ToFixed2(0.5) == "0.50"
  {
    assert (0.5 * 100.0 + 0.5).Floor == 50;
    assert NatToDecimal(50) == "50" by {
      assert NatToDecimal(5) == "5";
    }
    assert PadStart("50", 3, '0') == "050";
  }

  // ---------------------------------------------------------------------
  // 32-bit integer operators

  const TwoTo32: int := 0x1_0000_0000
  const TwoTo31: int := 0x8000_0000

  /** ToInt32: reduce modulo 2^32 into the signed range. */
  function ToInt32(x: int): (r: int)
    ensures -TwoTo31 <= r < TwoTo31
    ensures (r - x) % TwoTo32 == 0
    ensures -TwoTo31 <= x < TwoTo31 ==> r == x
  {
    var m := x % TwoTo32;
    if m >= TwoTo31 then m - TwoTo32 else m
  }

  function Pow2(k: nat): (p: nat)
    ensures p >= 1
  {
    if k == 0 then 1 else 2 * Pow2(k - 1)
  }

  /** The powers of two the colour codecs shift by. */
  lemma Pow2Table()
    ensures Pow2(8) == 256 && Pow2(16) == 65536 && Pow2(24) == 16777216
  {
    assert Pow2(4) == 16;
    assert Pow2(8) == 16 * Pow2(4) by {
      assert Pow2(8) == 2 * Pow2(7) && Pow2(7) == 2 * Pow2(6) && Pow2(6) == 2 * Pow2(5) && Pow2(5) == 2 * Pow2(4);
    }
    Pow2Add8(8);
    Pow2Add8(16);
  }

  lemma Pow2Add8(k: nat)
    ensures Pow2(k + 8) == 256 * Pow2(k)
  {
    assert Pow2(k + 8) == 2 * Pow2(k + 7);
    assert Pow2(k + 7) == 2 * Pow2(k + 6);
    assert Pow2(k + 6) == 2 * Pow2(k + 5);
    assert Pow2(k + 5) == 2 * Pow2(k + 4);
    assert Pow2(k + 4) == 2 * Pow2(k + 3);
    assert Pow2(k + 3) == 2 * Pow2(k + 2);
    assert Pow2(k + 2) == 2 * Pow2(k + 1);
  }

  /** A shift that stays below 2^31 is a multiplication. */
  lemma ShiftLeftSmall(x: int, k: nat)
    requires k < 32 && 0 <= x && x * Pow2(k) < TwoTo31
    ensures ShiftLeft(x, k) == x * Pow2(k)
  {
    assert x < TwoTo31 by {
      assert x <= x * Pow2(k);
    }
  }

  /** x << k for 0 <= k < 32: shift the 32-bit value, wrapping into the signed range. */
  function ShiftLeft(x: int, k: nat): int
    requires k < 32
  {
    ToInt32(ToInt32(x) * Pow2(k))
  }
}
