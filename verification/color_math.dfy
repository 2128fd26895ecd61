/**
 Channel arithmetic the two colour pickers share: three channels rounded from
 components in [0, 1], the secondary component of a 60-degree hue sector, and
 the largest and smallest channel a sector's components give once raised and
 scaled.
 */
module ColorMath {
  import opened Js

  /** Channels as Math.round left them. */
  datatype Channels = Channels(r: int, g: int, b: int)

  function MaxChannel(c: Channels): int
  {
    if c.r >= c.g && c.r >= c.b then c.r else if c.g >= c.b then c.g else c.b
  }

  function MinChannel(c: Channels): int
  {
    if c.r <= c.g && c.r <= c.b then c.r else if c.g <= c.b then c.g else c.b
  }

  /** The largest channel of ch is hi and the smallest lo. */
  predicate ExtremesAre(ch: Channels, hi: int, lo: int)
  {
    MaxChannel(ch) == hi && MinChannel(ch) == lo
  }

  /** A ratio whose numerator is no larger in size than its positive denominator. */
  lemma UnitRatio(a: real, d: real)
    requires 0.0 < d && -d <= a <= d
    ensures -1.0 <= a / d <= 1.0
    ensures 0.0 <= a ==> 0.0 <= a / d
  {
  }

  /** The second-largest component of a sector: c scaled by the distance of h / 60 from
      the nearest odd number. */
  function Secondary(h: real, c: real): real
  {
    c * (1.0 - Abs(Rem(h / 60.0, 2.0) - 1.0))
  }

  /** Each component raised by m and scaled to a channel. */
  function Lift(t: (real, real, real), m: real): Channels
  {
    Channels(Scale255(t.0 + m), Scale255(t.1 + m), Scale255(t.2 + m))
  }

  /** `Math.round(v * 255)`. */
  function Scale255(v: real): int
  {
    Round(v * 255.0)
  }

  /** Scaling keeps the order, and [0, 1] scales into the bytes. */
  lemma Scale255Monotone(u: real, v: real)
    requires u <= v
    ensures Scale255(u) <= Scale255(v)
    ensures 0.0 <= u ==> 0 <= Scale255(u)
    ensures v <= 1.0 ==> Scale255(v) <= 255
  {
    RoundMonotone(u * 255.0, v * 255.0);
    if 0.0 <= u {
      RoundMonotone(0.0, u * 255.0);
    }
    if v <= 1.0 {
      RoundMonotone(v * 255.0, 255.0);
    }
  }

  /** For a non-negative hue the secondary component lies between 0 and c. */
  lemma SecondaryRange(h: real, c: real)
    requires 0.0 <= h && 0.0 <= c
    ensures 0.0 <= Secondary(h, c) <= c
  {
    RemOfNonNegative(h / 60.0, 2.0);
    var f := 1.0 - Abs(Rem(h / 60.0, 2.0) - 1.0);
    ScaleDown(c, f);
  }

  /** A fraction of a non-negative amount is no larger than the amount. */
  lemma ScaleDown(c: real, f: real)
    requires 0.0 <= c && 0.0 <= f <= 1.0
    ensures 0.0 <= c * f <= c
  {
  }

  /** Three components between 0 and c, one of them c and one 0. */
  predicate SectorShape(t: (real, real, real), c: real)
  {
    && 0.0 <= t.0 <= c && 0.0 <= t.1 <= c && 0.0 <= t.2 <= c
    && (t.0 == c || t.1 == c || t.2 == c) && (t.0 == 0.0 || t.1 == 0.0 || t.2 == 0.0)
  }

  /** Such components raised by m = b - c and scaled: the largest channel is b scaled and
      the smallest m scaled. */
  lemma Extremes(t: (real, real, real), c: real, m: real, b: real)
    requires SectorShape(t, c)
    requires 0.0 <= m && c + m == b && b <= 1.0
    ensures ExtremesAre(Lift(t, m), Scale255(b), Scale255(m))
  {
    Scale255Monotone(m, t.0 + m);
    Scale255Monotone(m, t.1 + m);
    Scale255Monotone(m, t.2 + m);
    Scale255Monotone(t.0 + m, b);
    Scale255Monotone(t.1 + m, b);
    Scale255Monotone(t.2 + m, b);
  }
}
