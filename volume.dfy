/**
 * The polyphony volume rule used by both schedulers: a column with more notes plays quieter,
 * linearly from `high` (no other note) down to `low` (every tile of the column armed).
 */
module Volume {

  /** ((height - count) / height) * (high - low) + low, over exact reals. */
  function PolyphonyVolume(height: nat, count: int, low: real, high: real): real
    requires height > 0
  {
    ((height - count) as real / height as real) * (high - low) + low
  }

  /** An empty column plays at the high volume. */
  lemma SilentColumnIsLoudest(height: nat, low: real, high: real)
    requires height > 0
    ensures PolyphonyVolume(height, 0, low, high) == high
  {
    assert height as real / height as real == 1.0;
  }

  /** A full column plays at the low volume. */
  lemma FullColumnIsQuietest(height: nat, low: real, high: real)
    requires height > 0
    ensures PolyphonyVolume(height, height, low, high) == low
  {
  }

  /** With 0 <= count <= height the volume lies between the two levels. */
  lemma VolumeInRange(height: nat, count: int, low: real, high: real)
    requires height > 0 && 0 <= count <= height && low <= high
    ensures low <= PolyphonyVolume(height, count, low, high) <= high
  {
    var f := (height - count) as real / height as real;
    QuotientInUnit((height - count) as real, height as real);
    ScaledFraction(f, high - low);
  }

  /** One more note in the column makes every note of it strictly quieter. */
  lemma VolumeDecreasing(height: nat, c1: int, c2: int, low: real, high: real)
    requires height > 0 && c1 < c2 && low < high
    ensures PolyphonyVolume(height, c2, low, high) < PolyphonyVolume(height, c1, low, high)
  {
    var h := height as real;
    QuotientStrictlyIncreasing((height - c2) as real, (height - c1) as real, h);
    ProductStrictlyIncreasing((height - c2) as real / h, (height - c1) as real / h, high - low);
  }

  lemma QuotientInUnit(n: real, h: real)
    requires h > 0.0 && 0.0 <= n <= h
    ensures 0.0 <= n / h <= 1.0
  {
  }

  lemma ScaledFraction(f: real, d: real)
    requires 0.0 <= f <= 1.0 && d >= 0.0
    ensures 0.0 <= f * d <= d
  {
  }

  lemma QuotientStrictlyIncreasing(a: real, b: real, h: real)
    requires h > 0.0 && a < b
    ensures a / h < b / h
  {
  }

  lemma ProductStrictlyIncreasing(a: real, b: real, d: real)
    requires a < b && d > 0.0
    ensures a * d < b * d
  {
  }
}
