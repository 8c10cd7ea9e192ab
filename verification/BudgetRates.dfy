/** A token budget over an arbitrary window as Envoy's "N per one unit". */
module BudgetRates {
  import opened Common

  datatype Unit = Second | Minute | Hour | Day

  /** budgetWindowUnit: the largest unit no longer than the window. */
  function WindowUnit(window: int): (u: Unit)
    ensures window >= 1 ==> UnitSeconds(u) <= window
    ensures forall v: Unit | UnitSeconds(v) <= window :: UnitSeconds(v) <= UnitSeconds(u)
  {
    if window >= 86400 then Day else if window >= 3600 then Hour else if window >= 60 then Minute else Second
  }

  function UnitSeconds(u: Unit): (s: int)
    ensures s >= 1
  {
    match u case Day => 86400 case Hour => 3600 case Minute => 60 case Second => 1
  }

  /** compileBudgetRule's limit: int64 product, truncated quotient, at least one. */
  function Limit(maxTokens: int, window: int): (r: int)
    requires window >= 1
    ensures r >= 1
  {
    var scaled := TruncDiv(Wrap64(maxTokens * UnitSeconds(WindowUnit(window))), window);
    if scaled < 1 then 1 else scaled
  }

  /** The limit is the cap scaled to the unit and rounded down. */
  predicate Faithful(r: int, maxTokens: int, window: int) {
    var unit := UnitSeconds(WindowUnit(window));
    r * window <= maxTokens * unit < (r + 1) * window
  }

  lemma QuotientBounds(n: int, d: int)
    requires n >= 0 && d > 0
    ensures n / d * d <= n < (n / d + 1) * d
  {
    assert n == d * (n / d) + n % d;
  }

  lemma RateStaysWithinCap(r: int, maxTokens: int, window: int, unit: int)
    requires r >= 0 && unit >= 1 && window >= 1 && r * window <= maxTokens * unit
    ensures r * (window / unit) <= maxTokens
  {
    var whole := window / unit;
    assert whole * unit <= window by { QuotientBounds(window, unit); }
    assert r * (whole * unit) <= r * window by { ScaleUp(r, whole * unit, window); }
    assert r * (whole * unit) == (r * whole) * unit;
    if r * whole > maxTokens {
      ScaleUp(unit, maxTokens + 1, r * whole);
      assert false;
    }
  }

  lemma ScaleUp(k: int, a: int, b: int)
    requires k >= 0 && a <= b
    ensures k * a <= k * b && a * k <= b * k
  {
  }

  /** Without overflow the clamp to one fires exactly when the scaled cap is below
      one per unit; otherwise the limit is the scaled cap rounded down, and over
      the whole units of a window it never admits more than the cap. */
  lemma LimitIsFaithful(maxTokens: int, window: int)
    requires maxTokens >= 1 && 1 <= window <= MAX_INT32
    requires maxTokens * UnitSeconds(WindowUnit(window)) <= MAX_INT64
    ensures var r, unit := Limit(maxTokens, window), UnitSeconds(WindowUnit(window));
            if maxTokens * unit < window then r == 1
            else Faithful(r, maxTokens, window) && r * (window / unit) <= maxTokens
  {
    var unit := UnitSeconds(WindowUnit(window));
    var product := maxTokens * unit;
    ScaleUp(maxTokens, 1, unit);
    QuotientBounds(product, window);
    if product < window {
      if product / window >= 1 { ScaleUp(window, 1, product / window); assert false; }
    } else {
      if product / window < 1 { ScaleUp(window, product / window + 1, 1); assert false; }
      RateStaysWithinCap(product / window, maxTokens, window, unit);
    }
  }

  /** Windows of exactly one unit keep the cap as it is. */
  lemma ExactWindows(maxTokens: int, window: int)
    requires window in {1, 60, 3600, 86400} && 1 <= maxTokens && maxTokens * window <= MAX_INT64
    ensures Limit(maxTokens, window) == maxTokens
  {
  }

  /** When the clamp does not apply, the limit is faithful exactly when the product
      fits an int64: an overflowed product always gives a limit below the scaled cap. */
  lemma FaithfulIffNoOverflow(maxTokens: int, window: int)
    requires 1 <= maxTokens <= MAX_INT64 && 1 <= window <= MAX_INT32
    requires maxTokens * UnitSeconds(WindowUnit(window)) >= window
    ensures Faithful(Limit(maxTokens, window), maxTokens, window)
            <==> maxTokens * UnitSeconds(WindowUnit(window)) <= MAX_INT64
  {
    var unit := UnitSeconds(WindowUnit(window));
    var product := maxTokens * unit;
    if product <= MAX_INT64 {
      LimitIsFaithful(maxTokens, window);
    } else {
      OverflowFallsShort(product, window);
    }
  }

  lemma WrapDrops(x: int)
    requires x > MAX_INT64
    ensures Wrap64(x) <= x - 0x1_0000_0000_0000_0000
  {
  }

  lemma OverflowFallsShort(product: int, window: int)
    requires product > MAX_INT64 && 1 <= window <= MAX_INT32
    ensures var q := TruncDiv(Wrap64(product), window);
            ((if q < 1 then 1 else q) + 1) * window <= product
  {
    var wrapped := Wrap64(product);
    WrapDrops(product);
    if wrapped >= 0 { QuotientBounds(wrapped, window); }
  }
}
