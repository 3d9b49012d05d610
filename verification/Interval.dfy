/** src/interval.rs: an interval's exact total, and how comparing totals relates
    to the order DuckDB gives intervals in SQL. */
module Interval {
  import opened Wrappers

  const MICROS_PER_DAY: int := 86_400 * 1_000_000
  const DAYS_PER_MONTH: int := 30
  const MICROS_PER_MONTH: int := DAYS_PER_MONTH * MICROS_PER_DAY

  const I32_MIN: int := -0x8000_0000
  const I32_MAX: int := 0x7FFF_FFFF
  const I64_MIN: int := -0x8000_0000_0000_0000
  const I64_MAX: int := 0x7FFF_FFFF_FFFF_FFFF
  const I128_MAX: int := 0x7FFF_FFFF_FFFF_FFFF_FFFF_FFFF_FFFF_FFFF

  datatype DuckInterval = DuckInterval(months: int, days: int, micros: int) {
    /** The fields fit `i32`, `i32` and `i64`. */
    predicate Fits() {
      I32_MIN <= months <= I32_MAX && I32_MIN <= days <= I32_MAX && I64_MIN <= micros <= I64_MAX
    }

    predicate SharesSign() {
      (months >= 0 && days >= 0 && micros >= 0) || (months <= 0 && days <= 0 && micros <= 0)
    }
  }

  predicate FitsI64(n: int) {
    I64_MIN <= n <= I64_MAX
  }

  // ---- Conversion

  function TotalMicros(iv: DuckInterval): int {
    iv.months * MICROS_PER_MONTH + iv.days * MICROS_PER_DAY + iv.micros
  }

  function IntervalToMicros(iv: DuckInterval): Option<int> {
    if FitsI64(TotalMicros(iv)) then Some(TotalMicros(iv)) else None
  }

  function IntervalToMicrosSaturating(iv: DuckInterval): int {
    if FitsI64(TotalMicros(iv)) then TotalMicros(iv)
    else if TotalMicros(iv) >= 0 then I64_MAX
    else I64_MIN
  }

  /** The sum is exact: no product and no partial sum leaves `i128`. */
  lemma {:induction false} TotalFitsI128(iv: DuckInterval)
    requires iv.Fits()
    ensures -I128_MAX <= iv.months * MICROS_PER_MONTH <= I128_MAX
    ensures -I128_MAX <= iv.days * MICROS_PER_DAY <= I128_MAX
    ensures -I128_MAX <= iv.months * MICROS_PER_MONTH + iv.days * MICROS_PER_DAY <= I128_MAX
    ensures -I128_MAX <= TotalMicros(iv) <= I128_MAX
  {
  }

  /** `Interval::GetMicro`, DuckDB's `epoch_us`: each product and each sum is
      checked in `i64`. */
  function EpochUs(iv: DuckInterval): Option<int> {
    if !FitsI64(iv.months * MICROS_PER_MONTH) then None
    else if !FitsI64(iv.days * MICROS_PER_DAY) then None
    else if !FitsI64(iv.months * MICROS_PER_MONTH + iv.days * MICROS_PER_DAY) then None
    else if !FitsI64(TotalMicros(iv)) then None
    else Some(TotalMicros(iv))
  }

  /** Whenever the field-by-field addition succeeds, both conversions return
      its result, and the saturating one is the nearest `i64` to the total. */
  lemma {:induction false} ConversionsAgree(iv: DuckInterval)
    requires iv.Fits()
    ensures EpochUs(iv).Some? ==>
              IntervalToMicros(iv) == EpochUs(iv) && IntervalToMicrosSaturating(iv) == EpochUs(iv).value
    ensures IntervalToMicros(iv).Some? ==> IntervalToMicrosSaturating(iv) == IntervalToMicros(iv).value
    ensures forall n :: FitsI64(n) && n <= TotalMicros(iv) ==> n <= IntervalToMicrosSaturating(iv)
    ensures forall n :: FitsI64(n) && n >= TotalMicros(iv) ==> n >= IntervalToMicrosSaturating(iv)
    ensures FitsI64(IntervalToMicrosSaturating(iv))
    // a month is 30 days of 86_400 seconds, and only an `i64` overflow is refused
    ensures var total := iv.months * 2_592_000_000_000 + iv.days * 86_400_000_000 + iv.micros;
            IntervalToMicros(iv) ==
            if -9_223_372_036_854_775_808 <= total <= 9_223_372_036_854_775_807 then Some(total) else None
  {
  }

  /** For fields of one sign the two differ on no input at all; the interval of
      the documentation, whose days overflow on their own, needs both signs. */
  lemma {:induction false} EpochUsFailsOnlyOnMixedSigns(iv: DuckInterval)
    requires iv.Fits()
    ensures iv.SharesSign() ==> EpochUs(iv) == IntervalToMicros(iv)
    ensures var doc := DuckInterval(0, 106751992, -86400000000);
            EpochUs(doc) == None && IntervalToMicros(doc) == Some(9223372022400000000)
  {
  }

  // ---- SQL comparison

  /** C++ integer division, which truncates towards zero. */
  function Quot(a: int, b: int): int
    requires b > 0
  {
    if a >= 0 then a / b else -(-a / b)
  }

  lemma {:induction false} FloorRest(a: nat, b: nat)
    requires b > 0
    ensures 0 <= a - a / b * b < b && a / b >= 0
  {
    assert a == a / b * b + a % b;
  }

  /** What `a - Quot(a, b) * b` leaves. */
  lemma {:induction false} QuotRest(a: int, b: int)
    requires b > 0
    ensures var r := a - Quot(a, b) * b;
            if a >= 0 then 0 <= r < b && Quot(a, b) >= 0 else -b < r <= 0 && Quot(a, b) <= 0
  {
    if a >= 0 {
      FloorRest(a, b);
    } else {
      var q := -a / b;
      FloorRest(-a, b);
      assert -q * b == -(q * b);
    }
  }

  /** `interval_t::Normalize`: micros carry into days, days into months. */
  function Normalize(iv: DuckInterval): DuckInterval {
    var days := iv.days + Quot(iv.micros, MICROS_PER_DAY);
    DuckInterval(iv.months + Quot(days, DAYS_PER_MONTH),
                 days - Quot(days, DAYS_PER_MONTH) * DAYS_PER_MONTH,
                 iv.micros - Quot(iv.micros, MICROS_PER_DAY) * MICROS_PER_DAY)
  }

  predicate LexLess(a: DuckInterval, b: DuckInterval) {
    || a.months < b.months
    || (a.months == b.months && (a.days < b.days || (a.days == b.days && a.micros < b.micros)))
  }

  /** `a < b` in SQL. */
  predicate SqlLess(a: DuckInterval, b: DuckInterval) {
    LexLess(Normalize(a), Normalize(b))
  }

  /** `a = b` in SQL. */
  predicate SqlEqual(a: DuckInterval, b: DuckInterval) {
    Normalize(a) == Normalize(b)
  }

  /** Comparing totals and comparing in SQL give the same answer. */
  predicate OrdersAgree(a: DuckInterval, b: DuckInterval) {
    && (SqlLess(a, b) <==> TotalMicros(a) < TotalMicros(b))
    && (SqlLess(b, a) <==> TotalMicros(b) < TotalMicros(a))
    && (SqlEqual(a, b) <==> TotalMicros(a) == TotalMicros(b))
  }

  lemma {:induction false} NormalizeKeepsTotal(iv: DuckInterval)
    ensures TotalMicros(Normalize(iv)) == TotalMicros(iv)
  {
    var days := iv.days + Quot(iv.micros, MICROS_PER_DAY);
    assert MICROS_PER_MONTH == DAYS_PER_MONTH * MICROS_PER_DAY;
  }

  lemma {:induction false} NormalizeBounds(iv: DuckInterval)
    ensures var n := Normalize(iv);
            -DAYS_PER_MONTH < n.days < DAYS_PER_MONTH && -MICROS_PER_DAY < n.micros < MICROS_PER_DAY
    ensures iv.SharesSign() ==> Normalize(iv).SharesSign()
  {
    QuotRest(iv.micros, MICROS_PER_DAY);
    QuotRest(iv.days + Quot(iv.micros, MICROS_PER_DAY), DAYS_PER_MONTH);
  }

  /** A normalised interval: the carries leave less than one unit. */
  predicate Carried(n: DuckInterval) {
    -DAYS_PER_MONTH < n.days < DAYS_PER_MONTH && -MICROS_PER_DAY < n.micros < MICROS_PER_DAY
  }

  lemma {:induction false} LexIsTotal(a: DuckInterval, b: DuckInterval)
    requires Carried(a) && a.SharesSign() && Carried(b) && b.SharesSign()
    ensures LexLess(a, b) <==> TotalMicros(a) < TotalMicros(b)
    ensures a == b <==> TotalMicros(a) == TotalMicros(b)
  {
    if LexLess(a, b) {
      TotalOrder(a, b);
    } else if LexLess(b, a) {
      TotalOrder(b, a);
    }
  }

  lemma {:induction false} TotalOrder(a: DuckInterval, b: DuckInterval)
    requires Carried(a) && a.SharesSign() && Carried(b) && b.SharesSign() && LexLess(a, b)
    ensures TotalMicros(a) < TotalMicros(b)
  {
    if a.months < b.months {
      if a.months >= 0 {
        assert a.days * MICROS_PER_DAY + a.micros < MICROS_PER_MONTH;
      } else if b.months <= 0 {
        assert b.days * MICROS_PER_DAY + b.micros > -MICROS_PER_MONTH;
      }
    }
  }

  /** For intervals whose fields share a sign, exact totals order them as SQL
      does. */
  lemma {:induction false} SameSignOrdersAgree(a: DuckInterval, b: DuckInterval)
    requires a.SharesSign() && b.SharesSign()
    ensures OrdersAgree(a, b)
  {
    NormalizedOrdersAgree(a, b);
  }

  /** More than that: it is enough that the normalised fields share a sign. */
  lemma {:induction false} NormalizedOrdersAgree(a: DuckInterval, b: DuckInterval)
    requires (a.SharesSign() || Normalize(a).SharesSign()) && (b.SharesSign() || Normalize(b).SharesSign())
    ensures OrdersAgree(a, b)
  {
    NormalizeBounds(a);
    NormalizeBounds(b);
    NormalizeKeepsTotal(a);
    NormalizeKeepsTotal(b);
    LexIsTotal(Normalize(a), Normalize(b));
    LexIsTotal(Normalize(b), Normalize(a));
  }

  /** A total spread over non-negative fields, the largest unit first. */
  function SpreadUp(total: nat): DuckInterval {
    var months := if total / MICROS_PER_MONTH <= I32_MAX then total / MICROS_PER_MONTH else I32_MAX;
    var rest := total - months * MICROS_PER_MONTH;
    var days := if rest / MICROS_PER_DAY <= I32_MAX then rest / MICROS_PER_DAY else I32_MAX;
    DuckInterval(months, days, rest - days * MICROS_PER_DAY)
  }

  function Negated(iv: DuckInterval): DuckInterval {
    DuckInterval(-iv.months, -iv.days, -iv.micros)
  }

  lemma {:induction false} SpreadUpFits(total: nat)
    requires total <= I32_MAX * MICROS_PER_MONTH + I32_MAX * MICROS_PER_DAY + I64_MAX
    ensures var iv := SpreadUp(total);
            && TotalMicros(iv) == total
            && 0 <= iv.months <= I32_MAX && 0 <= iv.days <= I32_MAX && 0 <= iv.micros <= I64_MAX
  {
  }

  lemma {:induction false} NormalizeOfSameSign(a: DuckInterval)
    requires a.SharesSign()
    ensures Normalize(a).SharesSign()
  {
    NormalizeBounds(a);
  }

  /** The condition is exact: an interval is ordered by its total as SQL orders
      it, against every interval of one sign, if and only if its own fields
      share a sign once carried. */
  lemma {:induction false} TotalsOrderExactly(a: DuckInterval)
    requires a.Fits()
    ensures (forall b: DuckInterval :: b.Fits() && b.SharesSign() ==> OrdersAgree(a, b)) <==> Normalize(a).SharesSign()
  {
    if Normalize(a).SharesSign() {
      forall b: DuckInterval | b.Fits() && b.SharesSign()
        ensures OrdersAgree(a, b)
      {
        NormalizedOrdersAgree(a, b);
      }
    } else {
      if a.SharesSign() {
        NormalizeOfSameSign(a);
      }
      var b := SameTotal(a);
      NormalizeOfSameSign(b);
      assert !SqlEqual(a, b);
      assert !OrdersAgree(a, b);
    }
  }

  /** Where signs are mixed the total is small enough to spread over one sign. */
  lemma {:induction false} SameTotal(a: DuckInterval) returns (b: DuckInterval)
    requires a.Fits() && !a.SharesSign()
    ensures b.Fits() && b.SharesSign() && TotalMicros(b) == TotalMicros(a)
  {
    var total := TotalMicros(a);
    MixedTotalIsSmall(a);
    if total >= 0 {
      b := SpreadUp(total);
      SpreadUpFits(total);
    } else {
      var up := SpreadUp(-total);
      SpreadUpFits(-total);
      b := Negated(up);
    }
  }

  lemma {:induction false} MixedTotalIsSmall(a: DuckInterval)
    requires a.Fits() && !a.SharesSign()
    ensures var most := I32_MAX * MICROS_PER_MONTH + I32_MAX * MICROS_PER_DAY + I64_MAX;
            -most <= TotalMicros(a) <= most
  {
  }

  /** The documentation's example: a month less a day has the total of 29 days
      and yet is greater in SQL. */
  lemma {:induction false} MixedSignsDisagree()
    ensures var a, b := DuckInterval(1, -1, 0), DuckInterval(0, 29, 0);
            TotalMicros(a) == TotalMicros(b) && SqlLess(b, a) && !OrdersAgree(a, b)
  {
  }
}
