// Money: a currency, whole units and billionths of a unit. Decimals are exact
// reals.
module Money {
  import opened Prelude

  const NANOS_PER_UNIT := 1_000_000_000

  datatype Money = Money(currency: string, units: int, nanos: int)

  datatype MoneyError = Negative | NanosOutOfRange | CurrencyMismatch

  predicate ValidMoney(m: Money) {
    0 <= m.units && 0 <= m.nanos < NANOS_PER_UNIT
  }

  function Make(currency: string, units: int, nanos: int): (r: Result<Money, MoneyError>)
    ensures r.Ok? <==> 0 <= units && 0 <= nanos && nanos <= 999_999_999
    ensures r.Ok? ==> r.value == Money(currency, units, nanos) && ValidMoney(r.value)
  {
    if units < 0 then Err(Negative)
    else if !(0 <= nanos < NANOS_PER_UNIT) then Err(NanosOutOfRange)
    else Ok(Money(currency, units, nanos))
  }

  // int(x): truncation toward zero.
  function Truncate(x: real): int {
    if x >= 0.0 then x.Floor else -((-x).Floor)
  }

  // The split both from_decimal and the database backfill compute.
  function UnitsOf(amount: real): int {
    Truncate(amount)
  }

  function NanosOf(amount: real): int {
    Truncate((amount - UnitsOf(amount) as real) * NANOS_PER_UNIT as real)
  }

  function FromDecimal(amount: real, currency: string): Result<Money, MoneyError> {
    if amount < 0.0 then Err(Negative) else Make(currency, UnitsOf(amount), NanosOf(amount))
  }

  function ToDecimal(m: Money): real {
    m.units as real + m.nanos as real / NANOS_PER_UNIT as real
  }

  function TotalNanos(m: Money): int {
    m.units * NANOS_PER_UNIT + m.nanos
  }

  function Add(a: Money, b: Money): Result<Money, MoneyError> {
    if a.currency != b.currency then Err(CurrencyMismatch)
    else
      var nanos := a.nanos + b.nanos;
      Make(a.currency, a.units + b.units + nanos / NANOS_PER_UNIT, nanos % NANOS_PER_UNIT)
  }

  predicate LessThan(a: Money, b: Money) {
    TotalNanos(a) < TotalNanos(b)
  }

  // ------------------------------------------------ the total-nanos view

  // On one currency the view tells valid amounts apart, orders them as their
  // decimals are ordered, and turns addition into integer addition.
  lemma TotalNanosFaithful(a: Money, b: Money)
    requires ValidMoney(a) && ValidMoney(b) && a.currency == b.currency
    ensures TotalNanos(a) == TotalNanos(b) <==> a == b
    ensures LessThan(a, b) <==> ToDecimal(a) < ToDecimal(b)
    ensures Add(a, b).Ok? && ValidMoney(Add(a, b).value)
    ensures TotalNanos(Add(a, b).value) == TotalNanos(a) + TotalNanos(b)
    ensures ToDecimal(Add(a, b).value) == ToDecimal(a) + ToDecimal(b)
  {
  }

  lemma DecimalIsNanos(m: Money)
    ensures ToDecimal(m) * NANOS_PER_UNIT as real == TotalNanos(m) as real
  {
  }

  // ------------------------------------------------ conversion

  // Conversion keeps whole nanos and drops less than one.
  lemma FromDecimalFloors(amount: real, currency: string)
    requires amount >= 0.0
    ensures
      var m := FromDecimal(amount, currency);
      m.Ok? && m.value.currency == currency
      && TotalNanos(m.value) as real <= amount * 1_000_000_000.0 < TotalNanos(m.value) as real + 1.0
  {
  }

  // At most nine decimals: the conversion is exact and undoes to_decimal.
  lemma NineDecimalsExact(amount: real, nanos: nat, currency: string)
    requires amount * 1_000_000_000.0 == nanos as real
    ensures FromDecimal(amount, currency).Ok?
    ensures TotalNanos(FromDecimal(amount, currency).value) == nanos
    ensures ToDecimal(FromDecimal(amount, currency).value) == amount
  {
  }

  lemma RoundTrip(m: Money)
    requires ValidMoney(m)
    ensures FromDecimal(ToDecimal(m), m.currency) == Ok(m)
  {
    DecimalIsNanos(m);
    NineDecimalsExact(ToDecimal(m), TotalNanos(m), m.currency);
    TotalNanosFaithful(FromDecimal(ToDecimal(m), m.currency).value, m);
  }

  // ------------------------------------------------ sums of conversions

  function Sum(amounts: seq<real>): real {
    if amounts == [] then 0.0 else Sum(amounts[..|amounts| - 1]) + amounts[|amounts| - 1]
  }

  // Converting each amount and adding up the results.
  function SumConverted(amounts: seq<real>, currency: string): Result<Money, MoneyError> {
    if amounts == [] then Ok(Money(currency, 0, 0))
    else
      var front := SumConverted(amounts[..|amounts| - 1], currency);
      var last := FromDecimal(amounts[|amounts| - 1], currency);
      if front.Err? then front else if last.Err? then last else Add(front.value, last.value)
  }

  // n converted amounts undershoot their exact sum by less than n nanos, and by
  // nothing when each has at most nine decimals.
  lemma {:induction false} SumUndershoots(amounts: seq<real>, currency: string)
    requires forall i | 0 <= i < |amounts| :: amounts[i] >= 0.0
    ensures
      var m := SumConverted(amounts, currency);
      var exact := Sum(amounts) * NANOS_PER_UNIT as real;
      && m.Ok? && ValidMoney(m.value) && m.value.currency == currency
      && 0.0 <= exact - TotalNanos(m.value) as real
      && (amounts == [] ==> exact - TotalNanos(m.value) as real == 0.0)
      && (amounts != [] ==> exact - TotalNanos(m.value) as real < |amounts| as real)
  {
    if amounts != [] {
      var front, last := amounts[..|amounts| - 1], amounts[|amounts| - 1];
      SumUndershoots(front, currency);
      FromDecimalFloors(last, currency);
      TotalNanosFaithful(SumConverted(front, currency).value, FromDecimal(last, currency).value);
    }
  }

  lemma {:induction false} SumExact(amounts: seq<real>, nanos: seq<nat>, currency: string)
    requires |amounts| == |nanos|
    requires forall i | 0 <= i < |amounts| :: amounts[i] * NANOS_PER_UNIT as real == nanos[i] as real
    ensures
      var m := SumConverted(amounts, currency);
      m.Ok? && ValidMoney(m.value) && m.value.currency == currency && ToDecimal(m.value) == Sum(amounts)
  {
    if amounts != [] {
      var n := |amounts| - 1;
      SumExact(amounts[..n], nanos[..n], currency);
      NineDecimalsExact(amounts[n], nanos[n], currency);
      FromDecimalFloors(amounts[n], currency);
      TotalNanosFaithful(SumConverted(amounts[..n], currency).value, FromDecimal(amounts[n], currency).value);
    }
  }

  // ------------------------------------------------ the database backfill

  datatype Transaction = Transaction(amount: real, split: Option<(int, int)>)

  function Backfilled(t: Transaction): Transaction {
    if t.split.Some? then t else t.(split := Some((UnitsOf(t.amount), NanosOf(t.amount))))
  }

  // Rows without a split get one, the others are left alone.
  method BackfillMoneyColumns(rows: array<Transaction>)
    modifies rows
    ensures forall i | 0 <= i < rows.Length :: rows[i] == Backfilled(old(rows[i]))
  {
    var i := 0;
    while i < rows.Length
      invariant 0 <= i <= rows.Length
      invariant forall j | 0 <= j < i :: rows[j] == Backfilled(old(rows[j]))
      invariant forall j | i <= j < rows.Length :: rows[j] == old(rows[j])
    {
      if rows[i].split.None? {
        var d := rows[i].amount;
        var units := Truncate(d);
        var nanos := Truncate((d - units as real) * NANOS_PER_UNIT as real);
        rows[i] := rows[i].(split := Some((units, nanos)));
      }
      i := i + 1;
    }
  }

  // The backfill agrees with from_decimal on every non-negative amount, and only
  // there: it also splits negative amounts, which from_decimal refuses.
  lemma BackfillAgrees(t: Transaction, currency: string)
    requires t.split.None?
    ensures
      var (units, nanos) := Backfilled(t).split.value;
      FromDecimal(t.amount, currency) == Ok(Money(currency, units, nanos)) <==> t.amount >= 0.0
    ensures Backfilled(Backfilled(t)) == Backfilled(t)
  {
  }

  // One dirham short: the backfill writes -1 units, the constructor refuses.
  lemma NegativeBackfilled()
    ensures Backfilled(Transaction(-1.0, None)).split == Some((-1, 0))
    ensures FromDecimal(-1.0, "AED") == Err(Negative)
  {
  }
}
