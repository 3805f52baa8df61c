/**
  The budgeting cards (src/app/anime-3/page.tsx): the animated spending
  total that climbs to its target in steps of 50, and the calendar lookup
  that attaches an upcoming transaction to a day cell.
 */
module Spending {

  import opened Wrappers

  const Target := 1586
  const Increment := 50
  const InitialAmount := 0

  function Min(a: int, b: int): int {
    if a <= b then a else b
  }

  /**
    One firing of the 50 ms timer the effect schedules: below the target the
    amount grows by the increment, capped at the target; at the target the
    callback changes nothing.
   */
  function Tick(current: int): (r: int)
    ensures current <= Target ==> current <= r <= Target
    ensures current < Target ==> r > current
    ensures current >= Target ==> r == current
    ensures r - current <= Increment
  {
    if current < Target then Min(current + Increment, Target) else current
  }

  /** The amount after `n` timer firings. */
  function Ticks(current: int, n: nat): int {
    if n == 0 then current else Tick(Ticks(current, n - 1))
  }

  /** Up to the target the amount grows by the increment per firing, and then stays put. */
  lemma {:induction false} TicksClosedForm(current: int, n: nat)
    requires current <= Target
    ensures Ticks(current, n) == Min(current + Increment * n, Target)
  {
    if n > 0 {
      TicksClosedForm(current, n - 1);
    }
  }

  /** The amount never decreases over time. */
  lemma TicksMonotone(current: int, n: nat, m: nat)
    requires current <= Target && n <= m
    ensures Ticks(current, n) <= Ticks(current, m) <= Target
  {
    TicksClosedForm(current, n);
    TicksClosedForm(current, m);
  }

  /** Once the target is reached, further firings leave it there. */
  lemma {:induction false} TargetIsFixed(n: nat)
    ensures Ticks(Target, n) == Target
  {
    if n > 0 {
      TargetIsFixed(n - 1);
    }
  }

  /** From zero the total shows 1586 after exactly 32 firings and not before. */
  lemma ReachesTargetIn32()
    ensures Ticks(InitialAmount, 32) == Target
    ensures forall n: nat :: n < 32 ==> Ticks(InitialAmount, n) < Target
  {
    TicksClosedForm(InitialAmount, 32);
    forall n: nat | n < 32 ensures Ticks(InitialAmount, n) < Target {
      TicksClosedForm(InitialAmount, n);
    }
  }

  // ---------------------------------------------------------------------------
  // Upcoming transactions

  /** An entry of `transactions`; amounts are in cents, `null` is `None`. */
  datatype Transaction = Transaction(day: int, amountCents: Option<nat>, color: Option<string>)

  const Transactions: seq<Transaction> := [
    Transaction(28, None, None),
    Transaction(1, None, None),
    Transaction(2, Some(2199), Some("bg-red-500")),
    Transaction(5, None, None),
    Transaction(7, Some(230), Some("bg-blue-500")),
    Transaction(8, Some(14499), Some("bg-green-500")),
    Transaction(9, Some(999), Some("bg-purple-500"))
  ]

  /** The two calendar weeks, Sunday first. */
  const CalendarDays: seq<seq<int>> := [
    [27, 28, 29, 30, 1, 2, 3],
    [4, 5, 6, 7, 8, 9, 10]
  ]

  /** The index of the first transaction on `day` at or after `k`. */
  function FindDay(ts: seq<Transaction>, day: int, k: nat): (r: Option<nat>)
    requires k <= |ts|
    ensures r.Some? ==> k <= r.value < |ts| && ts[r.value].day == day
    ensures r.Some? ==> forall j :: k <= j < r.value ==> ts[j].day != day
    ensures r.None? ==> forall j :: k <= j < |ts| ==> ts[j].day != day
    decreases |ts| - k
  {
    if k == |ts| then None
    else if ts[k].day == day then Some(k)
    else FindDay(ts, day, k + 1)
  }

  /** `transactions.find(t => t.day === day)`: the first transaction on that day, if any. */
  function TransactionFor(ts: seq<Transaction>, day: int): (r: Option<Transaction>)
    ensures r.Some? ==> r.value in ts && r.value.day == day
    ensures r.Some? ==>
      exists i :: 0 <= i < |ts| && ts[i] == r.value && (forall j :: 0 <= j < i ==> ts[j].day != day)
    ensures r.None? <==> forall t :: t in ts ==> t.day != day
  {
    match FindDay(ts, day, 0)
    case None => None
    case Some(i) => Some(ts[i])
  }

  /** The cell shows the amount label when a transaction is found and its amount is truthy (non-null, non-zero). */
  predicate ShowsAmount(t: Option<Transaction>) {
    t.Some? && t.value.amountCents.Some? && t.value.amountCents.value != 0
  }

  /** The days shown on the calendar, week by week. */
  function CalendarCells(): seq<int> {
    CalendarDays[0] + CalendarDays[1]
  }

  /**
    On the page's calendar, the highlighted cells are the 28th and the 1st,
    2nd, 5th, 7th, 8th and 9th, and the amount label appears on the 2nd,
    7th, 8th and 9th only.
   */
  lemma CalendarLookup(day: int)
    requires day in CalendarCells()
    ensures TransactionFor(Transactions, day).Some? <==> day in {28, 1, 2, 5, 7, 8, 9}
    ensures ShowsAmount(TransactionFor(Transactions, day)) <==> day in {2, 7, 8, 9}
  {
    var ts := Transactions;
    if day in {27, 29, 30, 3, 4, 6, 10} {
      assert forall t :: t in ts ==> t.day != day;
    } else if day == 28 {
      assert TransactionFor(ts, day) == Some(ts[0]);
    } else if day == 1 {
      assert TransactionFor(ts, day) == Some(ts[1]);
    } else if day == 2 {
      assert TransactionFor(ts, day) == Some(ts[2]);
    } else if day == 5 {
      assert TransactionFor(ts, day) == Some(ts[3]);
    } else if day == 7 {
      assert TransactionFor(ts, day) == Some(ts[4]);
    } else if day == 8 {
      assert TransactionFor(ts, day) == Some(ts[5]);
    } else {
      assert day == 9;
      assert TransactionFor(ts, day) == Some(ts[6]);
    }
  }
}
