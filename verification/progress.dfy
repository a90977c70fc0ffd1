/**
 Progress accounting of a download session (Downloader.cs `IncreaseCounter`).
 `counter` and `total` are C# `int`s: `100 * counter` is a 32-bit product
 and `/` truncates toward zero, and both are spelled out here.
 */
module Progress {
  import opened Results

  const MinInt32: int := -0x8000_0000
  const MaxInt32: int := 0x7fff_ffff

  /** The largest total for which `100 * counter` cannot overflow while `counter <= total`. */
  const MaxExactTotal: int := 21474836

  predicate IsInt32(v: int) {
    MinInt32 <= v <= MaxInt32
  }

  /** Two's-complement wrap-around of an `int` result. */
  function Wrap32(v: int): (w: int)
    ensures IsInt32(w)
    ensures IsInt32(v) ==> w == v
  {
    (v - MinInt32) % 0x1_0000_0000 + MinInt32
  }

  /** The wrapped value differs from the exact one by a multiple of 2^32. */
  lemma Wrap32Congruent(v: int)
    ensures (Wrap32(v) - v) % 0x1_0000_0000 == 0
  {
  }

  /**
   The quotient of a natural number by a positive divisor, by repeated
   subtraction. Division is spelled out so that the lemmas below reason by
   induction rather than through the solver's nonlinear division.
   */
  function Quot(a: nat, b: nat): nat
    requires b > 0
    decreases a
  {
    if a < b then 0 else 1 + Quot(a - b, b)
  }

  /** C# integer division by a positive divisor: the quotient is rounded toward zero. */
  function TruncDiv(a: int, b: int): int
    requires b > 0
  {
    if a >= 0 then Quot(a, b) else -(Quot(-a, b) as int)
  }

  /** A positive factor keeps the sign of the other, and a nonzero integer factor at least its size. */
  lemma MulSign(b: int, x: int)
    requires b > 0
    ensures x > 0 <==> b * x > 0
    ensures x < 0 <==> b * x < 0
    ensures x >= 1 ==> b * x >= b
    ensures x <= -1 ==> b * x <= -b
  {
    assert b * x - b == b * (x - 1);
    assert b * x + b == b * (x + 1);
  }

  /** `Quot` is floor division on naturals. */
  lemma {:induction false} QuotBounds(a: nat, b: nat)
    requires b > 0
    ensures b * Quot(a, b) <= a < b * Quot(a, b) + b
    decreases a
  {
    if a >= b {
      QuotBounds(a - b, b);
      assert b * Quot(a, b) == b + b * Quot(a - b, b);
    }
  }

  /**
   `TruncDiv` rounds toward zero: for a non-negative dividend the quotient
   is the largest `q` with `b * q <= a`, for a negative one the smallest
   `q` with `a <= b * q`.
   */
  lemma TruncDivBounds(a: int, b: int)
    requires b > 0
    ensures a >= 0 ==> 0 <= TruncDiv(a, b) && b * TruncDiv(a, b) <= a < b * TruncDiv(a, b) + b
    ensures a < 0 ==> TruncDiv(a, b) <= 0 && b * TruncDiv(a, b) - b < a <= b * TruncDiv(a, b)
  {
    if a >= 0 {
      QuotBounds(a, b);
    } else {
      QuotBounds(-a, b);
      var q: int := Quot(-a, b);
      assert b * (-q) == -(b * q);
    }
  }

  /** A larger dividend never has a smaller quotient. */
  lemma {:induction false} QuotMonotone(a1: nat, a2: nat, b: nat)
    requires a1 <= a2 && b > 0
    ensures Quot(a1, b) <= Quot(a2, b)
    decreases a2
  {
    if a1 >= b {
      QuotMonotone(a1 - b, a2 - b, b);
    }
  }

  /** A dividend short of `m` divisors has a quotient below `m`. */
  lemma QuotLess(a: nat, b: nat, m: int)
    requires b > 0 && a < m * b
    ensures Quot(a, b) < m
  {
    QuotBounds(a, b);
    var q := Quot(a, b);
    assert b * (m - q) == m * b - b * q;
    MulSign(b, m - q);
  }

  /** `m` divisors divide to exactly `m`. */
  lemma QuotExact(m: nat, b: nat)
    requires b > 0
    ensures Quot(m * b, b) == m
  {
    QuotBounds(m * b, b);
    var q := Quot(m * b, b);
    assert b * (q - m) == b * q - m * b;
    assert b * (m - q - 1) == m * b - b * q - b;
    MulSign(b, q - m);
    MulSign(b, m - q - 1);
  }

  /** `100 * counter / total` evaluated in 32-bit arithmetic. */
  function Percent(counter: int, total: int): int
    requires total > 0
  {
    TruncDiv(Wrap32(100 * counter), total)
  }

  /** The same percentage computed without overflow. */
  function ExactPercent(counter: int, total: int): int
    requires total > 0
  {
    TruncDiv(100 * counter, total)
  }

  /** A `TileDownloaded` notification: the post-increment counter and the total. */
  datatype ProgressEvent = ProgressEvent(current: int, total: int)

  /** The counter after one increment and the notification it fired, if any. */
  datatype Step = Step(counter: int, event: Option<ProgressEvent>)

  /**
   `IncreaseCounter`: the counter goes up by one, and a notification carrying
   the new counter fires exactly when the integer percentage strictly rises.
   */
  function IncreaseCounter(counter: int, total: int): (s: Step)
    requires IsInt32(counter) && 0 < total <= MaxInt32
    ensures IsInt32(s.counter)
    ensures counter < MaxInt32 ==> s.counter == counter + 1
    ensures s.event.Some? <==> Percent(counter, total) < Percent(s.counter, total)
    ensures s.event.Some? ==> s.event.value == ProgressEvent(s.counter, total)
  {
    var next := Wrap32(counter + 1);
    if Percent(counter, total) < Percent(next, total) then Step(next, Some(ProgressEvent(next, total)))
    else Step(next, None)
  }

  /** The counter and the notifications after a run of increments. */
  datatype Run = Run(counter: int, events: seq<ProgressEvent>)

  /** The notifications one step fired, as a sequence. */
  function Fired(event: Option<ProgressEvent>): seq<ProgressEvent> {
    if event.Some? then [event.value] else []
  }

  /** `n` consecutive calls of `IncreaseCounter` starting from `counter`. */
  function Advance(counter: int, total: int, n: nat): Run
    requires 0 <= counter && counter + n <= total <= MaxInt32
    decreases n
  {
    if n == 0 then Run(counter, [])
    else
      var s := IncreaseCounter(counter, total);
      var rest := Advance(s.counter, total, n - 1);
      Run(rest.counter, Fired(s.event) + rest.events)
  }

  /** A run of increments is its first step followed by the rest of the run. */
  lemma AdvanceStep(c: nat, total: int, n: nat)
    requires 0 < n && c + n <= total <= MaxInt32
    ensures IncreaseCounter(c, total).counter == c + 1
    ensures Advance(c, total, n).events == Fired(IncreaseCounter(c, total).event) + Advance(c + 1, total, n - 1).events
  {
  }

  lemma ExactPercentMonotone(a: nat, b: nat, total: int)
    requires a <= b && total > 0
    ensures ExactPercent(a, total) <= ExactPercent(b, total)
  {
    QuotMonotone(100 * a, 100 * b, total);
  }

  /** Without overflow the 32-bit percentage is the exact one. */
  lemma PercentExact(counter: nat, total: int)
    requires 0 < total <= MaxExactTotal && counter <= total
    ensures Percent(counter, total) == ExactPercent(counter, total)
    ensures ExactPercent(counter, total) <= 100
  {
    assert 100 * counter <= 100 * total <= MaxInt32;
    ExactPercentMonotone(counter, total, total);
    QuotExact(100, total);
  }

  /** One increment below the overflow bound, in exact terms. */
  lemma IncreaseCounterExact(c: nat, total: int)
    requires c < total <= MaxExactTotal
    ensures IncreaseCounter(c, total).counter == c + 1
    ensures IncreaseCounter(c, total).event.Some? <==> ExactPercent(c, total) < ExactPercent(c + 1, total)
    ensures IncreaseCounter(c, total).event.Some? ==> IncreaseCounter(c, total).event.value == ProgressEvent(c + 1, total)
    ensures ExactPercent(c, total) <= ExactPercent(c + 1, total)
    ensures c + 1 == total ==> IncreaseCounter(c, total).event.Some?
  {
    PercentExact(c, total);
    PercentExact(c + 1, total);
    ExactPercentMonotone(c, c + 1, total);
    if c + 1 == total {
      QuotLess(100 * c, total, 100);
      QuotExact(100, total);
    }
  }

  /** A run of `n` increments below the overflow bound ends exactly `n` higher. */
  lemma {:induction false} AdvanceCounter(c: nat, total: int, n: nat)
    requires c + n <= total <= MaxExactTotal
    ensures Advance(c, total, n).counter == c + n
    decreases n
  {
    if n > 0 {
      IncreaseCounterExact(c, total);
      AdvanceCounter(c + 1, total, n - 1);
    }
  }

  /**
   Reference reading of the notifications of a run below the overflow bound:
   increment `c + 1` is announced exactly when it raises the exact percentage.
   */
  function Notified(c: nat, total: int, n: nat): seq<ProgressEvent>
    requires total > 0
    decreases n
  {
    if n == 0 then []
    else
      (if ExactPercent(c, total) < ExactPercent(c + 1, total) then [ProgressEvent(c + 1, total)] else []) +
      Notified(c + 1, total, n - 1)
  }

  /** Below the overflow bound, the 32-bit run fires exactly the reference notifications. */
  lemma {:induction false} AdvanceNotified(c: nat, total: int, n: nat)
    requires c + n <= total <= MaxExactTotal && total > 0
    ensures Advance(c, total, n).events == Notified(c, total, n)
    decreases n
  {
    if n > 0 {
      IncreaseCounterExact(c, total);
      AdvanceNotified(c + 1, total, n - 1);
    }
  }

  /**
   A reference notification carries the total and a counter within the run,
   at a percentage above the starting one, and was fired by the increment
   that raised the percentage.
   */
  lemma {:induction false} NotifiedWithin(c: nat, total: int, n: nat, e: ProgressEvent)
    requires total > 0
    requires e in Notified(c, total, n)
    ensures e.total == total && c < e.current <= c + n
    ensures ExactPercent(c, total) < ExactPercent(e.current, total)
    ensures ExactPercent(e.current - 1, total) < ExactPercent(e.current, total)
    decreases n
  {
    var rest := Notified(c + 1, total, n - 1);
    if e in rest {
      NotifiedWithin(c + 1, total, n - 1, e);
      ExactPercentMonotone(c, c + 1, total);
    }
  }

  /** Every notification of a run lies within it. */
  lemma AdvanceEventsWithin(c: nat, total: int, n: nat)
    requires c + n <= total <= MaxExactTotal && total > 0
    ensures var es := Advance(c, total, n).events;
      forall i :: 0 <= i < |es| ==>
        es[i].total == total && c < es[i].current <= c + n && ExactPercent(c, total) < ExactPercent(es[i].current, total)
  {
    AdvanceNotified(c, total, n);
    var es := Notified(c, total, n);
    forall i | 0 <= i < |es|
      ensures es[i].total == total && c < es[i].current <= c + n && ExactPercent(c, total) < ExactPercent(es[i].current, total)
    {
      NotifiedWithin(c, total, n, es[i]);
    }
  }

  /** Of two reference notifications, the earlier one carries the smaller counter. */
  lemma {:induction false} NotifiedOrdered(c: nat, total: int, n: nat, i: nat, j: nat)
    requires total > 0
    requires i < j < |Notified(c, total, n)|
    ensures Notified(c, total, n)[i].current < Notified(c, total, n)[j].current
    decreases n
  {
    var es := Notified(c, total, n);
    var rest := Notified(c + 1, total, n - 1);
    if ExactPercent(c, total) < ExactPercent(c + 1, total) {
      assert es == [ProgressEvent(c + 1, total)] + rest;
      if i == 0 {
        assert es[j] == rest[j - 1];
        NotifiedWithin(c + 1, total, n - 1, rest[j - 1]);
      } else {
        NotifiedOrdered(c + 1, total, n - 1, i - 1, j - 1);
      }
    } else {
      assert es == rest;
      NotifiedOrdered(c + 1, total, n - 1, i, j);
    }
  }

  /** Notifications come in strictly increasing counter order. */
  lemma AdvanceEventsIncreasing(c: nat, total: int, n: nat)
    requires c + n <= total <= MaxExactTotal && total > 0
    ensures var es := Advance(c, total, n).events;
      forall i, j :: 0 <= i < j < |es| ==> es[i].current < es[j].current
  {
    AdvanceNotified(c, total, n);
    var es := Notified(c, total, n);
    forall i, j | 0 <= i < j < |es|
      ensures es[i].current < es[j].current
    {
      NotifiedOrdered(c, total, n, i, j);
    }
  }

  /** Each notification is at a strictly higher percentage than the one before it. */
  lemma AdvanceEventsRising(c: nat, total: int, n: nat)
    requires c + n <= total <= MaxExactTotal && total > 0
    ensures var es := Advance(c, total, n).events;
      forall i :: 0 < i < |es| ==> ExactPercent(es[i - 1].current, total) < ExactPercent(es[i].current, total)
  {
    AdvanceNotified(c, total, n);
    var es := Notified(c, total, n);
    forall i | 0 < i < |es|
      ensures ExactPercent(es[i - 1].current, total) < ExactPercent(es[i].current, total)
    {
      NotifiedOrdered(c, total, n, i - 1, i);
      NotifiedWithin(c, total, n, es[i - 1]);
      NotifiedWithin(c, total, n, es[i]);
      ExactPercentMonotone(es[i - 1].current, es[i].current - 1, total);
    }
  }

  /** A reference run fires no more notifications than the percentage points it gains. */
  lemma {:induction false} NotifiedCount(c: nat, total: int, n: nat)
    requires total > 0
    ensures |Notified(c, total, n)| <= ExactPercent(c + n, total) - ExactPercent(c, total)
    decreases n
  {
    if n > 0 {
      NotifiedCount(c + 1, total, n - 1);
      ExactPercentMonotone(c, c + 1, total);
    }
  }

  /** A run fires no more notifications than the percentage points it gains. */
  lemma AdvanceEventCount(c: nat, total: int, n: nat)
    requires c + n <= total <= MaxExactTotal && total > 0
    ensures |Advance(c, total, n).events| <= ExactPercent(c + n, total) - ExactPercent(c, total)
  {
    AdvanceNotified(c, total, n);
    NotifiedCount(c, total, n);
  }

  /** A run that reaches the total ends with the notification `(total, total)`. */
  lemma {:induction false} AdvanceFinal(c: nat, total: int, n: nat)
    requires 0 < n && c + n == total <= MaxExactTotal
    ensures var es := Advance(c, total, n).events;
      |es| > 0 && es[|es| - 1] == ProgressEvent(total, total)
    decreases n
  {
    var es := Advance(c, total, n).events;
    var rest := Advance(c + 1, total, n - 1).events;
    var step := IncreaseCounter(c, total);
    IncreaseCounterExact(c, total);
    assert es == Fired(step.event) + rest;
    if n > 1 {
      AdvanceFinal(c + 1, total, n - 1);
      assert es[|es| - 1] == rest[|rest| - 1];
    } else {
      assert rest == [];
    }
  }

  /**
   A whole session: starting from zero, `total` increments end with the
   counter at `total`, never beyond it, with a final notification
   `(total, total)` and no more than 100 notifications in all.
   */
  lemma SessionProgress(total: int)
    requires 0 < total <= MaxExactTotal
    ensures Advance(0, total, total).counter == total
    ensures |Advance(0, total, total).events| <= 100
    ensures forall e :: e in Advance(0, total, total).events ==> 0 < e.current <= total && e.total == total
    ensures |Advance(0, total, total).events| > 0 &&
      Advance(0, total, total).events[|Advance(0, total, total).events| - 1] == ProgressEvent(total, total)
  {
    AdvanceCounter(0, total, total);
    AdvanceEventsWithin(0, total, total);
    AdvanceEventCount(0, total, total);
    AdvanceFinal(0, total, total);
    PercentExact(total, total);
  }
}
