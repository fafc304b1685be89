/**
 * The retry driver at the end of bookit.py. With `--retry N`, `book` is called
 * up to N times: a ValueError (nothing available) counts as a failed attempt, a
 * true result ends the loop, any other exception ends the script. After the
 * loop, `book` is called once more, unconditionally, and that last call alone
 * decides between "Booked!" and "Failed to book :(".
 *
 * The portal is not modelled: `outcome(i)` is how the i-th call of `book`
 * (counting from 0) ends.
 */
module Retry {
  import opened Booking

  /** How the `while attempts` loop ends. */
  datatype LoopEnd =
    | Finished(calls: nat, result: bool)  // the counter reached zero; `result` as last assigned
    | Aborted(calls: nat, error: Error)   // a call raised something other than a ValueError

  /** How the script ends: `dots` is the number of dots printed by the loop. */
  datatype RunEnd =
    | Printed(dots: nat, booked: bool)    // "Booked!" when `booked`, else "Failed to book :("
    | Crashed(dots: nat, error: Error)    // an exception left the script

  /** After this outcome the loop counts one attempt down and calls again. */
  predicate Retries(o: Outcome) {
    o == Returned(false) || (o.Raised? && o.error.NotAvailableError?)
  }

  /**
   * The loop from a state in which `attempts` is the counter, `calls` calls have
   * been made and `result` is the current value of the variable `result`.
   */
  function Loop(attempts: nat, calls: nat, result: bool, outcome: nat -> Outcome): (r: LoopEnd)
    ensures calls <= r.calls <= calls + attempts
    ensures r.Finished? && r.calls < calls + attempts ==>
              calls < r.calls && r.result && outcome(r.calls - 1) == Returned(true)
    ensures r.Aborted? ==> calls < r.calls && outcome(r.calls - 1) == Raised(r.error) && !r.error.NotAvailableError?
    decreases attempts
  {
    if attempts == 0 then Finished(calls, result)
    else
      var o := outcome(calls);
      match o
      case Raised(e) =>
        if e.NotAvailableError? then Loop(attempts - 1, calls + 1, false, outcome)
        else Aborted(calls + 1, e)
      case Returned(b) =>
        if b then Loop(0, calls + 1, true, outcome)
        else Loop(attempts - 1, calls + 1, false, outcome)
  }

  /** The whole driver: the loop when `retry` is non-zero, then the trailing call. */
  function Run(retry: nat, outcome: nat -> Outcome): (r: RunEnd)
    ensures r.dots <= retry
    ensures r.Printed? ==> outcome(r.dots) == Returned(r.booked)
  {
    match Loop(retry, 0, false, outcome)
    case Aborted(n, e) => Crashed(n, e)
    case Finished(n, _) =>
      match outcome(n)
      case Returned(b) => Printed(n, b)
      case Raised(e) => Crashed(n, e)
  }

  /**
   * Lines 112-133 of bookit.py. `retry` is the value of `--retry`, 0 standing
   * for an absent option (both are false for `if args.retry`).
   */
  method RetryThenBook(retry: nat, outcome: nat -> Outcome) returns (r: RunEnd)
    ensures r == Run(retry, outcome)
  {
    var result := false;
    var calls: nat := 0;
    if retry != 0 {
      var attempts: nat := retry;
      while attempts != 0
        invariant Loop(attempts, calls, result, outcome) == Loop(retry, 0, false, outcome)
        decreases attempts
      {
        calls := calls + 1;
        var o := outcome(calls - 1);
        match o {
          case Raised(e) =>
            if !e.NotAvailableError? {
              return Crashed(calls, e);
            }
            result := false;
          case Returned(b) =>
            result := b;
        }
        if result {
          attempts := 0;
        } else {
          attempts := attempts - 1;
        }
      }
    }
    var last := outcome(calls);
    r := if last.Returned? then Printed(calls, last.booked) else Crashed(calls, last.error);
  }

  // ---------------------------------------------------------------------------
  // Properties of the driver
  // ---------------------------------------------------------------------------

  /**
   * The loop stops right after the first call that neither failed nor raised a
   * ValueError: on a true result it finishes, on any other exception it aborts.
   */
  lemma {:induction false} LoopStopsAtFirstDecisive(attempts: nat, calls: nat, result: bool, outcome: nat -> Outcome, k: nat)
    requires calls <= k < calls + attempts
    requires forall j :: calls <= j < k ==> Retries(outcome(j))
    requires !Retries(outcome(k))
    ensures Loop(attempts, calls, result, outcome) ==
            if outcome(k).Returned? then Finished(k + 1, true) else Aborted(k + 1, outcome(k).error)
  {
    if k > calls {
      assert Retries(outcome(calls));
      LoopStopsAtFirstDecisive(attempts - 1, calls + 1, false, outcome, k);
    }
  }

  /** When every call fails or raises a ValueError, the loop makes exactly `attempts` calls. */
  lemma {:induction false} LoopExhausted(attempts: nat, calls: nat, result: bool, outcome: nat -> Outcome)
    requires attempts > 0
    requires forall j :: calls <= j < calls + attempts ==> Retries(outcome(j))
    ensures Loop(attempts, calls, result, outcome) == Finished(calls + attempts, false)
  {
    assert Retries(outcome(calls));
    if attempts > 1 {
      LoopExhausted(attempts - 1, calls + 1, false, outcome);
    }
  }

  /**
   * After a booking by the k-th call of the loop, one more call is made and it
   * alone decides: its result is printed, or its exception (a ValueError
   * included) ends the script, after k + 1 dots.
   */
  lemma RunAfterLoopBooking(retry: nat, outcome: nat -> Outcome, k: nat)
    requires k < retry
    requires forall j :: 0 <= j < k ==> Retries(outcome(j))
    requires outcome(k) == Returned(true)
    ensures Run(retry, outcome) ==
            if outcome(k + 1).Returned? then Printed(k + 1, outcome(k + 1).booked) else Crashed(k + 1, outcome(k + 1).error)
  {
    LoopStopsAtFirstDecisive(retry, 0, false, outcome, k);
  }

  /**
   * When every call of the loop fails or raises a ValueError, the call made
   * after `retry` dots alone decides what happens. With `retry` 0 (no
   * `--retry`) the loop is skipped and the single call decides.
   */
  lemma RunAfterExhaustion(retry: nat, outcome: nat -> Outcome)
    requires forall j :: 0 <= j < retry ==> Retries(outcome(j))
    ensures Run(retry, outcome) ==
            if outcome(retry).Returned? then Printed(retry, outcome(retry).booked) else Crashed(retry, outcome(retry).error)
  {
    if retry > 0 {
      LoopExhausted(retry, 0, false, outcome);
    }
  }

  /**
   * An exception other than a ValueError raised by the k-th call of the loop
   * ends the script there: no trailing call is made, after k + 1 dots.
   */
  lemma RunCrashesOnLoopError(retry: nat, outcome: nat -> Outcome, k: nat)
    requires k < retry
    requires forall j :: 0 <= j < k ==> Retries(outcome(j))
    requires outcome(k).Raised? && !outcome(k).error.NotAvailableError?
    ensures Run(retry, outcome) == Crashed(k + 1, outcome(k).error)
  {
    LoopStopsAtFirstDecisive(retry, 0, false, outcome, k);
  }

  /** `--retry 3` against a portal that is not yet offering the slot twice, then books it. */
  lemma ThirdAttemptBooks()
    ensures var outcome := (i: nat) => if i < 2 then Raised(NotAvailableError(1, "2024-06-01", "1400")) else Returned(true);
            Loop(3, 0, false, outcome) == Finished(3, true) && Run(3, outcome) == Printed(3, true)
  {
    var outcome := (i: nat) => if i < 2 then Raised(NotAvailableError(1, "2024-06-01", "1400")) else Returned(true);
    LoopStopsAtFirstDecisive(3, 0, false, outcome, 2);
  }

  /**
   * As written, a booking made inside the loop is not what is reported: the
   * trailing call books again, and once the slot is taken that call fails or
   * raises, so the script prints "Failed to book :(" or crashes.
   */
  lemma LoopBookingOverridden(retry: nat, outcome: nat -> Outcome, k: nat)
    requires k < retry
    requires forall j :: 0 <= j < k ==> Retries(outcome(j))
    requires outcome(k) == Returned(true)
    requires outcome(k + 1) != Returned(true)
    ensures Run(retry, outcome) ==
            if outcome(k + 1).Raised? then Crashed(k + 1, outcome(k + 1).error) else Printed(k + 1, false)
  {
    RunAfterLoopBooking(retry, outcome, k);
  }

  /**
   * The driver as evidently intended: with `--retry` the loop's own result is
   * reported; the single call is made only when the option is absent.
   */
  function RunIntended(retry: nat, outcome: nat -> Outcome): (r: RunEnd) {
    if retry == 0 then
      match outcome(0)
      case Returned(b) => Printed(0, b)
      case Raised(e) => Crashed(0, e)
    else
      match Loop(retry, 0, false, outcome)
      case Aborted(n, e) => Crashed(n, e)
      case Finished(n, result) => Printed(n, result)
  }

  /** With `--retry`, a booking made by the k-th call is reported as booked, after k + 1 dots. */
  lemma IntendedReportsLoopBooking(retry: nat, outcome: nat -> Outcome, k: nat)
    requires k < retry
    requires forall j :: 0 <= j < k ==> Retries(outcome(j))
    requires outcome(k) == Returned(true)
    ensures RunIntended(retry, outcome) == Printed(k + 1, true)
  {
    LoopStopsAtFirstDecisive(retry, 0, false, outcome, k);
  }

  /** With `--retry`, when no call books or raises anything but a ValueError, failure is reported after `retry` dots. */
  lemma IntendedReportsExhaustion(retry: nat, outcome: nat -> Outcome)
    requires retry > 0
    requires forall j :: 0 <= j < retry ==> Retries(outcome(j))
    ensures RunIntended(retry, outcome) == Printed(retry, false)
  {
    LoopExhausted(retry, 0, false, outcome);
  }
}
