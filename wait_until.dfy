/**
 * `Core.waitUntilThis(options)`: checks a condition every `checkGap`
 * milliseconds and calls the callback once, either when the condition holds
 * or when the number of checks reaches `timeout / checkGap`.
 *
 * The timer is not modelled: `conditions[i]` is what the condition returns on
 * check number `i + 1`. A run with fewer results than checks is one whose
 * next check is still pending.
 */
module WaitUntil {

  /** The defaults `setOptions` supplies. */
  const DefaultTimeout: int := 5000
  const DefaultCheckGap: int := 5

  /** The object handed to the callback. */
  datatype PollOutcome = PollOutcome(success: bool, elapsed: int, checkGap: int, timeout: int)

  /** How many checks ran, and every callback call in order. */
  datatype Run = Run(checks: nat, calls: seq<PollOutcome>)

  /**
   * The first check count at which `checks >= timeout / checkGap` holds. For a
   * positive gap that test is `checks * checkGap >= timeout`, and the count
   * starts at 1.
   */
  function Limit(timeout: int, checkGap: int): (r: nat)
    requires checkGap > 0
    ensures r >= 1 && r * checkGap >= timeout
    ensures r == 1 || (r - 1) * checkGap < timeout
    decreases timeout
  {
    if timeout <= checkGap then 1
    else
      var r := Limit(timeout - checkGap, checkGap);
      assert (r + 1) * checkGap == r * checkGap + checkGap;
      r + 1
  }

  /** Passing the limit test is being at or past `Limit`. */
  lemma LimitIsLeast(timeout: int, checkGap: int, c: nat)
    requires checkGap > 0 && c >= 1
    ensures c * checkGap >= timeout <==> c >= Limit(timeout, checkGap)
  {
    var l := Limit(timeout, checkGap);
    if c >= l {
      MulMonotone(l, c, checkGap);
    } else {
      MulMonotone(c, l - 1, checkGap);
    }
  }

  lemma MulMonotone(a: int, b: int, g: int)
    requires a <= b && g > 0
    ensures a * g <= b * g
  {
    var d := b - a;
    assert b * g == a * g + d * g;
  }

  /** The index of the first `true`, or `|conditions|` when there is none. */
  function FirstTrue(conditions: seq<bool>): (r: nat)
    ensures r <= |conditions|
    ensures forall j :: 0 <= j < r ==> !conditions[j]
    ensures r < |conditions| ==> conditions[r]
  {
    if conditions == [] then 0
    else if conditions[0] then 0
    else 1 + FirstTrue(conditions[1..])
  }

  /**
   * What the poller does with these condition results: succeed on the first
   * `true` that comes no later than the limit check, otherwise time out at
   * the limit check, or still be waiting when the results run out first.
   */
  function Expected(conditions: seq<bool>, timeout: int, checkGap: int): (r: Run)
    requires checkGap > 0
    ensures r.checks <= |conditions| && |r.calls| <= 1
    ensures |r.calls| == 1 ==> r.calls[0].checkGap == checkGap && r.calls[0].timeout == timeout
  {
    var k := FirstTrue(conditions);
    var limit := Limit(timeout, checkGap);
    if k < limit && k < |conditions| then
      Run(k + 1, [PollOutcome(true, (k + 1) * checkGap, checkGap, timeout)])
    else if limit <= |conditions| then
      Run(limit, [PollOutcome(false, timeout, checkGap, timeout)])
    else
      Run(|conditions|, [])
  }

  /**
   * The `check` loop: count the check, evaluate the condition, then test the
   * limit, and otherwise schedule the next check.
   */
  method WaitUntilThis(conditions: seq<bool>, timeout: int, checkGap: int) returns (checks: nat, calls: seq<PollOutcome>)
    requires checkGap > 0
    ensures Run(checks, calls) == Expected(conditions, timeout, checkGap)
    ensures |calls| <= 1
  {
    checks := 0;
    calls := [];
    while checks < |conditions|
      invariant checks <= |conditions|
      invariant forall j :: 0 <= j < checks ==> !conditions[j]
      invariant checks < Limit(timeout, checkGap)
    {
      checks := checks + 1;
      if conditions[checks - 1] {
        calls := [PollOutcome(true, checks * checkGap, checkGap, timeout)];
        return;
      }
      LimitIsLeast(timeout, checkGap, checks);
      if checks * checkGap >= timeout {
        calls := [PollOutcome(false, timeout, checkGap, timeout)];
        return;
      }
      // setTimeout(check, checkGap)
    }
  }

  /** The callback runs at most once, and exactly once when enough results arrive to reach the limit. */
  lemma CallbackOnce(conditions: seq<bool>, timeout: int, checkGap: int)
    requires checkGap > 0
    ensures |Expected(conditions, timeout, checkGap).calls| <= 1
    ensures |conditions| >= Limit(timeout, checkGap) ==> |Expected(conditions, timeout, checkGap).calls| == 1
  {
  }

  /** The condition is evaluated before the limit is tested, so at least once. */
  lemma AtLeastOneCheck(conditions: seq<bool>, timeout: int, checkGap: int)
    requires checkGap > 0 && |conditions| >= 1
    ensures Expected(conditions, timeout, checkGap).checks >= 1
  {
  }

  /**
   * A success report comes from the first check whose condition held, no
   * later than the limit check, and reports `checks * checkGap`; it happens
   * exactly when some result up to the limit is `true`.
   */
  lemma SuccessReport(conditions: seq<bool>, timeout: int, checkGap: int)
    requires checkGap > 0
    ensures var run := Expected(conditions, timeout, checkGap);
      (|run.calls| == 1 && run.calls[0].success) <==>
        exists j :: 0 <= j < |conditions| && j < Limit(timeout, checkGap) && conditions[j]
    ensures var run := Expected(conditions, timeout, checkGap);
      |run.calls| == 1 && run.calls[0].success ==>
        && 1 <= run.checks <= Limit(timeout, checkGap)
        && conditions[run.checks - 1]
        && (forall j :: 0 <= j < run.checks - 1 ==> !conditions[j])
        && run.calls[0] == PollOutcome(true, run.checks * checkGap, checkGap, timeout)
  {
    var k := FirstTrue(conditions);
    if exists j :: 0 <= j < |conditions| && j < Limit(timeout, checkGap) && conditions[j] {
      var j :| 0 <= j < |conditions| && j < Limit(timeout, checkGap) && conditions[j];
      assert k <= j;
    }
  }

  /** A timeout report comes from the limit check, after every result up to it was `false`, and reports `timeout`. */
  lemma TimeoutReport(conditions: seq<bool>, timeout: int, checkGap: int)
    requires checkGap > 0
    ensures var run := Expected(conditions, timeout, checkGap);
      |run.calls| == 1 && !run.calls[0].success ==>
        && run.checks == Limit(timeout, checkGap)
        && (forall j :: 0 <= j < run.checks ==> !conditions[j])
        && run.calls[0] == PollOutcome(false, timeout, checkGap, timeout)
  {
  }

  /** A condition that holds at once is reported after one gap. */
  lemma TrueAtFirstCheck(conditions: seq<bool>, timeout: int, checkGap: int)
    requires checkGap > 0 && |conditions| >= 1 && conditions[0]
    ensures Expected(conditions, timeout, checkGap) == Run(1, [PollOutcome(true, checkGap, checkGap, timeout)])
  {
  }

  /** With the defaults, a condition that never holds is checked exactly 1000 times. */
  lemma DefaultsCheckThousandTimes(conditions: seq<bool>)
    requires |conditions| >= 1000
    requires forall j :: 0 <= j < 1000 ==> !conditions[j]
    ensures Expected(conditions, DefaultTimeout, DefaultCheckGap) ==
      Run(1000, [PollOutcome(false, DefaultTimeout, DefaultCheckGap, DefaultTimeout)])
  {
    var l := Limit(DefaultTimeout, DefaultCheckGap);
    assert l == 1000;
    var k := FirstTrue(conditions);
    assert k >= 1000;
  }
}
