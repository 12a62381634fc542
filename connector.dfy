/**
 * `connect_with_retry`: up to `max` connection attempts, stopping at the first
 * that succeeds, with no delay between attempts.
 */
module Connector {
  import opened Wire
  import opened Transport

  /** How many attempts both request functions allow. */
  const MAX_RETRIES: byte := 5

  /**
   * What `connect_with_retry` returns and how many `connect()` calls it
   * makes, when the next call is number `from` and `max` calls are allowed.
   */
  function Retry(outcomes: seq<bool>, from: nat, max: nat): (r: (bool, nat))
    ensures r.1 <= max
    decreases max
  {
    if max == 0 then (false, 0)
    else if ConnectSucceeds(outcomes, from) then (true, 1)
    else
      var (ok, n) := Retry(outcomes, from + 1, max - 1);
      (ok, n + 1)
  }

  /**
   * The retry rule: success exactly when one of the `max` allowed attempts
   * succeeds; then the last attempt made is the first that succeeds, and
   * otherwise all `max` attempts are made.
   */
  lemma {:induction false} RetryRule(outcomes: seq<bool>, from: nat, max: nat)
    ensures var (ok, n) := Retry(outcomes, from, max);
      && (ok <==> exists i :: from <= i < from + max && ConnectSucceeds(outcomes, i))
      && (ok ==> 1 <= n && ConnectSucceeds(outcomes, from + n - 1))
      && (forall i :: from <= i < from + n - 1 ==> !ConnectSucceeds(outcomes, i))
      && (!ok ==> n == max)
    decreases max
  {
    if max > 0 && !ConnectSucceeds(outcomes, from) {
      RetryRule(outcomes, from + 1, max - 1);
    }
  }

  /** With no attempts allowed nothing is tried and 0 is returned. */
  lemma RetryNone(outcomes: seq<bool>, from: nat)
    ensures Retry(outcomes, from, 0) == (false, 0)
  {
  }

  method ConnectWithRetry(c: Client, max: byte) returns (ok: bool)
    modifies c`attempts, c`open
    ensures (ok, c.attempts - old(c.attempts)) == Retry(c.outcomes, old(c.attempts), max as nat)
    ensures c.attempts >= old(c.attempts)
    ensures c.open == (old(c.open) || ok)
  {
    ghost var from := c.attempts;
    var i: nat := 0;
    while i < max as nat
      invariant i <= max as nat
      invariant c.attempts == from + i
      invariant c.open == old(c.open)
      invariant Retry(c.outcomes, from, max as nat)
             == (Retry(c.outcomes, from + i, max as nat - i).0, i + Retry(c.outcomes, from + i, max as nat - i).1)
    {
      var connected := c.Connect();
      if connected {
        return true;
      }
      i := i + 1;
    }
    return false;
  }
}
