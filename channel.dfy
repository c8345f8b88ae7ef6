/**
 * The two connection helpers, identical in all three copies: the retry loop
 * that fetches the server certificate, and the scan of socket-monitor events
 * before subscribing.  The network fetch and the monitor socket are oracles:
 * a sequence of fetch outcomes and a sequence of event codes.
 */
module Channel {

  // ------------------------------------------------ certificate renewal

  /** One pass of the renewal loop's `try` block. */
  datatype Attempt =
      /** The certificate was downloaded and written: the function returns. */
    | Written
      /** `urllib.error.URLError`: back off and try again. */
    | UrlError
      /** Any other exception escapes the function. */
    | OtherError

  datatype Renewal =
      /** Returned normally after this many failed attempts. */
    | Renewed(failures: nat)
      /** An exception other than `URLError` escaped after this many failed attempts. */
    | Raised(failures: nat)
      /** Every attempt in the oracle failed with `URLError`: still retrying. */
    | Retrying

  /** `delay * 2 if delay < 120 else delay` */
  function NextDelay(delay: int): int {
    if delay < 120 then delay * 2 else delay
  }

  /** The value of `delay` after `k` failed attempts (it starts at 1). */
  function DelayAfter(k: nat): int {
    if k == 0 then 1 else NextDelay(DelayAfter(k - 1))
  }

  function Pow2(n: nat): nat {
    if n == 0 then 1 else 2 * Pow2(n - 1)
  }

  function Min(a: nat, b: nat): nat {
    if a <= b then a else b
  }

  /** The index of the first attempt that ends the loop, or `|attempts|`. */
  function FirstNotUrlError(attempts: seq<Attempt>): (k: nat)
    ensures k <= |attempts|
    ensures forall i :: 0 <= i < k ==> attempts[i] == UrlError
    ensures k < |attempts| ==> attempts[k] != UrlError
  {
    if attempts == [] || attempts[0] != UrlError then 0
    else 1 + FirstNotUrlError(attempts[1..])
  }

  /**
   * The renewal loop.  `sleeps` are the pauses it takes, in order: after the
   * `i`-th failure (counting from 1) it sleeps `DelayAfter(i)` seconds.
   */
  method RenewServerCertificate(attempts: seq<Attempt>) returns (outcome: Renewal, sleeps: seq<int>)
    ensures var k := FirstNotUrlError(attempts);
            && |sleeps| == k
            && (forall i :: 0 <= i < k ==> sleeps[i] == DelayAfter(i + 1))
            && outcome == (if k == |attempts| then Retrying
                           else if attempts[k] == Written then Renewed(k)
                           else Raised(k))
  {
    var delay := 1;
    sleeps := [];
    var i := 0;
    while i < |attempts|
      invariant 0 <= i <= |attempts|
      invariant forall j :: 0 <= j < i ==> attempts[j] == UrlError
      invariant delay == DelayAfter(i)
      invariant |sleeps| == i
      invariant forall j :: 0 <= j < i ==> sleeps[j] == DelayAfter(j + 1)
    {
      match attempts[i]
      case Written =>
        return Renewed(i), sleeps;
      case OtherError =>
        return Raised(i), sleeps;
      case UrlError =>
        delay := if delay < 120 then delay * 2 else delay;
        sleeps := sleeps + [delay];
      i := i + 1;
    }
    outcome := Retrying;
  }

  /** The delay after `k` failures is `2^min(k, 7)`: it doubles up to 128,
      never stops at 120, and stays at 128. */
  lemma {:induction false} DelayClosedForm(k: nat)
    ensures DelayAfter(k) == Pow2(Min(k, 7))
  {
    if k > 0 {
      DelayClosedForm(k - 1);
      if k <= 7 {
        assert Pow2(k) == 2 * Pow2(k - 1);
        assert k - 1 < 7;
        assert Pow2(k - 1) <= 64 by { Pow2Monotone(k - 1, 6); }
      }
    }
  }

  lemma {:induction false} Pow2Monotone(a: nat, b: nat)
    requires a <= b
    ensures Pow2(a) <= Pow2(b)
    decreases b
  {
    if a < b {
      Pow2Monotone(a, b - 1);
    }
  }

  lemma DelayBounds(k: nat)
    ensures 1 <= DelayAfter(k) <= 128
    ensures DelayAfter(k) != 120
  {
    DelayClosedForm(k);
    Pow2Monotone(0, Min(k, 7));
    Pow2Monotone(Min(k, 7), 7);
    if Min(k, 7) < 7 {
      Pow2Monotone(Min(k, 7), 6);
    }
  }

  lemma DelayMonotone(i: nat, j: nat)
    requires i <= j
    ensures DelayAfter(i) <= DelayAfter(j)
  {
    DelayClosedForm(i);
    DelayClosedForm(j);
    Pow2Monotone(Min(i, 7), Min(j, 7));
  }

  lemma DelaySettles(k: nat)
    requires k >= 7
    ensures DelayAfter(k) == 128
  {
    DelayClosedForm(k);
  }

  // ------------------------------------------------ waiting for the connection

  /** `zmq.EVENT_CONNECTED` */
  const EventConnected := 0x0001

  /** The three handshake-failure codes of libzmq's draft API. */
  predicate HandshakeFailed(event: int) {
    event == 0x0800 || event == 0x2000 || event == 0x4000
  }

  predicate Decisive(event: int) {
    event == EventConnected || HandshakeFailed(event)
  }

  datatype Wait =
      /** Connected on the event at this index. */
    | Connected(at: nat)
      /** Handshake failure at this index: the process exits with status 1. */
    | Failed(at: nat)
      /** No decisive event yet: still polling. */
    | Waiting

  method WaitForConnection(events: seq<int>) returns (w: Wait)
    ensures w.Connected? ==> w.at < |events| && events[w.at] == EventConnected
    ensures w.Failed? ==> w.at < |events| && HandshakeFailed(events[w.at])
    ensures !w.Waiting? ==> forall i :: 0 <= i < w.at ==> !Decisive(events[i])
    ensures w.Waiting? <==> forall i :: 0 <= i < |events| ==> !Decisive(events[i])
    ensures w.Waiting? <==> FirstDecisive(events) == |events|
    ensures !w.Waiting? ==> w.at == FirstDecisive(events)
  {
    var i := 0;
    while i < |events|
      invariant 0 <= i <= |events|
      invariant forall j :: 0 <= j < i ==> !Decisive(events[j])
    {
      if events[i] == EventConnected {
        return Connected(i);
      }
      if events[i] == 0x0800 || events[i] == 0x2000 || events[i] == 0x4000 {
        return Failed(i);
      }
      i := i + 1;
    }
    w := Waiting;
  }

  /** Events after the first decisive one are never looked at. */
  lemma FirstDecisiveWins(events: seq<int>, k: nat, later: seq<int>)
    requires k < |events| && Decisive(events[k])
    requires forall i :: 0 <= i < k ==> !Decisive(events[i])
    ensures FirstDecisive(events[..k + 1] + later) == k
    ensures FirstDecisive(events) == k
  {
    var e := events[..k + 1] + later;
    assert e[k] == events[k];
    assert forall i :: 0 <= i < k ==> e[i] == events[i];
  }

  /** The index of the first decisive event, or `|events|`. */
  function FirstDecisive(events: seq<int>): (k: nat)
    ensures k <= |events|
    ensures forall i :: 0 <= i < k ==> !Decisive(events[i])
    ensures k < |events| ==> Decisive(events[k])
  {
    if events == [] || Decisive(events[0]) then 0
    else 1 + FirstDecisive(events[1..])
  }
}
