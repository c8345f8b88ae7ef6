/**
 * The serial tracker shared by all three client copies (`class Serial`); the
 * copies differ only in the limit they construct it with.
 */
module SerialTracker {

  /** The tracker's observable state: `current_serial` and
      `received_out_of_order`. */
  datatype SerialState = SerialState(current: int, early: set<int>)

  /** The answer of `update_ok` and the state it leaves behind. */
  datatype Verdict = Verdict(ok: bool, next: SerialState)

  /** `s` without the serials strictly above `lo` and at most `hi`. */
  function Outside(s: set<int>, lo: int, hi: int): set<int> {
    set j | j in s && !(lo < j <= hi)
  }

  /** The rewind loop: starting from `cur`, absorb every buffered immediate
      successor, removing it from the buffer. */
  function Rewind(cur: int, early: set<int>): (r: SerialState)
    ensures r.current >= cur
    ensures r.current + 1 !in r.early
    ensures forall j :: cur < j <= r.current ==> j in early
    ensures r.early == Outside(early, cur, r.current)
    decreases |early|
  {
    if cur + 1 in early then
      var r := Rewind(cur + 1, early - {cur + 1});
      assert Outside(early - {cur + 1}, cur + 1, r.current) == Outside(early, cur, r.current);
      assert forall j :: cur < j <= r.current ==> j in early by {
        forall j | cur < j <= r.current ensures j in early {
          if j > cur + 1 { assert j in early - {cur + 1}; }
        }
      }
      r
    else
      assert Outside(early, cur, cur) == early;
      SerialState(cur, early)
  }

  /** `update_ok(serial)` on state `st` with `missing_limit == limit`. */
  function Update(st: SerialState, serial: int, limit: int): (v: Verdict)
    ensures v.next.current >= st.current
    ensures !v.ok ==> v.next == st
    // the expected successor is accepted, advances, and absorbs its buffered successors
    ensures serial == st.current + 1 ==>
              v.ok && v.next.current >= serial && v.next.current + 1 !in v.next.early
              && v.next.early <= st.early
    // a serial below the current one is rejected
    ensures serial < st.current ==> !v.ok
    // anything else (a gap, or the current serial itself) is buffered unless
    // the buffer already holds more than `limit` entries
    ensures serial >= st.current && serial != st.current + 1 ==>
              (v.ok <==> |st.early| <= limit)
              && (v.ok ==> v.next == SerialState(st.current, st.early + {serial}))
  {
    if serial == st.current + 1 then
      Verdict(true, Rewind(serial, st.early))
    else if serial < st.current then
      Verdict(false, st)
    else if |st.early| > limit then
      Verdict(false, st)
    else
      Verdict(true, SerialState(st.current, st.early + {serial}))
  }

  /** Feeds `serials` to the tracker one by one; `ok` says every call answered true. */
  function Deliver(st: SerialState, serials: seq<int>, limit: int): Verdict
    decreases |serials|
  {
    if serials == [] then Verdict(true, st)
    else
      var v := Update(st, serials[0], limit);
      var w := Deliver(v.next, serials[1..], limit);
      Verdict(v.ok && w.ok, w.next)
  }

  class Serial {
    const missingLimit: int
    var currentSerial: int
    var receivedOutOfOrder: set<int>

    function State(): SerialState
      reads this
    {
      SerialState(currentSerial, receivedOutOfOrder)
    }

    constructor (missingLimit: int)
      ensures this.missingLimit == missingLimit
      ensures State() == SerialState(0, {})
    {
      this.missingLimit := missingLimit;
      currentSerial := 0;
      receivedOutOfOrder := {};
    }

    /** `update_ok`: the three-way rule with the greedy rewind loop. */
    method UpdateOk(serial: int) returns (ok: bool)
      modifies this
      ensures Verdict(ok, State()) == Update(old(State()), serial, missingLimit)
    {
      if serial == currentSerial + 1 {
        currentSerial := serial;
        while currentSerial + 1 in receivedOutOfOrder
          invariant Rewind(currentSerial, receivedOutOfOrder) == Rewind(serial, old(receivedOutOfOrder))
          decreases |receivedOutOfOrder|
        {
          currentSerial := currentSerial + 1;
          receivedOutOfOrder := receivedOutOfOrder - {currentSerial};
        }
        return true;
      } else {
        if serial < currentSerial {
          return false;
        }
        if |receivedOutOfOrder| > missingLimit {
          return false;
        }
        receivedOutOfOrder := receivedOutOfOrder + {serial};
        return true;
      }
    }

    /** `reset(serial)`: after a full list, restart from its serial. */
    method Reset(serial: int)
      modifies this
      ensures State() == SerialState(serial, {})
    {
      receivedOutOfOrder := {};
      currentSerial := serial;
    }
  }

  // ---------------------------------------------------------------- lemmas

  /** The buffer never grows past `limit + 1` entries. */
  lemma UpdateKeepsBound(st: SerialState, serial: int, limit: int)
    requires |st.early| <= limit + 1
    ensures |Update(st, serial, limit).next.early| <= limit + 1
  {
    var v := Update(st, serial, limit);
    if serial == st.current + 1 {
      SubsetCard(v.next.early, st.early);
    }
  }

  lemma SubsetCard(a: set<int>, b: set<int>)
    requires a <= b
    ensures |a| <= |b|
  {
    assert b == a + (b - a);
  }

  /** `reset(k)` followed by `update_ok(k+1)` accepts and lands on `k+1`. */
  lemma ResetThenSuccessor(k: int, limit: int)
    ensures Update(SerialState(k, {}), k + 1, limit) == Verdict(true, SerialState(k + 1, {}))
  {
  }

  /** Between resets the current serial never decreases, whatever is delivered. */
  lemma {:induction false} DeliverMonotone(st: SerialState, serials: seq<int>, limit: int)
    ensures Deliver(st, serials, limit).next.current >= st.current
    decreases |serials|
  {
    if serials != [] {
      DeliverMonotone(Update(st, serials[0], limit).next, serials[1..], limit);
    }
  }

  /** The serials `k+1 .. k+n` in increasing order. */
  function Ascending(k: int, n: nat): (r: seq<int>)
    ensures |r| == n
    ensures forall i :: 0 <= i < n ==> r[i] == k + 1 + i
    decreases n
  {
    if n == 0 then [] else [k + 1] + Ascending(k + 1, n - 1)
  }

  /** Delivering `k+1 .. k+n` in order after `reset(k)` is accepted throughout
      and ends at `k+n` with an empty buffer. */
  lemma {:induction false} DeliverInOrder(k: int, n: nat, limit: int)
    ensures Deliver(SerialState(k, {}), Ascending(k, n), limit) == Verdict(true, SerialState(k + n, {}))
    decreases n
  {
    if n > 0 {
      var s := Ascending(k, n);
      assert s[1..] == Ascending(k + 1, n - 1);
      assert Update(SerialState(k, {}), k + 1, limit) == Verdict(true, SerialState(k + 1, {}));
      DeliverInOrder(k + 1, n - 1, limit);
    }
  }

  /** What holds after `reset(k)` once the serials in `delivered` have come in
      (each accepted): every serial up to the current one has been delivered,
      the buffer holds exactly the delivered ones above it, and the next
      expected serial is not buffered. */
  ghost predicate Absorbed(k: int, delivered: set<int>, st: SerialState) {
    && st.current >= k
    && (forall j :: j in delivered ==> j > k)
    && (forall j :: k < j <= st.current ==> j in delivered)
    && st.early == Outside(delivered, k, st.current)
    && st.current + 1 !in st.early
  }

  lemma UpdateAbsorbs(k: int, delivered: set<int>, st: SerialState, s: int, limit: int)
    requires Absorbed(k, delivered, st)
    requires s > k && s !in delivered
    requires Update(st, s, limit).ok
    ensures Absorbed(k, delivered + {s}, Update(st, s, limit).next)
  {
    if s == st.current + 1 {
      SuccessorAbsorbs(k, delivered, st, s);
    } else {
      assert s <= st.current ==> s in delivered;
      assert Update(st, s, limit).next == SerialState(st.current, st.early + {s});
    }
  }

  /** The expected successor and the buffered run after it are absorbed. */
  lemma SuccessorAbsorbs(k: int, delivered: set<int>, st: SerialState, s: int)
    requires Absorbed(k, delivered, st)
    requires s == st.current + 1 && s !in delivered
    ensures Absorbed(k, delivered + {s}, Rewind(s, st.early))
  {
    var r := Rewind(s, st.early);
    assert r.early == Outside(delivered + {s}, k, r.current) by {
      forall j ensures j in r.early <==> j in Outside(delivered + {s}, k, r.current) {
        if s < j <= r.current { assert j in st.early; }
      }
    }
    forall j | k < j <= r.current ensures j in delivered + {s} {
      if j > s { assert j in st.early; }
    }
  }

  function Elements(serials: seq<int>): set<int> {
    set i | 0 <= i < |serials| :: serials[i]
  }

  lemma {:induction false} DeliverAbsorbs(k: int, delivered: set<int>, st: SerialState, serials: seq<int>, limit: int)
    requires Absorbed(k, delivered, st)
    requires forall i :: 0 <= i < |serials| ==> serials[i] > k && serials[i] !in delivered
    requires forall i, j :: 0 <= i < j < |serials| ==> serials[i] != serials[j]
    requires Deliver(st, serials, limit).ok
    ensures Absorbed(k, delivered + Elements(serials), Deliver(st, serials, limit).next)
    decreases |serials|
  {
    if serials != [] {
      var s := serials[0];
      UpdateAbsorbs(k, delivered, st, s, limit);
      var rest := serials[1..];
      forall i | 0 <= i < |rest| ensures rest[i] > k && rest[i] !in delivered + {s} {
        assert rest[i] == serials[i + 1];
      }
      DeliverAbsorbs(k, delivered + {s}, Update(st, s, limit).next, rest, limit);
      assert Elements(serials) == {s} + Elements(rest) by {
        forall x | x in Elements(serials) ensures x in {s} + Elements(rest) {
          var i :| 0 <= i < |serials| && serials[i] == x;
          if i > 0 { assert rest[i - 1] == x; }
        }
        forall x | x in Elements(rest) ensures x in Elements(serials) {
          var i :| 0 <= i < |rest| && rest[i] == x;
          assert serials[i + 1] == x;
        }
      }
      assert delivered + {s} + Elements(rest) == delivered + Elements(serials);
    }
  }

  /** After `reset(k)`, delivering each of `k+1 .. k+n` exactly once, in any
      order, with every call answering true, ends at `k+n` with an empty buffer. */
  lemma DeliverPermutation(k: int, n: nat, serials: seq<int>, limit: int)
    requires forall i :: 0 <= i < |serials| ==> k < serials[i] <= k + n
    requires forall j :: k < j <= k + n ==> j in serials
    requires forall i, j :: 0 <= i < j < |serials| ==> serials[i] != serials[j]
    requires Deliver(SerialState(k, {}), serials, limit).ok
    ensures Deliver(SerialState(k, {}), serials, limit).next == SerialState(k + n, {})
  {
    assert Absorbed(k, {}, SerialState(k, {})) by {
      assert Outside({}, k, k) == {};
    }
    DeliverAbsorbs(k, {}, SerialState(k, {}), serials, limit);
    var r := Deliver(SerialState(k, {}), serials, limit).next;
    var all := Elements(serials);
    assert {} + all == all;
    forall j | k < j <= k + n ensures j in all {
      assert j in serials;
      var i :| 0 <= i < |serials| && serials[i] == j;
    }
    assert forall j :: j in all ==> k < j <= k + n;
    assert r.current > k + n ==> r.current in all;
    assert r.current < k + n ==> r.current + 1 in r.early;
    assert r.current == k + n;
    assert Outside(all, k, k + n) == {};
  }

  /** With the buffer already holding more than `limit` serials, any serial that
      is not the expected successor is refused. */
  lemma OverfullRefuses(st: SerialState, serial: int, limit: int)
    requires |st.early| > limit && serial != st.current + 1
    ensures Update(st, serial, limit) == Verdict(false, st)
  {
  }
}
