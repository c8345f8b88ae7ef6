/**
 * sentynel.py: the router-backed copy without trimming.  Its `Ipset` tracks
 * the addresses it adds and forgets them on `reset`; `handle_list` fills the
 * address list without calling `reset`; a negative delta asks the router to
 * remove its first entry for the address (`remove_ips`) instead of buffering
 * a command; and a delta the serial tracker refuses is only skipped, so this
 * copy never goes back to the list topic.  The serial tracker limit is 10000.
 */
module Sentynel {
  import opened Wrappers
  import Utf8
  import Ipv4
  import Commands
  import SerialTracker
  import opened RouterOs
  import Wire

  const MissingUpdateCntLimit := 10000

  /** One item of the router's address list, as `get()` returns it. */
  datatype Entry = Entry(id: string, address: string)

  /** The `next(...)` search of `remove_ips`: the index of the first entry whose
      address equals `ip`.  A value that is not a string equals no address. */
  function FindAddress(entries: seq<Entry>, ip: Wire.Value): (k: Option<nat>)
    ensures k.Some? ==> k.value < |entries| && ip == Wire.Str(entries[k.value].address)
    ensures k.Some? ==> forall i :: 0 <= i < k.value ==> ip != Wire.Str(entries[i].address)
    ensures k.None? ==> forall i :: 0 <= i < |entries| ==> ip != Wire.Str(entries[i].address)
    decreases |entries|
  {
    if entries == [] then None
    else if ip == Wire.Str(entries[0].address) then Some(0)
    else
      match FindAddress(entries[1..], ip)
      case None => None
      case Some(k) => Some(k + 1)
  }

  /** The id `remove_ips` hands to `remove`, if any entry matched. */
  function RemovedId(entries: seq<Entry>, ip: Wire.Value): Option<string> {
    match FindAddress(entries, ip)
    case None => None
    case Some(k) => Some(entries[k].id)
  }

  /** The router's list after `remove(id=id)`. */
  function WithoutId(entries: seq<Entry>, id: string): (r: seq<Entry>)
    ensures forall e :: e in r <==> e in entries && e.id != id
    decreases |entries|
  {
    if entries == [] then []
    else (if entries[0].id == id then [] else [entries[0]]) + WithoutId(entries[1..], id)
  }

  /** The router's list after `remove_ips(ip)`. */
  function AfterRemoveIps(entries: seq<Entry>, ip: Wire.Value): seq<Entry> {
    match RemovedId(entries, ip)
    case None => entries
    case Some(id) => WithoutId(entries, id)
  }

  /** The router gives every entry its own id. */
  predicate UniqueIds(entries: seq<Entry>) {
    forall i, j :: 0 <= i < j < |entries| ==> entries[i].id != entries[j].id
  }

  /** The client between messages. */
  datatype Snapshot = Snapshot(serial: SerialTracker.SerialState, ipset: Tracked, subs: Wire.Subscriptions)

  datatype Handled =
      /** `commit` ran with this result; `removedId` is the entry `remove_ips`
          asked the router to remove. */
    | Committed(outcome: CommitOutcome, removedId: Option<string>)
    | Invalid(error: Wire.MsgError)
      /** A delta the serial tracker refused: nothing else happens. */
    | Skipped
    | Unknown(topic: string)
      /** An uncaught `TypeError` ended the client. */
    | Crashed

  /** The client does not get past this message. */
  predicate Stops(h: Handled) {
    h.Crashed? || (h.Committed? && h.outcome.Fatal?)
  }

  /** `add_ip` on a tracked value. */
  function AddIpEffect(t: Tracked, name: string, ip: string): Tracked {
    if Ipv4.IsIpv4(ip) then Tracked(t.commands + [Commands.AddLine(name, ip)], t.addresses + {ip}) else t
  }

  /** The value after `add_ip` of each of `ips`, in order. */
  function Listed(t: Tracked, name: string, ips: seq<string>): Tracked {
    Tracked(t.commands + Commands.AddLines(name, Ipv4.ValidOnly(ips)), t.addresses + Ipv4.ValidSet(ips))
  }

  /** `handle_list`: no `reset`, so the buffer keeps what it held and the
      tracked set only grows. */
  function ListEffect(s: Snapshot, name: string, msg: Wire.Payload, router: Router): (Handled, Snapshot)
  {
    match Wire.FirstMissing(msg, Wire.ListKeys)
    case Some(key) => (Invalid(Wire.MissingKey(key)), s)
    case None =>
      assert Wire.ListKeys[1] in msg;
      var items := Wire.ListItems(msg["list"]);
      if !msg["serial"].Int? || items.None? then (Crashed, s)
      else
        var (out, t) := CommitTracked(Listed(s.ipset, name, items.value), router);
        (Committed(out, None),
         Snapshot(SerialTracker.SerialState(msg["serial"].n, {}), t,
                  Wire.Switch(s.subs, Wire.ListTopic, Wire.DeltaTopic)))
  }

  /** The `positive`/`negative` branches of `handle_delta`: the new value and
      the entry removed from the router, or `None` when `add_ip` raises
      `TypeError` on an `ip` that is not a string. */
  function DeltaChange(t: Tracked, name: string, delta: Wire.Value, ip: Wire.Value, entries: seq<Entry>)
    : Option<(Tracked, Option<string>)>
  {
    if delta == Wire.Str("positive") then
      if ip.Str? then Some((AddIpEffect(t, name, ip.s), None)) else None
    else if delta == Wire.Str("negative") then Some((t, RemovedId(entries, ip)))
    else Some((t, None))
  }

  /** `handle_delta`; `entries` is the router's list as `remove_ips` reads it.
      Whatever the delta, the subscription stays as it was: no resync. */
  function DeltaEffect(s: Snapshot, name: string, msg: Wire.Payload, limit: int, entries: seq<Entry>,
                       router: Router): (r: (Handled, Snapshot))
    ensures r.1.subs == s.subs
  {
    match Wire.FirstMissing(msg, Wire.DeltaKeys)
    case Some(key) => (Invalid(Wire.MissingKey(key)), s)
    case None =>
      if !msg["serial"].Int? then (Crashed, s)
      else
        var v := SerialTracker.Update(s.serial, msg["serial"].n, limit);
        assert Wire.DeltaKeys[1] in msg && Wire.DeltaKeys[2] in msg;
        if !v.ok then (Skipped, s)
        else
          match DeltaChange(s.ipset, name, msg["delta"], msg["ip"], entries)
          case None => (Crashed, s)
          case Some((changed, removed)) =>
            var (out, t) := CommitTracked(changed, router);
            (Committed(out, removed), Snapshot(v.next, t, s.subs))
  }

  /** One pass of the main loop: `InvalidMsgError` is logged, never raised. */
  function ReceiveEffect(s: Snapshot, name: string, data: seq<seq<Utf8.Byte>>,
                         unpack: seq<Utf8.Byte> -> Option<Wire.Payload>, entries: seq<Entry>,
                         router: Router): (Handled, Snapshot)
  {
    match Wire.ParseMsg(data, unpack)
    case Failure(e) => (Invalid(e), s)
    case Success(m) =>
      if m.topic == Wire.ListName then ListEffect(s, name, m.payload, router)
      else if m.topic == Wire.DeltaName then DeltaEffect(s, name, m.payload, MissingUpdateCntLimit, entries, router)
      else (Unknown(m.topic), s)
  }

  /** The client between two passes of the main loop. */
  predicate Steady(s: Snapshot) {
    && Wire.OneTopic(s.subs)
    && |s.serial.early| <= MissingUpdateCntLimit + 1
    && Ipv4.AllIpv4(s.ipset.addresses)
  }

  /** A pass that did not crash leaves the client steady. */
  predicate Kept(h: Handled, t: Snapshot) {
    h != Crashed ==> Steady(t)
  }

  lemma ListedSnoc(t: Tracked, name: string, ips: seq<string>, i: nat)
    requires i < |ips|
    ensures AddIpEffect(Listed(t, name, ips[..i]), name, ips[i]) == Listed(t, name, ips[..i + 1])
  {
    assert ips[..i + 1] == ips[..i] + [ips[i]];
    assert ips[..i + 1][..i] == ips[..i];
    Ipv4.ValidSetSnoc(ips[..i], ips[i]);
    Commands.AddLinesConcat(name, Ipv4.ValidOnly(ips[..i]), if Ipv4.IsIpv4(ips[i]) then [ips[i]] else []);
  }

  // ---------------------------------------------------------------- classes

  class Ipset {
    const name: string
    var commands: seq<string>
    var addresses: set<string>

    function Value(): Tracked
      reads this
    {
      Tracked(commands, addresses)
    }

    constructor (name: string)
      ensures this.name == name && Value() == Tracked([], {})
    {
      this.name := name;
      commands := [];
      addresses := {};
    }

    method AddIp(ip: string)
      modifies this
      ensures Value() == AddIpEffect(old(Value()), name, ip)
    {
      if Ipv4.IsIpv4(ip) {
        commands := commands + [Commands.AddLine(name, ip)];
        addresses := addresses + {ip};
      }
    }

    /** Forgets a tracked address (the router call it then makes is not
        modelled); an untracked one only draws a warning. */
    method DelIp(ip: string)
      modifies this
      ensures commands == old(commands)
      ensures ip in old(addresses) ==> addresses == old(addresses) - {ip}
      ensures ip !in old(addresses) ==> addresses == old(addresses)
    {
      if ip in addresses {
        addresses := addresses - {ip};
      }
    }

    /** Appends the create and flush lines and forgets every tracked address. */
    method Reset()
      modifies this
      ensures Value() == Tracked(old(commands) + [Commands.CreateSizedLine(name), Commands.FlushLine(name)], {})
    {
      commands := commands + [Commands.CreateSizedLine(name), Commands.FlushLine(name)];
      addresses := {};
    }

    method Commit(router: Router) returns (outcome: CommitOutcome)
      modifies this
      ensures (outcome, Value()) == CommitTracked(old(Value()), router)
    {
      outcome := Dispatch(commands, router.connect, router.replies);
      if outcome.Completed? {
        commands := [];
      }
    }
  }

  class DynfwList {
    const serial: SerialTracker.Serial
    const ipset: Ipset
    /** The socket's subscriptions; the socket itself is not modelled. */
    ghost var subscriptions: Wire.Subscriptions

    ghost function Snap(): Snapshot
      reads this, serial, ipset
    {
      Snapshot(serial.State(), ipset.Value(), subscriptions)
    }

    constructor (name: string)
      ensures fresh(serial) && fresh(ipset) && ipset.name == name
      ensures serial.missingLimit == MissingUpdateCntLimit
      ensures Snap() == Snapshot(SerialTracker.SerialState(0, {}), Tracked([], {}), multiset{Wire.ListTopic})
    {
      serial := new SerialTracker.Serial(MissingUpdateCntLimit);
      ipset := new Ipset(name);
      subscriptions := Wire.Subscribe(multiset{}, Wire.ListTopic);
    }

    method HandleList(msg: Wire.Payload, router: Router) returns (r: Handled)
      modifies this, serial, ipset
      ensures r == ListEffect(old(Snap()), ipset.name, msg, router).0
      ensures r != Crashed ==> Snap() == ListEffect(old(Snap()), ipset.name, msg, router).1
    {
      var missing := Wire.CheckKeys(msg, Wire.ListKeys);
      if missing.Some? {
        return Invalid(Wire.MissingKey(missing.value));
      }
      var items := Wire.ListItems(msg["list"]);
      if !msg["serial"].Int? || items.None? {
        return Crashed;
      }
      serial.Reset(msg["serial"].n);
      AddListed(items.value);
      var outcome := ipset.Commit(router);
      subscriptions := Wire.Switch(subscriptions, Wire.ListTopic, Wire.DeltaTopic);
      return Committed(outcome, None);
    }

    /** The loop `for ip in msg["list"]: self.ipset.add_ip(ip)`. */
    method AddListed(ips: seq<string>)
      modifies ipset
      ensures ipset.Value() == Listed(old(ipset.Value()), ipset.name, ips)
    {
      ghost var start := ipset.Value();
      var i := 0;
      while i < |ips|
        invariant 0 <= i <= |ips|
        invariant ipset.Value() == Listed(start, ipset.name, ips[..i])
      {
        ipset.AddIp(ips[i]);
        ListedSnoc(start, ipset.name, ips, i);
        i := i + 1;
      }
      assert ips[..i] == ips;
    }

    method HandleDelta(msg: Wire.Payload, entries: seq<Entry>, router: Router) returns (r: Handled)
      modifies this, serial, ipset
      ensures r == DeltaEffect(old(Snap()), ipset.name, msg, serial.missingLimit, entries, router).0
      ensures r != Crashed ==> Snap() == DeltaEffect(old(Snap()), ipset.name, msg, serial.missingLimit, entries, router).1
    {
      var missing := Wire.CheckKeys(msg, Wire.DeltaKeys);
      if missing.Some? {
        return Invalid(Wire.MissingKey(missing.value));
      }
      if !msg["serial"].Int? {
        return Crashed;
      }
      var ok := serial.UpdateOk(msg["serial"].n);
      if !ok {
        return Skipped;
      }
      assert Wire.DeltaKeys[1] in msg && Wire.DeltaKeys[2] in msg;
      var crashed, removed := ApplyDelta(msg["delta"], msg["ip"], entries);
      if crashed {
        return Crashed;
      }
      var outcome := ipset.Commit(router);
      return Committed(outcome, removed);
    }

    /** The `positive`/`negative` branches of `handle_delta`. */
    method ApplyDelta(delta: Wire.Value, ip: Wire.Value, entries: seq<Entry>) returns (crashed: bool, removed: Option<string>)
      modifies ipset
      ensures crashed <==> DeltaChange(old(ipset.Value()), ipset.name, delta, ip, entries).None?
      ensures !crashed ==> (ipset.Value(), removed) == DeltaChange(old(ipset.Value()), ipset.name, delta, ip, entries).value
    {
      crashed, removed := false, None;
      if delta == Wire.Str("positive") {
        if !ip.Str? {
          return true, None;
        }
        ipset.AddIp(ip.s);
      } else if delta == Wire.Str("negative") {
        removed := RemovedId(entries, ip);
      }
    }

    /** The body of the main loop, for a message the socket delivered. */
    method Receive(data: seq<seq<Utf8.Byte>>, unpack: seq<Utf8.Byte> -> Option<Wire.Payload>,
                   entries: seq<Entry>, router: Router) returns (r: Handled)
      requires serial.missingLimit == MissingUpdateCntLimit
      requires Steady(Snap()) && |data| > 0 && Wire.Delivered(data[0], subscriptions)
      modifies this, serial, ipset
      ensures r == ReceiveEffect(old(Snap()), ipset.name, data, unpack, entries, router).0
      ensures r != Crashed ==> Snap() == ReceiveEffect(old(Snap()), ipset.name, data, unpack, entries, router).1
      ensures r != Crashed ==> Steady(Snap())
    {
      ReceiveKeepsSteady(Snap(), ipset.name, data, unpack, entries, router);
      var parsed := Wire.ParseMsg(data, unpack);
      if parsed.Failure? {
        return Invalid(parsed.error);
      }
      var m := parsed.value;
      if m.topic == Wire.ListName {
        r := HandleList(m.payload, router);
      } else if m.topic == Wire.DeltaName {
        r := HandleDelta(m.payload, entries, router);
      } else {
        r := Unknown(m.topic);
      }
    }
  }

  // ---------------------------------------------------------------- lemmas

  /** With distinct ids, `remove_ips` takes out exactly the first entry for
      the address and keeps the others in order; with no entry for it the
      list is unchanged. */
  lemma RemoveIpsRemovesFirstMatch(entries: seq<Entry>, ip: Wire.Value)
    requires UniqueIds(entries)
    ensures match FindAddress(entries, ip)
            case None => AfterRemoveIps(entries, ip) == entries
            case Some(k) => AfterRemoveIps(entries, ip) == entries[..k] + entries[k + 1..]
  {
    match FindAddress(entries, ip)
    case None =>
    case Some(k) => WithoutUniqueId(entries, k);
  }

  lemma {:induction false} WithoutUniqueId(entries: seq<Entry>, k: nat)
    requires UniqueIds(entries) && k < |entries|
    ensures WithoutId(entries, entries[k].id) == entries[..k] + entries[k + 1..]
    decreases |entries|
  {
    var id := entries[k].id;
    if k == 0 {
      NoSuchId(entries[1..], id);
    } else {
      var tail := entries[1..];
      assert tail[k - 1] == entries[k];
      assert UniqueIds(tail) by {
        forall i, j | 0 <= i < j < |tail| ensures tail[i].id != tail[j].id {
          assert tail[i] == entries[i + 1] && tail[j] == entries[j + 1];
        }
      }
      WithoutUniqueId(tail, k - 1);
      assert entries[0].id != id;
      assert entries[..k] == [entries[0]] + tail[..k - 1];
      assert entries[k + 1..] == tail[k..];
    }
  }

  lemma {:induction false} NoSuchId(entries: seq<Entry>, id: string)
    requires forall i :: 0 <= i < |entries| ==> entries[i].id != id
    ensures WithoutId(entries, id) == entries
    decreases |entries|
  {
    if entries != [] {
      NoSuchId(entries[1..], id);
      assert [entries[0]] + entries[1..] == entries;
    }
  }

  /** A delta the tracker refuses changes nothing at all: no command, no
      address, no subscription, not even the tracker. */
  lemma RefusedDeltaSkips(s: Snapshot, name: string, msg: Wire.Payload, serial: int,
                          entries: seq<Entry>, router: Router)
    requires Wire.DeltaKeys[0] in msg && Wire.DeltaKeys[1] in msg && Wire.DeltaKeys[2] in msg
    requires msg["serial"] == Wire.Int(serial)
    requires !SerialTracker.Update(s.serial, serial, MissingUpdateCntLimit).ok
    ensures DeltaEffect(s, name, msg, MissingUpdateCntLimit, entries, router) == (Skipped, s)
  {
  }

  /** A negative delta the tracker accepts leaves the buffer and the tracked
      set as they were: it only asks the router to drop its first entry for
      the address. */
  lemma NegativeDeltaKeepsIpset(s: Snapshot, name: string, msg: Wire.Payload, serial: int,
                                entries: seq<Entry>, router: Router)
    requires Wire.DeltaKeys[0] in msg && Wire.DeltaKeys[1] in msg && Wire.DeltaKeys[2] in msg
    requires msg["serial"] == Wire.Int(serial) && msg["delta"] == Wire.Str("negative")
    requires SerialTracker.Update(s.serial, serial, MissingUpdateCntLimit).ok
    ensures var (r, t) := DeltaEffect(s, name, msg, MissingUpdateCntLimit, entries, router);
            && r == Committed(CommitOf(s.ipset.commands, router), RemovedId(entries, msg["ip"]))
            && t.ipset.addresses == s.ipset.addresses
            && t.subs == s.subs
  {
  }

  /**
   * `handle_list` never resets the set: the tracked set becomes the old one
   * together with the valid list entries, and everything it adds to the
   * batch asks only for add calls of those entries, in list order.
   */
  lemma ListOnlyAdds(s: Snapshot, name: string, msg: Wire.Payload, serial: int, ips: seq<string>, router: Router)
    requires Commands.IsWord(name)
    requires Wire.ListKeys[0] in msg && Wire.ListKeys[1] in msg
    requires msg["serial"] == Wire.Int(serial) && msg["list"] == Wire.Strs(ips)
    ensures var (r, t) := ListEffect(s, name, msg, router);
            var valid := Ipv4.ValidOnly(ips);
            && r == Committed(CommitOf(s.ipset.commands + Commands.AddLines(name, valid), router), None)
            && t.ipset.addresses == s.ipset.addresses + Ipv4.ValidSet(ips)
            && Requests(s.ipset.commands + Commands.AddLines(name, valid))
               == Requests(s.ipset.commands) + seq(|valid|, i requires 0 <= i < |valid| => Request(Add, valid[i]))
  {
    var valid := Ipv4.ValidOnly(ips);
    RequestsConcat(s.ipset.commands, Commands.AddLines(name, valid));
    RequestsOfAddLines(name, valid);
  }

  /** Once the client listens to deltas it always does: with no resync, a
      list is never delivered again. */
  lemma DeltaModeIsFinal(s: Snapshot, name: string, data: seq<seq<Utf8.Byte>>,
                         unpack: seq<Utf8.Byte> -> Option<Wire.Payload>, entries: seq<Entry>, router: Router)
    requires s.subs == multiset{Wire.DeltaTopic} && |data| > 0 && Wire.Delivered(data[0], s.subs)
    ensures ReceiveEffect(s, name, data, unpack, entries, router).1.subs == multiset{Wire.DeltaTopic}
  {
    var parsed := Wire.ParseMsg(data, unpack);
    if parsed.Success? {
      var m := parsed.value;
      if m.topic == Wire.ListName {
        Wire.DeliveredTopic(data[0], s.subs, Wire.ListTopic);
        assert false;
      } else if m.topic == Wire.DeltaName {
        assert ReceiveEffect(s, name, data, unpack, entries, router)
            == DeltaEffect(s, name, m.payload, MissingUpdateCntLimit, entries, router);
      }
    }
  }

  /** Every pass of the loop keeps one subscription, the early-serial bound
      and only valid addresses tracked. */
  lemma ReceiveKeepsSteady(s: Snapshot, name: string, data: seq<seq<Utf8.Byte>>,
                           unpack: seq<Utf8.Byte> -> Option<Wire.Payload>, entries: seq<Entry>, router: Router)
    requires Steady(s) && |data| > 0 && Wire.Delivered(data[0], s.subs)
    ensures Kept(ReceiveEffect(s, name, data, unpack, entries, router).0, ReceiveEffect(s, name, data, unpack, entries, router).1)
  {
    var parsed := Wire.ParseMsg(data, unpack);
    if parsed.Success? {
      var m := parsed.value;
      if m.topic == Wire.ListName {
        Wire.DeliveredTopic(data[0], s.subs, Wire.ListTopic);
        ListKeepsSteady(s, name, m.payload, router);
        assert ReceiveEffect(s, name, data, unpack, entries, router) == ListEffect(s, name, m.payload, router);
      } else if m.topic == Wire.DeltaName {
        DeltaKeepsSteady(s, name, m.payload, entries, router);
        assert ReceiveEffect(s, name, data, unpack, entries, router)
            == DeltaEffect(s, name, m.payload, MissingUpdateCntLimit, entries, router);
      }
    }
  }

  lemma ListKeepsSteady(s: Snapshot, name: string, msg: Wire.Payload, router: Router)
    requires Steady(s) && Wire.ListTopic in s.subs
    ensures Kept(ListEffect(s, name, msg, router).0, ListEffect(s, name, msg, router).1)
  {
    assert s.subs == multiset{Wire.ListTopic};
    Wire.SwitchTo(Wire.ListTopic, Wire.DeltaTopic);
  }

  lemma DeltaKeepsSteady(s: Snapshot, name: string, msg: Wire.Payload, entries: seq<Entry>, router: Router)
    requires Steady(s)
    ensures Kept(DeltaEffect(s, name, msg, MissingUpdateCntLimit, entries, router).0,
                 DeltaEffect(s, name, msg, MissingUpdateCntLimit, entries, router).1)
  {
    if "serial" in msg && msg["serial"].Int? {
      SerialTracker.UpdateKeepsBound(s.serial, msg["serial"].n, MissingUpdateCntLimit);
    }
  }
}
