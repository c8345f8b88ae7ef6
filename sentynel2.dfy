/**
 * sentynel2.py: the copy that drives a RouterOS address list.  Its `Ipset`
 * also tracks the addresses it has added, its removal command is an
 * `address-list remove …` line, and after every message the main loop
 * removes from the tracked set every address the last accepted list does
 * not hold.  The serial tracker limit is 10.
 */
module Sentynel2 {
  import opened Wrappers
  import Utf8
  import Ipv4
  import Commands
  import SerialTracker
  import opened RouterOs
  import Wire

  const MissingUpdateCntLimit := 10

  function Elems(s: seq<string>): set<string> {
    set x | x in s
  }

  lemma ElemsSnoc(s: seq<string>, a: string)
    ensures Elems(s + [a]) == Elems(s) + {a}
  {
    assert forall x :: x in s + [a] <==> x in s || x == a;
  }

  /** `order` lists the elements of `s`, each once. */
  predicate Enumerates(order: seq<string>, s: set<string>) {
    (forall i, j :: 0 <= i < j < |order| ==> order[i] != order[j]) && Elems(order) == s
  }

  /** The client between messages; `server` is the main loop's `server_addresses`. */
  datatype Snapshot = Snapshot(serial: SerialTracker.SerialState, ipset: Tracked,
                               subs: Wire.Subscriptions, server: seq<string>)

  datatype Handled =
      /** `commit` ran with this result. */
    | Committed(outcome: RouterOs.CommitOutcome)
    | Invalid(error: Wire.MsgError)
    | Resynced
    | Unknown(topic: string)
      /** An uncaught `TypeError` or `KeyError` ended the client. */
    | Crashed

  /** The client does not get past this message: an uncaught exception or a
      permanent commit error. */
  predicate Stops(h: Handled) {
    h.Crashed? || (h.Committed? && h.outcome.Fatal?)
  }

  /** `handle_list`. */
  function ListEffect(s: Snapshot, name: string, msg: Wire.Payload, router: RouterOs.Router): (Handled, Snapshot)
  {
    match Wire.FirstMissing(msg, Wire.ListKeys)
    case Some(key) => (Invalid(Wire.MissingKey(key)), s)
    case None =>
      assert Wire.ListKeys[1] in msg;
      var items := Wire.ListItems(msg["list"]);
      if !msg["serial"].Int? || items.None? then (Crashed, s)
      else
        var filled := Tracked(
          s.ipset.commands + [Commands.CreateSizedLine(name), Commands.FlushLine(name)]
            + Commands.AddLines(name, Ipv4.ValidOnly(items.value)),
          s.ipset.addresses + Ipv4.ValidSet(items.value));
        var (out, t) := CommitTracked(filled, router);
        (Committed(out),
         Snapshot(SerialTracker.SerialState(msg["serial"].n, {}), t,
                  Wire.Switch(s.subs, Wire.ListTopic, Wire.DeltaTopic), items.value))
  }

  /** What a `handle_delta` whose serial was accepted does to the `Ipset`:
      `None` when `add_ip`/`del_ip` raises (an `ip` that is not a string, or
      a negative delta for a valid address that is not tracked, where
      `set.remove` raises `KeyError`); any other `delta` value changes nothing. */
  function DeltaChange(t: Tracked, name: string, delta: Wire.Value, ip: Wire.Value): Option<Tracked> {
    var positive, negative := delta == Wire.Str("positive"), delta == Wire.Str("negative");
    if (positive || negative) && !ip.Str? then None
    else if negative && Ipv4.IsIpv4(ip.s) && ip.s !in t.addresses then None
    else if positive && Ipv4.IsIpv4(ip.s) then Some(Tracked(t.commands + [Commands.AddLine(name, ip.s)], t.addresses + {ip.s}))
    else if negative && Ipv4.IsIpv4(ip.s) then Some(Tracked(t.commands + [Commands.AddressListRemoveLine(name, ip.s)], t.addresses - {ip.s}))
    else Some(t)
  }

  /** `handle_delta`. */
  function DeltaEffect(s: Snapshot, name: string, msg: Wire.Payload, limit: int, router: RouterOs.Router): (Handled, Snapshot)
  {
    match Wire.FirstMissing(msg, Wire.DeltaKeys)
    case Some(key) => (Invalid(Wire.MissingKey(key)), s)
    case None =>
      if !msg["serial"].Int? then (Crashed, s)
      else
        var v := SerialTracker.Update(s.serial, msg["serial"].n, limit);
        assert Wire.DeltaKeys[1] in msg && Wire.DeltaKeys[2] in msg;
        if !v.ok then (Resynced, s.(subs := Wire.Switch(s.subs, Wire.DeltaTopic, Wire.ListTopic)))
        else match DeltaChange(s.ipset, name, msg["delta"], msg["ip"])
          case None => (Crashed, s)
          case Some(changed) =>
            var (out, t') := CommitTracked(changed, router);
            (Committed(out), s.(serial := v.next, ipset := t'))
  }

  function ReceiveEffect(s: Snapshot, name: string, data: seq<seq<Utf8.Byte>>,
                         unpack: seq<Utf8.Byte> -> Option<Wire.Payload>, router: RouterOs.Router): (Handled, Snapshot)
  {
    match Wire.ParseMsg(data, unpack)
    case Failure(e) => (Invalid(e), s)
    case Success(m) =>
      if m.topic == Wire.ListName then ListEffect(s, name, m.payload, router)
      else if m.topic == Wire.DeltaName then DeltaEffect(s, name, m.payload, MissingUpdateCntLimit, router)
      else (Unknown(m.topic), s)
  }

  /** `remove_unused_addresses_from_firewall`, removing in the order `order`
      (a Python set's iteration order): the count, the commit result and the
      new value. */
  function TrimEffect(t: Tracked, name: string, server: seq<string>, order: seq<string>, router: RouterOs.Router)
    : (nat, RouterOs.CommitOutcome, Tracked)
    requires Enumerates(order, t.addresses - Elems(server))
  {
    var removing := Tracked(t.commands + Commands.RemoveLines(name, order), t.addresses * Elems(server));
    var (out, t') := CommitTracked(removing, router);
    (|t.addresses - Elems(server)|, out, t')
  }

  /** The client between two passes of the main loop. */
  predicate Steady(s: Snapshot) {
    && Wire.OneTopic(s.subs)
    && |s.serial.early| <= MissingUpdateCntLimit + 1
    && Ipv4.AllIpv4(s.ipset.addresses)
    && s.ipset.addresses <= Elems(s.server)
  }

  // ---------------------------------------------------------------- classes

  class Ipset {
    const name: string
    var commands: seq<string>
    var addresses: set<string>

    function Value(): Tracked
      reads this
    {
      Tracked(commands, addresses)
    }

    constructor (name: string)
      ensures this.name == name && Value() == Tracked([], {})
    {
      this.name := name;
      commands := [];
      addresses := {};
    }

    method AddIp(ip: string)
      modifies this
      ensures Value() == if Ipv4.IsIpv4(ip) then Tracked(old(commands) + [Commands.AddLine(name, ip)], old(addresses) + {ip})
                         else old(Value())
    {
      if Ipv4.IsIpv4(ip) {
        commands := commands + [Commands.AddLine(name, ip)];
        addresses := addresses + {ip};
      }
    }

    /** `keyError` reports the `KeyError` raised for an untracked address,
        after the removal command was appended. */
    method DelIp(ip: string) returns (keyError: bool)
      modifies this
      ensures keyError <==> Ipv4.IsIpv4(ip) && ip !in old(addresses)
      ensures Value() == if Ipv4.IsIpv4(ip) then Tracked(old(commands) + [Commands.AddressListRemoveLine(name, ip)], old(addresses) - {ip})
                         else old(Value())
    {
      keyError := false;
      if Ipv4.IsIpv4(ip) {
        commands := commands + [Commands.AddressListRemoveLine(name, ip)];
        if ip !in addresses {
          return true;
        }
        addresses := addresses - {ip};
      }
    }

    /** Appends the create and flush lines; the tracked set is kept. */
    method Reset()
      modifies this
      ensures Value() == Tracked(old(commands) + [Commands.CreateSizedLine(name), Commands.FlushLine(name)], old(addresses))
    {
      commands := commands + [Commands.CreateSizedLine(name), Commands.FlushLine(name)];
    }

    method Commit(router: RouterOs.Router) returns (outcome: RouterOs.CommitOutcome)
      modifies this
      ensures (outcome, Value()) == CommitTracked(old(Value()), router)
    {
      outcome := RouterOs.Dispatch(commands, router.connect, router.replies);
      if outcome.Completed? {
        commands := [];
      }
    }
  }

  /** `remove_unused_addresses_from_firewall`; `removed` is the order in which
      the loop over the set visited the addresses. */
  method RemoveUnusedAddressesFromFirewall(ipset: Ipset, server: seq<string>, router: RouterOs.Router)
      returns (count: nat, removed: seq<string>, outcome: RouterOs.CommitOutcome)
    requires Ipv4.AllIpv4(ipset.addresses)
    modifies ipset
    ensures Enumerates(removed, old(ipset.addresses) - Elems(server))
    ensures (count, outcome, ipset.Value()) == TrimEffect(old(ipset.Value()), ipset.name, server, removed, router)
  {
    var toRemove := ipset.addresses - Elems(server);
    count := |toRemove|;
    removed := DelEach(ipset, toRemove);
    assert ipset.addresses == old(ipset.addresses) * Elems(server);
    outcome := ipset.Commit(router);
  }

  /** The loop `for address in addresses_to_remove: ipset.del_ip(address)`,
      over tracked addresses; `removed` is the order it visited them in. */
  method DelEach(ipset: Ipset, toRemove: set<string>) returns (removed: seq<string>)
    requires toRemove <= ipset.addresses
    requires Ipv4.AllIpv4(toRemove)
    modifies ipset
    ensures Enumerates(removed, toRemove)
    ensures ipset.Value() == Tracked(old(ipset.commands) + Commands.RemoveLines(ipset.name, removed),
                                     old(ipset.addresses) - toRemove)
  {
    var left := toRemove;
    removed := [];
    while left != {}
      invariant Visited(old(ipset.Value()), ipset.Value(), ipset.name, toRemove, removed, left)
      decreases |left|
    {
      var a :| a in left;
      assert a in ipset.addresses;
      ghost var before := ipset.Value();
      DelTracked(ipset, a);
      VisitOne(old(ipset.Value()), before, ipset.Value(), ipset.name, toRemove, removed, left, a);
      removed := removed + [a];
      left := left - {a};
    }
    VisitedAll(old(ipset.Value()), ipset.Value(), ipset.name, toRemove, removed);
  }

  /** `ipset.del_ip(a)` for a checked, tracked address: `set.remove` cannot
      raise `KeyError` here. */
  method DelTracked(ipset: Ipset, a: string)
    requires Ipv4.IsIpv4(a) && a in ipset.addresses
    modifies ipset
    ensures ipset.Value() == Tracked(old(ipset.commands) + [Commands.AddressListRemoveLine(ipset.name, a)], old(ipset.addresses) - {a})
  {
    var keyError := ipset.DelIp(a);
    assert !keyError;
  }

  /** The loop state of `DelEach`: `removed` lists, each once, the addresses
      already visited, `left` the rest, and the set has lost the former. */
  ghost predicate Visited(start: Tracked, now: Tracked, name: string, toRemove: set<string>,
                          removed: seq<string>, left: set<string>) {
    && (forall i, j :: 0 <= i < j < |removed| ==> removed[i] != removed[j])
    && Elems(removed) + left == toRemove && Elems(removed) !! left
    && now == Tracked(start.commands + Commands.RemoveLines(name, removed), start.addresses - Elems(removed))
  }

  lemma VisitedAll(start: Tracked, now: Tracked, name: string, toRemove: set<string>, removed: seq<string>)
    requires Visited(start, now, name, toRemove, removed, {})
    ensures Enumerates(removed, toRemove)
    ensures now == Tracked(start.commands + Commands.RemoveLines(name, removed), start.addresses - toRemove)
  {
    assert Elems(removed) + {} == Elems(removed);
  }

  lemma VisitOne(start: Tracked, before: Tracked, after: Tracked, name: string, toRemove: set<string>,
                 removed: seq<string>, left: set<string>, a: string)
    requires Visited(start, before, name, toRemove, removed, left)
    requires a in left
    requires after == Tracked(before.commands + [Commands.AddressListRemoveLine(name, a)], before.addresses - {a})
    ensures Visited(start, after, name, toRemove, removed + [a], left - {a})
  {
    ElemsSnoc(removed, a);
    Commands.RemoveLinesSnoc(name, removed, a);
    assert a !in Elems(removed);
    forall i | 0 <= i < |removed| ensures removed[i] != a {
      assert removed[i] in Elems(removed);
    }
  }

  class DynfwList {
    const serial: SerialTracker.Serial
    const ipset: Ipset
    ghost var subscriptions: Wire.Subscriptions
    /** The main loop's `server_addresses`. */
    var serverAddresses: seq<string>

    ghost function Snap(): Snapshot
      reads this, serial, ipset
    {
      Snapshot(serial.State(), ipset.Value(), subscriptions, serverAddresses)
    }

    constructor (name: string)
      ensures fresh(serial) && fresh(ipset) && ipset.name == name
      ensures serial.missingLimit == MissingUpdateCntLimit
      ensures Snap() == Snapshot(SerialTracker.SerialState(0, {}), Tracked([], {}), multiset{Wire.ListTopic}, [])
    {
      serial := new SerialTracker.Serial(MissingUpdateCntLimit);
      ipset := new Ipset(name);
      subscriptions := Wire.Subscribe(multiset{}, Wire.ListTopic);
      serverAddresses := [];
    }

    /** `handle_list`, followed by the main loop's update of `server_addresses`. */
    method HandleList(msg: Wire.Payload, router: RouterOs.Router) returns (r: Handled)
      modifies this, serial, ipset
      ensures r == ListEffect(old(Snap()), ipset.name, msg, router).0
      ensures !Stops(r) ==> Snap() == ListEffect(old(Snap()), ipset.name, msg, router).1
    {
      var missing := Wire.CheckKeys(msg, Wire.ListKeys);
      if missing.Some? {
        return Invalid(Wire.MissingKey(missing.value));
      }
      var items := Wire.ListItems(msg["list"]);
      if !msg["serial"].Int? || items.None? {
        return Crashed;
      }
      serial.Reset(msg["serial"].n);
      ipset.Reset();
      AddListed(items.value);
      var outcome := ipset.Commit(router);
      subscriptions := Wire.Switch(subscriptions, Wire.ListTopic, Wire.DeltaTopic);
      serverAddresses := items.value;
      return Committed(outcome);
    }

    /** The loop `for ip in msg["list"]: self.ipset.add_ip(ip)`. */
    method AddListed(ips: seq<string>)
      modifies ipset
      ensures ipset.Value() == Tracked(old(ipset.commands) + Commands.AddLines(ipset.name, Ipv4.ValidOnly(ips)),
                                       old(ipset.addresses) + Ipv4.ValidSet(ips))
    {
      var i := 0;
      while i < |ips|
        invariant 0 <= i <= |ips|
        invariant ipset.commands == old(ipset.commands) + Commands.AddLines(ipset.name, Ipv4.ValidOnly(ips[..i]))
        invariant ipset.addresses == old(ipset.addresses) + Ipv4.ValidSet(ips[..i])
      {
        ipset.AddIp(ips[i]);
        assert ips[..i + 1] == ips[..i] + [ips[i]];
        assert ips[..i + 1][..i] == ips[..i];
        Ipv4.ValidSetSnoc(ips[..i], ips[i]);
        Commands.AddLinesConcat(ipset.name, Ipv4.ValidOnly(ips[..i]),
                                if Ipv4.IsIpv4(ips[i]) then [ips[i]] else []);
        i := i + 1;
      }
      assert ips[..i] == ips;
    }

    method HandleDelta(msg: Wire.Payload, router: RouterOs.Router) returns (r: Handled)
      modifies this, serial, ipset
      ensures r == DeltaEffect(old(Snap()), ipset.name, msg, serial.missingLimit, router).0
      ensures !Stops(r) ==> Snap() == DeltaEffect(old(Snap()), ipset.name, msg, serial.missingLimit, router).1
    {
      var missing := Wire.CheckKeys(msg, Wire.DeltaKeys);
      if missing.Some? {
        return Invalid(Wire.MissingKey(missing.value));
      }
      if !msg["serial"].Int? {
        return Crashed;
      }
      var ok := serial.UpdateOk(msg["serial"].n);
      if !ok {
        subscriptions := Wire.Switch(subscriptions, Wire.DeltaTopic, Wire.ListTopic);
        return Resynced;
      }
      assert Wire.DeltaKeys[1] in msg && Wire.DeltaKeys[2] in msg;
      var crashed := ApplyDelta(msg["delta"], msg["ip"]);
      if crashed {
        return Crashed;
      }
      var outcome := ipset.Commit(router);
      return Committed(outcome);
    }

    /** The `positive`/`negative` branches of `handle_delta`. */
    method ApplyDelta(delta: Wire.Value, ip: Wire.Value) returns (crashed: bool)
      modifies ipset
      ensures crashed <==> DeltaChange(old(ipset.Value()), ipset.name, delta, ip).None?
      ensures !crashed ==> ipset.Value() == DeltaChange(old(ipset.Value()), ipset.name, delta, ip).value
    {
      crashed := false;
      if delta == Wire.Str("positive") {
        if !ip.Str? {
          return true;
        }
        ipset.AddIp(ip.s);
      } else if delta == Wire.Str("negative") {
        if !ip.Str? {
          return true;
        }
        crashed := ipset.DelIp(ip.s);
      }
    }

    /**
     * One pass of the main loop: handle the message (committing through
     * `router`), then trim the tracked set against the last accepted list
     * (committing through `trimRouter`), whatever the message was.
     */
    method Step(data: seq<seq<Utf8.Byte>>, unpack: seq<Utf8.Byte> -> Option<Wire.Payload>,
                router: RouterOs.Router, trimRouter: RouterOs.Router)
        returns (r: Handled, removed: nat, trimOutcome: RouterOs.CommitOutcome, ghost order: seq<string>)
      requires serial.missingLimit == MissingUpdateCntLimit
      requires Steady(Snap()) && |data| > 0 && Wire.Delivered(data[0], subscriptions)
      modifies this, serial, ipset
      ensures r == ReceiveEffect(old(Snap()), ipset.name, data, unpack, router).0
      ensures !Stops(r) ==>
                var mid := ReceiveEffect(old(Snap()), ipset.name, data, unpack, router).1;
                && Enumerates(order, mid.ipset.addresses - Elems(mid.server))
                && (removed, trimOutcome, Snap().ipset) == TrimEffect(mid.ipset, ipset.name, mid.server, order, trimRouter)
                && Snap() == mid.(ipset := Snap().ipset)
      ensures !Stops(r) && !trimOutcome.Fatal? ==> Steady(Snap())
      ensures !Stops(r) && !trimOutcome.Fatal? ==>
                var mid := ReceiveEffect(old(Snap()), ipset.name, data, unpack, router).1;
                && removed == |mid.ipset.addresses - Elems(mid.server)|
                && Snap().ipset.addresses == mid.ipset.addresses * Elems(mid.server)
                && Snap() == mid.(ipset := Snap().ipset)
    {
      ghost var s0 := Snap();
      ReceiveKeepsInvariants(s0, ipset.name, data, unpack, router);
      r := Handle(data, unpack, router);
      if Stops(r) {
        return r, 0, RouterOs.Fatal([]), [];
      }
      removed, order, trimOutcome := RemoveUnusedAddressesFromFirewall(ipset, serverAddresses, trimRouter);
      TrimRestoresSteady(ReceiveEffect(s0, ipset.name, data, unpack, router).1, ipset.name, order, trimRouter);
    }

    /** The dispatch on the topic of a parsed message; a malformed one is
        logged as invalid. */
    method Handle(data: seq<seq<Utf8.Byte>>, unpack: seq<Utf8.Byte> -> Option<Wire.Payload>, router: RouterOs.Router)
        returns (r: Handled)
      requires serial.missingLimit == MissingUpdateCntLimit
      modifies this, serial, ipset
      ensures r == ReceiveEffect(old(Snap()), ipset.name, data, unpack, router).0
      ensures !Stops(r) ==> Snap() == ReceiveEffect(old(Snap()), ipset.name, data, unpack, router).1
    {
      var parsed := Wire.ParseMsg(data, unpack);
      if parsed.Failure? {
        r := Invalid(parsed.error);
      } else {
        var m := parsed.value;
        if m.topic == Wire.ListName {
          r := HandleList(m.payload, router);
        } else if m.topic == Wire.DeltaName {
          r := HandleDelta(m.payload, router);
        } else {
          r := Unknown(m.topic);
        }
      }
    }
  }

  // ---------------------------------------------------------------- lemmas

  /** What handling a message keeps, unless the client stops: one
      subscription, the early-serial bound, only valid addresses tracked. */
  predicate Kept(h: Handled, t: Snapshot) {
    !Stops(h) ==> Wire.OneTopic(t.subs) && |t.serial.early| <= MissingUpdateCntLimit + 1
                  && Ipv4.AllIpv4(t.ipset.addresses)
  }

  /** Handling a delivered message keeps one subscription, the early-serial
      bound and the fact that only valid addresses are tracked. */
  lemma ReceiveKeepsInvariants(s: Snapshot, name: string, data: seq<seq<Utf8.Byte>>,
                               unpack: seq<Utf8.Byte> -> Option<Wire.Payload>, router: RouterOs.Router)
    requires Steady(s) && |data| > 0 && Wire.Delivered(data[0], s.subs)
    ensures Kept(ReceiveEffect(s, name, data, unpack, router).0, ReceiveEffect(s, name, data, unpack, router).1)
  {
    var parsed := Wire.ParseMsg(data, unpack);
    if parsed.Success? {
      var m := parsed.value;
      if m.topic == Wire.ListName {
        Wire.DeliveredTopic(data[0], s.subs, Wire.ListTopic);
        ListKeepsInvariants(s, name, m.payload, router);
        assert ReceiveEffect(s, name, data, unpack, router) == ListEffect(s, name, m.payload, router);
      } else if m.topic == Wire.DeltaName {
        Wire.DeliveredTopic(data[0], s.subs, Wire.DeltaTopic);
        DeltaKeepsInvariants(s, name, m.payload, router);
        assert ReceiveEffect(s, name, data, unpack, router) == DeltaEffect(s, name, m.payload, MissingUpdateCntLimit, router);
      }
    }
  }

  lemma ListKeepsInvariants(s: Snapshot, name: string, msg: Wire.Payload, router: RouterOs.Router)
    requires Steady(s) && Wire.ListTopic in s.subs
    ensures Kept(ListEffect(s, name, msg, router).0, ListEffect(s, name, msg, router).1)
  {
    assert s.subs == multiset{Wire.ListTopic};
    Wire.SwitchTo(Wire.ListTopic, Wire.DeltaTopic);
  }

  lemma DeltaKeepsInvariants(s: Snapshot, name: string, msg: Wire.Payload, router: RouterOs.Router)
    requires Steady(s) && Wire.DeltaTopic in s.subs
    ensures Kept(DeltaEffect(s, name, msg, MissingUpdateCntLimit, router).0, DeltaEffect(s, name, msg, MissingUpdateCntLimit, router).1)
  {
    assert s.subs == multiset{Wire.DeltaTopic};
    Wire.SwitchTo(Wire.DeltaTopic, Wire.ListTopic);
    if "serial" in msg && msg["serial"].Int? {
      SerialTracker.UpdateKeepsBound(s.serial, msg["serial"].n, MissingUpdateCntLimit);
    }
  }

  /** After trimming, the tracked set lies within the last accepted list. */
  lemma TrimRestoresSteady(s: Snapshot, name: string, order: seq<string>, router: RouterOs.Router)
    requires Wire.OneTopic(s.subs) && |s.serial.early| <= MissingUpdateCntLimit + 1
    requires Ipv4.AllIpv4(s.ipset.addresses)
    requires Enumerates(order, s.ipset.addresses - Elems(s.server))
    ensures Steady(s.(ipset := TrimEffect(s.ipset, name, s.server, order, router).2))
  {
  }

  /**
   * Trimming removes exactly the tracked addresses the list lacks, counts
   * them, and sends nothing new: its removal commands never pass the
   * commit filter, so the router sees only what was already buffered.
   */
  lemma TrimSendsNothingNew(t: Tracked, name: string, server: seq<string>, order: seq<string>, router: RouterOs.Router)
    requires Commands.IsWord(name)
    requires Ipv4.AllIpv4(t.addresses)
    requires Enumerates(order, t.addresses - Elems(server))
    ensures var (count, out, t') := TrimEffect(t, name, server, order, router);
            && out == RouterOs.CommitOf(t.commands, router)
            && t'.addresses + (t.addresses - Elems(server)) == t.addresses
            && t'.addresses !! (t.addresses - Elems(server))
            && count + |t'.addresses| == |t.addresses|
  {
    EnumeratedValid(order, t.addresses - Elems(server));
    RemovalsNotSent(t.commands, name, order);
    assert t.addresses == (t.addresses * Elems(server)) + (t.addresses - Elems(server));
  }

  lemma EnumeratedValid(order: seq<string>, s: set<string>)
    requires Elems(order) == s && Ipv4.AllIpv4(s)
    ensures forall i :: 0 <= i < |order| ==> Ipv4.IsIpv4(order[i])
  {
    forall i | 0 <= i < |order| ensures Ipv4.IsIpv4(order[i]) {
      assert order[i] in Elems(order);
    }
  }

  lemma RemovalsNotSent(commands: seq<string>, name: string, order: seq<string>)
    requires Commands.IsWord(name)
    requires forall i :: 0 <= i < |order| ==> Ipv4.IsIpv4(order[i])
    ensures RouterOs.Requests(commands + Commands.RemoveLines(name, order)) == RouterOs.Requests(commands)
  {
    RouterOs.RequestsConcat(commands, Commands.RemoveLines(name, order));
    RouterOs.RequestsOfRemoveLines(name, order);
  }

  /** After a pass that handled a LIST, the tracked set is exactly the valid
      entries of that list, whatever was tracked before. */
  lemma ListPassTracksList(s: Snapshot, name: string, msg: Wire.Payload, router: RouterOs.Router,
                           order: seq<string>, trimRouter: RouterOs.Router)
    requires Steady(s)
    requires ListEffect(s, name, msg, router).0.Committed?
    requires Enumerates(order, ListEffect(s, name, msg, router).1.ipset.addresses - Elems(ListEffect(s, name, msg, router).1.server))
    ensures var mid := ListEffect(s, name, msg, router).1;
            TrimEffect(mid.ipset, name, mid.server, order, trimRouter).2.addresses == Ipv4.ValidSet(mid.server)
  {
    var mid := ListEffect(s, name, msg, router).1;
    var t := TrimEffect(mid.ipset, name, mid.server, order, trimRouter).2;
    assert mid.ipset.addresses == s.ipset.addresses + Ipv4.ValidSet(mid.server);
    forall a | a in t.addresses ensures a in Ipv4.ValidSet(mid.server) {
      assert a in Elems(mid.server);
    }
  }

  /**
   * A positive delta for an address the last list does not hold is
   * forgotten by the trimming that follows, though the router keeps it; a
   * later negative delta for it then stops the client with `KeyError`.
   */
  lemma UntrackedNegativeDeltaCrashes(s: Snapshot, name: string, msg: Wire.Payload, serial: int, ip: string,
                                      router: RouterOs.Router)
    requires Wire.DeltaKeys[0] in msg && Wire.DeltaKeys[1] in msg && Wire.DeltaKeys[2] in msg
    requires msg["serial"] == Wire.Int(serial) && msg["delta"] == Wire.Str("negative") && msg["ip"] == Wire.Str(ip)
    requires SerialTracker.Update(s.serial, serial, MissingUpdateCntLimit).ok
    requires Ipv4.IsIpv4(ip) && ip !in s.ipset.addresses
    ensures DeltaEffect(s, name, msg, MissingUpdateCntLimit, router).0 == Crashed
  {
  }

  lemma PositiveOutsideListForgotten(t: Tracked, name: string, server: seq<string>, ip: string,
                                     order: seq<string>, router: RouterOs.Router)
    requires ip !in server
    requires Enumerates(order, (t.addresses + {ip}) - Elems(server))
    ensures ip !in TrimEffect(t.(addresses := t.addresses + {ip}), name, server, order, router).2.addresses
  {
  }

  /** A delta the tracker refuses switches back to the list topic and changes
      neither the buffer nor the tracked set. */
  lemma RefusedDeltaResyncs(s: Snapshot, name: string, msg: Wire.Payload, serial: int, router: RouterOs.Router)
    requires s.subs == multiset{Wire.DeltaTopic}
    requires Wire.DeltaKeys[0] in msg && Wire.DeltaKeys[1] in msg && Wire.DeltaKeys[2] in msg
    requires msg["serial"] == Wire.Int(serial)
    requires !SerialTracker.Update(s.serial, serial, MissingUpdateCntLimit).ok
    ensures DeltaEffect(s, name, msg, MissingUpdateCntLimit, router)
            == (Resynced, s.(subs := multiset{Wire.ListTopic}))
  {
    Wire.SwitchTo(Wire.DeltaTopic, Wire.ListTopic);
  }
}
