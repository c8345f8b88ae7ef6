/**
 * sentinel.py: the original client, which feeds an `ipset` set.  Its
 * `Ipset` buffers `ipset restore` lines and `commit` hands the whole batch
 * over and empties the buffer; `DynfwList` checks keys, drives the serial
 * tracker (limit 10) and switches the subscription between the list topic
 * and the delta topic.
 *
 * The effect of each handler is first stated as a function on a snapshot
 * of the client (serial tracker, buffered commands, subscriptions); the
 * classes below are proved to have exactly that effect.
 */
module Sentinel {
  import opened Wrappers
  import Utf8
  import Ipv4
  import Commands
  import SerialTracker
  import Wire

  const MissingUpdateCntLimit := 10

  datatype Snapshot = Snapshot(serial: SerialTracker.SerialState, commands: seq<string>, subs: Wire.Subscriptions)

  /** What handling one received message did. */
  datatype Handled =
      /** `commit` ran and handed over this batch. */
    | Committed(batch: seq<string>)
      /** `InvalidMsgError`, logged by the main loop. */
    | Invalid(error: Wire.MsgError)
      /** A delta the serial tracker refused: back to the full list. */
    | Resynced
      /** A topic that is neither of the two names, logged. */
    | Unknown(topic: string)
      /** A payload value of the wrong type: the client stops with `TypeError`. */
    | Crashed

  /** `handle_list`. */
  function ListEffect(s: Snapshot, name: string, msg: Wire.Payload): (Handled, Snapshot)
  {
    match Wire.FirstMissing(msg, Wire.ListKeys)
    case Some(key) => (Invalid(Wire.MissingKey(key)), s)
    case None =>
      assert Wire.ListKeys[1] in msg;
      var items := Wire.ListItems(msg["list"]);
      if !msg["serial"].Int? || items.None? then (Crashed, s)
      else
        var batch := s.commands + [Commands.CreateExistLine(name), Commands.FlushLine(name)]
                     + Commands.AddLines(name, Ipv4.ValidOnly(items.value));
        (Committed(batch),
         Snapshot(SerialTracker.SerialState(msg["serial"].n, {}), [],
                  Wire.Switch(s.subs, Wire.ListTopic, Wire.DeltaTopic)))
  }

  /** The command a delta that the tracker accepted adds to the buffer. */
  function DeltaLine(name: string, delta: Wire.Value, ip: string): seq<string> {
    if !Ipv4.IsIpv4(ip) then []
    else if delta == Wire.Str("positive") then [Commands.AddLine(name, ip)]
    else if delta == Wire.Str("negative") then [Commands.DelLine(name, ip)]
    else []
  }

  /** `handle_delta`. */
  function DeltaEffect(s: Snapshot, name: string, msg: Wire.Payload, limit: int): (Handled, Snapshot)
  {
    match Wire.FirstMissing(msg, Wire.DeltaKeys)
    case Some(key) => (Invalid(Wire.MissingKey(key)), s)
    case None =>
      if !msg["serial"].Int? then (Crashed, s)
      else
        var v := SerialTracker.Update(s.serial, msg["serial"].n, limit);
        assert Wire.DeltaKeys[1] in msg && Wire.DeltaKeys[2] in msg;
        var delta, ip := msg["delta"], msg["ip"];
        if !v.ok then (Resynced, s.(subs := Wire.Switch(s.subs, Wire.DeltaTopic, Wire.ListTopic)))
        else if (delta == Wire.Str("positive") || delta == Wire.Str("negative")) && !ip.Str? then (Crashed, s)
        else
          var line := if ip.Str? then DeltaLine(name, delta, ip.s) else [];
          (Committed(s.commands + line), Snapshot(v.next, [], s.subs))
  }

  /** One pass of the main loop. */
  function ReceiveEffect(s: Snapshot, name: string, data: seq<seq<Utf8.Byte>>,
                         unpack: seq<Utf8.Byte> -> Option<Wire.Payload>): (Handled, Snapshot)
  {
    match Wire.ParseMsg(data, unpack)
    case Failure(e) => (Invalid(e), s)
    case Success(m) =>
      if m.topic == Wire.ListName then ListEffect(s, name, m.payload)
      else if m.topic == Wire.DeltaName then DeltaEffect(s, name, m.payload, MissingUpdateCntLimit)
      else (Unknown(m.topic), s)
  }

  /** The client between two messages: one subscription, an empty buffer and
      at most `limit + 1` early serials. */
  predicate Steady(s: Snapshot) {
    Wire.OneTopic(s.subs) && s.commands == [] && |s.serial.early| <= MissingUpdateCntLimit + 1
  }

  /** A pass that did not crash leaves the client steady. */
  predicate Kept(h: Handled, t: Snapshot) {
    h != Crashed ==> Steady(t)
  }

  // ---------------------------------------------------------------- classes

  class Ipset {
    const name: string
    var commands: seq<string>

    constructor (name: string)
      ensures this.name == name && commands == []
    {
      this.name := name;
      commands := [];
    }

    method AddIp(ip: string)
      modifies this
      ensures commands == old(commands) + (if Ipv4.IsIpv4(ip) then [Commands.AddLine(name, ip)] else [])
    {
      if Ipv4.IsIpv4(ip) {
        commands := commands + [Commands.AddLine(name, ip)];
      }
    }

    method DelIp(ip: string)
      modifies this
      ensures commands == old(commands) + (if Ipv4.IsIpv4(ip) then [Commands.DelLine(name, ip)] else [])
    {
      if Ipv4.IsIpv4(ip) {
        commands := commands + [Commands.DelLine(name, ip)];
      }
    }

    method Reset()
      modifies this
      ensures commands == old(commands) + [Commands.CreateExistLine(name), Commands.FlushLine(name)]
    {
      commands := commands + [Commands.CreateExistLine(name), Commands.FlushLine(name)];
    }

    /** Hands the buffered batch over (it is only printed) and empties the buffer. */
    method Commit() returns (batch: seq<string>)
      modifies this
      ensures batch == old(commands) && commands == []
    {
      batch := commands;
      commands := [];
    }
  }

  class DynfwList {
    const serial: SerialTracker.Serial
    const ipset: Ipset
    /** The socket's subscriptions; the socket itself is not modelled. */
    ghost var subscriptions: Wire.Subscriptions

    ghost function Snap(): Snapshot
      reads this, serial, ipset
    {
      Snapshot(serial.State(), ipset.commands, subscriptions)
    }

    constructor (name: string)
      ensures fresh(serial) && fresh(ipset) && ipset.name == name
      ensures serial.missingLimit == MissingUpdateCntLimit
      ensures Snap() == Snapshot(SerialTracker.SerialState(0, {}), [], multiset{Wire.ListTopic})
    {
      serial := new SerialTracker.Serial(MissingUpdateCntLimit);
      ipset := new Ipset(name);
      subscriptions := Wire.Subscribe(multiset{}, Wire.ListTopic);
    }

    method HandleList(msg: Wire.Payload) returns (r: Handled)
      modifies this, serial, ipset
      ensures r == ListEffect(old(Snap()), ipset.name, msg).0
      ensures r != Crashed ==> Snap() == ListEffect(old(Snap()), ipset.name, msg).1
    {
      var missing := Wire.CheckKeys(msg, Wire.ListKeys);
      if missing.Some? {
        return Invalid(Wire.MissingKey(missing.value));
      }
      var items := Wire.ListItems(msg["list"]);
      if !msg["serial"].Int? || items.None? {
        return Crashed;
      }
      serial.Reset(msg["serial"].n);
      ipset.Reset();
      AddListed(items.value);
      var batch := ipset.Commit();
      subscriptions := Wire.Switch(subscriptions, Wire.ListTopic, Wire.DeltaTopic);
      return Committed(batch);
    }

    /** The loop `for ip in msg["list"]: self.ipset.add_ip(ip)`. */
    method AddListed(ips: seq<string>)
      modifies ipset
      ensures ipset.commands == old(ipset.commands) + Commands.AddLines(ipset.name, Ipv4.ValidOnly(ips))
    {
      var i := 0;
      while i < |ips|
        invariant 0 <= i <= |ips|
        invariant ipset.commands == old(ipset.commands) + Commands.AddLines(ipset.name, Ipv4.ValidOnly(ips[..i]))
      {
        ipset.AddIp(ips[i]);
        assert ips[..i + 1][..i] == ips[..i];
        Commands.AddLinesConcat(ipset.name, Ipv4.ValidOnly(ips[..i]),
                                if Ipv4.IsIpv4(ips[i]) then [ips[i]] else []);
        i := i + 1;
      }
      assert ips[..i] == ips;
    }

    method HandleDelta(msg: Wire.Payload) returns (r: Handled)
      modifies this, serial, ipset
      ensures r == DeltaEffect(old(Snap()), ipset.name, msg, serial.missingLimit).0
      ensures r != Crashed ==> Snap() == DeltaEffect(old(Snap()), ipset.name, msg, serial.missingLimit).1
    {
      var missing := Wire.CheckKeys(msg, Wire.DeltaKeys);
      if missing.Some? {
        return Invalid(Wire.MissingKey(missing.value));
      }
      if !msg["serial"].Int? {
        return Crashed;
      }
      var ok := serial.UpdateOk(msg["serial"].n);
      if !ok {
        subscriptions := Wire.Switch(subscriptions, Wire.DeltaTopic, Wire.ListTopic);
        return Resynced;
      }
      assert Wire.DeltaKeys[1] in msg && Wire.DeltaKeys[2] in msg;
      var crashed := ApplyDelta(msg["delta"], msg["ip"]);
      if crashed {
        return Crashed;
      }
      var batch := ipset.Commit();
      return Committed(batch);
    }

    /** The `positive`/`negative` branches of `handle_delta`: an `ip` that is
        not a string makes the address check raise `TypeError`. */
    method ApplyDelta(delta: Wire.Value, ip: Wire.Value) returns (crashed: bool)
      modifies ipset
      ensures crashed <==> (delta == Wire.Str("positive") || delta == Wire.Str("negative")) && !ip.Str?
      ensures !crashed ==> ipset.commands == old(ipset.commands) + (if ip.Str? then DeltaLine(ipset.name, delta, ip.s) else [])
    {
      crashed := false;
      if delta == Wire.Str("positive") {
        if !ip.Str? {
          return true;
        }
        ipset.AddIp(ip.s);
      } else if delta == Wire.Str("negative") {
        if !ip.Str? {
          return true;
        }
        ipset.DelIp(ip.s);
      }
    }

    /** The body of the main loop, for a message the socket delivered. */
    method Receive(data: seq<seq<Utf8.Byte>>, unpack: seq<Utf8.Byte> -> Option<Wire.Payload>) returns (r: Handled)
      requires serial.missingLimit == MissingUpdateCntLimit
      requires Steady(Snap()) && |data| > 0 && Wire.Delivered(data[0], subscriptions)
      modifies this, serial, ipset
      ensures r == ReceiveEffect(old(Snap()), ipset.name, data, unpack).0
      ensures r != Crashed ==> Snap() == ReceiveEffect(old(Snap()), ipset.name, data, unpack).1
      ensures r != Crashed ==> Steady(Snap())
    {
      ReceiveKeepsSteady(Snap(), ipset.name, data, unpack);
      var parsed := Wire.ParseMsg(data, unpack);
      if parsed.Failure? {
        return Invalid(parsed.error);
      }
      var m := parsed.value;
      if m.topic == Wire.ListName {
        r := HandleList(m.payload);
      } else if m.topic == Wire.DeltaName {
        r := HandleDelta(m.payload);
      } else {
        r := Unknown(m.topic);
      }
    }
  }

  // ---------------------------------------------------------------- lemmas

  /** A LIST message with a missing key is refused before anything changes. */
  lemma ListMissingKeyChangesNothing(s: Snapshot, name: string, msg: Wire.Payload)
    requires !("serial" in msg && "list" in msg)
    ensures ListEffect(s, name, msg).1 == s
    ensures ListEffect(s, name, msg).0 == Invalid(Wire.MissingKey(if "serial" !in msg then "serial" else "list"))
  {
    assert Wire.ListKeys[0] == "serial" && Wire.ListKeys[1] == "list";
  }

  /** A DELTA message with a missing key is refused before the tracker or
      the buffer is touched; the first missing key in `serial`, `delta`,
      `ip` order is reported. */
  lemma DeltaMissingKeyChangesNothing(s: Snapshot, name: string, msg: Wire.Payload, limit: int)
    requires !("serial" in msg && "delta" in msg && "ip" in msg)
    ensures DeltaEffect(s, name, msg, limit).1 == s
    ensures DeltaEffect(s, name, msg, limit).0
            == Invalid(Wire.MissingKey(if "serial" !in msg then "serial" else if "delta" !in msg then "delta" else "ip"))
  {
    assert Wire.DeltaKeys[0] == "serial" && Wire.DeltaKeys[1] == "delta" && Wire.DeltaKeys[2] == "ip";
  }

  /**
   * A well-formed LIST restarts the tracker at its serial and rebuilds the
   * set: the batch is the create and flush lines followed by one add line
   * per list entry that passes the check, in list order, and nothing else;
   * afterwards the client listens to deltas only.
   */
  lemma ListRebuildsSet(s: Snapshot, name: string, msg: Wire.Payload, serial: int, ips: seq<string>)
    requires Steady(s) && s.subs == multiset{Wire.ListTopic}
    requires "serial" in msg && "list" in msg && msg["serial"] == Wire.Int(serial) && msg["list"] == Wire.Strs(ips)
    ensures var (r, t) := ListEffect(s, name, msg);
            && r.Committed?
            && r.batch == [Commands.CreateExistLine(name), Commands.FlushLine(name)]
                          + Commands.AddLines(name, Ipv4.ValidOnly(ips))
            && (forall x :: Commands.AddLine(name, x) in r.batch[2..] <==> x in ips && Ipv4.IsIpv4(x))
            && t == Snapshot(SerialTracker.SerialState(serial, {}), [], multiset{Wire.DeltaTopic})
  {
    assert Wire.ListKeys[0] in msg && Wire.ListKeys[1] in msg;
    var batch := ListEffect(s, name, msg).0.batch;
    var adds := Commands.AddLines(name, Ipv4.ValidOnly(ips));
    assert batch[2..] == adds;
    Ipv4.ValidOnlyMembers(ips);
    forall x ensures Commands.AddLine(name, x) in adds <==> x in ips && Ipv4.IsIpv4(x) {
      if Commands.AddLine(name, x) in adds {
        var i :| 0 <= i < |adds| && adds[i] == Commands.AddLine(name, x);
        AddLineInjective(name, x, Ipv4.ValidOnly(ips)[i]);
      }
      if x in ips && Ipv4.IsIpv4(x) {
        var i :| 0 <= i < |Ipv4.ValidOnly(ips)| && Ipv4.ValidOnly(ips)[i] == x;
        assert adds[i] == Commands.AddLine(name, x);
      }
    }
    Wire.SwitchTo(Wire.ListTopic, Wire.DeltaTopic);
  }

  lemma AddLineInjective(name: string, x: string, y: string)
    requires Commands.AddLine(name, x) == Commands.AddLine(name, y)
    ensures x == y
  {
    var n := |"add " + name + " "|;
    assert Commands.AddLine(name, x)[n..|Commands.AddLine(name, x)| - 1] == x;
    assert Commands.AddLine(name, y)[n..|Commands.AddLine(name, y)| - 1] == y;
  }

  /** A delta the tracker refuses emits no command and leaves the tracker as
      it was; only the subscription moves back to the list topic. */
  lemma RefusedDeltaResyncs(s: Snapshot, name: string, msg: Wire.Payload, serial: int)
    requires s.subs == multiset{Wire.DeltaTopic}
    requires Wire.DeltaKeys[0] in msg && Wire.DeltaKeys[1] in msg && Wire.DeltaKeys[2] in msg
    requires msg["serial"] == Wire.Int(serial)
    requires !SerialTracker.Update(s.serial, serial, MissingUpdateCntLimit).ok
    ensures DeltaEffect(s, name, msg, MissingUpdateCntLimit)
            == (Resynced, Snapshot(s.serial, s.commands, multiset{Wire.ListTopic}))
  {
    Wire.SwitchTo(Wire.DeltaTopic, Wire.ListTopic);
  }

  /** An accepted delta commits exactly one command for a positive or negative
      change of a valid address, and none for any other `delta` value; the
      serial is consumed either way. */
  lemma AcceptedDeltaCommits(s: Snapshot, name: string, msg: Wire.Payload, serial: int, ip: string)
    requires s.commands == []
    requires Wire.DeltaKeys[0] in msg && Wire.DeltaKeys[1] in msg && Wire.DeltaKeys[2] in msg
    requires msg["serial"] == Wire.Int(serial) && msg["ip"] == Wire.Str(ip)
    requires SerialTracker.Update(s.serial, serial, MissingUpdateCntLimit).ok
    ensures var (r, t) := DeltaEffect(s, name, msg, MissingUpdateCntLimit);
            && t == Snapshot(SerialTracker.Update(s.serial, serial, MissingUpdateCntLimit).next, [], s.subs)
            && r.Committed?
            && (msg["delta"] == Wire.Str("positive") && Ipv4.IsIpv4(ip) ==> r.batch == [Commands.AddLine(name, ip)])
            && (msg["delta"] == Wire.Str("negative") && Ipv4.IsIpv4(ip) ==> r.batch == [Commands.DelLine(name, ip)])
            && (msg["delta"] != Wire.Str("positive") && msg["delta"] != Wire.Str("negative") ==> r.batch == [])
            && (!Ipv4.IsIpv4(ip) ==> r.batch == [])
  {
  }

  /**
   * The two-mode machine: a delivered message never leaves the client
   * listening to both topics or to none, and the buffer and the early-serial
   * bound survive every pass of the loop.  The socket filter is what makes
   * this hold: a LIST reaches the client only while it listens to the list.
   */
  lemma ReceiveKeepsSteady(s: Snapshot, name: string, data: seq<seq<Utf8.Byte>>,
                           unpack: seq<Utf8.Byte> -> Option<Wire.Payload>)
    requires Steady(s) && |data| > 0 && Wire.Delivered(data[0], s.subs)
    ensures Kept(ReceiveEffect(s, name, data, unpack).0, ReceiveEffect(s, name, data, unpack).1)
  {
    var parsed := Wire.ParseMsg(data, unpack);
    if parsed.Success? {
      var m := parsed.value;
      if m.topic == Wire.ListName {
        Wire.DeliveredTopic(data[0], s.subs, Wire.ListTopic);
        ListKeepsSteady(s, name, m.payload);
        assert ReceiveEffect(s, name, data, unpack) == ListEffect(s, name, m.payload);
      } else if m.topic == Wire.DeltaName {
        Wire.DeliveredTopic(data[0], s.subs, Wire.DeltaTopic);
        DeltaKeepsSteady(s, name, m.payload);
        assert ReceiveEffect(s, name, data, unpack) == DeltaEffect(s, name, m.payload, MissingUpdateCntLimit);
      }
    }
  }

  lemma ListKeepsSteady(s: Snapshot, name: string, msg: Wire.Payload)
    requires Steady(s) && Wire.ListTopic in s.subs
    ensures Kept(ListEffect(s, name, msg).0, ListEffect(s, name, msg).1)
  {
    assert s.subs == multiset{Wire.ListTopic};
    Wire.SwitchTo(Wire.ListTopic, Wire.DeltaTopic);
  }

  lemma DeltaKeepsSteady(s: Snapshot, name: string, msg: Wire.Payload)
    requires Steady(s) && Wire.DeltaTopic in s.subs
    ensures Kept(DeltaEffect(s, name, msg, MissingUpdateCntLimit).0, DeltaEffect(s, name, msg, MissingUpdateCntLimit).1)
  {
    assert s.subs == multiset{Wire.DeltaTopic};
    Wire.SwitchTo(Wire.DeltaTopic, Wire.ListTopic);
    if "serial" in msg && msg["serial"].Int? {
      SerialTracker.UpdateKeepsBound(s.serial, msg["serial"].n, MissingUpdateCntLimit);
    }
  }
}
