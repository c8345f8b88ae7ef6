/**
 * What arrives on the subscriber socket, common to all three copies: the
 * two topic names, the payload (a msgpack map, decoded by an oracle),
 * `parse_msg`, the required-key checks of the two handlers, and the
 * subscription set with the prefix filter a SUB socket applies before a
 * message reaches the client.
 */
module Wire {
  import opened Wrappers
  import Utf8

  /** A decoded msgpack value, as far as the handlers distinguish them. */
  datatype Value =
    | Int(n: int)
    | Str(s: string)
    | Strs(items: seq<string>)
      /** A map whose keys are all strings, with its keys in insertion order. */
    | Dict(keys: seq<string>)
      /** Anything else (nil, a float, binary data, a list or a map holding a
          non-string). */
    | Other

  type Payload = map<string, Value>

  datatype Topic = ListTopic | DeltaTopic

  const ListName := "dynfw/list"
  const DeltaName := "dynfw/delta"

  function Name(t: Topic): string {
    match t
    case ListTopic => ListName
    case DeltaTopic => DeltaName
  }

  /** The reasons `InvalidMsgError` is raised. */
  datatype MsgError = NotEnoughParts | Broken | MissingKey(key: string)

  datatype Message = Message(topic: string, payload: Payload)

  /**
   * `parse_msg`: decode the first frame as UTF-8 and unpack the second.  The
   * steps run in that order, so an empty message fails on the first frame
   * and a one-frame message with a bad first frame is broken, not short.
   */
  function ParseMsg(data: seq<seq<Utf8.Byte>>, unpack: seq<Utf8.Byte> -> Option<Payload>): (r: Result<Message, MsgError>)
    ensures r.Success? <==> |data| >= 2 && Utf8.Decode(data[0]).Some? && unpack(data[1]).Some?
    ensures r.Success? ==> r.value == Message(Utf8.Decode(data[0]).value, unpack(data[1]).value)
    ensures r == Failure(NotEnoughParts) <==> |data| == 0 || (|data| == 1 && Utf8.Decode(data[0]).Some?)
    ensures r.Failure? ==> r.error == NotEnoughParts || r.error == Broken
  {
    if |data| == 0 then Failure(NotEnoughParts)
    else
      match Utf8.Decode(data[0])
      case None => Failure(Broken)
      case Some(topic) =>
        if |data| < 2 then Failure(NotEnoughParts)
        else
          match unpack(data[1])
          case None => Failure(Broken)
          case Some(payload) => Success(Message(topic, payload))
  }

  /** `parse_msg` never looks past the second frame. */
  lemma ParseMsgReadsTwoFrames(data: seq<seq<Utf8.Byte>>, extra: seq<seq<Utf8.Byte>>, unpack: seq<Utf8.Byte> -> Option<Payload>)
    requires |data| >= 2
    ensures ParseMsg(data, unpack) == ParseMsg(data[..2] + extra, unpack)
  {
    var d := data[..2] + extra;
    assert d[0] == data[0] && d[1] == data[1];
  }

  /** A message published under a topic, with a payload the unpacker accepts,
      parses back to that topic and payload. */
  lemma ParsePublished(topic: string, packed: seq<Utf8.Byte>, rest: seq<seq<Utf8.Byte>>, unpack: seq<Utf8.Byte> -> Option<Payload>)
    requires unpack(packed).Some?
    ensures ParseMsg([Utf8.Encode(topic), packed] + rest, unpack) == Success(Message(topic, unpack(packed).value))
  {
    Utf8.DecodeEncode(topic);
    var d := [Utf8.Encode(topic), packed] + rest;
    assert d[0] == Utf8.Encode(topic) && d[1] == packed;
  }

  // ------------------------------------------------ required keys

  const DeltaKeys := ["serial", "delta", "ip"]
  const ListKeys := ["serial", "list"]

  /** The first of `keys` the payload lacks, in the order the loop checks them. */
  function FirstMissing(msg: Payload, keys: seq<string>): (r: Option<string>)
    ensures r.None? <==> forall i :: 0 <= i < |keys| ==> keys[i] in msg
    ensures r.Some? ==> exists i :: 0 <= i < |keys| && keys[i] == r.value && r.value !in msg
                                   && forall j :: 0 <= j < i ==> keys[j] in msg
  {
    if keys == [] then None
    else if keys[0] !in msg then Some(keys[0])
    else
      var r := FirstMissing(msg, keys[1..]);
      assert r.Some? ==> exists i :: 0 <= i < |keys| - 1 && keys[1..][i] == r.value && r.value !in msg
                                   && forall j :: 0 <= j < i ==> keys[1..][j] in msg;
      r
  }

  /** The handlers' `for key in REQUIRED_..._KEYS` loop; `Some(key)` is the
      `InvalidMsgError` it raises. */
  method CheckKeys(msg: Payload, keys: seq<string>) returns (missing: Option<string>)
    ensures missing.None? <==> forall i :: 0 <= i < |keys| ==> keys[i] in msg
    ensures missing.Some? ==> exists i :: 0 <= i < |keys| && keys[i] == missing.value && missing.value !in msg
                                         && forall j :: 0 <= j < i ==> keys[j] in msg
    ensures missing == FirstMissing(msg, keys)
  {
    var i := 0;
    while i < |keys|
      invariant 0 <= i <= |keys|
      invariant forall j :: 0 <= j < i ==> keys[j] in msg
      invariant FirstMissing(msg, keys) == FirstMissing(msg, keys[i..])
    {
      if keys[i] !in msg {
        return Some(keys[i]);
      }
      assert keys[i..][1..] == keys[i + 1..];
      i := i + 1;
    }
    return None;
  }

  /** The items `for ip in msg["list"]` visits: a list of strings, the
      characters of a string, or the keys of a map; None when iterating or
      matching them raises `TypeError`. */
  function ListItems(v: Value): Option<seq<string>>
  {
    match v
    case Strs(items) => Some(items)
    case Dict(keys) => Some(keys)
    case Str(s) => Some(seq(|s|, i requires 0 <= i < |s| => [s[i]]))
    case _ => None
  }

  // ------------------------------------------------ subscriptions

  /** The socket's subscriptions: SUBSCRIBE adds an instance of the filter,
      UNSUBSCRIBE removes one. */
  type Subscriptions = multiset<Topic>

  function Subscribe(subs: Subscriptions, t: Topic): (r: Subscriptions)
    ensures r[t] == subs[t] + 1
    ensures forall u :: u != t ==> r[u] == subs[u]
  {
    subs + multiset{t}
  }

  function Unsubscribe(subs: Subscriptions, t: Topic): (r: Subscriptions)
    ensures r[t] == if subs[t] == 0 then 0 else subs[t] - 1
    ensures forall u :: u != t ==> r[u] == subs[u]
  {
    subs - multiset{t}
  }

  /** What `handle_list` does to the subscriptions (and `handle_delta`'s
      resync, in the reverse direction). */
  function Switch(subs: Subscriptions, from: Topic, to: Topic): Subscriptions {
    Subscribe(Unsubscribe(subs, from), to)
  }

  /** The client listens to exactly one of the two topics. */
  predicate OneTopic(subs: Subscriptions) {
    subs == multiset{ListTopic} || subs == multiset{DeltaTopic}
  }

  lemma SwitchTo(from: Topic, to: Topic)
    ensures Switch(multiset{from}, from, to) == multiset{to}
  {
  }

  /** The SUB socket passes a message only when its first frame starts with
      the bytes of a subscribed topic. */
  predicate Delivered(first: seq<Utf8.Byte>, subs: Subscriptions) {
    exists t :: t in subs && Utf8.Encode(Name(t)) <= first
  }

  /** Hence a message whose topic decodes to one of the two names was
      delivered because that very topic is subscribed: neither name is a
      prefix of the other. */
  lemma DeliveredTopic(first: seq<Utf8.Byte>, subs: Subscriptions, t: Topic)
    requires Delivered(first, subs)
    requires Utf8.Decode(first) == Some(Name(t))
    ensures t in subs
  {
    var u :| u in subs && Utf8.Encode(Name(u)) <= first;
    EncodedPrefix(Name(u), first);
    NamesNotPrefixes(u, t);
  }

  lemma EncodedPrefix(p: string, first: seq<Utf8.Byte>)
    requires Utf8.Encode(p) <= first && Utf8.Decode(first).Some?
    ensures p <= Utf8.Decode(first).value
  {
    var rest := first[|Utf8.Encode(p)|..];
    assert first == Utf8.Encode(p) + rest;
    Utf8.DecodeEncodedPrefix(p, rest);
  }

  lemma NamesNotPrefixes(u: Topic, t: Topic)
    requires Name(u) <= Name(t)
    ensures u == t
  {
    assert Name(u)[6] == Name(t)[6];
  }
}
