# Dynamic-firewall sync client, modelled in Dafny

The client subscribes to a ZeroMQ publisher of attacker addresses. It
receives either a full LIST of addresses or a DELTA (one address is added or
removed), and keeps a firewall in step with it. The repository holds three
copies of the client:

- `sentinel.py` is the original. It buffers `ipset restore` lines and
  resynchronises from the full list when the serial tracker refuses a delta.
- `sentynel2.py` sends `add`/`remove` calls to a RouterOS address list.
  It tracks the addresses it added. After every message it drops every
  tracked address that the last accepted list does not contain.
- `sentynel.py` is another RouterOS copy. It never resynchronises, and
  `handle_list` does not reset the buffer. A negative delta asks the router
  to remove its first entry for the address.

The modules, each one file:

| module | file | what it holds |
|---|---|---|
| `Wrappers` | wrappers.dfy | `Option`, `Result` |
| `Utf8` | utf8.dfy | UTF-8 decoding of a frame (`str(data[0], encoding="UTF-8")`) and its inverse |
| `Ipv4` | ipv4.dfy | the `RE_IPV4` validator, written as four dot-separated octets |
| `Commands` | commands.dfy | the command lines the `Ipset` classes buffer, `str.split()` as `Tokens`, and the dispatch filter |
| `SerialTracker` | serial.dfy | the `Serial` class, the same in all copies apart from its limit |
| `RouterOs` | routeros.dfy | the dispatch loop shared by both RouterOS `commit`s, with the router as an oracle of replies |
| `Channel` | channel.dfy | the certificate-renewal backoff and `wait_for_connection` |
| `Wire` | wire.dfy | payload values, `parse_msg`, the required-key checks, and subscriptions as a multiset of topics |
| `Sentinel`, `Sentynel2`, `Sentynel` | sentinel.dfy, sentynel2.dfy, sentynel.dfy | each copy's `Ipset` and `DynfwList` classes and its main-loop pass |

Each handler is specified in two layers:

- A pure *effect* function (`ListEffect`, `DeltaEffect`, `ReceiveEffect`) on a
  snapshot of the client. The snapshot holds the serial state, the buffered
  commands, the tracked addresses and the subscriptions.
- The class methods, whose `ensures` say that they have exactly that effect.

The properties the copies promise are proved as lemmas about the effect
functions.

Other modelling choices:

- Subscriptions are a multiset, because ZeroMQ counts repeated subscriptions
  and one `UNSUBSCRIBE` removes only one of them.
- A received message must pass one of the subscribed prefixes, because a SUB
  socket filters locally.
- The ZeroMQ socket, msgpack and the router are parameters:
  - the frames, as byte sequences;
  - an `unpack` function, which returns `None` where `parse_msg` catches the
    exception msgpack raises (see "## Left out" for the others);
  - a `Router` value, giving how the connection went and the reply to each
    call, in order;
  - for `remove_ips`, the router's entry list.

Where the code and its description disagree, the model follows the code:

- The renewal backoff sleeps 2, 4, …, 128 seconds and then stays at 128. It
  does not start at 1 and is not capped at 120.
- `sentynel.py` never resynchronises.
- A serial equal to the current one is buffered and accepted.
- In both RouterOS copies an `OSError` during `commit` keeps the batch.
- `sentynel2.py` buffers its own `address-list remove …` lines, but its
  commit filter never sends them.

## Model

| member | source | states |
|---|---|---|
| Utf8.DecodeEncode | sentinel.py:141 | decoding the UTF-8 encoding of any string gives that string back |
| Utf8.DecodeFirst | sentinel.py:141 | a character decoded from the front of a frame takes 1 to 4 of its bytes |
| Utf8.EncodeChar | sentinel.py:141 | every character is encoded in 1 to 4 bytes |
| Utf8.DecodeFirstEncodeChar | sentinel.py:141 | the first character decoded from an encoded character plus anything is that character, with its encoded length |
| Utf8.DecodeEncodedPrefix | sentinel.py:141 | if a frame starting with an encoded prefix decodes, the rest decodes too, and the result is the prefix followed by the rest |
| Utf8.ContinuationFirstRejected | sentinel.py:141-146 | a frame starting with a continuation byte is not valid UTF-8, so `parse_msg` rejects it |
| Ipv4.GroupPatternIsOctet | sentinel.py:36 | the regex alternative `25[0-5]\|2[0-4][0-9]\|[01]?[0-9][0-9]?` accepts exactly the groups of 1–3 ASCII digits with value at most 255 |
| Ipv4.OctetsAreIpv4 | sentinel.py:36 | four octets joined by dots always pass the check |
| Ipv4.Ipv4IsOctets | sentinel.py:36 | every address that passes splits at the dots into exactly four octets, and joins back to itself |
| Ipv4.Ipv4Characters | sentinel.py:36 | a passing address has 7 to 15 characters, all digits or dots |
| Ipv4.JoinSplit | sentinel.py:36 | splitting at a separator and joining again gives the string back |
| Ipv4.SplitJoin | sentinel.py:36 | joining parts free of the separator and splitting again gives the parts back |
| Ipv4.ValidOnly | sentinel.py:213-214 | every entry kept from a list passes the check |
| Ipv4.ValidOnlyMembers | sentinel.py:213-214 | the addresses `add_ip` keeps from a list are exactly the list's members that pass the check |
| Ipv4.ValidSetSnoc | sentynel2.py:87-92 | adding one more list item adds it to the tracked set exactly when it passes the check |
| Commands.WordLength | sentynel2.py:116 | the first token ends at the first whitespace |
| Commands.AddLinesConcat | sentinel.py:213-214 | adding the entries of two lists one after the other buffers the lines of the first, then those of the second |
| Commands.RemoveLinesConcat | sentynel2.py:311-312 | removing two runs of addresses one after the other buffers the removal lines of the first, then those of the second |
| Commands.AddLineDispatched | sentynel2.py:114-118 | `add <name> <ip>` splits into the three tokens `add`, the name and the address, so the filter sends it |
| Commands.DelLineNotDispatched | sentinel.py:91-95 | the `del` line buffered for a valid address is exactly the three tokens `del`, the set name and the address |
| Commands.AddressListRemoveNotDispatched | sentynel2.py:114-118 | the copy's own `address-list remove address=<ip> list=<name>` line has four tokens, so the filter never sends it |
| Commands.ResetLinesNotDispatched | sentynel2.py:114-118 | the `create` and `flush` lines of both `reset` variants are never sent |
| Commands.EmptyNameAddNotDispatched | sentynel2.py:114-118 | with an empty set name, `add  <ip>` has two tokens and is not sent |
| Commands.TokensWordSpace | sentynel2.py:116 | a word followed by a space splits into that word and the tokens of the rest |
| RouterOs.ContainsAt | sentynel2.py:127-129 | the `in` test on the error text holds exactly when the phrase occurs at some offset of the text |
| RouterOs.ClassifyApiError | sentynel2.py:126-132 | an API error is logged as "already exists" when its text contains "failure: already have such entry" anywhere, else as "not found" when it contains "failure: entry not found", else as an error with its text |
| RouterOs.FirstAbort | sentynel2.py:114-143 | the index of the first call whose reply is an `OSError` or a permanent error, or the number of calls when there is none |
| RouterOs.CallsUpTo | sentynel2.py:114-132 | the calls made before the loop stops are the batch's requests in order, and a call counts as sent exactly when its reply was a success |
| RouterOs.Dispatch | sentynel2.py:106-146 | the commit loop sends, in order, one call per buffered line the 3-token `add`/`remove` filter admits; it stops at the first `OSError` or permanent error and otherwise runs to the end |
| RouterOs.CommitClearsOnlyWithoutAbort | sentynel.py:143-183 | `commit` empties the buffer exactly when the connection opened and no call met an `OSError` or a permanent error; otherwise buffer and tracked set are unchanged |
| RouterOs.AbsorbedFailuresContinue | sentynel2.py:114-134 | when no reply aborts, every admitted line is sent, even after API errors, and the commit completes |
| RouterOs.RequestsConcat | sentynel2.py:114-125 | the batch's calls are those of its parts, one after the other |
| RouterOs.RequestsOfAddLines | sentynel2.py:114-125 | a batch of `add` lines for valid addresses asks for exactly one `Add` per address, in order |
| RouterOs.RequestsOfRemoveLines | sentynel2.py:114-125 | a batch of `address-list remove` lines asks the router for nothing |
| RouterOs.RequestsOfReset | sentynel2.py:114-125 | the `create` and `flush` lines ask the router for nothing |
| RouterOs.FirstAbortAt | sentynel2.py:138-143 | the commit stops at the first reply that is an `OSError` or a permanent error |
| Channel.FirstNotUrlError | sentynel.py:49-58 | the number of leading attempts that failed with a URL error: every earlier attempt did, the one at that index did not |
| Channel.RenewServerCertificate | sentynel.py:46-58 | the loop sleeps `DelayAfter(i)` after the i-th failure; it ends when a download succeeds or an error other than a URL error is raised, and keeps retrying while URL errors continue |
| Channel.DelayClosedForm | sentynel.py:48-56 | after k failures the delay is `2^min(k,7)` |
| Channel.DelayBounds | sentynel.py:48-56 | the delay is always between 1 and 128, and never 120 |
| Channel.DelayMonotone | sentynel.py:48-56 | the delay never decreases |
| Channel.DelaySettles | sentynel.py:48-56 | from the seventh failure on, the delay is 128 |
| Channel.WaitForConnection | sentynel.py:62-81 | the scan stops at the first decisive event: success for `EVENT_CONNECTED`, exit status 1 for a handshake failure (0x0800, 0x2000, 0x4000); other events are ignored; it keeps waiting exactly when no decisive event arrived, and otherwise stops at `FirstDecisive` |
| Channel.FirstDecisive | sentynel.py:62-81 | the first decisive event is the first `EVENT_CONNECTED` or handshake failure |
| Channel.FirstDecisiveWins | sentynel.py:62-81 | events after the first decisive one cannot change the outcome |
| Wire.ParseMsg | sentynel2.py:169-177 | a message parses exactly when it has two frames, the first is valid UTF-8 and the second unpacks; an empty message, or a one-frame message with a valid first frame, is "not enough parts"; every other failure is "broken" |
| Wire.ParseMsgReadsTwoFrames | sentynel2.py:169-177 | frames after the second are never read |
| Wire.ParsePublished | sentinel.py:139-147 | a message made of an encoded topic and an unpackable payload parses to that topic and payload |
| Wire.FirstMissing | sentinel.py:191-193 | the first required key absent from the payload, or none exactly when every key is present |
| Wire.CheckKeys | sentinel.py:191-193 | the key loop raises for the first required key missing from the payload and passes exactly when every key is present |
| Wire.Subscribe | sentinel.py:188 | subscribing adds one instance of that topic and changes no other topic |
| Wire.Unsubscribe | sentinel.py:196 | unsubscribing removes one instance of that topic, if there is one, and changes no other topic |
| Wire.SwitchTo | sentinel.py:196-197 | switching from the one subscribed topic leaves exactly the other topic subscribed |
| Wire.DeliveredTopic | sentinel.py:276-282 | a message whose topic is one of the two names reaches the handler only if that topic is subscribed |
| Wire.NamesNotPrefixes | sentinel.py:22-23 | neither topic name is a prefix of the other |
| SerialTracker.Rewind | sentinel.py:161-165 | the rewind loop absorbs every consecutive buffered successor, removing each from the buffer, and stops where the next serial is not buffered |
| SerialTracker.Update | sentinel.py:156-175 | the expected successor is accepted and advances the tracker; a lower serial is refused with no change; any other serial is refused with no change when the buffer holds more than the limit, and otherwise buffered and accepted with the current serial unchanged; the current serial never decreases |
| SerialTracker.Serial.UpdateOk | sentinel.py:156-175 | the method returns and leaves the verdict and state of `Update` |
| SerialTracker.Serial.Reset | sentinel.py:177-180 | the buffer is emptied and the current serial becomes the given one |
| SerialTracker.UpdateKeepsBound | sentinel.py:171-175 | the buffer never holds more than limit + 1 serials |
| SerialTracker.OverfullRefuses | sentinel.py:171-173 | with more than `limit` buffered serials, anything but the successor is refused with no change |
| SerialTracker.ResetThenSuccessor | sentinel.py:156-180 | after `reset(k)`, serial k+1 is accepted and leaves the tracker at k+1 with an empty buffer |
| SerialTracker.DeliverMonotone | sentinel.py:156-180 | between resets, any sequence of updates never lowers the current serial |
| SerialTracker.DeliverInOrder | sentinel.py:156-180 | after `reset(k)`, delivering k+1 … k+N in order is accepted and ends at k+N with an empty buffer |
| SerialTracker.UpdateAbsorbs | sentinel.py:156-175 | each accepted new serial keeps the invariant linking delivered serials to the current serial and the buffer |
| SerialTracker.DeliverAbsorbs | sentinel.py:156-175 | a run of distinct accepted serials keeps that invariant |
| SerialTracker.DeliverPermutation | sentinel.py:156-180 | after `reset(k)`, delivering each of k+1 … k+N exactly once, in any order, with every call accepted, ends at k+N with an empty buffer |
| Sentinel.Ipset.AddIp | sentinel.py:85-89 | appends `add <name> <ip>` exactly when the address passes the check, and otherwise leaves the buffer unchanged |
| Sentinel.Ipset.DelIp | sentinel.py:91-95 | appends `del <name> <ip>` exactly when the address passes the check, and otherwise leaves the buffer unchanged |
| Sentinel.Ipset.Reset | sentinel.py:97-99 | appends `create <name> hash:ip -exist` and then `flush <name>` |
| Sentinel.Ipset.Commit | sentinel.py:101-109 | hands over the whole buffer and empties it |
| Sentinel.DynfwList.HandleList | sentinel.py:207-218 | has the effect `ListEffect` states |
| Sentinel.DynfwList.AddListed | sentinel.py:213-214 | appends the `add` lines of the list's valid addresses, in order |
| Sentinel.DynfwList.HandleDelta | sentinel.py:190-205 | has the effect `DeltaEffect` states |
| Sentinel.DynfwList.ApplyDelta | sentinel.py:199-204 | a positive or negative delta with a non-string address crashes; otherwise exactly the one `add`/`del` line, or none, is buffered |
| Sentinel.DynfwList.Receive | sentinel.py:275-286 | one pass of the main loop has the effect `ReceiveEffect` states, and a pass that does not crash leaves the client steady |
| Sentinel.ListMissingKeyChangesNothing | sentinel.py:207-210 | a list without `serial` or `list` raises `InvalidMsgError` for the first missing key and changes nothing |
| Sentinel.DeltaMissingKeyChangesNothing | sentinel.py:190-193 | a delta without `serial`, `delta` or `ip` raises for the first missing key and changes nothing |
| Sentinel.ListRebuildsSet | sentinel.py:207-218 | a list with both keys, whatever else it holds, resets the serial to the message's and commits exactly `create … -exist`, `flush` and then one `add` per valid entry in list order (so an `add` for exactly the valid entries); it empties the buffer and moves the subscription from LIST to DELTA |
| Sentinel.AddLineInjective | sentinel.py:87 | distinct addresses give distinct `add` lines |
| Sentinel.RefusedDeltaResyncs | sentinel.py:194-198 | a delta the tracker refuses switches the subscription from DELTA to LIST and buffers nothing |
| Sentinel.AcceptedDeltaCommits | sentinel.py:199-205 | an accepted delta commits exactly one `add` (positive) or `del` (negative) line for a valid address, nothing for another delta value or an invalid address, and consumes the serial |
| Sentinel.ReceiveKeepsSteady | sentinel.py:275-286 | every pass that does not crash keeps one subscription, an empty buffer and a bounded early-serial buffer |
| Sentinel.ListKeepsSteady | sentinel.py:207-218 | the same for `handle_list` alone |
| Sentinel.DeltaKeepsSteady | sentinel.py:190-205 | the same for `handle_delta` alone |
| Sentynel2.Ipset.AddIp | sentynel2.py:87-92 | a valid address appends `add <name> <ip>` and becomes tracked; an invalid one changes nothing |
| Sentynel2.Ipset.DelIp | sentynel2.py:94-100 | a valid address appends `address-list remove …` and stops being tracked; `KeyError` is reported exactly when a valid address was not tracked; an invalid one changes nothing |
| Sentynel2.Ipset.Reset | sentynel2.py:102-104 | appends `create … hashsize 1024 maxelem 65536` and `flush`, and keeps the tracked set |
| Sentynel2.Ipset.Commit | sentynel2.py:106-146 | dispatches the batch as `CommitTracked` states and clears it only when the loop ran to its end |
| Sentynel2.RemoveUnusedAddressesFromFirewall | sentynel2.py:303-317 | removes each tracked address that is not in the last list exactly once, in some order, and returns their number and the commit's result |
| Sentynel2.DelEach | sentynel2.py:311-312 | buffers one removal line per removed address, in the order visited, and takes exactly those addresses out of the tracked set |
| Sentynel2.DelTracked | sentynel2.py:94-98 | `del_ip` on a tracked valid address appends its removal line and untracks it, and cannot raise `KeyError` |
| Sentynel2.VisitedAll | sentynel2.py:311-312 | once nothing is left to visit, every address was removed exactly once |
| Sentynel2.DynfwList.HandleList | sentynel2.py:237-248 | has the effect `ListEffect` states |
| Sentynel2.DynfwList.AddListed | sentynel2.py:243-244 | buffers the `add` lines of the valid entries, in order, and tracks exactly those entries in addition |
| Sentynel2.DynfwList.HandleDelta | sentynel2.py:220-235 | has the effect `DeltaEffect` states |
| Sentynel2.DynfwList.ApplyDelta | sentynel2.py:229-234 | has the change `DeltaChange` states, and crashes exactly where it gives none |
| Sentynel2.DynfwList.Handle | sentynel2.py:336-348 | receiving and dispatching one message has the effect `ReceiveEffect` states |
| Sentynel2.DynfwList.Step | sentynel2.py:335-352 | a whole pass, trimming included, keeps the client steady; it removes exactly the tracked addresses outside the last list, counts them, and leaves the tracked set equal to its intersection with that list; the state after the trim, its count and its commit result are those `TrimEffect` gives for the order the loop visited |
| Sentynel2.ReceiveKeepsInvariants | sentynel2.py:336-348 | a pass that does not stop keeps one subscription, the early-serial bound and only valid tracked addresses |
| Sentynel2.ListKeepsInvariants | sentynel2.py:237-248 | the same for `handle_list` |
| Sentynel2.DeltaKeepsInvariants | sentynel2.py:220-235 | the same for `handle_delta` |
| Sentynel2.TrimRestoresSteady | sentynel2.py:350-352 | trimming makes the tracked set a subset of the last list |
| Sentynel2.TrimSendsNothingNew | sentynel2.py:303-317 | the trim's commit sends only what was already buffered; the removed and kept addresses partition the old tracked set, and the count plus the kept size is the old size |
| Sentynel2.EnumeratedValid | sentynel2.py:311 | every address the trim visits is a valid one |
| Sentynel2.RemovalsNotSent | sentynel2.py:114-118 | appending removal lines never adds a router call |
| Sentynel2.ListPassTracksList | sentynel2.py:335-352 | after a LIST pass and the trim, the tracked set is exactly the valid entries of that list |
| Sentynel2.UntrackedNegativeDeltaCrashes | sentynel2.py:94-100 | an accepted negative delta for a valid address that is not tracked ends the client with `KeyError` |
| Sentynel2.PositiveOutsideListForgotten | sentynel2.py:335-352 | an address added by a delta but absent from the last list is untracked again by the same pass |
| Sentynel2.RefusedDeltaResyncs | sentynel2.py:224-228 | a refused delta switches the subscription from DELTA to LIST and leaves the buffer and tracked set unchanged |
| Sentynel.FindAddress | sentynel.py:291 | the index of the first entry whose address equals the ip, or none exactly when no entry matches |
| Sentynel.WithoutId | sentynel.py:294-296 | the router's list after removing an id holds exactly the entries with another id |
| Sentynel.RemoveIpsRemovesFirstMatch | sentynel.py:283-299 | with unique ids, `remove_ips` removes exactly the first entry whose address matches, and changes nothing when none does |
| Sentynel.WithoutUniqueId | sentynel.py:294-296 | removing the id of entry k removes exactly entry k |
| Sentynel.NoSuchId | sentynel.py:298-299 | removing an id no entry has changes nothing |
| Sentynel.Ipset.AddIp | sentynel.py:91-96 | a valid address appends `add <name> <ip>` and becomes tracked; an invalid one changes nothing |
| Sentynel.Ipset.DelIp | sentynel.py:98-122 | buffers nothing; a tracked address is no longer tracked and an untracked one changes nothing |
| Sentynel.Ipset.Reset | sentynel.py:185-188 | appends `create` and `flush` and empties the tracked set |
| Sentynel.Ipset.Commit | sentynel.py:143-183 | dispatches the batch as `CommitTracked` states and clears it only when the loop ran to its end |
| Sentynel.DynfwList.HandleList | sentynel.py:301-312 | has the effect `ListEffect` states |
| Sentynel.DynfwList.AddListed | sentynel.py:307-308 | has the effect of `add_ip` on each entry in order: the valid entries' `add` lines are buffered and the entries join the tracked set |
| Sentynel.DynfwList.HandleDelta | sentynel.py:268-281 | has the effect `DeltaEffect` states, which never changes the subscription |
| Sentynel.DynfwList.ApplyDelta | sentynel.py:275-280 | has the change `DeltaChange` states, and crashes exactly where it gives none |
| Sentynel.DynfwList.Receive | sentynel.py:406-421 | one pass has the effect `ReceiveEffect` states; `InvalidMsgError` never escapes, and a pass that does not crash leaves the client steady |
| Sentynel.DeltaEffect | sentynel.py:268-281 | `handle_delta` never changes the subscription |
| Sentynel.RefusedDeltaSkips | sentynel.py:272-274 | a refused delta changes nothing at all: no subscription change, no command, no address change |
| Sentynel.NegativeDeltaKeepsIpset | sentynel.py:278-281 | an accepted negative delta buffers nothing and keeps the tracked set; it commits the existing buffer and removes the router entry `remove_ips` finds |
| Sentynel.ListOnlyAdds | sentynel.py:301-312 | a list grows the tracked set by its valid entries without clearing it, and the commit asks the router only for one `Add` per valid entry after what was already buffered |
| Sentynel.DeltaModeIsFinal | sentynel.py:268-312 | once subscribed to DELTA alone, the client stays subscribed to DELTA alone whatever it receives |
| Sentynel.ReceiveKeepsSteady | sentynel.py:406-421 | every pass that does not crash keeps one subscription, the early-serial bound (10000) and only valid tracked addresses |
| Sentynel.ListKeepsSteady | sentynel.py:301-312 | the same for `handle_list` |
| Sentynel.DeltaKeepsSteady | sentynel.py:268-281 | the same for `handle_delta` |

## Left out

- ZeroMQ itself is left out because it is I/O: sockets, CURVE certificates,
  `create_zmq_socket`, `recv_multipart`, the poller and its timeout, and the
  monitor socket. Only the order of monitor events is modelled.
- `setsockopt` calls are modelled only by their effect on the multiset of
  subscriptions.
- msgpack decoding is an `unpack` parameter. The payload values the handlers
  tell apart are integers, strings, lists of strings, maps with string keys
  (iterated by their keys) and anything else.
- `Wire.ParseMsg` does not model an exception of `msgpack.unpackb` that
  `parse_msg` does not catch, such as the `ValueError` raised for extra or
  truncated data. Such an exception would end the client; the model treats
  every unpack failure as a caught, broken message.
- `Wire.Payload` is a map: a top-level payload that is not a map is not
  modelled. On such a value `key not in msg` raises `TypeError` (an integer)
  or does a different membership test (a string or a list).
- A payload value of the wrong type is approximated: a non-integer serial, a
  non-string `ip`, or a `list` that is not a string, a list of strings or a
  map with string keys is treated as an immediate `TypeError` crash of the handler receiving it.
  In Python, a list handler would store an ill-typed serial and fail later.
  Floats and booleans are not distinguished from other values, and Python's
  `True == 1` is not modelled.
- RouterOS connections and calls are a `Router` value: how the connection
  went, and the reply to each call. The pool constructor is assumed not to
  fail. `connection.disconnect()` is left out.
- `RouterOs.Dispatch` models only the exceptions the two `commit`s catch:
  `RouterOsApiCommunicationError`, `OSError`, `PermissionError` and
  `FileNotFoundError`. Any other exception from the router library would end
  the client; it is not modelled.
- `delete_all_addresses` in `sentynel.py` is left out because its effect is
  on the router only: it removes every entry of every address list, and it
  does not touch the buffer or the tracked set. It has no `try`, so a router
  failure during a LIST would end the client; `Sentynel.ListEffect` does not
  model that failure.
- `Sentynel.Ipset.DelIp` does not model the router call that the `del_ip` of
  `sentynel.py` makes, or its errors, because that call is network I/O. The
  model keeps only its effect on the tracked set and the buffer, which the
  call does not touch.
- `remove_ips` is modelled by its effect on the router's entry list. A
  failure of its `get()` or `remove()` call is not modelled.
- Python set iteration order is a parameter. `RemoveUnusedAddressesFromFirewall`
  returns the order it visited, and every property holds for any order.
- `Sentinel.Ipset.Commit` leaves out the `except` branches of `commit` in
  `sentinel.py`. The subprocess code is commented out, so only
  `print(self.commands)` remains in the `try`. That `print` could raise an
  `OSError` (a broken pipe on standard output), which would keep the buffer;
  the model assumes the print succeeds.
- Logging, `print`, `time.sleep`, `sys.exit` and argparse are left out as I/O.
  `sys.exit` appears as an outcome: `Fatal` or `Failed`.
- `renew_server_certificate`'s file write and `urllib` fetch are a sequence of
  attempt outcomes.
- The `time.time()` duration check in the main loop of `sentynel.py` is left
  out, because it uses a floating-point wall clock.
- `fetch_server_ip_addresses` and `get_addresses` are left out:
  - `fetch_server_ip_addresses` in `sentynel2.py` is never called;
  - the `server_addresses` of `sentynel.py` is assigned but never read;
  - `get_addresses` only lists the tracked set.
- The tokeniser splits on the characters `str.isspace` accepts. The set name
  is assumed to contain no whitespace; a valid address cannot contain any.
- Flask, SQLAlchemy, Alembic and the one-shot RouterOS scripts are left out,
  because they are not part of the client.
