/**
 * The commit loop of the two router-backed copies (sentynel2.py and
 * sentynel.py, `Ipset.commit`): open an API connection, walk the buffered
 * commands, send the ones the filter admits as address-list calls, and
 * classify each failure.  The router itself is an oracle: how opening the
 * connection went, and what each call answered, in call order.
 */
module RouterOs {
  import Commands
  import Ipv4

  datatype Action = Add | Remove

  /** One address-list call: the action and the address; the list is the set name. */
  datatype Request = Request(action: Action, address: string)

  /** What one API call did. */
  datatype Reply =
    | Done
      /** `RouterOsApiCommunicationError` with this text: logged, loop continues. */
    | ApiError(text: string)
      /** Any other `OSError`: the batch is abandoned. */
    | OsError
      /** `PermissionError` or `FileNotFoundError`: the process exits with status 1. */
    | PermanentError

  /** How opening the connection went. */
  datatype Connect = Connected | ConnectOsError | ConnectPermanentError

  /** How a call that did not abort the loop is logged. */
  datatype Status = Sent | AlreadyExists | NotFound | Failed(text: string)

  datatype Call = Call(request: Request, status: Status)

  datatype CommitOutcome =
      /** The loop ran to its end; the caller clears the batch. */
    | Completed(calls: seq<Call>)
      /** An `OSError` ended the attempt; the batch is kept. */
    | Abandoned(calls: seq<Call>)
      /** A permanent error: the process exits with status 1. */
    | Fatal(calls: seq<Call>)

  const AlreadyHave := "failure: already have such entry"
  const EntryNotFound := "failure: entry not found"

  /** Python's `pat in text` on strings. */
  predicate Contains(text: string, pat: string)
    decreases |text|
  {
    pat <= text || (text != [] && Contains(text[1..], pat))
  }

  /** The call a command the filter admits becomes: `add` or `remove` of its
      third token. */
  function RequestOf(cmd: string): Request
    requires Commands.Dispatchable(cmd)
  {
    var p := Commands.Tokens(cmd);
    Request(if p[0] == "add" then Add else Remove, p[2])
  }

  /** The calls a batch asks for: one per admitted command, in order. */
  function Requests(cmds: seq<string>): seq<Request>
  {
    if cmds == [] then []
    else
      var last := cmds[|cmds| - 1];
      Requests(cmds[..|cmds| - 1]) + (if Commands.Dispatchable(last) then [RequestOf(last)] else [])
  }

  /** The answer to the `i`-th call (calls past the end of the oracle succeed). */
  function ReplyAt(replies: seq<Reply>, i: nat): Reply {
    if i < |replies| then replies[i] else Done
  }

  predicate Aborts(r: Reply) {
    r.OsError? || r.PermanentError?
  }

  /** The substring rule of the inner `except` clause. */
  function Classify(r: Reply): (s: Status)
    requires !Aborts(r)
    ensures s == Sent <==> r == Done
    ensures s == AlreadyExists <==> r.ApiError? && Contains(r.text, AlreadyHave)
    ensures s == NotFound <==> r.ApiError? && !Contains(r.text, AlreadyHave) && Contains(r.text, EntryNotFound)
    ensures s.Failed? <==> r.ApiError? && !Contains(r.text, AlreadyHave) && !Contains(r.text, EntryNotFound)
  {
    match r
    case Done => Sent
    case ApiError(text) =>
      if Contains(text, AlreadyHave) then AlreadyExists
      else if Contains(text, EntryNotFound) then NotFound
      else Failed(text)
  }

  /** `pat` occurs in `text` at offset `i`. */
  predicate OccursAt(text: string, pat: string, i: int) {
    0 <= i && i + |pat| <= |text| && text[i..i + |pat|] == pat
  }

  /** `Contains` is the substring test: `pat` occurs at some offset of `text`. */
  lemma {:induction false} ContainsAt(text: string, pat: string)
    ensures Contains(text, pat) <==> exists i :: OccursAt(text, pat, i)
    decreases |text|
  {
    if pat <= text {
      assert OccursAt(text, pat, 0);
    } else if text == [] {
      assert forall i :: !OccursAt(text, pat, i);
    } else {
      ContainsAt(text[1..], pat);
      assert !OccursAt(text, pat, 0);
      forall i | OccursAt(text, pat, i)
        ensures OccursAt(text[1..], pat, i - 1)
      {
        assert text[1..][i - 1..i - 1 + |pat|] == text[i..i + |pat|];
      }
      forall j | OccursAt(text[1..], pat, j)
        ensures OccursAt(text, pat, j + 1)
      {
        assert text[1..][j..j + |pat|] == text[j + 1..j + 1 + |pat|];
      }
    }
  }

  /** An API error is logged by the first phrase its text contains anywhere,
      "already have such entry" before "entry not found". */
  lemma ClassifyApiError(text: string)
    ensures Classify(ApiError(text))
            == if exists i :: OccursAt(text, AlreadyHave, i) then AlreadyExists
               else if exists i :: OccursAt(text, EntryNotFound, i) then NotFound
               else Failed(text)
  {
    ContainsAt(text, AlreadyHave);
    ContainsAt(text, EntryNotFound);
  }

  /** The index of the first of the first `n` calls whose answer ends the loop, or `n`. */
  function FirstAbort(replies: seq<Reply>, n: nat): (k: nat)
    ensures k <= n
    ensures forall i :: 0 <= i < k ==> !Aborts(ReplyAt(replies, i))
    ensures k < n ==> Aborts(ReplyAt(replies, k))
    decreases n
  {
    if n == 0 then 0
    else
      var k := FirstAbort(replies, n - 1);
      if k < n - 1 then k else if Aborts(ReplyAt(replies, n - 1)) then n - 1 else n
  }

  /** The first `k` calls of `reqs`, classified. */
  function CallsUpTo(reqs: seq<Request>, replies: seq<Reply>, k: nat): (calls: seq<Call>)
    requires k <= |reqs|
    requires forall i :: 0 <= i < k ==> !Aborts(ReplyAt(replies, i))
    ensures |calls| == k
    ensures forall i :: 0 <= i < k ==> calls[i].request == reqs[i] && (calls[i].status == Sent <==> ReplyAt(replies, i) == Done)
  {
    seq(k, i requires 0 <= i < k => Call(reqs[i], Classify(ReplyAt(replies, i))))
  }

  /** What a commit of a batch asking for `reqs` does. */
  function CommitResult(reqs: seq<Request>, connect: Connect, replies: seq<Reply>): CommitOutcome
  {
    match connect
    case ConnectPermanentError => Fatal([])
    case ConnectOsError => Abandoned([])
    case Connected =>
      var k := FirstAbort(replies, |reqs|);
      var calls := CallsUpTo(reqs, replies, k);
      if k == |reqs| then Completed(calls)
      else if ReplyAt(replies, k).PermanentError? then Fatal(calls)
      else Abandoned(calls)
  }

  /** The router as one commit sees it: how the connection went and the
      answers to the calls, in order. */
  datatype Router = Router(connect: Connect, replies: seq<Reply>)

  /** What `commit` does with the buffered batch `commands`. */
  function CommitOf(commands: seq<string>, router: Router): CommitOutcome {
    CommitResult(Requests(commands), router.connect, router.replies)
  }

  /** The buffer after `commit`: `self.commands = []` sits after the loop
      inside the `try`, so only a loop that ran to its end clears it. */
  function Remaining(commands: seq<string>, outcome: CommitOutcome): (r: seq<string>)
    ensures outcome.Completed? ==> r == []
    ensures !outcome.Completed? ==> r == commands
  {
    if outcome.Completed? then [] else commands
  }

  /** The abstract value of the `Ipset` of the router-backed copies: the
      buffered commands and the tracked addresses. */
  datatype Tracked = Tracked(commands: seq<string>, addresses: set<string>)

  /** `commit` on a tracked value: the commit's result and the value after it. */
  function CommitTracked(t: Tracked, router: Router): (CommitOutcome, Tracked) {
    var out := CommitOf(t.commands, router);
    (out, t.(commands := Remaining(t.commands, out)))
  }

  /** The loop of `commit`, up to (not including) its clearing of the batch. */
  method Dispatch(commands: seq<string>, connect: Connect, replies: seq<Reply>) returns (outcome: CommitOutcome)
    ensures outcome == CommitResult(Requests(commands), connect, replies)
  {
    if connect == ConnectPermanentError {
      return Fatal([]);
    }
    if connect == ConnectOsError {
      return Abandoned([]);
    }
    var calls: seq<Call> := [];
    var i := 0;
    while i < |commands|
      invariant 0 <= i <= |commands|
      invariant forall m :: 0 <= m < |calls| ==> !Aborts(ReplyAt(replies, m))
      invariant |calls| == |Requests(commands[..i])|
      invariant calls == CallsUpTo(Requests(commands[..i]), replies, |calls|)
    {
      var cmd := commands[i];
      var parts := Commands.Tokens(cmd);
      RequestsStep(commands, i);
      if |parts| == 3 && (parts[0] == "add" || parts[0] == "remove") {
        var request := Request(if parts[0] == "add" then Add else Remove, parts[2]);
        var reply := ReplyAt(replies, |calls|);
        if reply.PermanentError? || reply.OsError? {
          AbortEnds(commands, i, replies, calls);
          return if reply.PermanentError? then Fatal(calls) else Abandoned(calls);
        }
        CallsStep(Requests(commands[..i]), request, replies);
        calls := calls + [Call(request, Classify(reply))];
      }
      i := i + 1;
    }
    assert commands[..i] == commands;
    outcome := Completed(calls);
  }

  /** One more command adds its call, if the filter admits it. */
  lemma RequestsStep(cmds: seq<string>, i: nat)
    requires i < |cmds|
    ensures Requests(cmds[..i + 1]) == Requests(cmds[..i]) + (if Commands.Dispatchable(cmds[i]) then [RequestOf(cmds[i])] else [])
  {
    assert cmds[..i + 1][..i] == cmds[..i];
  }

  lemma CallsStep(reqs: seq<Request>, r: Request, replies: seq<Reply>)
    requires forall m :: 0 <= m <= |reqs| ==> !Aborts(ReplyAt(replies, m))
    ensures CallsUpTo(reqs + [r], replies, |reqs| + 1) == CallsUpTo(reqs, replies, |reqs|) + [Call(r, Classify(ReplyAt(replies, |reqs|)))]
  {
  }

  /** The first call whose answer aborts ends the commit with the calls before it. */
  lemma AbortEnds(cmds: seq<string>, i: nat, replies: seq<Reply>, calls: seq<Call>)
    requires i < |cmds| && Commands.Dispatchable(cmds[i])
    requires |calls| == |Requests(cmds[..i])|
    requires forall m :: 0 <= m < |calls| ==> !Aborts(ReplyAt(replies, m))
    requires calls == CallsUpTo(Requests(cmds[..i]), replies, |calls|)
    requires Aborts(ReplyAt(replies, |calls|))
    ensures CommitResult(Requests(cmds), Connected, replies)
      == if ReplyAt(replies, |calls|).PermanentError? then Fatal(calls) else Abandoned(calls)
  {
    RequestsStep(cmds, i);
    RequestsPrefix(cmds, i + 1);
    var all := Requests(cmds);
    assert |all| > |calls| && all[..|calls|] == Requests(cmds[..i]);
    FirstAbortAt(replies, |calls|, |all|);
    CallsPrefix(Requests(cmds[..i]), all, replies, |calls|);
  }

  lemma {:induction false} FirstAbortAt(replies: seq<Reply>, k: nat, n: nat)
    requires k < n
    requires forall m :: 0 <= m < k ==> !Aborts(ReplyAt(replies, m))
    requires Aborts(ReplyAt(replies, k))
    ensures FirstAbort(replies, n) == k
  {
  }

  // ---------------------------------------------------------------- lemmas

  lemma {:induction false} RequestsConcat(a: seq<string>, b: seq<string>)
    ensures Requests(a + b) == Requests(a) + Requests(b)
    decreases |b|
  {
    if b == [] {
      assert a + b == a;
    } else {
      var b' := b[..|b| - 1];
      assert (a + b)[..|a + b| - 1] == a + b';
      RequestsConcat(a, b');
    }
  }

  /** The calls of a prefix of the batch are a prefix of the batch's calls. */
  lemma RequestsPrefix(cmds: seq<string>, i: nat)
    requires i <= |cmds|
    ensures Requests(cmds) == Requests(cmds[..i]) + Requests(cmds[i..])
  {
    assert cmds == cmds[..i] + cmds[i..];
    RequestsConcat(cmds[..i], cmds[i..]);
  }

  lemma CallsPrefix(short: seq<Request>, long: seq<Request>, replies: seq<Reply>, k: nat)
    requires k <= |short| <= |long| && short == long[..|short|]
    requires forall i :: 0 <= i < k ==> !Aborts(ReplyAt(replies, i))
    ensures CallsUpTo(short, replies, k) == CallsUpTo(long, replies, k)
  {
  }

  /** Failures that the inner handler absorbs ("already have such entry",
      "entry not found", any other API error) never stop the loop: every
      admitted command is sent, in order. */
  lemma AbsorbedFailuresContinue(reqs: seq<Request>, replies: seq<Reply>)
    requires forall i :: 0 <= i < |reqs| ==> !Aborts(ReplyAt(replies, i))
    ensures CommitResult(reqs, Connected, replies).Completed?
    ensures var calls := CommitResult(reqs, Connected, replies).calls;
            |calls| == |reqs| && forall i :: 0 <= i < |reqs| ==> calls[i].request == reqs[i]
  {
  }

  /** `commit` empties the buffer exactly when the connection opened and no
      call of the batch met an `OSError` or a permanent error; the tracked
      addresses are never touched. */
  lemma CommitClearsOnlyWithoutAbort(t: Tracked, router: Router)
    ensures CommitTracked(t, router).1
            == if router.connect == Connected
                  && forall i :: 0 <= i < |Requests(t.commands)| ==> !Aborts(ReplyAt(router.replies, i))
               then t.(commands := [])
               else t
  {
    var n := |Requests(t.commands)|;
    if router.connect == Connected && exists i :: 0 <= i < n && Aborts(ReplyAt(router.replies, i)) {
      var i :| 0 <= i < n && Aborts(ReplyAt(router.replies, i));
      assert FirstAbort(router.replies, n) <= i;
    }
  }

  /** The commit sends nothing but admitted commands: an add command of a
      checked address becomes an add call, and set creation, flush and
      sentynel2.py's address-list removals ask for nothing. */
  lemma RequestsOfAddLines(name: string, ips: seq<string>)
    requires Commands.IsWord(name)
    requires forall i :: 0 <= i < |ips| ==> Ipv4.IsIpv4(ips[i])
    ensures Requests(Commands.AddLines(name, ips)) == seq(|ips|, i requires 0 <= i < |ips| => Request(Add, ips[i]))
    decreases |ips|
  {
    var lines := Commands.AddLines(name, ips);
    if ips != [] {
      var init := ips[..|ips| - 1];
      assert lines[..|lines| - 1] == Commands.AddLines(name, init);
      RequestsOfAddLines(name, init);
      Commands.AddLineDispatched(name, ips[|ips| - 1]);
    }
  }

  lemma {:induction false} RequestsOfRemoveLines(name: string, ips: seq<string>)
    requires Commands.IsWord(name)
    requires forall i :: 0 <= i < |ips| ==> Ipv4.IsIpv4(ips[i])
    ensures Requests(Commands.RemoveLines(name, ips)) == []
    decreases |ips|
  {
    var lines := Commands.RemoveLines(name, ips);
    if ips != [] {
      var init := ips[..|ips| - 1];
      assert lines[..|lines| - 1] == Commands.RemoveLines(name, init);
      RequestsOfRemoveLines(name, init);
      Commands.AddressListRemoveNotDispatched(name, ips[|ips| - 1]);
    }
  }

  lemma RequestsOfReset(name: string)
    ensures Requests([Commands.CreateSizedLine(name), Commands.FlushLine(name)]) == []
  {
    Commands.ResetLinesNotDispatched(name);
    var cmds := [Commands.CreateSizedLine(name), Commands.FlushLine(name)];
    assert cmds[..|cmds| - 1] == [Commands.CreateSizedLine(name)];
    assert cmds[..|cmds| - 1][..0] == [];
    assert Requests(cmds[..|cmds| - 1]) == Requests([]);
    assert Requests(cmds) == Requests(cmds[..|cmds| - 1]);
  }
}
