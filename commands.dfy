/**
 * The text commands the client buffers, and the whitespace tokenizer
 * (Python's argument-less `str.split()`) that the router-backed copies use to
 * decide which buffered commands they actually send.
 */
module Commands {
  import Ipv4

  /** Python's `str.isspace` for one character: the characters argument-less
      `str.split()` separates on. */
  predicate IsSpace(c: char) {
    var n := c as int;
    || n == 0x20 || 0x09 <= n <= 0x0D || 0x1C <= n <= 0x1F || n == 0x85 || n == 0xA0
    || n == 0x1680 || 0x2000 <= n <= 0x200A || n == 0x2028 || n == 0x2029
    || n == 0x202F || n == 0x205F || n == 0x3000
  }

  /** A non-empty run of non-space characters: one token. */
  predicate IsWord(w: string) {
    w != [] && forall i :: 0 <= i < |w| ==> !IsSpace(w[i])
  }

  /** The length of the leading run of non-space characters. */
  function WordLength(s: string): (n: nat)
    ensures n <= |s|
    ensures forall i :: 0 <= i < n ==> !IsSpace(s[i])
    ensures n < |s| ==> IsSpace(s[n])
    ensures s != [] && !IsSpace(s[0]) ==> n >= 1
  {
    if s == [] || IsSpace(s[0]) then 0 else 1 + WordLength(s[1..])
  }

  /** `s.split()`: the maximal runs of non-space characters, in order. */
  function Tokens(s: string): seq<string>
    decreases |s|
  {
    if s == [] then []
    else if IsSpace(s[0]) then Tokens(s[1..])
    else
      var n := WordLength(s);
      [s[..n]] + Tokens(s[n..])
  }

  // The commands, exactly as each copy formats them.

  /** `'add {} {}\n'.format(name, ip)` (all copies). */
  function AddLine(name: string, ip: string): string {
    "add " + name + " " + ip + "\n"
  }

  /** `'del {} {}\n'.format(name, ip)` (sentinel.py). */
  function DelLine(name: string, ip: string): string {
    "del " + name + " " + ip + "\n"
  }

  /** `'address-list remove address={} list={}\n'.format(ip, name)` (sentynel2.py). */
  function AddressListRemoveLine(name: string, ip: string): string {
    "address-list remove address=" + ip + " list=" + name + "\n"
  }

  /** `'create {} hash:ip -exist\n'.format(name)` (sentinel.py). */
  function CreateExistLine(name: string): string {
    "create " + name + " hash:ip -exist\n"
  }

  /** `'create {} hash:ip family inet hashsize 1024 maxelem 65536\n'.format(name)`
      (sentynel2.py, sentynel.py). */
  function CreateSizedLine(name: string): string {
    "create " + name + " hash:ip family inet hashsize 1024 maxelem 65536\n"
  }

  /** `'flush {}\n'.format(name)` (all copies). */
  function FlushLine(name: string): string {
    "flush " + name + "\n"
  }

  /** One add command per address, in order. */
  function AddLines(name: string, ips: seq<string>): (r: seq<string>)
    ensures |r| == |ips|
    ensures forall i :: 0 <= i < |ips| ==> r[i] == AddLine(name, ips[i])
  {
    seq(|ips|, i requires 0 <= i < |ips| => AddLine(name, ips[i]))
  }

  /** One address-list removal per address, in order. */
  function RemoveLines(name: string, ips: seq<string>): (r: seq<string>)
    ensures |r| == |ips|
    ensures forall i :: 0 <= i < |ips| ==> r[i] == AddressListRemoveLine(name, ips[i])
  {
    seq(|ips|, i requires 0 <= i < |ips| => AddressListRemoveLine(name, ips[i]))
  }

  /** The commit filter of the router-backed copies: exactly three tokens, the
      first of them `add` or `remove`. */
  predicate Dispatchable(cmd: string) {
    var p := Tokens(cmd);
    |p| == 3 && (p[0] == "add" || p[0] == "remove")
  }

  // ---------------------------------------------------------------- lemmas

  lemma AddLinesConcat(name: string, a: seq<string>, b: seq<string>)
    ensures AddLines(name, a + b) == AddLines(name, a) + AddLines(name, b)
  {
    assert forall i :: 0 <= i < |a + b| ==> (a + b)[i] == if i < |a| then a[i] else b[i - |a|];
  }

  lemma RemoveLinesConcat(name: string, a: seq<string>, b: seq<string>)
    ensures RemoveLines(name, a + b) == RemoveLines(name, a) + RemoveLines(name, b)
  {
    assert forall i :: 0 <= i < |a + b| ==> (a + b)[i] == if i < |a| then a[i] else b[i - |a|];
  }

  lemma RemoveLinesSnoc(name: string, ips: seq<string>, ip: string)
    ensures RemoveLines(name, ips + [ip]) == RemoveLines(name, ips) + [AddressListRemoveLine(name, ip)]
  {
    RemoveLinesConcat(name, ips, [ip]);
  }

  lemma {:induction false} WordLengthOfWord(w: string, rest: string)
    requires IsWord(w) && (rest == [] || IsSpace(rest[0]))
    ensures WordLength(w + rest) == |w|
    decreases |w|
  {
    if |w| > 1 {
      assert (w + rest)[1..] == w[1..] + rest;
      WordLengthOfWord(w[1..], rest);
    } else {
      assert (w + rest)[1..] == rest;
    }
  }

  /** A leading word is the first token. */
  lemma TokensOfWord(w: string, rest: string)
    requires IsWord(w) && (rest == [] || IsSpace(rest[0]))
    ensures Tokens(w + rest) == [w] + Tokens(rest)
  {
    WordLengthOfWord(w, rest);
    assert (w + rest)[..|w|] == w;
    assert (w + rest)[|w|..] == rest;
  }

  /** A word followed by a space is the first token; the space is skipped. */
  lemma TokensWordSpace(w: string, rest: string)
    requires IsWord(w)
    ensures Tokens(w + " " + rest) == [w] + Tokens(rest)
  {
    assert w + " " + rest == w + (" " + rest);
    TokensOfWord(w, " " + rest);
    assert (" " + rest)[1..] == rest;
  }

  /** A word followed by the final newline is the last token. */
  lemma TokensWordNewline(w: string)
    requires IsWord(w)
    ensures Tokens(w + "\n") == [w]
  {
    TokensOfWord(w, "\n");
    assert Tokens("\n") == Tokens("\n"[1..]);
  }

  lemma Ipv4IsWord(ip: string)
    requires Ipv4.IsIpv4(ip)
    ensures IsWord(ip)
  {
    Ipv4.Ipv4Characters(ip);
  }

  /** An add command of a single-word set name and a checked address splits
      into `add`, the name and the address: the commit filter sends it. */
  lemma AddLineDispatched(name: string, ip: string)
    requires IsWord(name) && Ipv4.IsIpv4(ip)
    ensures Tokens(AddLine(name, ip)) == ["add", name, ip]
    ensures Dispatchable(AddLine(name, ip))
  {
    Ipv4IsWord(ip);
    assert AddLine(name, ip) == "add" + " " + (name + " " + (ip + "\n"));
    TokensWordSpace("add", name + " " + (ip + "\n"));
    TokensWordSpace(name, ip + "\n");
    TokensWordNewline(ip);
  }

  /** sentinel.py's deletion command has three tokens but starts with `del`. */
  lemma DelLineNotDispatched(name: string, ip: string)
    requires IsWord(name) && Ipv4.IsIpv4(ip)
    ensures Tokens(DelLine(name, ip)) == ["del", name, ip]
    ensures !Dispatchable(DelLine(name, ip))
  {
    Ipv4IsWord(ip);
    assert DelLine(name, ip) == "del" + " " + (name + " " + (ip + "\n"));
    TokensWordSpace("del", name + " " + (ip + "\n"));
    TokensWordSpace(name, ip + "\n");
    TokensWordNewline(ip);
  }

  /** sentynel2.py's removal command starts with `address-list` and has four
      tokens: the commit filter never sends it. */
  lemma AddressListRemoveNotDispatched(name: string, ip: string)
    requires IsWord(name) && Ipv4.IsIpv4(ip)
    ensures Tokens(AddressListRemoveLine(name, ip)) == ["address-list", "remove", "address=" + ip, "list=" + name]
    ensures !Dispatchable(AddressListRemoveLine(name, ip))
  {
    Ipv4IsWord(ip);
    var a, l := "address=" + ip, "list=" + name;
    WordConcat("address=", ip);
    WordConcat("list=", name);
    AddressListRemoveShape(name, ip);
    assert IsWord("address-list") && IsWord("remove");
    TokensFourWords("address-list", "remove", a, l);
  }

  lemma TokensFourWords(w1: string, w2: string, w3: string, w4: string)
    requires IsWord(w1) && IsWord(w2) && IsWord(w3) && IsWord(w4)
    ensures Tokens(w1 + " " + (w2 + " " + (w3 + " " + (w4 + "\n")))) == [w1, w2, w3, w4]
  {
    TokensWordNewline(w4);
    TokensWordSpace(w3, w4 + "\n");
    TokensWordSpace(w2, w3 + " " + (w4 + "\n"));
    TokensWordSpace(w1, w2 + " " + (w3 + " " + (w4 + "\n")));
  }

  lemma WordConcat(p: string, w: string)
    requires IsWord(p) && IsWord(w)
    ensures IsWord(p + w)
  {
    forall i | 0 <= i < |p + w| ensures !IsSpace((p + w)[i]) {
      if i >= |p| { assert (p + w)[i] == w[i - |p|]; }
    }
  }

  lemma AddressListRemoveShape(name: string, ip: string)
    ensures AddressListRemoveLine(name, ip)
      == "address-list" + " " + ("remove" + " " + (("address=" + ip) + " " + (("list=" + name) + "\n")))
  {
    assert "address-list remove address=" == "address-list" + " " + "remove" + " " + "address=";
    assert " list=" == " " + "list=";
  }

  /** The set-creation and flush commands are never sent either: their first
      token is `create` or `flush`. */
  lemma ResetLinesNotDispatched(name: string)
    ensures Tokens(CreateExistLine(name))[..1] == ["create"]
    ensures Tokens(CreateSizedLine(name))[..1] == ["create"]
    ensures Tokens(FlushLine(name))[..1] == ["flush"]
    ensures !Dispatchable(CreateExistLine(name)) && !Dispatchable(CreateSizedLine(name)) && !Dispatchable(FlushLine(name))
  {
    CreateExistShape(name);
    LeadingWordNotDispatched("create", name + " hash:ip -exist\n");
    CreateSizedShape(name);
    LeadingWordNotDispatched("create", name + " hash:ip family inet hashsize 1024 maxelem 65536\n");
    FlushShape(name);
    LeadingWordNotDispatched("flush", name + "\n");
  }

  lemma CreateExistShape(name: string)
    ensures CreateExistLine(name) == "create" + " " + (name + " hash:ip -exist\n")
  {
  }

  lemma CreateSizedShape(name: string)
    ensures CreateSizedLine(name) == "create" + " " + (name + " hash:ip family inet hashsize 1024 maxelem 65536\n")
  {
  }

  lemma FlushShape(name: string)
    ensures FlushLine(name) == "flush" + " " + (name + "\n")
  {
  }

  /** A command whose first word is neither `add` nor `remove` is not sent. */
  lemma LeadingWordNotDispatched(w: string, rest: string)
    requires IsWord(w) && w != "add" && w != "remove"
    ensures Tokens(w + " " + rest)[..1] == [w]
    ensures !Dispatchable(w + " " + rest)
  {
    TokensWordSpace(w, rest);
  }

  /** A set name that is not a single word makes even add commands unsendable:
      with an empty name the add command has only two tokens. */
  lemma EmptyNameAddNotDispatched(ip: string)
    requires Ipv4.IsIpv4(ip)
    ensures Tokens(AddLine("", ip)) == ["add", ip]
    ensures !Dispatchable(AddLine("", ip))
  {
    Ipv4IsWord(ip);
    assert AddLine("", ip) == "add" + " " + (" " + (ip + "\n"));
    TokensWordSpace("add", " " + (ip + "\n"));
    assert (" " + (ip + "\n"))[1..] == ip + "\n";
    assert Tokens(" " + (ip + "\n")) == Tokens(ip + "\n");
    TokensWordNewline(ip);
  }
}
