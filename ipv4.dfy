/**
 * The dotted-quad check every client copy applies before it buffers an
 * address: `RE_IPV4` used with `fullmatch`.  A group is `25[0-5]`,
 * `2[0-4][0-9]` or `[01]?[0-9][0-9]?`; four groups are joined by dots.
 */
module Ipv4 {

  predicate IsDigit(c: char) {
    '0' <= c <= '9'
  }

  predicate AllDigits(s: string) {
    forall i :: 0 <= i < |s| ==> IsDigit(s[i])
  }

  /** The decimal value of a string of digits. */
  function DigitsValue(s: string): nat
    requires AllDigits(s)
  {
    if s == [] then 0 else DigitsValue(s[..|s| - 1]) * 10 + (s[|s| - 1] as int - '0' as int)
  }

  /** One group as the regular expression spells it, alternative by alternative. */
  predicate GroupPattern(g: string) {
    || (|g| == 3 && g[0] == '2' && g[1] == '5' && '0' <= g[2] <= '5')
    || (|g| == 3 && g[0] == '2' && '0' <= g[1] <= '4' && IsDigit(g[2]))
    || OptionalLeadPattern(g)
  }

  /** `[01]?[0-9][0-9]?`: an optional 0 or 1, a digit, an optional digit. */
  predicate OptionalLeadPattern(g: string) {
    || (|g| == 1 && IsDigit(g[0]))
    || (|g| == 2 && IsDigit(g[0]) && IsDigit(g[1]))
    || (|g| == 2 && (g[0] == '0' || g[0] == '1') && IsDigit(g[1]))
    || (|g| == 3 && (g[0] == '0' || g[0] == '1') && IsDigit(g[1]) && IsDigit(g[2]))
  }

  /** The intended meaning of a group: one to three ASCII digits whose value
      is at most 255 (leading zeros allowed). */
  predicate IsOctet(g: string) {
    1 <= |g| <= 3 && AllDigits(g) && DigitsValue(g) <= 255
  }

  /** Splits at every occurrence of `sep`, keeping empty pieces (Python's `str.split(sep)`). */
  function Split(s: string, sep: char): (r: seq<string>)
    ensures |r| >= 1
    ensures forall i, j :: 0 <= i < |r| && 0 <= j < |r[i]| ==> r[i][j] != sep
    decreases |s|
  {
    if s == [] then [""]
    else
      var rest := Split(s[1..], sep);
      if s[0] == sep then [""] + rest else [[s[0]] + rest[0]] + rest[1..]
  }

  function Join(parts: seq<string>, sep: char): string
    requires |parts| >= 1
  {
    if |parts| == 1 then parts[0] else parts[0] + [sep] + Join(parts[1..], sep)
  }

  /** The whole string matches the regular expression. */
  predicate IsIpv4(s: string) {
    var g := Split(s, '.');
    |g| == 4 && forall i :: 0 <= i < 4 ==> GroupPattern(g[i])
  }

  /** Every element of `s` passes the check.  The quantifier fires on
      `IsIpv4(a)` terms only, not on every membership test of `s`. */
  predicate AllIpv4(s: set<string>) {
    forall a {:trigger IsIpv4(a)} :: a in s ==> IsIpv4(a)
  }

  /** Keeps the entries that pass the check, in their order. */
  function ValidOnly(ips: seq<string>): (r: seq<string>)
    ensures forall i :: 0 <= i < |r| ==> IsIpv4(r[i])
  {
    if ips == [] then []
    else ValidOnly(ips[..|ips| - 1]) + (if IsIpv4(ips[|ips| - 1]) then [ips[|ips| - 1]] else [])
  }

  /** The set of entries that pass the check. */
  function ValidSet(ips: seq<string>): set<string> {
    set ip | ip in ips && IsIpv4(ip)
  }

  // ---------------------------------------------------------------- lemmas

  lemma DigitsValue3(g: string)
    requires |g| == 3 && AllDigits(g)
    ensures DigitsValue(g) == (g[0] as int - '0' as int) * 100 + (g[1] as int - '0' as int) * 10 + (g[2] as int - '0' as int)
  {
    var d0, d1, d2 := g[0] as int - '0' as int, g[1] as int - '0' as int, g[2] as int - '0' as int;
    assert g[..2][..1] == g[..1] == [g[0]];
    assert DigitsValue(g[..1]) == d0 by { assert g[..1][..0] == []; }
    assert DigitsValue(g[..2]) == d0 * 10 + d1;
  }

  lemma DigitsValue2(g: string)
    requires |g| == 2 && AllDigits(g)
    ensures DigitsValue(g) == (g[0] as int - '0' as int) * 10 + (g[1] as int - '0' as int)
  {
    assert g[..1] == [g[0]];
    assert DigitsValue(g[..1]) == g[0] as int - '0' as int by { assert g[..1][..0] == []; }
  }

  lemma DigitsValue1(g: string)
    requires |g| == 1 && AllDigits(g)
    ensures DigitsValue(g) == g[0] as int - '0' as int
  {
    assert g[..0] == [];
  }

  /** The regular expression's alternation accepts exactly the octets. */
  lemma GroupPatternIsOctet(g: string)
    ensures GroupPattern(g) <==> IsOctet(g)
  {
    if |g| == 1 && AllDigits(g) {
      DigitsValue1(g);
    }
    if |g| == 2 && AllDigits(g) {
      DigitsValue2(g);
    }
    if |g| == 3 && AllDigits(g) {
      DigitsValue3(g);
    }
  }

  lemma {:induction false} JoinSplit(s: string, sep: char)
    ensures Join(Split(s, sep), sep) == s
    decreases |s|
  {
    if s != [] {
      var rest := Split(s[1..], sep);
      JoinSplit(s[1..], sep);
      if s[0] == sep {
        assert Split(s, sep) == [""] + rest;
        assert (["" ] + rest)[1..] == rest;
      } else {
        var r := [[s[0]] + rest[0]] + rest[1..];
        assert Split(s, sep) == r;
        if |rest| == 1 {
        } else {
          assert r[1..] == rest[1..];
          assert Join(rest, sep) == rest[0] + [sep] + Join(rest[1..], sep);
        }
      }
    }
  }

  lemma {:induction false} SplitJoin(parts: seq<string>, sep: char)
    requires |parts| >= 1
    requires forall i, j :: 0 <= i < |parts| && 0 <= j < |parts[i]| ==> parts[i][j] != sep
    ensures Split(Join(parts, sep), sep) == parts
    decreases |parts|, |parts[0]|
  {
    if |parts| == 1 {
      SplitNoSep(parts[0], sep);
    } else if parts[0] == [] {
      var s := Join(parts, sep);
      assert s == [sep] + Join(parts[1..], sep);
      assert s[1..] == Join(parts[1..], sep);
      SplitJoin(parts[1..], sep);
      assert parts == [""] + parts[1..];
    } else {
      var p0 := parts[0];
      var shorter := [p0[1..]] + parts[1..];
      var s := Join(parts, sep);
      assert Join(shorter, sep) == p0[1..] + [sep] + Join(parts[1..], sep);
      assert s[1..] == Join(shorter, sep);
      SplitJoin(shorter, sep);
      assert shorter[0] == p0[1..] && shorter[1..] == parts[1..];
      assert [p0[0]] + p0[1..] == p0;
      assert parts == [p0] + parts[1..];
    }
  }

  lemma {:induction false} SplitNoSep(s: string, sep: char)
    requires forall j :: 0 <= j < |s| ==> s[j] != sep
    ensures Split(s, sep) == [s]
    decreases |s|
  {
    if s != [] {
      SplitNoSep(s[1..], sep);
      assert [s[0]] + s[1..] == s;
    }
  }

  /** Every string of four octets joined by dots passes the check ... */
  lemma OctetsAreIpv4(gs: seq<string>)
    requires |gs| == 4 && forall i :: 0 <= i < 4 ==> IsOctet(gs[i])
    ensures IsIpv4(Join(gs, '.'))
  {
    SplitJoin(gs, '.');
    forall i | 0 <= i < 4 ensures GroupPattern(gs[i]) { GroupPatternIsOctet(gs[i]); }
  }

  /** ... and every string that passes it is four octets joined by dots. */
  lemma Ipv4IsOctets(s: string)
    requires IsIpv4(s)
    ensures var g := Split(s, '.'); |g| == 4 && Join(g, '.') == s && forall i :: 0 <= i < 4 ==> IsOctet(g[i])
  {
    JoinSplit(s, '.');
    var g := Split(s, '.');
    forall i | 0 <= i < 4 ensures IsOctet(g[i]) { GroupPatternIsOctet(g[i]); }
  }

  /** An accepted address is made of digits and dots only: it is not empty
      and holds no white space. */
  lemma Ipv4Characters(s: string)
    requires IsIpv4(s)
    ensures 7 <= |s| <= 15
    ensures forall i :: 0 <= i < |s| ==> IsDigit(s[i]) || s[i] == '.'
  {
    Ipv4IsOctets(s);
    var g := Split(s, '.');
    assert forall i :: 0 <= i < 4 ==> 1 <= |g[i]| <= 3;
    assert Join(g[2..], '.') == g[2] + ['.'] + g[3] by {
      assert g[2..][1..] == [g[3]];
    }
    assert Join(g[1..], '.') == g[1] + ['.'] + Join(g[2..], '.') by {
      assert g[1..][1..] == g[2..];
    }
    assert s == g[0] + ['.'] + (g[1] + ['.'] + (g[2] + ['.'] + g[3]));
    forall i | 0 <= i < |s| ensures IsDigit(s[i]) || s[i] == '.' {
      if i < |g[0]| {
        assert s[i] == g[0][i];
      } else if i == |g[0]| {
      } else if i < |g[0]| + 1 + |g[1]| {
        assert s[i] == g[1][i - |g[0]| - 1];
      } else if i == |g[0]| + 1 + |g[1]| {
      } else if i < |g[0]| + |g[1]| + 2 + |g[2]| {
        assert s[i] == g[2][i - |g[0]| - |g[1]| - 2];
      } else if i == |g[0]| + |g[1]| + 2 + |g[2]| {
      } else {
        assert s[i] == g[3][i - |g[0]| - |g[1]| - |g[2]| - 3];
      }
    }
  }

  /** Filtering keeps exactly the entries that pass the check. */
  lemma {:induction false} ValidOnlyMembers(ips: seq<string>)
    ensures forall x :: x in ValidOnly(ips) <==> x in ips && IsIpv4(x)
  {
    if ips != [] {
      var init := ips[..|ips| - 1];
      ValidOnlyMembers(init);
      assert ips == init + [ips[|ips| - 1]];
    }
  }

  lemma ValidOnlySet(ips: seq<string>)
    ensures (set x | x in ValidOnly(ips)) == ValidSet(ips)
  {
    ValidOnlyMembers(ips);
  }

  lemma ValidSetSnoc(ips: seq<string>, x: string)
    ensures ValidSet(ips + [x]) == ValidSet(ips) + (if IsIpv4(x) then {x} else {})
  {
    assert forall y :: y in ips + [x] <==> y in ips || y == x;
  }
}
