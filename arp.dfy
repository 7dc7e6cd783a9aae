/** `isDeviceInArpTable` (`src/utils/network/device/is-device-in-arp-table.ts`):
    the ARP table entry of an address is read with `arp`, and the address is
    known when the output holds a MAC address. Running the command is an
    oracle: the output it prints, or the error it fails with. */
module Arp {
  import opened Wrappers

  /** `arp -a <ip>` on Windows, `arp -n <ip>` elsewhere. */
  function ArpCommand(isWindows: bool, ip: string): string
  {
    (if isWindows then "arp -a " else "arp -n ") + ip
  }

  predicate IsHex(c: char)
  {
    '0' <= c <= '9' || 'a' <= c <= 'f' || 'A' <= c <= 'F'
  }

  predicate IsSeparator(c: char)
  {
    c == ':' || c == '-'
  }

  /** The pattern `([0-9A-Fa-f]{1,2}[:-]){k}[0-9A-Fa-f]{1,2}` matches the
      text from position `i` on: `k` groups of one or two hex digits, each
      followed by a separator, and one last group. For a test, one digit of
      the last group is enough. */
  predicate MacAt(s: string, i: nat, k: nat)
    decreases k
  {
    if k == 0 then i < |s| && IsHex(s[i])
    else
      (i + 1 < |s| && IsHex(s[i]) && IsSeparator(s[i + 1]) && MacAt(s, i + 2, k - 1)) ||
      (i + 2 < |s| && IsHex(s[i]) && IsHex(s[i + 1]) && IsSeparator(s[i + 2]) && MacAt(s, i + 3, k - 1))
  }

  /** The regular expression `/([0-9A-Fa-f]{1,2}[:-]){5}([0-9A-Fa-f]{1,2})/`
      matches somewhere in the text. */
  predicate HasMac(s: string)
  {
    exists i: nat :: i < |s| && MacAt(s, i, 5)
  }

  /** `regex.test(stdout)`: the match is tried at every position from `i` on,
      left to right, until one succeeds. */
  function TestFrom(s: string, i: nat): (r: bool)
    ensures r <==> exists j: nat :: i <= j < |s| && MacAt(s, j, 5)
    decreases |s| - i
  {
    if i >= |s| then false
    else
      var r := MacAt(s, i, 5) || TestFrom(s, i + 1);
      assert r ==> exists j: nat :: i <= j < |s| && MacAt(s, j, 5) by {
        if MacAt(s, i, 5) {
          assert i <= i < |s| && MacAt(s, i, 5);
        }
      }
      assert (exists j: nat :: i <= j < |s| && MacAt(s, j, 5)) ==> r by {
        if j: nat :| i <= j < |s| && MacAt(s, j, 5) {
          if j != i {
            assert i + 1 <= j < |s| && MacAt(s, j, 5);
          }
        }
      }
      r
  }

  /** `isDeviceInArpTable`: an error of the command propagates; otherwise the
      answer is whether its output holds a MAC address. */
  function IsDeviceInArpTable(isWindows: bool, ip: string, exec: string -> Result<string>): Result<bool>
  {
    match exec(ArpCommand(isWindows, ip))
    case Failure(e) => Failure(e)
    case Success(stdout) => Success(TestFrom(stdout, 0))
  }

  // ---------------------------------------------------------------------
  // The pattern as text: six groups joined by separators
  // ---------------------------------------------------------------------

  /** One or two hex digits. */
  predicate IsGroup(g: string)
  {
    1 <= |g| <= 2 && forall j :: 0 <= j < |g| ==> IsHex(g[j])
  }

  /** `groups[0] seps[0] groups[1] ... groups[k]`. */
  function MacText(groups: seq<string>, seps: seq<char>): string
    requires |groups| == |seps| + 1
    decreases |seps|
  {
    if seps == [] then groups[0] else groups[0] + [seps[0]] + MacText(groups[1..], seps[1..])
  }

  predicate WellFormedMac(groups: seq<string>, seps: seq<char>)
  {
    |groups| == |seps| + 1 &&
    (forall j :: 0 <= j < |groups| ==> IsGroup(groups[j])) &&
    (forall j :: 0 <= j < |seps| ==> IsSeparator(seps[j]))
  }

  /** `MacText(groups, seps)` is written in `s` from position `i` on. */
  predicate MacTextAt(s: string, i: nat, groups: seq<string>, seps: seq<char>)
  {
    WellFormedMac(groups, seps) &&
    i + |MacText(groups, seps)| <= |s| && s[i..i + |MacText(groups, seps)|] == MacText(groups, seps)
  }

  /** A text of one group, a separator and more text, written at `i`. */
  lemma ConsMacText(s: string, i: nat, g: string, gs: seq<string>, ss: seq<char>)
    requires IsGroup(g) && i + |g| < |s| && s[i..i + |g|] == g && IsSeparator(s[i + |g|])
    requires MacTextAt(s, i + |g| + 1, gs, ss)
    ensures MacTextAt(s, i, [g] + gs, [s[i + |g|]] + ss)
  {
    var groups, seps := [g] + gs, [s[i + |g|]] + ss;
    assert groups[1..] == gs && seps[1..] == ss;
    var rest := MacText(gs, ss);
    var t := MacText(groups, seps);
    assert t == g + [s[i + |g|]] + rest;
    assert s[i..i + |t|] == s[i..i + |g|] + [s[i + |g|]] + s[i + |g| + 1..i + |t|];
    forall j | 0 <= j < |groups|
      ensures IsGroup(groups[j])
    {
      if j > 0 {
        assert groups[j] == gs[j - 1];
      }
    }
    forall j | 0 <= j < |seps|
      ensures IsSeparator(seps[j])
    {
      if j > 0 {
        assert seps[j] == ss[j - 1];
      }
    }
  }

  /** Dropping the first group and separator keeps the rest well formed. */
  lemma WellFormedTail(groups: seq<string>, seps: seq<char>)
    requires WellFormedMac(groups, seps) && seps != []
    ensures WellFormedMac(groups[1..], seps[1..])
  {
    forall j | 0 <= j < |groups| - 1
      ensures IsGroup(groups[1..][j])
    {
      assert IsGroup(groups[j + 1]);
    }
    forall j | 0 <= j < |seps| - 1
      ensures IsSeparator(seps[1..][j])
    {
      assert IsSeparator(seps[j + 1]);
    }
  }

  /** Any groups and separators written out at position `i` match there. */
  lemma {:induction false} MacTextMatches(s: string, i: nat, groups: seq<string>, seps: seq<char>)
    requires MacTextAt(s, i, groups, seps)
    ensures MacAt(s, i, |seps|)
    decreases |seps|
  {
    var t := MacText(groups, seps);
    assert IsGroup(groups[0]);
    assert s[i] == t[0];
    if seps != [] {
      var g := groups[0];
      var rest := MacText(groups[1..], seps[1..]);
      assert t == g + [seps[0]] + rest;
      WellFormedTail(groups, seps);
      var n := |g| + 1;
      assert s[i + n..i + n + |rest|] == rest by {
        assert s[i + n..i + n + |rest|] == t[n..];
        assert t[n..] == rest;
      }
      MacTextMatches(s, i + n, groups[1..], seps[1..]);
      assert IsHex(g[0]);
      assert s[i + |g|] == t[|g|] == seps[0];
      if |g| == 2 {
        assert IsHex(g[1]);
        assert s[i + 1] == t[1] == g[1];
      }
    }
  }

  /** A match at position `i` is a MAC address written out there. */
  lemma {:induction false} MatchIsMacText(s: string, i: nat, k: nat) returns (groups: seq<string>, seps: seq<char>)
    requires MacAt(s, i, k)
    ensures MacTextAt(s, i, groups, seps) && |seps| == k
    decreases k
  {
    if k == 0 {
      groups, seps := [s[i..i + 1]], [];
      assert IsGroup(groups[0]);
    } else {
      var n := if i + 1 < |s| && IsHex(s[i]) && IsSeparator(s[i + 1]) && MacAt(s, i + 2, k - 1) then 1 else 2;
      var g := s[i..i + n];
      assert IsGroup(g);
      var gs, ss := MatchIsMacText(s, i + n + 1, k - 1);
      ConsMacText(s, i, g, gs, ss);
      groups, seps := [g] + gs, [s[i + n]] + ss;
    }
  }

  /** The output holds a MAC address exactly when six groups of one or two
      hex digits, joined by five separators, appear in it. */
  lemma HasMacIff(s: string)
    ensures HasMac(s) <==> exists i: nat, groups, seps :: |seps| == 5 && MacTextAt(s, i, groups, seps)
  {
    if HasMac(s) {
      var i :| 0 <= i < |s| && MacAt(s, i, 5);
      var groups, seps := MatchIsMacText(s, i, 5);
    }
    if exists i: nat, groups, seps :: |seps| == 5 && MacTextAt(s, i, groups, seps) {
      var i: nat, groups, seps :| |seps| == 5 && MacTextAt(s, i, groups, seps);
      MacTextMatches(s, i, groups, seps);
      assert IsGroup(groups[0]);
    }
  }

  // ---------------------------------------------------------------------
  // Outputs without a MAC address
  // ---------------------------------------------------------------------

  /** A match needs a separator within three characters of its start. */
  lemma {:induction false} MatchHasSeparator(s: string, i: nat, k: nat)
    requires k > 0 && MacAt(s, i, k)
    ensures exists j :: i < j < |s| && IsSeparator(s[j])
  {
    if i + 1 < |s| && IsHex(s[i]) && IsSeparator(s[i + 1]) && MacAt(s, i + 2, k - 1) {
      assert IsSeparator(s[i + 1]);
    } else {
      assert IsSeparator(s[i + 2]);
    }
  }

  /** An output without ':' and '-' (such as `(incomplete)` or `<no entry>`)
      holds no MAC address. */
  lemma NoSeparatorNoMac(s: string)
    requires forall j :: 0 <= j < |s| ==> !IsSeparator(s[j])
    ensures !TestFrom(s, 0)
  {
    if i :| 0 <= i < |s| && MacAt(s, i, 5) {
      MatchHasSeparator(s, i, 5);
    }
  }

  /** An output without hex digits (such as `xx:yy:zz:ww:vv:uu`) holds no
      MAC address, and neither does the empty one. */
  lemma NoHexNoMac(s: string)
    requires forall j :: 0 <= j < |s| ==> !IsHex(s[j])
    ensures !TestFrom(s, 0)
  {
    if i :| 0 <= i < |s| && MacAt(s, i, 5) {
      assert IsHex(s[i]);
    }
  }

  /** A MAC address anywhere in the output is found, whatever surrounds it:
      upper or lower case, one-digit groups and mixed separators alike. */
  lemma MacFound(before: string, groups: seq<string>, seps: seq<char>, after: string)
    requires WellFormedMac(groups, seps) && |seps| == 5
    ensures TestFrom(before + MacText(groups, seps) + after, 0)
  {
    var t := MacText(groups, seps);
    var s := before + t + after;
    assert s[|before|..|before| + |t|] == t;
    MacTextMatches(s, |before|, groups, seps);
    assert IsGroup(groups[0]);
  }

  /** An incomplete entry is not a MAC address. */
  lemma IncompleteNotFound()
    ensures !TestFrom("(incomplete)", 0)
  {
    NoSeparatorNoMac("(incomplete)");
  }

  /** A failing `arp` rejects, and is not read as "not in the table". */
  lemma ArpErrorPropagates(isWindows: bool, ip: string, exec: string -> Result<string>)
    requires exec(ArpCommand(isWindows, ip)).Failure?
    ensures IsDeviceInArpTable(isWindows, ip, exec) == Failure(exec(ArpCommand(isWindows, ip)).error)
  {
  }

  /** The command names the address last, after the platform's flag. */
  lemma ArpCommandShape(isWindows: bool, ip: string)
    ensures var cmd := ArpCommand(isWindows, ip);
      |cmd| == 7 + |ip| && cmd[7..] == ip && cmd[..4] == "arp " &&
      (cmd[5] == 'a' <==> isWindows) && (cmd[5] == 'n' <==> !isWindows)
  {
    var cmd := ArpCommand(isWindows, ip);
    var prefix := if isWindows then "arp -a " else "arp -n ";
    assert cmd == prefix + ip;
    assert cmd[..4] == prefix[..4] == "arp ";
    assert cmd[5] == prefix[5];
  }
}
