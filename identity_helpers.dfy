/** The decision logic of the identification helpers
    (`src/device-identity/helpers/index.ts`): service labels from a port or a
    banner, the version text of a banner, the OUI of a MAC address and the
    reverse vendor index. `PortByServiceName` and `MacOUIByVendor` are data
    tables and are parameters here; the probes (DNS, ARP, NetBIOS, mDNS,
    SNMP, SMB, UPnP, HTTP, banner grabbing, the online vendor lookup) are
    oracles of the callers. */
module IdentityHelpers {
  import opened Wrappers
  import opened Js

  /** A string that is set and not empty: JavaScript's truthy strings. */
  predicate Present(o: Option<string>)
  {
    o.Some? && o.value != ""
  }

  // ---------------------------------------------------------------------
  // Service labels
  // ---------------------------------------------------------------------

  /** One entry of `PortByServiceName`, in declaration order. */
  datatype ServiceName = ServiceName(name: string, port: int)

  /** `serviceNames.find(key => PortByServiceName[key] === port)`. */
  function FindService(table: seq<ServiceName>, port: int): (r: Option<string>)
    ensures r.None? <==> forall i :: 0 <= i < |table| ==> table[i].port != port
    ensures r.Some? ==> exists i :: 0 <= i < |table| && table[i] == ServiceName(r.value, port) &&
                                   forall j :: 0 <= j < i ==> table[j].port != port
  {
    if table == [] then None
    else if table[0].port == port then Some(table[0].name)
    else
      var r := FindService(table[1..], port);
      assert r.Some? ==> exists i :: 0 <= i < |table[1..]| && table[1..][i] == ServiceName(r.value, port) &&
                                     forall j :: 0 <= j < i ==> table[1..][j].port != port;
      assert forall i :: 0 <= i < |table[1..]| ==> table[1..][i] == table[i + 1];
      r
  }

  /** The OS tag of an SSH banner: the first of Ubuntu, Debian, Raspbian,
      CentOS, Red Hat and FreeBSD that the lower-cased banner names. */
  function SshOsTag(lower: string): Option<string>
  {
    if Contains(lower, "ubuntu") then Some("Ubuntu")
    else if Contains(lower, "debian") then Some("Debian")
    else if Contains(lower, "raspbian") then Some("Raspbian")
    else if Contains(lower, "centos") then Some("CentOS")
    else if Contains(lower, "red hat") || Contains(lower, "redhat") then Some("Red Hat")
    else if Contains(lower, "freebsd") then Some("FreeBSD")
    else None
  }

  /** `identifyService(port, banner)`: without a banner the first service
      name declared for the port; with one, an SSH label with its OS tag,
      else the first keyword rule, else the banner's trimmed first line when
      it has 1 to 99 characters. */
  function IdentifyService(table: seq<ServiceName>, port: int, banner: Option<string>): Option<string>
  {
    if !Present(banner) then FindService(table, port)
    else
      var b := banner.value;
      var lower := ToLower(b);
      if Contains(lower, "ssh") then Some(SshLabel(b, lower))
      else KeywordLabel(b, lower)
  }

  /** The SSH label: the version text, and the OS tag in parentheses when
      the banner names one. */
  function SshLabel(b: string, lower: string): string
  {
    var sshInfo := ExtractVersion(b, "SSH");
    var osTag := match SshOsTag(lower)
      case Some(tag) => " (" + tag + ")"
      case None => "";
    "SSH: " + sshInfo + osTag
  }

  /** The banner chain after SSH: the first keyword rule the lower-cased
      banner matches, tried in the source's order, else the first line. */
  function KeywordLabel(b: string, lower: string): Option<string>
  {
    match FirstRule(KeywordRules, lower)
    case Some(rule) => Some(RuleLabel(rule, b))
    case None => FirstLineLabel(b)
  }

  /** `banner.split('\n')[0].trim()`: the banner's first line, trimmed. */
  function FirstLine(banner: string): (line: string)
    ensures '\n' !in line
  {
    TrimInside(Split(banner, '\n')[0]);
    Trim(Split(banner, '\n')[0])
  }

  /** The fallback: the trimmed first line when it has 1 to 99 characters. */
  function FirstLineLabel(banner: string): (r: Option<string>)
    ensures r.Some? ==> 0 < |r.value| < 100 && '\n' !in r.value
  {
    var firstLine := FirstLine(banner);
    if 0 < |firstLine| < 100 then Some(firstLine) else None
  }

  /** The trimmed text is a piece of the original. */
  lemma {:induction false} TrimInside(s: string)
    ensures forall c :: c in Trim(s) ==> c in s
  {
    var t := TrimStart(s);
    assert forall c :: c in t ==> c in s by {
      forall c | c in t
        ensures c in s
      {
        var k :| 0 <= k < |t| && t[k] == c;
        assert s[|s| - |t| + k] == c;
      }
    }
    var u := TrimEnd(t);
    assert forall c :: c in u ==> c in t by {
      forall c | c in u
        ensures c in t
      {
        var k :| 0 <= k < |u| && u[k] == c;
        assert t[k] == c;
      }
    }
  }

  // ---------------------------------------------------------------------
  // Version text
  // ---------------------------------------------------------------------

  /** `/^220\s*\/i` removed: a leading `220` and the white space after it. */
  function Strip220(s: string): (r: string)
    ensures |r| <= |s| && r == s[|s| - |r|..]
  {
    s[Greeting220(s)..]
  }

  /** The length of the `220` greeting and its white space, or 0 when the
      text does not start with `220`. */
  function Greeting220(s: string): (k: nat)
    ensures k <= |s|
  {
    if |s| >= 3 && s[0] == '2' && s[1] == '2' && s[2] == '0' then 3 + SpaceRun(s[3..]) else 0
  }

  /** The length of the leading run of white space (`\s*`). */
  function SpaceRun(s: string): (n: nat)
    ensures n <= |s|
    ensures forall k :: 0 <= k < n ==> IsJsSpace(s[k])
    ensures n == |s| || !IsJsSpace(s[n])
  {
    if s != [] && IsJsSpace(s[0]) then 1 + SpaceRun(s[1..]) else 0
  }

  /** The length of the leading run of digits and dots. */
  function DigitDotRun(s: string): (n: nat)
    ensures n <= |s|
    ensures forall k :: 0 <= k < n ==> IsDigit(s[k]) || s[k] == '.'
    ensures n == |s| || !(IsDigit(s[n]) || s[n] == '.')
  {
    if s != [] && (IsDigit(s[0]) || s[0] == '.') then 1 + DigitDotRun(s[1..]) else 0
  }

  /** `/^SSH-[\d.]+-/i` removed: `SSH-` in any case, one or more digits and
      dots, and a dash. The run is greedy and cannot give back a character,
      since none of its characters is a dash. */
  function StripSshVersion(s: string): (r: string)
    ensures |r| <= |s| && r == s[|s| - |r|..]
  {
    s[SshPrefix(s)..]
  }

  /** The length of the `SSH-<version>-` prefix, or 0 when there is none. */
  function SshPrefix(s: string): (k: nat)
    ensures k <= |s|
  {
    if |s| >= 4 && LowerChar(s[0]) == 's' && LowerChar(s[1]) == 's' && LowerChar(s[2]) == 'h' && s[3] == '-' then
      var n := DigitDotRun(s[4..]);
      if n >= 1 && 4 + n < |s| && s[4 + n] == '-' then 5 + n else 0
    else 0
  }

  /** `extractVersion(banner, service)`: the trimmed first line without a
      `220` greeting and without an `SSH-<version>-` prefix. `split` always
      yields a line, so `service` is never returned. */
  function ExtractVersion(banner: string, service: string): string
  {
    var lines := Split(banner, '\n');
    if |lines| > 0 then VersionOf(Trim(lines[0])) else service
  }

  /** The version text of a trimmed line. */
  function VersionOf(line: string): string
  {
    StripSshVersion(Strip220(line))
  }

  // ---------------------------------------------------------------------
  // Rules as a table
  // ---------------------------------------------------------------------

  /** A keyword rule: a banner naming `keyword` is labelled `text`, with
      the banner's version text when `versioned`. */
  datatype Rule = Rule(keyword: string, text: string, versioned: bool)

  /** The keyword rules in the order the source tries them. */
  const KeywordRules: seq<Rule> := [
    Rule("ftp", "FTP", true), Rule("smtp", "SMTP", true), Rule("mysql", "MySQL", true),
    Rule("postgresql", "PostgreSQL", false), Rule("redis", "Redis", false), Rule("mongodb", "MongoDB", false),
    Rule("vnc", "VNC", false), Rule("microsoft", "Microsoft Service", false), Rule("telnet", "Telnet", false)]

  /** The first rule whose keyword the lower-cased banner contains. */
  function FirstRule(rules: seq<Rule>, lower: string): (r: Option<Rule>)
    ensures r.Some? ==> exists k :: 0 <= k < |rules| && r.value == rules[k] && Contains(lower, r.value.keyword) &&
                                   forall j :: 0 <= j < k ==> !Contains(lower, rules[j].keyword)
    ensures r.None? ==> forall k :: 0 <= k < |rules| ==> !Contains(lower, rules[k].keyword)
  {
    FirstRuleFrom(rules, lower, 0)
  }

  /** The first rule from index `i` on whose keyword the banner contains. */
  function FirstRuleFrom(rules: seq<Rule>, lower: string, i: nat): (r: Option<Rule>)
    ensures r.Some? ==> exists k :: i <= k < |rules| && r.value == rules[k] && Contains(lower, r.value.keyword) &&
                                   forall j :: i <= j < k ==> !Contains(lower, rules[j].keyword)
    ensures r.None? ==> forall k :: i <= k < |rules| ==> !Contains(lower, rules[k].keyword)
    decreases |rules| - i
  {
    if i >= |rules| then None
    else if Contains(lower, rules[i].keyword) then Some(rules[i])
    else FirstRuleFrom(rules, lower, i + 1)
  }

  /** The label a rule gives a banner. */
  function RuleLabel(rule: Rule, banner: string): string
  {
    if rule.versioned then rule.text + ": " + ExtractVersion(banner, rule.text) else rule.text
  }

  // ---------------------------------------------------------------------
  // OUI and the vendor index
  // ---------------------------------------------------------------------

  predicate IsMacSeparator(c: char)
  {
    c == ':' || c == '-'
  }

  /** `mac.replace(/[:-]/g, '')`. */
  function StripSeparators(mac: string): (r: string)
    ensures |r| <= |mac|
    ensures forall k :: 0 <= k < |r| ==> !IsMacSeparator(r[k])
  {
    if mac == [] then []
    else (if IsMacSeparator(mac[0]) then [] else [mac[0]]) + StripSeparators(mac[1..])
  }

  /** `substring(0, n)`: the first `n` characters, or all when fewer. */
  function Prefix<T>(s: seq<T>, n: nat): (r: seq<T>)
    ensures |r| == if |s| < n then |s| else n
    ensures r <= s
  {
    if |s| < n then s else s[..n]
  }

  /** The OUI of `getVendorFromMac`: separators removed, the first six
      characters, upper-cased. */
  function Oui(mac: string): string
  {
    ToUpper(Prefix(StripSeparators(mac), 6))
  }

  /** One entry of `MacOUIByVendor`: a vendor and its OUIs. */
  datatype VendorOuis = VendorOuis(vendor: string, ouis: seq<string>)

  /** `acc[oui] = vendor` for each OUI in turn. */
  function AssignAll(acc: map<string, string>, vendor: string, ouis: seq<string>): map<string, string>
    decreases |ouis|
  {
    if ouis == [] then acc
    else AssignAll(acc, vendor, ouis[..|ouis| - 1])[ouis[|ouis| - 1] := vendor]
  }

  /** The reverse index the `reduce` builds from the first entries. */
  function VendorIndex(entries: seq<VendorOuis>): map<string, string>
    decreases |entries|
  {
    if entries == [] then map[]
    else
      var last := entries[|entries| - 1];
      AssignAll(VendorIndex(entries[..|entries| - 1]), last.vendor, last.ouis)
  }

  /** `VendorByMacOUI`: every OUI of every vendor mapped to that vendor,
      entry by entry. */
  method BuildVendorIndex(entries: seq<VendorOuis>) returns (acc: map<string, string>)
    ensures acc == VendorIndex(entries)
  {
    acc := map[];
    for i := 0 to |entries|
      invariant acc == VendorIndex(entries[..i])
    {
      var vendor, ouis := entries[i].vendor, entries[i].ouis;
      ghost var before := acc;
      for j := 0 to |ouis|
        invariant acc == AssignAll(before, vendor, ouis[..j])
      {
        assert ouis[..j + 1][..j] == ouis[..j];
        acc := acc[ouis[j] := vendor];
      }
      assert ouis[..|ouis|] == ouis;
      assert entries[..i + 1][..i] == entries[..i];
    }
    assert entries[..|entries|] == entries;
  }

  /** `getVendorFromMac`: the local index first; only an OUI it does not
      know (or maps to an empty name) goes to the online lookup. */
  function GetVendorFromMac(mac: string, index: map<string, string>, online: string -> Option<string>): Option<string>
  {
    var oui := Oui(mac);
    if oui in index && index[oui] != "" then Some(index[oui]) else online(mac)
  }

  // ---------------------------------------------------------------------
  // Properties
  // ---------------------------------------------------------------------

  /** Without a banner the label is the first service declared for the port. */
  lemma NoBannerUsesTable(table: seq<ServiceName>, port: int, banner: Option<string>)
    requires banner.None? || banner == Some("")
    ensures IdentifyService(table, port, banner) == FindService(table, port)
  {
  }

  /** Any banner naming SSH gets an SSH label, whatever else it names. */
  lemma SshWins(table: seq<ServiceName>, port: int, b: string)
    requires b != "" && Contains(ToLower(b), "ssh")
    ensures var r := IdentifyService(table, port, Some(b));
      r.Some? && |r.value| >= 5 && r.value[..5] == "SSH: "
  {
    var lower := ToLower(b);
    SshLabelPrefix(b, lower);
    assert IdentifyService(table, port, Some(b)) == Some(SshLabel(b, lower));
  }

  lemma SshLabelPrefix(b: string, lower: string)
    ensures var r := SshLabel(b, lower);
      |r| >= 5 && r[..5] == "SSH: "
  {
    var head := "SSH: " + ExtractVersion(b, "SSH");
    assert head[..5] == "SSH: ";
    assert SshLabel(b, lower)[..|head|] == head;
  }

  /** FTP is checked first: a banner naming FTP and no SSH is labelled FTP
      with its version text, whatever other service it also names. */
  lemma FtpFirst(table: seq<ServiceName>, port: int, b: string)
    requires b != "" && !Contains(ToLower(b), "ssh") && Contains(ToLower(b), "ftp")
    ensures IdentifyService(table, port, Some(b)) == Some("FTP: " + ExtractVersion(b, "FTP"))
  {
    FtpLabel(b, ToLower(b));
  }

  lemma FtpLabel(b: string, lower: string)
    requires Contains(lower, "ftp")
    ensures KeywordLabel(b, lower) == Some("FTP: " + ExtractVersion(b, "FTP"))
  {
    FtpRuleFirst(lower);
    assert KeywordLabel(b, lower) == Some(RuleLabel(Rule("ftp", "FTP", true), b));
    FtpText(ExtractVersion(b, "FTP"));
  }

  lemma FtpText(version: string)
    ensures "FTP" + ": " + version == "FTP: " + version
  {
    assert "FTP" + ": " == "FTP: ";
  }

  lemma FtpRuleFirst(lower: string)
    requires Contains(lower, "ftp")
    ensures FirstRule(KeywordRules, lower) == Some(Rule("ftp", "FTP", true))
  {
    assert KeywordRules[0] == Rule("ftp", "FTP", true);
    assert FirstRuleFrom(KeywordRules, lower, 0) == Some(KeywordRules[0]);
  }

  /** A banner naming no SSH and none of the keywords falls back to its
      trimmed first line. */
  lemma NoKeywordUsesFirstLine(table: seq<ServiceName>, port: int, b: string)
    requires b != "" && !Contains(ToLower(b), "ssh")
    requires forall k :: 0 <= k < |KeywordRules| ==> !Contains(ToLower(b), KeywordRules[k].keyword)
    ensures IdentifyService(table, port, Some(b)) == FirstLineLabel(b)
  {
  }

  /** `split` always yields a first line, so the `service` argument of
      `extractVersion` is never returned. */
  lemma ExtractVersionIgnoresService(banner: string, service: string)
    ensures ExtractVersion(banner, service) == VersionOf(FirstLine(banner))
  {
  }

  /** The version text is a tail of the trimmed first line: only prefixes
      are removed. */
  lemma {:induction false} VersionIsTail(line: string)
    ensures var r := VersionOf(line); |r| <= |line| && r == line[|line| - |r|..]
  {
    SuffixOfSuffix(line, Strip220(line), VersionOf(line));
  }

  /** A tail of a tail is a tail. */
  lemma SuffixOfSuffix(s: string, a: string, b: string)
    requires |a| <= |s| && a == s[|s| - |a|..]
    requires |b| <= |a| && b == a[|a| - |b|..]
    ensures b == s[|s| - |b|..]
  {
    assert a[|a| - |b|..] == s[|s| - |b|..];
  }

  /** An `SSH-<version>-` prefix is removed whole, in any letter case. */
  lemma StripSshPrefix(ssh: string, version: string, rest: string)
    requires |ssh| == 4 && LowerChar(ssh[0]) == 's' && LowerChar(ssh[1]) == 's' && LowerChar(ssh[2]) == 'h' && ssh[3] == '-'
    requires version != [] && forall k :: 0 <= k < |version| ==> IsDigit(version[k]) || version[k] == '.'
    ensures StripSshVersion(ssh + version + "-" + rest) == rest
  {
    var s := ssh + version + "-" + rest;
    assert s[..4] == ssh;
    assert s[4..] == version + "-" + rest;
    DigitDotRunOf(version, "-" + rest);
    assert s[4 + |version|] == '-';
    assert s[5 + |version|..] == rest;
  }

  /** A run of digits and dots followed by a dash is measured exactly. */
  lemma {:induction false} DigitDotRunOf(version: string, tail: string)
    requires forall k :: 0 <= k < |version| ==> IsDigit(version[k]) || version[k] == '.'
    requires tail != [] && tail[0] == '-'
    ensures DigitDotRun(version + tail) == |version|
  {
    if version != [] {
      assert (version + tail)[1..] == version[1..] + tail;
      DigitDotRunOf(version[1..], tail);
    }
  }

  /** A `220` greeting and the spaces after it are removed. */
  lemma Strip220Greeting(spaces: string, rest: string)
    requires forall k :: 0 <= k < |spaces| ==> IsJsSpace(spaces[k])
    requires rest == [] || !IsJsSpace(rest[0])
    ensures Strip220("220" + spaces + rest) == rest
  {
    var s := "220" + spaces + rest;
    assert s[3..] == spaces + rest;
    SpaceRunOf(spaces, rest);
    assert s[3 + |spaces|..] == rest;
  }

  /** A run of white space before a non-space is measured exactly. */
  lemma {:induction false} SpaceRunOf(spaces: string, rest: string)
    requires forall k :: 0 <= k < |spaces| ==> IsJsSpace(spaces[k])
    requires rest == [] || !IsJsSpace(rest[0])
    ensures SpaceRun(spaces + rest) == |spaces|
  {
    if spaces != [] {
      assert (spaces + rest)[1..] == spaces[1..] + rest;
      SpaceRunOf(spaces[1..], rest);
    } else {
      assert spaces + rest == rest;
    }
  }

  /** The OUI has at most six characters, no separators and no lower-case
      ASCII letters. */
  lemma OuiShape(mac: string)
    ensures var oui := Oui(mac);
      |oui| <= 6 &&
      (forall k :: 0 <= k < |oui| ==> !IsMacSeparator(oui[k]) && !('a' <= oui[k] <= 'z'))
  {
    var p := Prefix(StripSeparators(mac), 6);
    assert forall k :: 0 <= k < |p| ==> p[k] == StripSeparators(mac)[k];
  }

  /** Removing separators from groups joined by a separator concatenates them. */
  lemma {:induction false} StripJoined(groups: seq<string>, sep: string)
    requires sep == ":" || sep == "-"
    requires forall i :: 0 <= i < |groups| ==> Plain(groups[i])
    ensures StripSeparators(Join(groups, sep)) == Concat(groups)
  {
    if groups != [] {
      var g, rest := groups[0], groups[1..];
      StripPlain(g);
      if rest == [] {
        assert Join(groups, sep) == g;
        assert Concat(groups) == g + Concat(rest);
      } else {
        assert forall i :: 0 <= i < |rest| ==> rest[i] == groups[i + 1];
        StripJoined(rest, sep);
        assert Join(groups, sep) == g + sep + Join(rest, sep);
        StripAppend(g + sep, Join(rest, sep));
        StripAppend(g, sep);
        assert StripSeparators(sep) == [];
        assert StripSeparators(g + sep) == g;
        assert StripSeparators(Join(groups, sep)) == g + Concat(rest);
        assert Concat(groups) == g + Concat(rest);
      }
    }
  }

  /** The groups written one after another. */
  function Concat(groups: seq<string>): string
  {
    if groups == [] then [] else groups[0] + Concat(groups[1..])
  }

  /** A text without separators. */
  predicate Plain(s: string)
  {
    forall k :: 0 <= k < |s| ==> !IsMacSeparator(s[k])
  }

  /** A text without separators loses nothing. */
  lemma {:induction false} StripPlain(s: string)
    requires Plain(s)
    ensures StripSeparators(s) == s
  {
    if s != [] {
      StripPlain(s[1..]);
    }
  }

  /** Separators are removed piece by piece. */
  lemma {:induction false} StripAppend(a: string, b: string)
    ensures StripSeparators(a + b) == StripSeparators(a) + StripSeparators(b)
  {
    if a != [] {
      assert (a + b)[1..] == a[1..] + b;
      StripAppend(a[1..], b);
    } else {
      assert a + b == b;
    }
  }

  /** For a MAC written as two-character groups, with ':' or '-', the OUI
      is the first three groups upper-cased. */
  lemma MacOui(groups: seq<string>, sep: string)
    requires sep == ":" || sep == "-"
    requires |groups| == 6 && forall i :: 0 <= i < 6 ==> |groups[i]| == 2 && Plain(groups[i])
    ensures Oui(Join(groups, sep)) == ToUpper(groups[0] + groups[1] + groups[2])
  {
    StripJoined(groups, sep);
    var g0, g1, g2 := groups[0], groups[1], groups[2];
    assert Concat(groups) == g0 + Concat(groups[1..]);
    assert groups[1..][0] == g1 && groups[1..][1..] == groups[2..];
    assert Concat(groups[1..]) == g1 + Concat(groups[2..]);
    assert groups[2..][0] == g2 && groups[2..][1..] == groups[3..];
    assert Concat(groups[2..]) == g2 + Concat(groups[3..]);
    assert Concat(groups) == (g0 + g1 + g2) + Concat(groups[3..]);
    assert Concat(groups)[..6] == g0 + g1 + g2;
  }

  /** An OUI listed under several vendors ends up with the last of them; an
      OUI listed nowhere is not in the index. */
  lemma {:induction false} LastVendorWins(entries: seq<VendorOuis>, oui: string)
    ensures oui in VendorIndex(entries) <==> exists i :: 0 <= i < |entries| && oui in entries[i].ouis
    ensures forall i | 0 <= i < |entries| && oui in entries[i].ouis &&
                       (forall j :: i < j < |entries| ==> oui !in entries[j].ouis) ::
              oui in VendorIndex(entries) && VendorIndex(entries)[oui] == entries[i].vendor
    decreases |entries|
  {
    if entries != [] {
      var n := |entries| - 1;
      var init := entries[..n];
      LastVendorWins(init, oui);
      AssignAllGet(VendorIndex(init), entries[n].vendor, entries[n].ouis, oui);
      assert forall i :: 0 <= i < n ==> init[i] == entries[i];
    }
  }

  /** After assigning a vendor to a list of OUIs, a listed OUI maps to the
      vendor and any other keeps its entry. */
  lemma {:induction false} AssignAllGet(acc: map<string, string>, vendor: string, ouis: seq<string>, oui: string)
    ensures oui in ouis ==> oui in AssignAll(acc, vendor, ouis) && AssignAll(acc, vendor, ouis)[oui] == vendor
    ensures oui !in ouis ==> (oui in AssignAll(acc, vendor, ouis) <==> oui in acc)
    ensures oui !in ouis && oui in acc ==> AssignAll(acc, vendor, ouis)[oui] == acc[oui]
    decreases |ouis|
  {
    if ouis != [] {
      var n := |ouis| - 1;
      AssignAllGet(acc, vendor, ouis[..n], oui);
      assert ouis == ouis[..n] + [ouis[n]];
    }
  }

  /** An OUI the local index names a vendor for is answered from the index
      and never looked up online. */
  lemma LocalBeforeOnline(mac: string, index: map<string, string>, online: string -> Option<string>,
                          other: string -> Option<string>)
    requires Oui(mac) in index && index[Oui(mac)] != ""
    ensures GetVendorFromMac(mac, index, online) == GetVendorFromMac(mac, index, other) == Some(index[Oui(mac)])
  {
  }

  /** An unknown OUI is answered by the online lookup alone. */
  lemma UnknownGoesOnline(mac: string, index: map<string, string>, online: string -> Option<string>)
    requires Oui(mac) !in index
    ensures GetVendorFromMac(mac, index, online) == online(mac)
  {
  }
}
