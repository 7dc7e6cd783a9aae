/** Device identification (`src/device-identity/index.ts`): the answers of
    the probes are combined into a hostname, a device type and the method
    that named the device. Every probe (reverse DNS, the MAC address, NetBIOS,
    mDNS, SNMP, SMB, UPnP, the raced HTTP request, banner grabbing and the
    online vendor lookup) is an oracle; a probe that fails or times out
    answers `None`, as its `.catch(() => undefined)` makes it. */
module Identity {
  import opened Wrappers
  import opened Js
  import opened Values
  import opened Promise
  import opened IdentityHelpers
  import opened Parallel

  const IdentifyTimeout: int := 15000
  const IdentifyRetry: int := 1
  const IdentifyDelay: int := 100

  /** The ports asked for an HTTP page. */
  const HttpPorts: seq<int> := [80, 8080, 8000, 8888, 8123]

  /** The ports whose banner is grabbed. */
  const BannerPorts: seq<int> := [21, 22, 23, 25, 110, 143, 3306, 5432, 6379]

  /** At most this many banners are grabbed. */
  const MaxBanners: nat := 5

  /** The methods that can name a device. */
  const NamingMethods: set<string> := {"DNS", "SNMP", "SMB", "NetBIOS", "mDNS", "MAC Vendor", "HTTP"}

  /** The OS hints an SNMP description can give. */
  const OsHints: set<string> := {"Linux", "Windows", "macOS", "FreeBSD", "Cisco", "MikroTik"}

  datatype SnmpInfo = SnmpInfo(hostname: Option<string>, description: Option<string>)
  datatype UpnpInfo = UpnpInfo(hostname: Option<string>, deviceType: Option<string>)
  datatype HttpInfo = HttpInfo(server: Option<string>, hostname: Option<string>, title: Option<string>)

  /** What the probes of one identification answer. `http(port)` is how the
      race of `getEnhancedHttpInfo` against the 2500 ms timer ends, and
      `banner(port)` what `grabBanner` returns; `online` is the online vendor
      lookup. */
  datatype Probes = Probes(
    dns: Option<string>, mac: Option<string>, netbios: Option<string>, mdns: Option<string>,
    snmp: Option<SnmpInfo>, smb: Option<string>, upnp: Option<UpnpInfo>,
    online: string -> Option<string>, http: int -> Option<HttpInfo>, banner: int -> Option<string>)

  /** The data tables: `PortByServiceName` in declaration order and the
      `VendorByMacOUI` index. */
  datatype Tables = Tables(services: seq<ServiceName>, vendors: map<string, string>)

  /** The `deviceInfo` object being filled in. */
  datatype Info = Info(hostname: Option<string>, deviceType: Option<string>, idMethod: Option<string>,
                       httpServer: Option<string>, services: map<int, string>)

  /** The record `identifyDevice` returns. */
  datatype DeviceIdentity = DeviceIdentity(hostname: string, deviceType: string, identificationMethod: string)

  /** A hostname and the method that found it. */
  datatype Named = Named(hostname: string, idMethod: string)

  // ---------------------------------------------------------------------
  // The decision chains
  // ---------------------------------------------------------------------

  /** SNMP is asked only when port 161 is open. */
  function SnmpAnswer(p: Probes, openPorts: seq<int>): Option<SnmpInfo>
  {
    if 161 in openPorts then p.snmp else None
  }

  /** SMB is asked only when port 445 is open. */
  function SmbAnswer(p: Probes, openPorts: seq<int>): Option<string>
  {
    if 445 in openPorts then p.smb else None
  }

  /** The vendor: looked up only for a MAC address that was found. */
  function Vendor(p: Probes, tables: Tables): Option<string>
  {
    if Present(p.mac) then GetVendorFromMac(p.mac.value, tables.vendors, p.online) else None
  }

  function SnmpHostname(snmp: Option<SnmpInfo>): Option<string>
  {
    if snmp.Some? then snmp.value.hostname else None
  }

  function UpnpType(upnp: Option<UpnpInfo>): Option<string>
  {
    if upnp.Some? then upnp.value.deviceType else None
  }

  /** The hostname chain: DNS (unless it only echoes the ip), SNMP, SMB,
      NetBIOS, mDNS, and last the MAC vendor. */
  function BestHostname(ip: string, dns: Option<string>, snmp: Option<SnmpInfo>, smb: Option<string>,
                        netbios: Option<string>, mdns: Option<string>, vendor: Option<string>): (r: Option<Named>)
    ensures r.Some? ==> r.value.hostname != "" && r.value.idMethod in NamingMethods
  {
    if Present(dns) && dns.value != ip then Some(Named(dns.value, "DNS"))
    else if Present(SnmpHostname(snmp)) then Some(Named(SnmpHostname(snmp).value, "SNMP"))
    else if Present(smb) then Some(Named(smb.value, "SMB"))
    else if Present(netbios) then Some(Named(netbios.value, "NetBIOS"))
    else if Present(mdns) then Some(Named(mdns.value, "mDNS"))
    else if Present(vendor) then Some(Named(vendor.value, "MAC Vendor"))
    else None
  }

  /** The candidates of the hostname chain in order of preference; a DNS
      name equal to the ip does not count. */
  function HostnameCandidates(ip: string, dns: Option<string>, snmp: Option<SnmpInfo>, smb: Option<string>,
                              netbios: Option<string>, mdns: Option<string>, vendor: Option<string>): seq<(Option<string>, string)>
  {
    [(if dns == Some(ip) then None else dns, "DNS"), (SnmpHostname(snmp), "SNMP"), (smb, "SMB"),
     (netbios, "NetBIOS"), (mdns, "mDNS"), (vendor, "MAC Vendor")]
  }

  /** The first candidate from index `i` on that is set and not empty. */
  function FirstNamed(candidates: seq<(Option<string>, string)>, i: nat): Option<Named>
    decreases |candidates| - i
  {
    if i >= |candidates| then None
    else if Present(candidates[i].0) then Some(Named(candidates[i].0.value, candidates[i].1))
    else FirstNamed(candidates, i + 1)
  }

  /** `osHint`: the first of Linux, Windows, macOS, FreeBSD, Cisco and
      MikroTik that the lower-cased SNMP description names. */
  function OsHint(snmp: Option<SnmpInfo>): (r: Option<string>)
    ensures r.Some? ==> r.value in OsHints
  {
    if snmp.Some? && Present(snmp.value.description) then
      var desc := ToLower(snmp.value.description.value);
      if Contains(desc, "linux") then Some("Linux")
      else if Contains(desc, "windows") then Some("Windows")
      else if Contains(desc, "darwin") || Contains(desc, "mac os") then Some("macOS")
      else if Contains(desc, "freebsd") then Some("FreeBSD")
      else if Contains(desc, "cisco") then Some("Cisco")
      else if Contains(desc, "mikrotik") then Some("MikroTik")
      else None
    else None
  }

  /** `nameToCheck`: the hostname, else the vendor, else the UPnP device
      type, else the empty string, lower-cased. */
  function NameToCheck(hostname: Option<string>, vendor: Option<string>, upnpType: Option<string>): string
  {
    ToLower(if Present(hostname) then hostname.value
            else if Present(vendor) then vendor.value
            else if Present(upnpType) then upnpType.value
            else "")
  }

  /** The words of `nameToCheck` the device-type chain looks for. */
  const NameKeywords: seq<string> :=
    ["iphone", "ipad", "macbook", "imac", "samsung", "nas", "router", "gateway", "printer", "epson",
     "android", "iot", "smart"]

  /** The device-type chain on the name to check. */
  function DeviceTypeOf(hostname: Option<string>, vendor: Option<string>, upnpType: Option<string>,
                        osHint: Option<string>): Option<string>
  {
    DeviceTypeFor(NameToCheck(hostname, vendor, upnpType), vendor, upnpType, osHint)
  }

  /** The device-type chain: the first branch whose vendor, name or OS
      hint test passes decides the type. */
  function DeviceTypeFor(name: string, vendor: Option<string>, upnpType: Option<string>,
                         osHint: Option<string>): (r: Option<string>)
    ensures r.Some? ==> r.value != ""
  {
    if vendor == Some("Apple") || Contains(name, "iphone") || Contains(name, "ipad") ||
       Contains(name, "macbook") || Contains(name, "imac") || osHint == Some("macOS") then
      Some(if vendor == Some("Apple") then "Apple Device" else "Apple")
    else if vendor == Some("Raspberry Pi") then Some("Raspberry Pi")
    else if vendor == Some("Samsung") || Contains(name, "samsung") then Some("Samsung Device")
    else if vendor == Some("Google") || vendor == Some("Google Chromecast") || vendor == Some("Google Nest") then vendor
    else if vendor == Some("Amazon Echo") || vendor == Some("Amazon Ring") || vendor == Some("Amazon") then vendor
    else if vendor == Some("Philips Hue") then Some("Philips Hue")
    else if vendor == Some("Sonos") then Some("Sonos Speaker")
    else if vendor == Some("Synology") || vendor == Some("QNAP") || Contains(name, "nas") then
      Some(if Present(vendor) then vendor.value else "NAS")
    else if vendor == Some("TP-Link") || vendor == Some("Ubiquiti") || vendor == Some("Netgear") ||
            vendor == Some("Asus") || vendor == Some("Cisco") || Contains(name, "router") ||
            Contains(name, "gateway") || osHint == Some("Cisco") || osHint == Some("MikroTik") then
      Some(if Present(vendor) then vendor.value + " Router" else if Present(osHint) then osHint.value else "Router/Gateway")
    else if vendor == Some("HP") || Contains(name, "printer") || Contains(name, "epson") then
      Some(if Present(vendor) then vendor.value + " Printer" else "Printer")
    else if vendor == Some("Xiaomi") then Some("Xiaomi Device")
    else if Contains(name, "android") then Some("Android Device")
    else if Contains(name, "iot") || Contains(name, "smart") || Present(upnpType) then
      Some(if Present(upnpType) then upnpType.value else "IoT Device")
    else if osHint == Some("Linux") then Some(if Present(vendor) then vendor.value + " (Linux)" else "Linux Server")
    else if osHint == Some("Windows") then Some("Windows Computer")
    else if osHint == Some("FreeBSD") then Some("FreeBSD Server")
    else if Present(vendor) then vendor
    else None
  }

  /** The device type a lower-cased page title gives. */
  function TitleType(title: string): (r: Option<string>)
    ensures r.Some? ==> r.value != ""
  {
    if Contains(title, "home assistant") then Some("Home Assistant")
    else if Contains(title, "openwrt") then Some("OpenWrt Router")
    else if Contains(title, "pfsense") then Some("pfSense Firewall")
    else if Contains(title, "synology") then Some("Synology NAS")
    else if Contains(title, "qnap") then Some("QNAP NAS")
    else if Contains(title, "unifi") then Some("Ubiquiti UniFi")
    else None
  }

  // ---------------------------------------------------------------------
  // The passes over the open ports, as folds over a prefix
  // ---------------------------------------------------------------------

  /** `deviceInfo` before the port loops: the hostname chain and the
      device-type chain. */
  function Start(ip: string, openPorts: seq<int>, p: Probes, tables: Tables): Info
  {
    var vendor := Vendor(p, tables);
    var snmp := SnmpAnswer(p, openPorts);
    var named := BestHostname(ip, p.dns, snmp, SmbAnswer(p, openPorts), p.netbios, p.mdns, vendor);
    var hostname := if named.Some? then Some(named.value.hostname) else None;
    var idMethod := if named.Some? then Some(named.value.idMethod) else None;
    Info(hostname, DeviceTypeOf(hostname, vendor, UpnpType(p.upnp), OsHint(snmp)), idMethod, None, map[])
  }

  /** What one HTTP answer adds: the server, a hostname only when there is
      none, a title-derived type only when there is none, and 'HTTP' as the
      method only when there is none. */
  function HttpStep(info: Info, answer: Option<HttpInfo>): Info
  {
    if answer.None? then info
    else
      var h := answer.value;
      var i1 := if Present(h.server) then info.(httpServer := h.server) else info;
      var i2 := if !Present(i1.hostname) && Present(h.hostname) then
                  i1.(hostname := h.hostname, idMethod := if Present(i1.idMethod) then i1.idMethod else Some("HTTP"))
                else i1;
      if Present(h.title) && !Present(i2.deviceType) then
        var t := TitleType(ToLower(h.title.value));
        if t.Some? then i2.(deviceType := t, idMethod := if Present(i2.idMethod) then i2.idMethod else Some("HTTP"))
        else i2
      else i2
  }

  /** The HTTP loop over the open ports, up to the end of `ports`. */
  function HttpPass(info: Info, ports: seq<int>, http: int -> Option<HttpInfo>): Info
    decreases |ports|
  {
    if ports == [] then info
    else
      var before := HttpPass(info, ports[..|ports| - 1], http);
      var port := ports[|ports| - 1];
      if port in HttpPorts then HttpStep(before, http(port)) else before
  }

  /** `openPorts.filter(p => BannerPorts.includes(p))`. */
  function BannerCandidates(openPorts: seq<int>): (r: seq<int>)
    ensures forall k :: 0 <= k < |r| ==> r[k] in BannerPorts && r[k] in openPorts
  {
    if openPorts == [] then []
    else
      var rest := BannerCandidates(openPorts[1..]);
      if openPorts[0] in BannerPorts then [openPorts[0]] + rest else rest
  }

  /** `bannersToGrab.slice(0, 5)`: the first candidates, at most five, and
      fewer only when there are no more. */
  function BannerTargets(openPorts: seq<int>): (r: seq<int>)
    ensures |r| <= MaxBanners
    ensures r <= BannerCandidates(openPorts)
    ensures |r| < MaxBanners ==> r == BannerCandidates(openPorts)
  {
    Prefix(BannerCandidates(openPorts), MaxBanners)
  }

  /** What one banner adds: its label, and for an SSH banner on port 22
      with no OS hint, an Ubuntu or Debian type when there is none yet, or
      Raspberry Pi in any case. */
  function BannerStep(info: Info, port: int, banner: Option<string>, osHint: Option<string>,
                      table: seq<ServiceName>): Info
  {
    var service := IdentifyService(table, port, banner);
    if !Present(service) then info
    else
      var i1 := info.(services := info.services[port := service.value]);
      if port == 22 && Present(banner) && !Present(osHint) then
        var bannerLower := ToLower(banner.value);
        if Contains(bannerLower, "ubuntu") then
          i1.(deviceType := if Present(i1.deviceType) then i1.deviceType else Some("Ubuntu Server"))
        else if Contains(bannerLower, "debian") then
          i1.(deviceType := if Present(i1.deviceType) then i1.deviceType else Some("Debian Server"))
        else if Contains(bannerLower, "raspbian") then i1.(deviceType := Some("Raspberry Pi"))
        else i1
      else i1
  }

  /** The banner loop, up to the end of `ports`. */
  function BannerPass(info: Info, ports: seq<int>, banner: int -> Option<string>, osHint: Option<string>,
                      table: seq<ServiceName>): Info
    decreases |ports|
  {
    if ports == [] then info
    else
      var before := BannerPass(info, ports[..|ports| - 1], banner, osHint, table);
      var port := ports[|ports| - 1];
      BannerStep(before, port, banner(port), osHint, table)
  }

  /** What one open port adds when it has no label yet: the table's name. */
  function BasicStep(info: Info, port: int, table: seq<ServiceName>): Info
  {
    if port in info.services && info.services[port] != "" then info
    else
      var basicService := IdentifyService(table, port, None);
      if Present(basicService) then info.(services := info.services[port := basicService.value]) else info
  }

  /** The loop adding basic service names, up to the end of `ports`. */
  function BasicPass(info: Info, ports: seq<int>, table: seq<ServiceName>): Info
    decreases |ports|
  {
    if ports == [] then info
    else BasicStep(BasicPass(info, ports[..|ports| - 1], table), ports[|ports| - 1], table)
  }

  /** `deviceInfo` at the end of the identification. */
  function Identified(ip: string, openPorts: seq<int>, p: Probes, tables: Tables): Info
  {
    var osHint := OsHint(SnmpAnswer(p, openPorts));
    var afterHttp := HttpPass(Start(ip, openPorts, p, tables), openPorts, p.http);
    var afterBanners := BannerPass(afterHttp.(services := map[]), BannerTargets(openPorts), p.banner, osHint,
                                   tables.services);
    BasicPass(afterBanners, openPorts, tables.services)
  }

  /** `value ?? fallback`. */
  function OrElse(value: Option<string>, fallback: string): string
  {
    if value.Some? then value.value else fallback
  }

  /** The returned record: only the three names, with their defaults. */
  function Outcome(info: Info): DeviceIdentity
  {
    DeviceIdentity(OrElse(info.hostname, "UNKNOWN"), OrElse(info.deviceType, "UNKNOWN"), OrElse(info.idMethod, "NONE"))
  }

  function Identify(ip: string, openPorts: seq<int>, p: Probes, tables: Tables): DeviceIdentity
  {
    Outcome(Identified(ip, openPorts, p, tables))
  }

  // ---------------------------------------------------------------------
  // identifyDevice
  // ---------------------------------------------------------------------

  /** `identifyDevice`: the chains, then the HTTP loop, the banner loop and
      the basic-service loop, filling `deviceInfo` step by step. */
  method IdentifyDevice(ip: string, openPorts: seq<int>, p: Probes, tables: Tables) returns (identity: DeviceIdentity)
    ensures identity == Identify(ip, openPorts, p, tables)
  {
    var snmpInfo := if 161 in openPorts then p.snmp else None;
    var smbHostname := if 445 in openPorts then p.smb else None;
    var vendor: Option<string> := None;
    if Present(p.mac) {
      vendor := GetVendorFromMac(p.mac.value, tables.vendors, p.online);
    }
    var info := Info(None, None, None, None, map[]);
    match BestHostname(ip, p.dns, snmpInfo, smbHostname, p.netbios, p.mdns, vendor) {
      case Some(named) => info := info.(hostname := Some(named.hostname), idMethod := Some(named.idMethod));
      case None =>
    }
    var osHint := OsHint(snmpInfo);
    info := info.(deviceType := DeviceTypeOf(info.hostname, vendor, UpnpType(p.upnp), osHint));
    assert info == Start(ip, openPorts, p, tables);

    info := CheckHttpServices(info, openPorts, p.http);
    info := info.(services := map[]);
    info := GrabBanners(info, BannerTargets(openPorts), p.banner, osHint, tables.services);
    info := AddBasicServices(info, openPorts, tables.services);
    identity := DeviceIdentity(OrElse(info.hostname, "UNKNOWN"), OrElse(info.deviceType, "UNKNOWN"),
                               OrElse(info.idMethod, "NONE"));
  }

  /** The HTTP loop: each open HTTP port's answer, in port order. */
  method CheckHttpServices(start: Info, openPorts: seq<int>, http: int -> Option<HttpInfo>) returns (info: Info)
    ensures info == HttpPass(start, openPorts, http)
  {
    info := start;
    for i := 0 to |openPorts|
      invariant info == HttpPass(start, openPorts[..i], http)
    {
      var port := openPorts[i];
      assert openPorts[..i + 1][..i] == openPorts[..i];
      ghost var before := info;
      if port in HttpPorts {
        var httpInfo := http(port);
        if httpInfo.Some? {
          var h := httpInfo.value;
          if Present(h.server) {
            info := info.(httpServer := h.server);
          }
          if !Present(info.hostname) && Present(h.hostname) {
            info := info.(hostname := h.hostname);
            if !Present(info.idMethod) {
              info := info.(idMethod := Some("HTTP"));
            }
          }
          if Present(h.title) && !Present(info.deviceType) {
            var title := ToLower(h.title.value);
            var t := TitleType(title);
            if t.Some? {
              info := info.(deviceType := t);
              if !Present(info.idMethod) {
                info := info.(idMethod := Some("HTTP"));
              }
            }
          }
        }
        assert info == HttpStep(before, http(port));
      }
    }
    assert openPorts[..|openPorts|] == openPorts;
  }

  /** The banner loop over the first five banner ports. */
  method GrabBanners(start: Info, targets: seq<int>, banners: int -> Option<string>, osHint: Option<string>,
                     table: seq<ServiceName>) returns (info: Info)
    ensures info == BannerPass(start, targets, banners, osHint, table)
  {
    info := start;
    for i := 0 to |targets|
      invariant info == BannerPass(start, targets[..i], banners, osHint, table)
    {
      var port := targets[i];
      assert targets[..i + 1][..i] == targets[..i];
      ghost var before := info;
      var banner := banners(port);
      var service := IdentifyService(table, port, banner);
      if Present(service) {
        info := info.(services := info.services[port := service.value]);
        if port == 22 && Present(banner) && !Present(osHint) {
          var bannerLower := ToLower(banner.value);
          if Contains(bannerLower, "ubuntu") {
            info := info.(deviceType := if Present(info.deviceType) then info.deviceType else Some("Ubuntu Server"));
          } else if Contains(bannerLower, "debian") {
            info := info.(deviceType := if Present(info.deviceType) then info.deviceType else Some("Debian Server"));
          } else if Contains(bannerLower, "raspbian") {
            info := info.(deviceType := Some("Raspberry Pi"));
          }
        }
      }
      assert info == BannerStep(before, port, banner, osHint, table);
    }
    assert targets[..|targets|] == targets;
  }

  /** The loop giving every open port without a label the table's name. */
  method AddBasicServices(start: Info, openPorts: seq<int>, table: seq<ServiceName>) returns (info: Info)
    ensures info == BasicPass(start, openPorts, table)
  {
    info := start;
    for i := 0 to |openPorts|
      invariant info == BasicPass(start, openPorts[..i], table)
    {
      var port := openPorts[i];
      assert openPorts[..i + 1][..i] == openPorts[..i];
      if !(port in info.services && info.services[port] != "") {
        var basicService := IdentifyService(table, port, None);
        if Present(basicService) {
          info := info.(services := info.services[port := basicService.value]);
        }
      }
    }
    assert openPorts[..|openPorts|] == openPorts;
  }

  // ---------------------------------------------------------------------
  // getDevicesIdentity
  // ---------------------------------------------------------------------

  /** One identification attempt of a device: the probes of attempt `n`
      answer `probes(ip, n)`, and `finishes(ip, n)` says whether it ends
      before the 15 s timer. `identifyDevice` catches its own errors, so an
      attempt never rejects. */
  function Attempt(ip: string, openPorts: seq<int>, finishes: (string, nat) -> bool,
                   probes: (string, nat) -> Probes, tables: Tables): nat -> RaceOutcome<Option<DeviceIdentity>>
  {
    (n: nat) => if finishes(ip, n) then Resolved(Some(Identify(ip, openPorts, probes(ip, n), tables))) else TimedOut
  }

  /** The identity the timeout wrapper gives a device: `None` when both
      attempts time out. */
  function IdentityOf(ip: string, openPorts: seq<int>, finishes: (string, nat) -> bool,
                      probes: (string, nat) -> Probes, tables: Tables): Option<DeviceIdentity>
  {
    var run := RunFrom(Attempt(ip, openPorts, finishes, probes, tables), None, IdentifyRetry + 1, 0);
    if run.result.Success? then run.result.value else None
  }

  /** The `{ identity }` entry: the three names, or `{}`. */
  function IdentityEntry(identity: Option<DeviceIdentity>): Value
  {
    var inner := match identity
      case Some(d) => Obj([Prop("hostname", Str(d.hostname)), Prop("deviceType", Str(d.deviceType)),
                          Prop("identificationMethod", Str(d.identificationMethod))])
      case None => Obj([]);
    Obj([Prop("identity", inner)])
  }

  /** The result so far holds exactly the identified ips, each with its entry. */
  ghost predicate IdentityState(results: seq<Prop>, done: seq<string>, openPortsOf: string -> seq<int>,
                                finishes: (string, nat) -> bool, probes: (string, nat) -> Probes, tables: Tables)
  {
    UniqueKeys(results) &&
    (forall k :: k in Keys(results) <==> k in done) &&
    (forall k :: k in done ==> Get(results, k) == Some(IdentityEntry(IdentityOf(k, openPortsOf(k), finishes, probes, tables))))
  }

  /** `getDevicesIdentity`: the devices `Object.keys` lists are identified
      one after another under a 15 s timeout with one retry after 100 ms;
      each ip is keyed to its identity, or to `{}` when both attempts time
      out. */
  method GetDevicesIdentity(ips: seq<string>, openPortsOf: string -> seq<int>, finishes: (string, nat) -> bool,
                            probes: (string, nat) -> Probes, tables: Tables)
    returns (results: seq<Prop>)
    ensures IdentityState(results, ips, openPortsOf, finishes, probes, tables)
    ensures (forall i, j :: 0 <= i < j < |ips| ==> ips[i] != ips[j]) ==> Keys(results) == ips
  {
    results := [];
    for i := 0 to |ips|
      invariant IdentityState(results, ips[..i], openPortsOf, finishes, probes, tables)
      invariant (forall a, b :: 0 <= a < b < |ips| ==> ips[a] != ips[b]) ==> Keys(results) == ips[..i]
    {
      var deviceIp := ips[i];
      var identity := IdentifyWithTimeout(deviceIp, openPortsOf(deviceIp), finishes, probes, tables);
      var entry := IdentityEntry(identity);
      IdentityStep(results, ips[..i], deviceIp, openPortsOf, finishes, probes, tables);
      KeysPut(results, deviceIp, entry);
      if forall a, b :: 0 <= a < b < |ips| ==> ips[a] != ips[b] {
        assert deviceIp !in ips[..i];
      }
      PrefixSnoc(ips, i);
      results := Put(results, deviceIp, entry);
    }
    assert ips[..|ips|] == ips;
  }

  /** `callAsyncMethodWithTimeout(() => identifyDevice(...), 15000, null,
      { retry: 1, delay: 100 })` for one device. */
  method IdentifyWithTimeout(ip: string, openPorts: seq<int>, finishes: (string, nat) -> bool,
                             probes: (string, nat) -> Probes, tables: Tables)
    returns (identity: Option<DeviceIdentity>)
    ensures identity == IdentityOf(ip, openPorts, finishes, probes, tables)
  {
    var attempt := Attempt(ip, openPorts, finishes, probes, tables);
    var r, invocations, sleeps := CallAsyncMethodWithTimeout(attempt, IdentifyTimeout, None, IdentifyRetry, IdentifyDelay);
    AttemptsNeverReject(ip, openPorts, finishes, probes, tables);
    identity := r.value;
  }

  /** The timeout wrapper always succeeds on an identification. */
  lemma AttemptsNeverReject(ip: string, openPorts: seq<int>, finishes: (string, nat) -> bool,
                            probes: (string, nat) -> Probes, tables: Tables)
    ensures RunFrom(Attempt(ip, openPorts, finishes, probes, tables), None, IdentifyRetry + 1, 0).result.Success?
  {
    NeverRejected(Attempt(ip, openPorts, finishes, probes, tables), None, IdentifyRetry + 1, 0);
  }

  /** Storing an identified device's entry extends the state by that device. */
  lemma IdentityStep(results: seq<Prop>, done: seq<string>, ip: string, openPortsOf: string -> seq<int>,
                     finishes: (string, nat) -> bool, probes: (string, nat) -> Probes, tables: Tables)
    requires IdentityState(results, done, openPortsOf, finishes, probes, tables)
    ensures IdentityState(Put(results, ip, IdentityEntry(IdentityOf(ip, openPortsOf(ip), finishes, probes, tables))),
                          done + [ip], openPortsOf, finishes, probes, tables)
  {
    var entry := IdentityEntry(IdentityOf(ip, openPortsOf(ip), finishes, probes, tables));
    KeysPut(results, ip, entry);
    UniquePut(results, ip, entry);
    forall k | k in done + [ip]
      ensures Get(Put(results, ip, entry), k) == Some(IdentityEntry(IdentityOf(k, openPortsOf(k), finishes, probes, tables)))
    {
      GetPut(results, ip, entry, k);
    }
  }

  // ---------------------------------------------------------------------
  // Properties
  // ---------------------------------------------------------------------

  /** The hostname chain is the first usable candidate in order of
      preference: DNS, SNMP, SMB, NetBIOS, mDNS, MAC vendor. */
  lemma BestHostnameIsFirstCandidate(ip: string, dns: Option<string>, snmp: Option<SnmpInfo>, smb: Option<string>,
                                     netbios: Option<string>, mdns: Option<string>, vendor: Option<string>)
    ensures BestHostname(ip, dns, snmp, smb, netbios, mdns, vendor) ==
            FirstNamed(HostnameCandidates(ip, dns, snmp, smb, netbios, mdns, vendor), 0)
  {
    var c := HostnameCandidates(ip, dns, snmp, smb, netbios, mdns, vendor);
    assert c[0] == (if dns == Some(ip) then None else dns, "DNS") && c[1] == (SnmpHostname(snmp), "SNMP");
    assert c[2] == (smb, "SMB") && c[3] == (netbios, "NetBIOS") && c[4] == (mdns, "mDNS") && c[5] == (vendor, "MAC Vendor");
    assert FirstNamed(c, 6) == None;
    assert FirstNamed(c, 5) == if Present(vendor) then Some(Named(vendor.value, "MAC Vendor")) else None;
    assert FirstNamed(c, 4) == if Present(mdns) then Some(Named(mdns.value, "mDNS")) else FirstNamed(c, 5);
    assert FirstNamed(c, 3) == if Present(netbios) then Some(Named(netbios.value, "NetBIOS")) else FirstNamed(c, 4);
    assert FirstNamed(c, 2) == if Present(smb) then Some(Named(smb.value, "SMB")) else FirstNamed(c, 3);
  }

  /** A name, once found, and the method that found it, are never replaced:
      the HTTP pass fills a field only when it is empty. */
  predicate Consistent(info: Info)
  {
    (info.hostname.Some? ==> info.hostname.value != "" && info.idMethod.Some?) &&
    (info.idMethod.Some? ==> info.idMethod.value in NamingMethods) &&
    (info.deviceType.Some? ==> info.deviceType.value != "")
  }

  /** The HTTP answers set a hostname, a device type or the method only
      where none is set, never touch the labels, and keep the record
      consistent. */
  lemma {:induction false} HttpPassKeeps(info: Info, ports: seq<int>, http: int -> Option<HttpInfo>)
    ensures var r := HttpPass(info, ports, http);
      (Present(info.hostname) ==> r.hostname == info.hostname) &&
      (Present(info.idMethod) ==> r.idMethod == info.idMethod) &&
      (Present(info.deviceType) ==> r.deviceType == info.deviceType) &&
      r.services == info.services &&
      (Consistent(info) ==> Consistent(r))
    decreases |ports|
  {
    if ports != [] {
      HttpPassKeeps(info, ports[..|ports| - 1], http);
    }
  }

  /** Without any HTTP answer the HTTP pass changes nothing. */
  lemma {:induction false} HttpSilent(info: Info, ports: seq<int>, http: int -> Option<HttpInfo>)
    requires forall port :: http(port).None?
    ensures HttpPass(info, ports, http) == info
    decreases |ports|
  {
    if ports != [] {
      HttpSilent(info, ports[..|ports| - 1], http);
    }
  }

  /** The banner pass never touches the hostname, the method or the HTTP
      server, and without banners it leaves the device type alone. */
  lemma {:induction false} BannerPassKeeps(info: Info, ports: seq<int>, banner: int -> Option<string>,
                                           osHint: Option<string>, table: seq<ServiceName>)
    ensures var r := BannerPass(info, ports, banner, osHint, table);
      r.hostname == info.hostname && r.idMethod == info.idMethod && r.httpServer == info.httpServer &&
      ((forall k :: 0 <= k < |ports| ==> !Present(banner(ports[k]))) ==> r.deviceType == info.deviceType)
    decreases |ports|
  {
    if ports != [] {
      var init := ports[..|ports| - 1];
      var port := ports[|ports| - 1];
      BannerPassKeeps(info, init, banner, osHint, table);
      BannerStepKeeps(BannerPass(info, init, banner, osHint, table), port, banner(port), osHint, table);
      assert (forall k :: 0 <= k < |ports| ==> !Present(banner(ports[k]))) ==>
        (forall k :: 0 <= k < |init| ==> !Present(banner(init[k]))) && !Present(banner(port)) by {
        assert forall k :: 0 <= k < |init| ==> init[k] == ports[k];
      }
    }
  }

  /** One banner keeps the hostname, the method and the HTTP server, and no
      banner keeps the device type. */
  lemma BannerStepKeeps(info: Info, port: int, banner: Option<string>, osHint: Option<string>,
                        table: seq<ServiceName>)
    ensures var r := BannerStep(info, port, banner, osHint, table);
      r.hostname == info.hostname && r.idMethod == info.idMethod && r.httpServer == info.httpServer &&
      (!Present(banner) ==> r.deviceType == info.deviceType)
  {
  }

  /** Only the banners of the grabbed ports matter. */
  lemma {:induction false} BannerPassAgrees(info: Info, ports: seq<int>, b1: int -> Option<string>,
                                            b2: int -> Option<string>, osHint: Option<string>, table: seq<ServiceName>)
    requires forall k :: 0 <= k < |ports| ==> b1(ports[k]) == b2(ports[k])
    ensures BannerPass(info, ports, b1, osHint, table) == BannerPass(info, ports, b2, osHint, table)
    decreases |ports|
  {
    if ports != [] {
      BannerPassAgrees(info, ports[..|ports| - 1], b1, b2, osHint, table);
    }
  }

  /** The basic pass only adds labels: it keeps every label already there
      and gives every listed port the table's name when the table has one. */
  lemma {:induction false} BasicPassLabels(info: Info, ports: seq<int>, table: seq<ServiceName>)
    ensures var r := BasicPass(info, ports, table);
      r == info.(services := r.services) &&
      (forall port :: port in info.services && info.services[port] != "" ==>
         port in r.services && r.services[port] == info.services[port]) &&
      (forall k :: 0 <= k < |ports| && Present(FindService(table, ports[k])) ==>
         ports[k] in r.services && r.services[ports[k]] != "")
    decreases |ports|
  {
    if ports != [] {
      var init := ports[..|ports| - 1];
      var port := ports[|ports| - 1];
      BasicPassLabels(info, init, table);
      NoBannerUsesTable(table, port, None);
      assert forall k :: 0 <= k < |init| ==> init[k] == ports[k];
    }
  }

  /** The hostname and method the chain picks are the ones returned. */
  lemma NamedKept(ip: string, openPorts: seq<int>, p: Probes, tables: Tables, named: Named)
    requires BestHostname(ip, p.dns, SnmpAnswer(p, openPorts), SmbAnswer(p, openPorts), p.netbios, p.mdns,
                          Vendor(p, tables)) == Some(named)
    ensures Identify(ip, openPorts, p, tables).hostname == named.hostname
    ensures Identify(ip, openPorts, p, tables).identificationMethod == named.idMethod
  {
    var start := Start(ip, openPorts, p, tables);
    assert start.hostname == Some(named.hostname) && start.idMethod == Some(named.idMethod);
    assert Present(start.hostname) && Present(start.idMethod);
    var afterHttp := HttpPass(start, openPorts, p.http);
    HttpPassKeeps(start, openPorts, p.http);
    assert afterHttp.hostname == start.hostname && afterHttp.idMethod == start.idMethod;
    var osHint := OsHint(SnmpAnswer(p, openPorts));
    var afterBanners := BannerPass(afterHttp.(services := map[]), BannerTargets(openPorts), p.banner, osHint,
                                   tables.services);
    BannerPassKeeps(afterHttp.(services := map[]), BannerTargets(openPorts), p.banner, osHint, tables.services);
    BasicPassLabels(afterBanners, openPorts, tables.services);
    assert Identified(ip, openPorts, p, tables) == BasicPass(afterBanners, openPorts, tables.services);
  }

  /** The final record is consistent. */
  lemma IdentifiedConsistent(ip: string, openPorts: seq<int>, p: Probes, tables: Tables)
    ensures Consistent(Identified(ip, openPorts, p, tables))
  {
    var start := Start(ip, openPorts, p, tables);
    var afterHttp := HttpPass(start, openPorts, p.http);
    HttpPassKeeps(start, openPorts, p.http);
    var osHint := OsHint(SnmpAnswer(p, openPorts));
    var afterBanners := BannerPass(afterHttp.(services := map[]), BannerTargets(openPorts), p.banner, osHint,
                                   tables.services);
    BannerPassKeeps(afterHttp.(services := map[]), BannerTargets(openPorts), p.banner, osHint, tables.services);
    BannerTypesKept(afterHttp.(services := map[]), BannerTargets(openPorts), p.banner, osHint, tables.services);
    BasicPassLabels(afterBanners, openPorts, tables.services);
  }

  /** The banner pass sets only non-empty device types. */
  lemma {:induction false} BannerTypesKept(info: Info, ports: seq<int>, banner: int -> Option<string>,
                                           osHint: Option<string>, table: seq<ServiceName>)
    requires info.deviceType.Some? ==> info.deviceType.value != ""
    ensures var r := BannerPass(info, ports, banner, osHint, table);
      r.deviceType.Some? ==> r.deviceType.value != ""
    decreases |ports|
  {
    if ports != [] {
      var before := BannerPass(info, ports[..|ports| - 1], banner, osHint, table);
      var port := ports[|ports| - 1];
      BannerTypesKept(info, ports[..|ports| - 1], banner, osHint, table);
      BannerStepType(before, port, banner(port), osHint, table);
    }
  }

  /** One banner sets only a non-empty device type. */
  lemma BannerStepType(info: Info, port: int, banner: Option<string>, osHint: Option<string>, table: seq<ServiceName>)
    requires info.deviceType.Some? ==> info.deviceType.value != ""
    ensures var r := BannerStep(info, port, banner, osHint, table);
      r.deviceType.Some? ==> r.deviceType.value != ""
  {
    assert "Ubuntu Server" != "" && "Debian Server" != "" && "Raspberry Pi" != "";
  }

  /** The method is one of the naming methods or 'NONE', and 'NONE' only
      comes with the 'UNKNOWN' hostname. */
  lemma IdentityNames(ip: string, openPorts: seq<int>, p: Probes, tables: Tables)
    ensures var r := Identify(ip, openPorts, p, tables);
      (r.identificationMethod in NamingMethods || r.identificationMethod == "NONE") &&
      (r.identificationMethod == "NONE" ==> r.hostname == "UNKNOWN") &&
      r.hostname != "" && r.deviceType != ""
  {
    IdentifiedConsistent(ip, openPorts, p, tables);
  }

  /** With port 161 closed the SNMP answer plays no part. */
  lemma SnmpNeedsPort161(ip: string, openPorts: seq<int>, p: Probes, tables: Tables, other: Option<SnmpInfo>)
    requires 161 !in openPorts
    ensures Identified(ip, openPorts, p.(snmp := other), tables) == Identified(ip, openPorts, p, tables)
  {
    assert SnmpAnswer(p.(snmp := other), openPorts) == SnmpAnswer(p, openPorts);
  }

  /** With port 445 closed the SMB answer plays no part. */
  lemma SmbNeedsPort445(ip: string, openPorts: seq<int>, p: Probes, tables: Tables, other: Option<string>)
    requires 445 !in openPorts
    ensures Identified(ip, openPorts, p.(smb := other), tables) == Identified(ip, openPorts, p, tables)
  {
    assert SmbAnswer(p.(smb := other), openPorts) == SmbAnswer(p, openPorts);
  }

  /** Only the banners of the first five open banner ports matter. */
  lemma OnlyTargetBanners(ip: string, openPorts: seq<int>, p: Probes, tables: Tables, other: int -> Option<string>)
    requires forall k :: 0 <= k < |BannerTargets(openPorts)| ==>
               other(BannerTargets(openPorts)[k]) == p.banner(BannerTargets(openPorts)[k])
    ensures Identified(ip, openPorts, p.(banner := other), tables) == Identified(ip, openPorts, p, tables)
  {
    var q := p.(banner := other);
    var osHint := OsHint(SnmpAnswer(p, openPorts));
    var afterHttp := HttpPass(Start(ip, openPorts, p, tables), openPorts, p.http);
    assert Start(ip, openPorts, q, tables) == Start(ip, openPorts, p, tables);
    BannerPassAgrees(afterHttp.(services := map[]), BannerTargets(openPorts), other, p.banner, osHint, tables.services);
  }

  /** Every open port of the banner list is a banner candidate. */
  lemma {:induction false} BannerTargetsComplete(openPorts: seq<int>)
    ensures var r := BannerCandidates(openPorts);
      forall port :: port in openPorts && port in BannerPorts ==> port in r
  {
    if openPorts != [] {
      BannerTargetsComplete(openPorts[1..]);
      assert forall port :: port in openPorts && port != openPorts[0] ==> port in openPorts[1..];
    }
  }

  /** A device no probe answers is 'UNKNOWN', of type 'UNKNOWN', named by 'NONE'. */
  lemma NoAnswers(ip: string, openPorts: seq<int>, p: Probes, tables: Tables)
    requires p.dns.None? && p.mac.None? && p.netbios.None? && p.mdns.None? && p.snmp.None? && p.smb.None?
    requires p.upnp.None?
    requires forall port :: p.http(port).None?
    requires forall port :: p.banner(port).None?
    ensures Identify(ip, openPorts, p, tables) == DeviceIdentity("UNKNOWN", "UNKNOWN", "NONE")
  {
    var start := Start(ip, openPorts, p, tables);
    assert NameToCheck(None, None, None) == "";
    assert start == Info(None, None, None, None, map[]);
    HttpSilent(start, openPorts, p.http);
    BannerPassKeeps(start, BannerTargets(openPorts), p.banner, None, tables.services);
    BasicPassLabels(BannerPass(start, BannerTargets(openPorts), p.banner, None, tables.services), openPorts,
                    tables.services);
  }

  /** The chain names no type exactly when there is no vendor, no UPnP
      type, no OS hint and the name to check holds none of its words. */
  lemma DeviceTypeNeedsEvidence(hostname: Option<string>, vendor: Option<string>, upnpType: Option<string>,
                                osHint: Option<string>)
    requires osHint.None? || osHint.value in OsHints
    ensures DeviceTypeOf(hostname, vendor, upnpType, osHint).None? <==>
      !Present(vendor) && !Present(upnpType) && osHint.None? &&
      forall k :: 0 <= k < |NameKeywords| ==> !Contains(NameToCheck(hostname, vendor, upnpType), NameKeywords[k])
  {
    var name := NameToCheck(hostname, vendor, upnpType);
    if DeviceTypeFor(name, vendor, upnpType, osHint).None? {
      UntypedHasNoEvidence(name, vendor, upnpType, osHint);
    } else if !Present(vendor) && !Present(upnpType) && osHint.None? {
      TypedHasKeyword(name, vendor, upnpType, osHint);
    }
  }

  lemma UntypedHasNoEvidence(name: string, vendor: Option<string>, upnpType: Option<string>, osHint: Option<string>)
    requires osHint.None? || osHint.value in OsHints
    requires DeviceTypeFor(name, vendor, upnpType, osHint).None?
    ensures !Present(vendor) && !Present(upnpType) && osHint.None?
    ensures forall k :: 0 <= k < |NameKeywords| ==> !Contains(name, NameKeywords[k])
  {
    assert NameKeywords[0] == "iphone";
    assert NameKeywords[1] == "ipad";
    assert NameKeywords[2] == "macbook";
    assert NameKeywords[3] == "imac";
    assert NameKeywords[4] == "samsung";
    assert NameKeywords[5] == "nas";
    assert NameKeywords[6] == "router";
    assert NameKeywords[7] == "gateway";
    assert NameKeywords[8] == "printer";
    assert NameKeywords[9] == "epson";
    assert NameKeywords[10] == "android";
    assert NameKeywords[11] == "iot";
    assert NameKeywords[12] == "smart";
  }

  lemma TypedHasKeyword(name: string, vendor: Option<string>, upnpType: Option<string>, osHint: Option<string>)
    requires !Present(vendor) && !Present(upnpType) && osHint.None?
    requires DeviceTypeFor(name, vendor, upnpType, osHint).Some?
    ensures exists k :: 0 <= k < |NameKeywords| && Contains(name, NameKeywords[k])
  {
    assert NameKeywords[0] == "iphone";
    assert NameKeywords[1] == "ipad";
    assert NameKeywords[2] == "macbook";
    assert NameKeywords[3] == "imac";
    assert NameKeywords[4] == "samsung";
    assert NameKeywords[5] == "nas";
    assert NameKeywords[6] == "router";
    assert NameKeywords[7] == "gateway";
    assert NameKeywords[8] == "printer";
    assert NameKeywords[9] == "epson";
    assert NameKeywords[10] == "android";
    assert NameKeywords[11] == "iot";
    assert NameKeywords[12] == "smart";
  }

  /** The timeout wrapper: the first attempt that finishes gives the
      identity; when both time out the device gets `{}`. */
  lemma IdentityOfAttempts(ip: string, openPorts: seq<int>, finishes: (string, nat) -> bool,
                           probes: (string, nat) -> Probes, tables: Tables)
    ensures finishes(ip, 0) ==>
      IdentityOf(ip, openPorts, finishes, probes, tables) == Some(Identify(ip, openPorts, probes(ip, 0), tables))
    ensures !finishes(ip, 0) && finishes(ip, 1) ==>
      IdentityOf(ip, openPorts, finishes, probes, tables) == Some(Identify(ip, openPorts, probes(ip, 1), tables))
    ensures !finishes(ip, 0) && !finishes(ip, 1) ==> IdentityOf(ip, openPorts, finishes, probes, tables) == None
  {
    var attempt := Attempt(ip, openPorts, finishes, probes, tables);
    assert RunFrom(attempt, None, 2, 0) ==
      if finishes(ip, 0) then Run(Success(Some(Identify(ip, openPorts, probes(ip, 0), tables))), 1)
      else RunFrom(attempt, None, 2, 1);
  }
}
