/** `isDeviceAlive` (`src/device-discovery/helpers/is-device-alive.ts`): a
    host is alive when it answers a ping, else when the ARP table knows it,
    else when one of the given ports is open. The three probes are the
    oracles of their own modules; the 100 ms pause before the ARP lookup is
    left to them. */
module Liveness {
  import opened Wrappers
  import opened Ping
  import opened Arp
  import opened OpenPorts

  /** How a host was found: `'ping' | 'arp' | 'port-scan'`. */
  datatype DetectionMethod = PingReply | ArpEntry | PortScan

  /** `DeviceScanResult`; `null` detection is `None`. */
  datatype DeviceScanResult = DeviceScanResult(ip: string, isAlive: bool, detectionMethod: Option<DetectionMethod>)

  function MethodText(m: DetectionMethod): string
  {
    match m
    case PingReply => "ping"
    case ArpEntry => "arp"
    case PortScan => "port-scan"
  }

  /** `Math.min(timeout, 1000)`: the ping never waits more than a second. */
  function PingTimeout(timeout: int): (t: int)
    ensures t <= timeout && t <= 1000 && (t == timeout || t == 1000)
  {
    if timeout <= 1000 then timeout else 1000
  }

  /** The cascade once the three answers are known: the first stage that
      answers decides, a failing ARP lookup throws, and a host no stage
      finds is not alive. */
  function Cascade(ip: string, pingResponded: bool, inArpTable: Result<bool>, hasOpenPort: bool): Result<DeviceScanResult>
  {
    if pingResponded then Success(DeviceScanResult(ip, true, Some(PingReply)))
    else if inArpTable.Failure? then Failure(inArpTable.error)
    else if inArpTable.value then Success(DeviceScanResult(ip, true, Some(ArpEntry)))
    else if hasOpenPort then Success(DeviceScanResult(ip, true, Some(PortScan)))
    else Success(DeviceScanResult(ip, false, None))
  }

  /** `isDeviceAlive`: the stages run in order and stop at the first that
      finds the host. Besides the result, `arpQueried` says whether the ARP
      table was read and `probed` lists the ports whose probes started. */
  method IsDeviceAlive(ip: string, ports: seq<int>, timeout: int, isWindows: bool,
                       pingExec: (string, int) -> bool, arpExec: string -> Result<string>,
                       probe: (string, int, int) -> ProbeOutcome,
                       arrange: seq<ProbeOutcome> -> seq<ProbeOutcome>)
    returns (r: Result<DeviceScanResult>, arpQueried: bool, probed: seq<int>)
    requires forall xs :: multiset(arrange(xs)) == multiset(xs)
    ensures r == Cascade(ip, PingDevice(isWindows, ip, Some(PingTimeout(timeout)), pingExec),
                         IsDeviceInArpTable(isWindows, ip, arpExec), AnyOpen(ip, ports, timeout, probe))
    ensures arpQueried <==> !PingDevice(isWindows, ip, Some(PingTimeout(timeout)), pingExec)
    ensures probed != [] ==> arpQueried && IsDeviceInArpTable(isWindows, ip, arpExec) == Success(false)
    ensures arpQueried && IsDeviceInArpTable(isWindows, ip, arpExec) == Success(false) && !AnyOpen(ip, ports, timeout, probe)
            ==> probed == ports
  {
    arpQueried, probed := false, [];
    var pingResponded := PingDevice(isWindows, ip, Some(PingTimeout(timeout)), pingExec);
    if pingResponded {
      return Success(DeviceScanResult(ip, true, Some(PingReply))), arpQueried, probed;
    }
    arpQueried := true;
    var isInArpTable := IsDeviceInArpTable(isWindows, ip, arpExec);
    if isInArpTable.Failure? {
      return Failure(isInArpTable.error), arpQueried, probed;
    }
    if isInArpTable.value {
      return Success(DeviceScanResult(ip, true, Some(ArpEntry))), arpQueried, probed;
    }
    var hasOpenPort;
    hasOpenPort, probed := DeviceHasOpenPorts(ip, ports, timeout, probe, arrange);
    if hasOpenPort {
      return Success(DeviceScanResult(ip, true, Some(PortScan))), arpQueried, probed;
    }
    r := Success(DeviceScanResult(ip, false, None));
  }

  // ---------------------------------------------------------------------
  // Properties
  // ---------------------------------------------------------------------

  /** A result keeps the address it was asked about, and the host is alive
      exactly when a detection method is named. */
  lemma CascadeShape(ip: string, pingResponded: bool, inArpTable: Result<bool>, hasOpenPort: bool)
    ensures var r := Cascade(ip, pingResponded, inArpTable, hasOpenPort);
      r.Success? ==> r.value.ip == ip && (r.value.isAlive <==> r.value.detectionMethod.Some?)
  {
  }

  /** The host is found exactly when some stage finds it, and the method is
      that of the first stage that does. */
  lemma CascadeAlive(ip: string, pingResponded: bool, inArpTable: Result<bool>, hasOpenPort: bool)
    requires pingResponded || inArpTable.Success?
    ensures var r := Cascade(ip, pingResponded, inArpTable, hasOpenPort);
      r.Success? &&
      (r.value.isAlive <==> pingResponded || inArpTable.value || hasOpenPort) &&
      (r.value.detectionMethod == Some(PingReply) <==> pingResponded) &&
      (r.value.detectionMethod == Some(ArpEntry) <==> !pingResponded && inArpTable.value) &&
      (r.value.detectionMethod == Some(PortScan) <==> !pingResponded && !inArpTable.value && hasOpenPort)
  {
  }

  /** A failing ARP lookup throws, but only when the ping got no answer. */
  lemma CascadeArpError(ip: string, pingResponded: bool, inArpTable: Result<bool>, hasOpenPort: bool)
    ensures Cascade(ip, pingResponded, inArpTable, hasOpenPort).Failure? <==> !pingResponded && inArpTable.Failure?
  {
  }
}
