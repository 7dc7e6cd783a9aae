/** The port scan of discovered devices (`src/port-scan/index.ts`): every
    port of every device is probed, and each device gets the list of its open
    ports. The probe is an oracle giving the status of (ip, port, timeout);
    the order in which the executor returns a device's results is another. */
module PortScan {
  import opened Js
  import opened Values
  import opened Parallel
  import opened ArrayUtil
  import opened PortStatus

  /** The executor limit used per device, fixed whatever the configured
      concurrency. */
  const MaxConcurrentPorts: nat := 5

  /** The record `{ port, status }` a probe task returns. */
  function PortRecord(port: int, status: Status): seq<Prop>
  {
    [Prop("port", Num(Int(port))), Prop("status", Str(StatusText(status)))]
  }

  /** The probe task for one port of the device. */
  function ProbeTask(ip: string, timeout: int, status: (string, int, int) -> Status, port: int): seq<Prop>
  {
    PortRecord(port, status(ip, port, timeout))
  }

  /** The probe results in input order. */
  function Records(ip: string, ports: seq<int>, timeout: int, status: (string, int, int) -> Status): seq<seq<Prop>>
  {
    Map((port: int) => ProbeTask(ip, timeout, status, port), ports)
  }

  /** The filter `port.status === 'open'`. */
  predicate IsOpenRecord(r: seq<Prop>)
  {
    Lookup(r, "status") == Str("open")
  }

  function FilterOpen(records: seq<seq<Prop>>): seq<seq<Prop>>
  {
    Filter(IsOpenRecord, records)
  }

  /** The reference answer: the ports whose probe answers 'open', in input order. */
  function OpenPortValues(ip: string, ports: seq<int>, timeout: int, status: (string, int, int) -> Status): seq<Value>
  {
    if ports == [] then []
    else
      var head := if status(ip, ports[0], timeout) == Open then [Num(Int(ports[0]))] else [];
      head + OpenPortValues(ip, ports[1..], timeout, status)
  }

  /** `scanDevicePorts`: the executor returns the probe results in the order
      `settled` gives; the open ones are kept and their ports read out. The
      open ports are, as a multiset, exactly the ports that answer 'open'. */
  method ScanDevicePorts(ip: string, ports: seq<int>, timeout: int,
                         status: (string, int, int) -> Status, settled: seq<seq<Prop>>)
    returns (openPorts: seq<Value>)
    requires multiset(settled) == multiset(Records(ip, ports, timeout, status))
    ensures multiset(openPorts) == multiset(OpenPortValues(ip, ports, timeout, status))
  {
    var results := settled;
    var filteredResults := FilterOpen(results);
    openPorts := CreateArrayFromObjectKey(filteredResults, "port");
    FilterPermutation(IsOpenRecord, settled, Records(ip, ports, timeout, status));
    PluckPermutation(FilterOpen(settled), FilterOpen(Records(ip, ports, timeout, status)), "port");
    OpenRecordsPorts(ip, ports, timeout, status);
  }

  /** In input order, reading the port of the open records gives the open ports. */
  lemma {:induction false} OpenRecordsPorts(ip: string, ports: seq<int>, timeout: int, status: (string, int, int) -> Status)
    ensures Pluck(FilterOpen(Records(ip, ports, timeout, status)), "port") == OpenPortValues(ip, ports, timeout, status)
  {
    if ports != [] {
      var recs := Records(ip, ports, timeout, status);
      var r := ProbeTask(ip, timeout, status, ports[0]);
      assert recs == [r] + Records(ip, ports[1..], timeout, status);
      assert Lookup(r, "status") == Str(StatusText(status(ip, ports[0], timeout)));
      assert Lookup(r, "port") == Num(Int(ports[0]));
      OpenRecordsPorts(ip, ports[1..], timeout, status);
      if IsOpenRecord(r) {
        assert FilterOpen(recs) == [r] + FilterOpen(Records(ip, ports[1..], timeout, status));
      }
    }
  }

  /** The entry `{ openPorts }` a device gets. */
  predicate ScanEntry(v: Value, ip: string, ports: seq<int>, timeout: int, status: (string, int, int) -> Status)
  {
    v.Obj? && |v.props| == 1 && v.props[0].key == "openPorts" && v.props[0].val.Arr? &&
    multiset(v.props[0].val.items) == multiset(OpenPortValues(ip, ports, timeout, status))
  }

  /** `getDevicesOpenPorts`: the devices are scanned one after another and
      each ip is keyed to its open ports. Every ip of the input, and no other
      key, is in the result; with distinct ips the keys keep the input order. */
  method GetDevicesOpenPorts(ips: seq<string>, ports: seq<int>, timeout: int,
                             status: (string, int, int) -> Status,
                             arrange: seq<seq<Prop>> -> seq<seq<Prop>>)
    returns (results: seq<Prop>)
    requires forall xs :: multiset(arrange(xs)) == multiset(xs)
    ensures ScanState(results, ips, ports, timeout, status)
    ensures (forall i, j :: 0 <= i < j < |ips| ==> ips[i] != ips[j]) ==> Keys(results) == ips
  {
    results := [];
    var i := 0;
    while i < |ips|
      invariant 0 <= i <= |ips|
      invariant ScanState(results, ips[..i], ports, timeout, status)
      invariant (forall a, b :: 0 <= a < b < |ips| ==> ips[a] != ips[b]) ==> Keys(results) == ips[..i]
    {
      var ip := ips[i];
      var openPorts := ScanDevicePorts(ip, ports, timeout, status, arrange(Records(ip, ports, timeout, status)));
      var entry := Obj([Prop("openPorts", Arr(openPorts))]);
      ScanStep(results, ips[..i], ip, entry, ports, timeout, status);
      KeysPut(results, ip, entry);
      if forall a, b :: 0 <= a < b < |ips| ==> ips[a] != ips[b] {
        assert ip !in ips[..i];
      }
      PrefixSnoc(ips, i);
      results := Put(results, ip, entry);
      i := i + 1;
    }
    assert ips[..i] == ips;
  }

  /** The result so far holds exactly the scanned ips, each with its entry. */
  ghost predicate ScanState(results: seq<Prop>, done: seq<string>, ports: seq<int>, timeout: int,
                      status: (string, int, int) -> Status)
  {
    UniqueKeys(results) &&
    (forall k :: k in Keys(results) <==> k in done) &&
    (forall k :: k in done ==> ScanEntry(Lookup(results, k), k, ports, timeout, status))
  }

  /** Storing a scanned device's entry extends the state by that device. */
  lemma ScanStep(results: seq<Prop>, done: seq<string>, ip: string, entry: Value,
                 ports: seq<int>, timeout: int, status: (string, int, int) -> Status)
    requires ScanState(results, done, ports, timeout, status)
    requires ScanEntry(entry, ip, ports, timeout, status)
    ensures ScanState(Put(results, ip, entry), done + [ip], ports, timeout, status)
  {
    KeysPut(results, ip, entry);
    UniquePut(results, ip, entry);
    forall k | k in done + [ip]
      ensures ScanEntry(Lookup(Put(results, ip, entry), k), k, ports, timeout, status)
    {
      GetPut(results, ip, entry, k);
    }
  }
}
