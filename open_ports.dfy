/** `deviceHasOpenPorts` (`src/utils/network/device/device-has-open-ports.ts`):
    the ports are probed in batches of five, and the search stops after the
    first batch with an open port. The probe of one port is an oracle; the
    order in which a batch's probes settle is another. */
module OpenPorts {
  import opened Wrappers
  import opened Parallel
  import opened PortStatus

  const MaxConcurrentPorts: nat := 5

  /** How one `getPortStatus` promise ends, as the batch sees it. */
  datatype ProbeOutcome = Resolved(status: Status) | Rejected

  /** The probe of `port` on `ip` answers 'open'. */
  predicate OpenAt(ip: string, port: int, timeout: int, probe: (string, int, int) -> ProbeOutcome)
  {
    probe(ip, port, timeout) == Resolved(Open)
  }

  /** Some port of the list answers 'open'. */
  predicate AnyOpen(ip: string, ports: seq<int>, timeout: int, probe: (string, int, int) -> ProbeOutcome)
  {
    exists i :: 0 <= i < |ports| && OpenAt(ip, ports[i], timeout, probe)
  }

  /** The outcomes of a batch's probes, in input order. */
  function Outcomes(ip: string, batch: seq<int>, timeout: int, probe: (string, int, int) -> ProbeOutcome): seq<ProbeOutcome>
  {
    Map((port: int) => probe(ip, port, timeout), batch)
  }

  function Min(a: int, b: int): int
  {
    if a <= b then a else b
  }

  /** The bookkeeping shared by the callbacks of one `hasAnyDeviceAnOpenPort`
      call: the count of settled non-open probes, the `resolved` flag, and the
      answer the promise settled with. */
  class BatchCheck {
    const size: nat
    var completedChecks: nat
    var resolved: bool
    var answer: Option<bool>

    /** The flag is set exactly when the promise has an answer. */
    predicate Valid()
      reads this
    {
      resolved <==> answer.Some?
    }

    constructor(size: nat)
      ensures Valid() && this.size == size
      ensures completedChecks == 0 && !resolved
    {
      this.size := size;
      completedChecks := 0;
      resolved := false;
      answer := None;
    }

    /** The `then`/`catch` callbacks for one settled probe: an 'open' result
        answers `true` unless an answer was given; any other result, and a
        rejection, counts one more completed check, and the last of them
        answers `false` unless an answer was given. */
    method OnSettled(o: ProbeOutcome)
      requires Valid()
      modifies this
      ensures Valid()
      ensures old(resolved) ==> answer == old(answer)
      ensures !old(resolved) && o == Resolved(Open) ==> answer == Some(true) && completedChecks == old(completedChecks)
      ensures !old(resolved) && o != Resolved(Open) ==>
        (completedChecks == old(completedChecks) + 1 &&
         answer == (if completedChecks == size then Some(false) else None))
    {
      if o.Resolved? {
        if o.status == Open && !resolved {
          resolved := true;
          answer := Some(true);
        } else {
          completedChecks := completedChecks + 1;
          if completedChecks == size && !resolved {
            resolved := true;
            answer := Some(false);
          }
        }
      } else {
        completedChecks := completedChecks + 1;
        if completedChecks == size && !resolved {
          resolved := true;
          answer := Some(false);
        }
      }
    }
  }

  /** `hasAnyDeviceAnOpenPort`: the batch's probes are started together and
      their callbacks run in the order `settled` gives (one outcome per port).
      The answer is `true` iff some port is open; an empty batch never
      answers. */
  method HasAnyDeviceAnOpenPort(ip: string, batch: seq<int>, timeout: int,
                                probe: (string, int, int) -> ProbeOutcome, settled: seq<ProbeOutcome>)
    returns (answer: Option<bool>)
    requires multiset(settled) == multiset(Outcomes(ip, batch, timeout, probe))
    ensures answer == if batch == [] then None else Some(AnyOpen(ip, batch, timeout, probe))
  {
    assert |settled| == |batch| by {
      assert |multiset(settled)| == |multiset(Outcomes(ip, batch, timeout, probe))|;
    }
    var check := new BatchCheck(|batch|);
    var k := 0;
    while k < |settled|
      invariant 0 <= k <= |settled|
      invariant check.Valid() && check.size == |batch|
      invariant check.answer == Some(true) <==> Resolved(Open) in settled[..k]
      invariant Resolved(Open) !in settled[..k] ==>
        check.completedChecks == k && check.answer == (if k == |batch| && k > 0 then Some(false) else None)
    {
      check.OnSettled(settled[k]);
      assert settled[..k + 1] == settled[..k] + [settled[k]];
      k := k + 1;
    }
    assert settled[..k] == settled;
    answer := check.answer;
    OpenInOutcomes(ip, batch, timeout, probe, settled);
  }

  /** An 'open' outcome is among the settled ones iff some port of the batch is open. */
  lemma OpenInOutcomes(ip: string, batch: seq<int>, timeout: int,
                       probe: (string, int, int) -> ProbeOutcome, settled: seq<ProbeOutcome>)
    requires multiset(settled) == multiset(Outcomes(ip, batch, timeout, probe))
    ensures Resolved(Open) in settled <==> AnyOpen(ip, batch, timeout, probe)
  {
    var outcomes := Outcomes(ip, batch, timeout, probe);
    assert Resolved(Open) in settled <==> Resolved(Open) in multiset(outcomes);
    if AnyOpen(ip, batch, timeout, probe) {
      var i :| 0 <= i < |batch| && OpenAt(ip, batch[i], timeout, probe);
      assert outcomes[i] == Resolved(Open);
    }
  }

  /** `deviceHasOpenPorts`: batches `ports[i..i+5]` for `i` = 0, 5, 10, ...
      are checked one after another; the first batch with an open port
      answers `true` and the rest are never probed. `arrange` gives the order
      in which a batch's outcomes settle. Besides the answer, `probed` lists
      the ports whose probes were started, in order. */
  method DeviceHasOpenPorts(ip: string, ports: seq<int>, timeout: int,
                            probe: (string, int, int) -> ProbeOutcome,
                            arrange: seq<ProbeOutcome> -> seq<ProbeOutcome>)
    returns (r: bool, probed: seq<int>)
    requires forall xs :: multiset(arrange(xs)) == multiset(xs)
    ensures r <==> AnyOpen(ip, ports, timeout, probe)
    ensures !r ==> probed == ports
    ensures r ==> exists f :: FirstOpenBatch(ip, ports, timeout, probe, f, probed)
  {
    probed := [];
    var i := 0;
    ghost var b := 0;
    while i < |ports|
      invariant 0 <= i && i == b * MaxConcurrentPorts
      invariant probed == ports[..Min(i, |ports|)]
      invariant forall j :: 0 <= j < Min(i, |ports|) ==> !OpenAt(ip, ports[j], timeout, probe)
    {
      var end := Min(i + MaxConcurrentPorts, |ports|);
      var batch := ports[i..end];
      var hasOpenPort := HasAnyDeviceAnOpenPort(ip, batch, timeout, probe, arrange(Outcomes(ip, batch, timeout, probe)));
      assert ports[..end] == probed + batch;
      probed := probed + batch;
      if hasOpenPort == Some(true) {
        BatchOpen(ip, ports, timeout, probe, i, end);
        var f := LeastOpen(ip, ports, timeout, probe, i, end);
        BatchOf(b, f);
        assert FirstOpenBatch(ip, ports, timeout, probe, f, probed);
        return true, probed;
      }
      BatchClosed(ip, ports, timeout, probe, i, end);
      i := i + MaxConcurrentPorts;
      b := b + 1;
    }
    assert probed == ports;
    r := false;
  }

  /** `f` is the first open port and `probed` runs up to the end of its batch. */
  predicate FirstOpenBatch(ip: string, ports: seq<int>, timeout: int, probe: (string, int, int) -> ProbeOutcome,
                           f: int, probed: seq<int>)
  {
    0 <= f < |ports| && OpenAt(ip, ports[f], timeout, probe) &&
    (forall j :: 0 <= j < f ==> !OpenAt(ip, ports[j], timeout, probe)) &&
    probed == ports[..Min(f / MaxConcurrentPorts * MaxConcurrentPorts + MaxConcurrentPorts, |ports|)]
  }

  /** An open port of a batch is an open port of the list. */
  lemma BatchOpen(ip: string, ports: seq<int>, timeout: int, probe: (string, int, int) -> ProbeOutcome,
                  lo: nat, hi: nat)
    requires lo <= hi <= |ports| && AnyOpen(ip, ports[lo..hi], timeout, probe)
    ensures exists j :: lo <= j < hi && OpenAt(ip, ports[j], timeout, probe)
  {
    var k :| 0 <= k < hi - lo && OpenAt(ip, ports[lo..hi][k], timeout, probe);
    assert ports[lo + k] == ports[lo..hi][k];
  }

  /** A batch without open ports has none at its positions in the list. */
  lemma BatchClosed(ip: string, ports: seq<int>, timeout: int, probe: (string, int, int) -> ProbeOutcome,
                    lo: nat, hi: nat)
    requires lo <= hi <= |ports| && !AnyOpen(ip, ports[lo..hi], timeout, probe)
    ensures forall j :: lo <= j < hi ==> !OpenAt(ip, ports[j], timeout, probe)
  {
    forall j | lo <= j < hi
      ensures !OpenAt(ip, ports[j], timeout, probe)
    {
      assert ports[j] == ports[lo..hi][j - lo];
    }
  }

  /** The first open port between `lo` and `hi`, when there is one. */
  lemma LeastOpen(ip: string, ports: seq<int>, timeout: int, probe: (string, int, int) -> ProbeOutcome,
                  lo: nat, hi: nat) returns (f: nat)
    requires lo <= hi <= |ports|
    requires exists j :: lo <= j < hi && OpenAt(ip, ports[j], timeout, probe)
    ensures lo <= f < hi && OpenAt(ip, ports[f], timeout, probe)
    ensures forall j :: lo <= j < f ==> !OpenAt(ip, ports[j], timeout, probe)
    decreases hi - lo
  {
    if OpenAt(ip, ports[lo], timeout, probe) {
      f := lo;
    } else {
      f := LeastOpen(ip, ports, timeout, probe, lo + 1, hi);
    }
  }

  /** A port index lies in the batch that starts at the multiple of five below it. */
  lemma BatchOf(b: nat, f: nat)
    requires b * MaxConcurrentPorts <= f < b * MaxConcurrentPorts + MaxConcurrentPorts
    ensures f / MaxConcurrentPorts * MaxConcurrentPorts == b * MaxConcurrentPorts
  {
  }
}
