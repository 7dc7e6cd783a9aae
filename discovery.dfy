/** `discoverDevices` (`src/device-discovery/index.ts`): every address of the
    configured range is checked with `isDeviceAlive` under the executor, the
    results are sorted by address number, and the hosts found alive are
    keyed by address with how they were found. The check of one address is
    an oracle (the outcome of `isDeviceAlive` for the configured ports and
    timeout) and the executor's settling order is another. */
module Discovery {
  import opened Wrappers
  import opened Js
  import opened Ip
  import opened Values
  import opened Parallel
  import opened Liveness

  /** `{ detectionMethod: i.detectionMethod! }`. The `!` checks nothing when
      the program runs, so a missing method would be stored as `null`. */
  function EntryOf(d: DeviceScanResult): Value
  {
    Obj([Prop("detectionMethod", match d.detectionMethod case Some(m) => Str(MethodText(m)) case None => Null)])
  }

  /** The entry the loop writes for one result. */
  function AsProp(d: DeviceScanResult): Prop
  {
    Prop(d.ip, EntryOf(d))
  }

  predicate IsAlive(d: DeviceScanResult)
  {
    d.isAlive
  }

  /** The sort key: `ipToNumber(a.ip) - ipToNumber(b.ip)` compares these. */
  function IpOrder(d: DeviceScanResult): int
  {
    IpToNumber(d.ip)
  }

  // ---------------------------------------------------------------------
  // Sorting in place
  // ---------------------------------------------------------------------

  predicate SortedBy<T>(s: seq<T>, key: T -> int)
  {
    forall i, j :: 0 <= i < j < |s| ==> key(s[i]) <= key(s[j])
  }

  /** Exchanges two neighbours. */
  method SwapDown<T>(a: array<T>, j: nat)
    requires 0 < j < a.Length
    modifies a
    ensures a[j - 1] == old(a[j]) && a[j] == old(a[j - 1])
    ensures forall k :: 0 <= k < a.Length && k != j - 1 && k != j ==> a[k] == old(a[k])
    ensures multiset(a[..]) == old(multiset(a[..]))
  {
    a[j - 1], a[j] := a[j], a[j - 1];
  }

  /** `array.sort((a, b) => key(a) - key(b))`, as an insertion sort: each
      element moves left past the elements with larger keys before it. */
  method SortBy<T>(a: array<T>, key: T -> int)
    modifies a
    ensures SortedBy(a[..], key)
    ensures multiset(a[..]) == old(multiset(a[..]))
  {
    if a.Length == 0 {
      return;
    }
    var i := 1;
    while i < a.Length
      invariant 1 <= i <= a.Length
      invariant forall p, q :: 0 <= p < q < i ==> key(a[p]) <= key(a[q])
      invariant multiset(a[..]) == old(multiset(a[..]))
    {
      var j := i;
      while j > 0 && key(a[j - 1]) > key(a[j])
        invariant 0 <= j <= i
        invariant forall p, q :: 0 <= p < q <= i && p != j && q != j ==> key(a[p]) <= key(a[q])
        invariant forall q :: j < q <= i ==> key(a[j]) < key(a[q])
        invariant multiset(a[..]) == old(multiset(a[..]))
      {
        SwapDown(a, j);
        j := j - 1;
      }
      i := i + 1;
    }
  }

  // ---------------------------------------------------------------------
  // The record of alive hosts
  // ---------------------------------------------------------------------

  /** `sortedResults.forEach(...)` from the record `acc` on: each alive
      result is written under its address. */
  function NormalizeInto(acc: seq<Prop>, results: seq<DeviceScanResult>): seq<Prop>
    decreases |results|
  {
    if results == [] then acc
    else NormalizeInto(if results[0].isAlive then Put(acc, results[0].ip, EntryOf(results[0])) else acc, results[1..])
  }

  /** The entries of the alive results, in order. */
  function Records(results: seq<DeviceScanResult>): seq<Prop>
  {
    Map(AsProp, Filter(IsAlive, results))
  }

  /** `discoverDevices`. The range error of `generateIpRange` is thrown; the
      check of an address never fails (a failing ARP lookup would leave a
      `null` that the sort cannot read). */
  method DiscoverDevices(startIp: string, endIp: string, check: string -> DeviceScanResult,
                         arrange: seq<DeviceScanResult> -> seq<DeviceScanResult>)
    returns (r: Result<seq<Prop>>)
    requires forall xs :: multiset(arrange(xs)) == multiset(xs)
    requires forall ip :: check(ip).ip == ip
    ensures r.Failure? <==> IpToNumber(startIp) > IpToNumber(endIp)
    ensures r.Success? ==> Discovered(r.value, IpToNumber(startIp), IpToNumber(endIp), check)
  {
    var ipAddresses := GenerateIpRange(startIp, endIp);
    if ipAddresses.Failure? {
      return Failure(ipAddresses.error);
    }
    var ips := ipAddresses.value;
    var scanResult := arrange(Map(check, ips));
    var sortedResults := ToArray(scanResult);
    SortBy(sortedResults, IpOrder);
    var normalizedResult := Normalize(sortedResults);
    GeneratedOutput(startIp, endIp, ipAddresses, check, sortedResults[..]);
    r := Success(normalizedResult);
  }

  /** `sortedResults.forEach(...)`: the alive results written under their
      addresses, in order. */
  method Normalize(sortedResults: array<DeviceScanResult>) returns (normalizedResult: seq<Prop>)
    ensures normalizedResult == NormalizeInto([], sortedResults[..])
  {
    normalizedResult := [];
    for i := 0 to sortedResults.Length
      invariant NormalizeInto(normalizedResult, sortedResults[i..]) == NormalizeInto([], sortedResults[..])
    {
      assert sortedResults[i..] == [sortedResults[i]] + sortedResults[i + 1..];
      if sortedResults[i].isAlive {
        normalizedResult := Put(normalizedResult, sortedResults[i].ip, EntryOf(sortedResults[i]));
      }
    }
    assert sortedResults[sortedResults.Length..] == [];
  }

  /** What `discoverDevices` promises of its record: its keys are exactly
      the canonical addresses from `lo` to `hi` whose check finds them
      alive, each holds its own check's entry, and they ascend by number. */
  ghost predicate Discovered(out: seq<Prop>, lo: int, hi: int, check: string -> DeviceScanResult)
  {
    (forall k :: k in Keys(out) <==> InRange(k, lo, hi) && check(k).isAlive) &&
    (forall i :: 0 <= i < |out| ==> out[i].val == EntryOf(check(out[i].key))) &&
    (forall i, j :: 0 <= i < j < |out| ==> IpToNumber(out[i].key) < IpToNumber(out[j].key))
  }

  /** The record built from any sorted arrangement of the checks of the
      generated range holds the alive canonical addresses of the range, each
      with its check's entry, in ascending numeric order. */
  lemma DiscoveryOutput(lo: int, hi: int, ips: seq<string>, check: string -> DeviceScanResult,
                        sorted: seq<DeviceScanResult>)
    requires -0x8000_0000 <= lo && hi < 0x8000_0000
    requires forall ip :: check(ip).ip == ip
    requires |ips| == hi - lo + 1
    requires forall i :: 0 <= i < |ips| ==> ips[i] == NumberToIp(lo + i)
    requires multiset(sorted) == multiset(Map(check, ips))
    requires SortedBy(sorted, IpOrder)
    ensures Discovered(NormalizeInto([], sorted), lo, hi, check)
  {
    IpReadsBack(lo, hi);
    RangeMembers(ips, lo, hi, IpToNumber, NumberToIp);
    ScanOutput(ips, lo, IpToNumber, IpOrder, check, sorted);
    KeysInRange(NormalizeInto([], sorted), ips, lo, hi, check);
  }

  /** `DiscoveryOutput` for the result of `generateIpRange`. */
  lemma GeneratedOutput(startIp: string, endIp: string, generated: Result<seq<string>>,
                        check: string -> DeviceScanResult, sorted: seq<DeviceScanResult>)
    requires forall ip :: check(ip).ip == ip
    requires generated.Success?
    requires |generated.value| == IpToNumber(endIp) - IpToNumber(startIp) + 1
    requires forall i :: 0 <= i < |generated.value| ==> generated.value[i] == NumberToIp(IpToNumber(startIp) + i)
    requires multiset(sorted) == multiset(Map(check, generated.value))
    requires SortedBy(sorted, IpOrder)
    ensures Discovered(NormalizeInto([], sorted), IpToNumber(startIp), IpToNumber(endIp), check)
  {
    DiscoveryOutput(IpToNumber(startIp), IpToNumber(endIp), generated.value, check, sorted);
  }

  /** A fresh array holding the results in their settling order. */
  method ToArray<T>(s: seq<T>) returns (a: array<T>)
    ensures fresh(a) && a[..] == s
  {
    a := new T[|s|](k requires 0 <= k < |s| => s[k]);
  }

  // ---------------------------------------------------------------------
  // The generated range
  // ---------------------------------------------------------------------

  /** `k` is an address of the range `lo..hi`, written as `numberToIp`
      writes it (no leading zeros). */
  predicate InRange(k: string, lo: int, hi: int)
  {
    lo <= IpToNumber(k) <= hi && k == NumberToIp(IpToNumber(k))
  }

  /** Keys that are the alive addresses of the generated range are the
      alive canonical addresses between its ends. */
  lemma KeysInRange(out: seq<Prop>, ips: seq<string>, lo: int, hi: int, check: string -> DeviceScanResult)
    requires forall k :: k in Keys(out) <==> k in ips && check(k).isAlive
    requires forall k :: k in ips <==> lo <= IpToNumber(k) <= hi && k == NumberToIp(IpToNumber(k))
    ensures forall k :: k in Keys(out) <==> InRange(k, lo, hi) && check(k).isAlive
  {
  }

  /** Within the 32-bit range every address `numberToIp` writes reads back
      as its own number. */
  lemma IpReadsBack(lo: int, hi: int)
    requires -0x8000_0000 <= lo && hi < 0x8000_0000
    ensures forall n :: lo <= n <= hi ==> IpToNumber(NumberToIp(n)) == n
  {
    forall n | lo <= n <= hi
      ensures IpToNumber(NumberToIp(n)) == n
    {
      NumberRoundTrip(n);
    }
  }

  /** A range written by `write` from `lo` to `hi` reads back position by
      position, and holds exactly the texts that `write` gives for their
      own numbers between the ends. */
  lemma RangeMembers(ips: seq<string>, lo: int, hi: int, read: string -> int, write: int -> string)
    requires |ips| == hi - lo + 1
    requires forall i :: 0 <= i < |ips| ==> ips[i] == write(lo + i)
    requires forall n :: lo <= n <= hi ==> read(write(n)) == n
    ensures forall i :: 0 <= i < |ips| ==> read(ips[i]) == lo + i
    ensures forall k :: k in ips <==> lo <= read(k) <= hi && k == write(read(k))
  {
    forall i | 0 <= i < |ips|
      ensures read(ips[i]) == lo + i
    {
      assert read(write(lo + i)) == lo + i;
    }
    forall k
      ensures k in ips <==> lo <= read(k) <= hi && k == write(read(k))
    {
      if lo <= read(k) <= hi && k == write(read(k)) {
        assert ips[read(k) - lo] == k;
      }
    }
  }

  // ---------------------------------------------------------------------
  // The record built from the sorted results
  // ---------------------------------------------------------------------

  /** From any range of addresses numbered `lo`, `lo + 1`, ... by `key`: the
      record has exactly the alive addresses of the range, each with the
      entry of its check, in strictly ascending key order. */
  lemma ScanOutput(addrs: seq<string>, lo: int, key: string -> int, order: DeviceScanResult -> int,
                   check: string -> DeviceScanResult, sorted: seq<DeviceScanResult>)
    requires forall i :: 0 <= i < |addrs| ==> key(addrs[i]) == lo + i
    requires forall x :: check(x).ip == x
    requires multiset(sorted) == multiset(Map(check, addrs))
    requires forall d :: order(d) == key(d.ip)
    requires SortedBy(sorted, order)
    ensures var out := NormalizeInto([], sorted);
      (forall k :: k in Keys(out) <==> k in addrs && check(k).isAlive) &&
      (forall i :: 0 <= i < |out| ==> out[i].val == EntryOf(check(out[i].key))) &&
      (forall i, j :: 0 <= i < j < |out| ==> key(out[i].key) < key(out[j].key))
  {
    var live := Filter(IsAlive, sorted);
    SortedFacts(addrs, lo, key, check, sorted);
    IpsDistinct(sorted, check);
    NormalizeAppends([], sorted);
    var out := NormalizeInto([], sorted);
    assert out == Records(sorted);
    forall k
      ensures k in Keys(out) <==> k in addrs && check(k).isAlive
    {
      LiveKeys(addrs, check, sorted, k);
    }
    LiveEntries(check, live);
    FilterSorted(IsAlive, sorted, order);
    LiveAscending(addrs, lo, key, order, check, live);
  }

  /** Every element of `s` is the check of an address of `addrs`. */
  ghost predicate FromChecks(s: seq<DeviceScanResult>, addrs: seq<string>, check: string -> DeviceScanResult)
  {
    forall x | x in s :: x == check(x.ip) && x.ip in addrs
  }

  /** The results, and the alive ones among them, are distinct checks of
      addresses of the range. */
  lemma SortedFacts(addrs: seq<string>, lo: int, key: string -> int, check: string -> DeviceScanResult,
                    sorted: seq<DeviceScanResult>)
    requires forall i :: 0 <= i < |addrs| ==> key(addrs[i]) == lo + i
    requires forall x :: check(x).ip == x
    requires multiset(sorted) == multiset(Map(check, addrs))
    ensures Distinct(sorted) && FromChecks(sorted, addrs, check)
    ensures Distinct(Filter(IsAlive, sorted)) && FromChecks(Filter(IsAlive, sorted), addrs, check)
  {
    var checked := Map(check, addrs);
    var live := Filter(IsAlive, sorted);
    CheckedDistinct(addrs, lo, key, check);
    forall x
      ensures multiset(sorted)[x] <= 1 && multiset(live)[x] <= 1
    {
      CountAtMostOne(checked, x);
      FilterCount(IsAlive, sorted, x);
    }
    CountsDistinct(sorted);
    CountsDistinct(live);
    forall x | x in sorted
      ensures x == check(x.ip) && x.ip in addrs
    {
      FromRange(addrs, check, sorted, x);
    }
    LiveFromChecks(addrs, check, sorted);
  }

  /** Each entry of the alive checks is the entry of its own address's check. */
  lemma LiveEntries(check: string -> DeviceScanResult, live: seq<DeviceScanResult>)
    requires forall x | x in live :: x == check(x.ip)
    ensures forall i :: 0 <= i < |live| ==> Map(AsProp, live)[i].val == EntryOf(check(Map(AsProp, live)[i].key))
  {
    forall i | 0 <= i < |live|
      ensures Map(AsProp, live)[i].val == EntryOf(check(Map(AsProp, live)[i].key))
    {
      assert live[i] in live;
    }
  }

  /** The alive results are checks of addresses of the range, like all results. */
  lemma LiveFromChecks(addrs: seq<string>, check: string -> DeviceScanResult, sorted: seq<DeviceScanResult>)
    requires FromChecks(sorted, addrs, check)
    ensures FromChecks(Filter(IsAlive, sorted), addrs, check)
  {
    forall x | x in Filter(IsAlive, sorted)
      ensures x == check(x.ip) && x.ip in addrs
    {
      FilterCount(IsAlive, sorted, x);
    }
  }

  /** Sorted distinct checks of distinctly numbered addresses have strictly
      ascending numbers. */
  lemma LiveAscending(addrs: seq<string>, lo: int, key: string -> int, order: DeviceScanResult -> int,
                      check: string -> DeviceScanResult,
                      live: seq<DeviceScanResult>)
    requires forall i :: 0 <= i < |addrs| ==> key(addrs[i]) == lo + i
    requires FromChecks(live, addrs, check)
    requires Distinct(live)
    requires forall d :: order(d) == key(d.ip)
    requires SortedBy(live, order)
    ensures forall i, j :: 0 <= i < j < |live| ==> key(live[i].ip) < key(live[j].ip)
  {
    forall i, j | 0 <= i < j < |live|
      ensures key(live[i].ip) < key(live[j].ip)
    {
      assert live[i] in live && live[j] in live;
      var p :| 0 <= p < |addrs| && addrs[p] == live[i].ip;
      var q :| 0 <= q < |addrs| && addrs[q] == live[j].ip;
      assert live[i] != live[j];
    }
  }

  /** The checks of distinctly numbered addresses are distinct. */
  lemma CheckedDistinct(addrs: seq<string>, lo: int, key: string -> int, check: string -> DeviceScanResult)
    requires forall i :: 0 <= i < |addrs| ==> key(addrs[i]) == lo + i
    requires forall x :: check(x).ip == x
    ensures Distinct(Map(check, addrs))
  {
    var checked := Map(check, addrs);
    forall i, j | 0 <= i < j < |checked|
      ensures checked[i] != checked[j]
    {
      assert checked[i].ip == addrs[i] && checked[j].ip == addrs[j];
      assert key(addrs[i]) != key(addrs[j]);
    }
  }

  /** A sorted result is the check of an address of the range. */
  lemma FromRange(addrs: seq<string>, check: string -> DeviceScanResult, sorted: seq<DeviceScanResult>, x: DeviceScanResult)
    requires forall y :: check(y).ip == y
    requires multiset(sorted) == multiset(Map(check, addrs))
    requires x in sorted
    ensures x == check(x.ip) && x.ip in addrs
  {
    assert x in multiset(Map(check, addrs));
    var p :| 0 <= p < |addrs| && Map(check, addrs)[p] == x;
  }

  /** Distinct results, each the check of its own address, have distinct addresses. */
  lemma IpsDistinct(results: seq<DeviceScanResult>, check: string -> DeviceScanResult)
    requires Distinct(results)
    requires forall x | x in results :: x == check(x.ip)
    ensures forall i, j :: 0 <= i < j < |results| ==> results[i].ip != results[j].ip
  {
    forall i, j | 0 <= i < j < |results|
      ensures results[i].ip != results[j].ip
    {
      assert results[i] in results && results[j] in results;
    }
  }

  /** The keys of the record are the alive addresses of the range. */
  lemma LiveKeys(addrs: seq<string>, check: string -> DeviceScanResult, sorted: seq<DeviceScanResult>, k: string)
    requires forall y :: check(y).ip == y
    requires multiset(sorted) == multiset(Map(check, addrs))
    requires FromChecks(sorted, addrs, check)
    ensures k in Keys(Records(sorted)) <==> k in addrs && check(k).isAlive
  {
    if k in Keys(Records(sorted)) {
      KeyIsLiveAddress(addrs, check, sorted, k);
    }
    if k in addrs && check(k).isAlive {
      LiveAddressIsKey(addrs, check, sorted, k);
    }
  }

  /** A key of the record is an alive address of the range. */
  lemma KeyIsLiveAddress(addrs: seq<string>, check: string -> DeviceScanResult, sorted: seq<DeviceScanResult>, k: string)
    requires FromChecks(sorted, addrs, check)
    requires k in Keys(Records(sorted))
    ensures k in addrs && check(k).isAlive
  {
    var live := Filter(IsAlive, sorted);
    var out := Records(sorted);
    var i :| 0 <= i < |out| && Keys(out)[i] == k;
    var d := live[i];
    assert out[i] == AsProp(d);
    FilterCount(IsAlive, sorted, d);
    assert d in sorted;
  }

  /** The address of a listed alive result is a key of their entries. */
  lemma LiveIsKey(live: seq<DeviceScanResult>, d: DeviceScanResult)
    requires d in live
    ensures d.ip in Keys(Map(AsProp, live))
  {
    var i :| 0 <= i < |live| && live[i] == d;
    assert Keys(Map(AsProp, live))[i] == d.ip;
  }

  /** An alive address of the range is a key of the record. */
  lemma LiveAddressIsKey(addrs: seq<string>, check: string -> DeviceScanResult, sorted: seq<DeviceScanResult>, k: string)
    requires forall y :: check(y).ip == y
    requires multiset(sorted) == multiset(Map(check, addrs))
    requires k in addrs && check(k).isAlive
    ensures k in Keys(Records(sorted))
  {
    var live := Filter(IsAlive, sorted);
    assert check(k) in multiset(sorted) by {
      var p :| 0 <= p < |addrs| && addrs[p] == k;
      assert Map(check, addrs)[p] == check(k);
    }
    assert check(k) in live by {
      FilterCount(IsAlive, sorted, check(k));
    }
    LiveIsKey(live, check(k));
  }

  /** After the first result is written, the others are still distinct and
      still new to the record. */
  lemma RestFresh(acc: seq<Prop>, results: seq<DeviceScanResult>)
    requires results != []
    requires forall i, j :: 0 <= i < j < |results| ==> results[i].ip != results[j].ip
    requires forall i :: 0 <= i < |results| ==> results[i].ip !in Keys(acc)
    ensures var next := acc + if results[0].isAlive then [AsProp(results[0])] else [];
      forall i :: 0 <= i < |results[1..]| ==> results[1..][i].ip !in Keys(next)
    ensures forall i, j :: 0 <= i < j < |results[1..]| ==> results[1..][i].ip != results[1..][j].ip
  {
    var d, rest := results[0], results[1..];
    var next := acc + if d.isAlive then [AsProp(d)] else [];
    assert Keys(next) == if d.isAlive then Keys(acc) + [d.ip] else Keys(acc);
    forall i | 0 <= i < |rest|
      ensures rest[i].ip !in Keys(next)
    {
      assert rest[i] == results[i + 1];
    }
    forall i, j | 0 <= i < j < |rest|
      ensures rest[i].ip != rest[j].ip
    {
      assert rest[i] == results[i + 1] && rest[j] == results[j + 1];
    }
  }

  /** The entries of a list: the first result's, when alive, then the rest's. */
  lemma RecordsCons(results: seq<DeviceScanResult>)
    requires results != []
    ensures Records(results) == (if results[0].isAlive then [AsProp(results[0])] else []) + Records(results[1..])
  {
    var d, rest := results[0], results[1..];
    if d.isAlive {
      assert Filter(IsAlive, results) == [d] + Filter(IsAlive, rest);
      assert ([d] + Filter(IsAlive, rest))[1..] == Filter(IsAlive, rest);
    } else {
      assert Filter(IsAlive, results) == Filter(IsAlive, rest);
    }
  }

  lemma AppendAssoc<T>(a: seq<T>, b: seq<T>, c: seq<T>)
    ensures (a + b) + c == a + (b + c)
  {
  }

  /** A new address is appended by the first step of the loop. */
  lemma NormalizeStep(acc: seq<Prop>, results: seq<DeviceScanResult>)
    requires results != [] && results[0].ip !in Keys(acc)
    ensures NormalizeInto(acc, results)
      == NormalizeInto(acc + if results[0].isAlive then [AsProp(results[0])] else [], results[1..])
  {
    var d := results[0];
    var put := if d.isAlive then Put(acc, d.ip, EntryOf(d)) else acc;
    assert put == acc + if d.isAlive then [AsProp(d)] else [];
  }

  /** With distinct addresses none of which the record holds yet, the loop
      appends one entry per alive result. */
  lemma {:induction false} NormalizeAppends(acc: seq<Prop>, results: seq<DeviceScanResult>)
    requires forall i, j :: 0 <= i < j < |results| ==> results[i].ip != results[j].ip
    requires forall i :: 0 <= i < |results| ==> results[i].ip !in Keys(acc)
    ensures NormalizeInto(acc, results) == acc + Records(results)
    decreases |results|
  {
    if results != [] {
      var d, rest := results[0], results[1..];
      var first := if d.isAlive then [AsProp(d)] else [];
      var next := acc + first;
      assert NormalizeInto(acc, results) == NormalizeInto(next, rest) by {
        NormalizeStep(acc, results);
      }
      assert NormalizeInto(next, rest) == next + Records(rest) by {
        RestFresh(acc, results);
        NormalizeAppends(next, rest);
      }
      assert Records(results) == first + Records(rest) by {
        RecordsCons(results);
      }
      AppendAssoc(acc, first, Records(rest));
    }
  }

  // ---------------------------------------------------------------------
  // Sequences without repetitions
  // ---------------------------------------------------------------------

  ghost predicate Distinct<T>(s: seq<T>)
  {
    forall i, j :: 0 <= i < j < |s| ==> s[i] != s[j]
  }

  /** A sequence without repetitions holds each value at most once. */
  lemma {:induction false} CountAtMostOne<T>(s: seq<T>, x: T)
    requires Distinct(s)
    ensures multiset(s)[x] <= 1
  {
    if s != [] {
      var rest := s[1..];
      assert s == [s[0]] + rest;
      assert Distinct(rest) by {
        forall i, j | 0 <= i < j < |rest|
          ensures rest[i] != rest[j]
        {
          assert rest[i] == s[i + 1] && rest[j] == s[j + 1];
        }
      }
      CountAtMostOne(rest, x);
      if s[0] == x {
        assert x !in rest by {
          forall i | 0 <= i < |rest|
            ensures rest[i] != x
          {
            assert rest[i] == s[i + 1];
          }
        }
      }
    }
  }

  /** A value at two positions occurs at least twice. */
  lemma CountTwo<T>(s: seq<T>, i: nat, j: nat)
    requires i < j < |s| && s[i] == s[j]
    ensures multiset(s)[s[i]] >= 2
  {
    assert s == s[..j] + [s[j]] + s[j + 1..];
    assert s[..j][i] == s[i];
    assert multiset(s[..j])[s[i]] >= 1;
  }

  /** A sequence holding each value at most once has no repetitions. */
  lemma CountsDistinct<T>(s: seq<T>)
    requires forall x :: multiset(s)[x] <= 1
    ensures Distinct(s)
  {
    forall i, j | 0 <= i < j < |s|
      ensures s[i] != s[j]
    {
      if s[i] == s[j] {
        CountTwo(s, i, j);
      }
    }
  }

  /** Filtering a sorted sequence keeps it sorted. */
  lemma {:induction false} FilterSorted<T>(p: T -> bool, s: seq<T>, key: T -> int)
    requires SortedBy(s, key)
    ensures SortedBy(Filter(p, s), key)
  {
    if s != [] {
      var rest := s[1..];
      assert SortedBy(rest, key) by {
        forall i, j | 0 <= i < j < |rest|
          ensures key(rest[i]) <= key(rest[j])
        {
          assert rest[i] == s[i + 1] && rest[j] == s[j + 1];
        }
      }
      FilterSorted(p, rest, key);
      if p(s[0]) {
        var f := Filter(p, s);
        assert f == [s[0]] + Filter(p, rest);
        forall i, j | 0 <= i < j < |f|
          ensures key(f[i]) <= key(f[j])
        {
          if i == 0 {
            var y := f[j];
            assert y == Filter(p, rest)[j - 1];
            FilterCount(p, rest, y);
            assert y in rest;
            var k :| 0 <= k < |rest| && rest[k] == y;
            assert s[k + 1] == y;
          } else {
            assert f[i] == Filter(p, rest)[i - 1] && f[j] == Filter(p, rest)[j - 1];
          }
        }
      }
    }
  }
}
