# lanscan core, modelled in Dafny

lanscan scans an IPv4 range on the local network. The scan has two stages.

1. **Discovery.** Each address of the range is tried in turn:
   - an ICMP ping;
   - then a look in the ARP table;
   - then a sweep of TCP ports in batches of five.

   The addresses found alive are collected into a record, keyed by address and sorted by number.
2. **Port scan and identification** of the devices found:
   - their open ports;
   - a hostname, a device type and the method that named it.

   The name, type and method are chosen from the answers of several probes (DNS, SNMP, SMB, NetBIOS, mDNS, MAC vendor, HTTP, service banners).

This project models the deterministic logic of those stages, one Dafny module per source file:

- **`Ip`:** IPv4 text and number conversions, CIDR blocks and range expansion.
- **`ConfigHelpers` and `Config`:** building the configuration from an object or from command-line flags, the ordered chain of validation guards, and the one-slot configuration store.
- **`Promise`:** the timeout and retry loop.
- **`PortStatus`:** the classification of socket events, with its once-only cleanup.
- **`OpenPorts`:** the five-port batching with early exit.
- **`Arp`, `Ping` and `Liveness`:** the MAC pattern in `arp` output, the ping command, and the ping, then ARP, then port-sweep cascade.
- **`Discovery`, `PortScan`, `ArrayUtil` and `Parallel`:** sorting, filtering and keying the scan results, with the executor `parallelize` as an unspecified permutation.
- **`Merge` and `Flatten`:** the deep merge and the key-path flattening, over a JSON-like value datatype.
- **`IdentityHelpers` and `Identity`:** the service labels of banners, the OUI of a MAC address, the vendor index, the hostname, OS-hint and device-type chains, and the per-device timeout wrapper.

Shared modules:

- `Wrappers` holds `Option` and `Result`.
- `Js` holds the JavaScript primitives the code relies on:
  - `split`, `join`, `trim` and `parseInt`;
  - `Number()`;
  - the 32-bit bitwise operators, on unbounded integers with explicit `ToInt32`/`ToUint32`;
  - ASCII case mapping.
- `Values` holds the untyped JavaScript value, with objects as ordered lists of own properties.

The source's quirks are kept as written:

- `ipToNumber` is signed, so a first octet of 128 or more gives a negative number.
- The CIDR shift count is taken modulo 32. For `/32`, and for `/0`, the host range runs from base + 1 to base - 1, modulo 2^32. The signed order check of `generateIpRange` refuses that range for every base except 127.255.255.255 and 128.0.0.0. For those two it passes, and the range spans 2^32 - 1 addresses (Ip.NoHostBitsOrder, Ip.Cidr32Wide).
- `/31` gives a start one above its end, as signed numbers too, so the order check refuses every `/31` range (Ip.HostRange31).
- The part check uses `parseInt`'s prefix reading.
- The part check reads each part with `parseInt`, but `ipToNumber` reads it with `Number()`. So `0x10.b.c.d` and `1e2.b.c.d` pass the check and are read as 16.b.c.d and 100.b.c.d (Ip.HexFirstPart, Ip.ExponentFirstPart).
- A resolved value equal to the timeout value counts as a success.
- A rejected probe counts as "not open".
- A MAC vendor equal to the empty string falls through to the online lookup.
- The `return service` branch of `extractVersion` is unreachable.

The probes themselves are parameters:

- the socket events and error codes;
- the ping and `arp` command runners;
- the DNS, SNMP, SMB, NetBIOS, mDNS, UPnP, HTTP and banner answers;
- whether each identification attempt finishes before its timer.

Three places in the repository's tests disagree with the code. The model follows the code in each:

- The configuration tests use the field names `concurrency` and `identify`, but the checks read `concurrencyLimit` and `identifyDevices` (src/config/helpers/index.ts:101-108).
- The port-scan test expects an array, but `getDevicesOpenPorts` returns a record keyed by address (src/port-scan/index.ts:12-18).
- The command-line parser registers `--concurrencyLimit` and `--identifyDevices`, while `getConfigFromArgs` reads `--concurrency` and `--identify` (src/config/helpers/index.ts:46-47). The model takes the flags as `getConfigFromArgs` reads them.

## Model

| member | source | states |
|---|---|---|
| Js.NumberOfString | src/utils/network/ip/index.ts:56 | Definition of `Number()` on a string: NaN, an infinity, or an exact mantissa times a power of ten. Its readings are stated by the Js lemmas below. |
| Js.NumberOfNat | src/utils/network/ip/index.ts:56 | `Number()` reads the decimal text of a natural number back as that number. |
| Js.NumberAgreesWithParseInt | src/utils/network/ip/index.ts:56 | On a non-empty run of decimal digits, `Number()` and `parseInt` give the same integer. |
| Js.NumberOfRadix | src/utils/network/ip/index.ts:56 | `0x`, `0o` or `0b` followed by digits of that radix reads as their value in that radix. |
| Js.NumberOfExponent | src/utils/network/ip/index.ts:56 | Digits, `e` and digits read as `whole * 10^exp`, which is also the shift operand. |
| Js.NumberOfFraction | src/utils/network/ip/index.ts:56 | Digits, `.` and digits read as an exact fraction. As a shift operand it is truncated to its whole part. |
| Ip.PackOperands | src/utils/network/ip/index.ts:57 | The shifts and ors of `ipToNumber` always give a signed 32-bit number, whatever the operands. |
| Ip.IpToNumber | src/utils/network/ip/index.ts:55-58 | `ipToNumber` of any text lies in the signed 32-bit range. |
| Ip.QuadOperands | src/utils/network/ip/index.ts:56 | `Number()` reads the four octets back from the parts of a canonical dotted quad. |
| Ip.PackOperandsOctets | src/utils/network/ip/index.ts:57 | On four octets, the shifts and ors give the signed 32-bit reading of the octets packed big-endian. |
| Ip.IpToNumberQuad | src/utils/network/ip/index.ts:55-58 | `ipToNumber` of a canonical dotted quad is the signed reading of its big-endian packing. |
| Ip.IpToNumberSign | src/utils/network/ip/index.ts:55-58 | The number is negative exactly when the first octet is 128 or more, and then it is the unsigned packing minus 2^32. |
| Ip.NumberToIp | src/utils/network/ip/index.ts:42-49 | Definition: the four bytes of the unsigned 32-bit pattern, joined by dots. Ip.NumberToIpBytes, Ip.QuadRoundTrip and Ip.NumberRoundTrip state what it writes. |
| Ip.ByteOf | src/utils/network/ip/index.ts:44-47 | `(num >>> s) & 0xff` is byte `s/8` of the unsigned 32-bit pattern of `num`. |
| Ip.NumberToIpBytes | src/utils/network/ip/index.ts:42-49 | `numberToIp` writes the four bytes of the 32-bit pattern, most significant first, as a dotted quad. |
| Ip.NumberToIpPack | src/utils/network/ip/index.ts:42-49 | `numberToIp` of a packed value writes back exactly the octets that were packed. |
| Ip.QuadRoundTrip | src/utils/network/ip/index.ts:42-58 | Round trip: `numberToIp(ipToNumber(q)) == q` for every canonical dotted quad. |
| Ip.NumberRoundTrip | src/utils/network/ip/index.ts:42-58 | Round trip the other way: `ipToNumber(numberToIp(n))` is the signed 32-bit value of `n`, for every integer `n`. |
| Ip.IsValidIpAddress | src/utils/network/ip/index.ts:8-15 | Definition: four dot-separated parts, each read by `parseInt` as 0 to 255. Its properties are Ip.AllPartsValid4, Ip.ValidQuad and Ip.FirstPartText. |
| Ip.AllPartsValid4 | src/utils/network/ip/index.ts:11-14 | `every` over four parts holds exactly when each of the four part checks holds. |
| Ip.ValidPartOf | src/utils/network/ip/index.ts:12-13 | The decimal text of a number passes the part check exactly when the number is at most 255. |
| Ip.ValidQuad | src/utils/network/ip/index.ts:8-15 | A dotted quad of four numbers is valid exactly when all four are octets. |
| Ip.NumberToIpValid | src/utils/network/ip/index.ts:42-49 | Every address `numberToIp` writes passes `isValidIpAddress`. |
| Ip.FirstPartText | src/utils/network/ip/index.ts:8-58 | With any first part and three octets after it, the address is valid exactly when `parseInt` reads an octet from the first part. It is packed with what `Number()` reads from that part. |
| Ip.HexFirstPart | src/utils/network/ip/index.ts:8-58 | `0x10.b.c.d` passes `isValidIpAddress` (`parseInt` reads 0) and `ipToNumber` packs it as 16.b.c.d. |
| Ip.ExponentFirstPart | src/utils/network/ip/index.ts:8-58 | `1e2.b.c.d` passes `isValidIpAddress` (`parseInt` reads 1) and `ipToNumber` packs it as 100.b.c.d. |
| Ip.ParseCidr | src/utils/network/ip/index.ts:20-26 | `parseCIDR` throws 'Invalid CIDR notation' exactly when the prefix read by `parseInt` is NaN, negative or above 32. |
| Ip.BlockValue | src/utils/network/ip/index.ts:29-31 | For any prefix, the network number is the base with its host bits (counted modulo 32) cleared, and the broadcast number has them set. |
| Ip.HostNumbers | src/utils/network/ip/index.ts:29-35 | For prefixes 1 to 30, the signed numbers of network + 1 and broadcast - 1 are 2^(32 - prefix) - 3 apart. |
| Ip.Block31 | src/utils/network/ip/index.ts:29-31 | For a `/31` block, the broadcast number is the network number plus one. |
| Ip.BlockNoHostBits | src/utils/network/ip/index.ts:29-31 | For `/32`, and for `/0` (a shift by 32 is a shift by 0), network and broadcast are both the base address. |
| Ip.Block24 | src/utils/network/ip/index.ts:29-35 | For `a.b.c.0/24`, network + 1 is `a.b.c.1` and broadcast - 1 is `a.b.c.254`, as numbers. |
| Ip.HostRange | src/utils/network/ip/index.ts:33-36 | Definition: the texts of network + 1 and broadcast - 1. What they read back as is Ip.HostRangeReadBack. |
| Ip.HostRangeReadBack | src/utils/network/ip/index.ts:33-36 | `ipToNumber` reads network + 1 and broadcast - 1 back from the two ends, as signed values. |
| Ip.HostRangeSpan | src/utils/network/ip/index.ts:28-36 | For prefixes 1 to 30, the start lies below the end and the two are 2^(32 - prefix) - 3 apart. |
| Ip.HostRange31 | src/utils/network/ip/index.ts:28-36 | A `/31` block gives a start one above its end, both as the signed numbers `ipToNumber` returns and modulo 2^32. |
| Ip.HostRangeNoHostBits | src/utils/network/ip/index.ts:28-36 | `/32` and `/0` give base + 1 as the start and base - 1 as the end, modulo 2^32. |
| Ip.NeighbourOrder | src/utils/network/ip/index.ts:65-70 | The signed numbers of base + 1 and base - 1 fail the order check for every base except 127.255.255.255 and 128.0.0.0. For those two the end lies 2^32 - 2 above the start. |
| Ip.NoHostBitsOrder | src/utils/network/ip/index.ts:20-37 | For `/32` and `/0` the host range passes the order check exactly for the bases 127.255.255.255 and 128.0.0.0, and then it holds 2^32 - 1 addresses. |
| Ip.Cidr32Wide | src/utils/network/ip/index.ts:20-37 | `128.0.0.0/32` (or `/0`) gives a range that passes the order check and holds 2^32 - 1 addresses. |
| Ip.CidrText | src/utils/network/ip/index.ts:21-22 | `base/n` splits at the slash into the base address and the prefix `n`. |
| Ip.Cidr24Text | src/utils/network/ip/index.ts:21-28 | The text `a.b.c.0/24` has prefix 24 and the base number of `a.b.c.0`. |
| Ip.Block24First | src/utils/network/ip/index.ts:34 | The first host of `a.b.c.0/24` is written `a.b.c.1`. |
| Ip.Block24Last | src/utils/network/ip/index.ts:35 | The last host of `a.b.c.0/24` is written `a.b.c.254`. |
| Ip.Cidr24 | src/utils/network/ip/index.ts:20-37 | `parseCIDR('a.b.c.0/24')` is the range `a.b.c.1` to `a.b.c.254`. |
| Ip.GenerateIpRange | src/utils/network/ip/index.ts:64-78 | Throws exactly when the start's number exceeds the end's. Otherwise it returns end - start + 1 addresses, the i-th being `numberToIp(start + i)`. |
| Ip.CollectRange | src/utils/network/ip/index.ts:68-75 | The counting loop yields one formatted element per number from start to end, in ascending order, or the error when start > end. |
| Ip.AddressOf | src/utils/network/ip/index.ts:42-58 | An address written by `numberToIp` is valid and reads back as its number's signed 32-bit value. |
| Ip.RangeAscending | src/utils/network/ip/index.ts:72-75 | The generated addresses are valid and read back as consecutive numbers, from the start's number upward. |
| Ip.EveryAddressReadsBack | src/utils/network/ip/index.ts:42-58 | Every address `numberToIp` writes is valid and reads back. |
| Ip.ParseIpRange | src/utils/network/ip/index.ts:84-102 | Definition: CIDR when the text holds '/', else `a-b` when it holds '-', else one address. Ip.ParseCidr, Ip.RangeNotation and Ip.SingleAddress state the three branches. |
| Ip.RangeNotation | src/utils/network/ip/index.ts:88-94 | `a-b` (no '/') gives the trimmed `a` and `b` as the two ends. |
| Ip.SingleAddress | src/utils/network/ip/index.ts:95-101 | A text with neither '/' nor '-' is a range of that one address. |
| ConfigHelpers.GroupPorts | src/config/helpers/index.ts:35 | A `CommonPorts` group gives its port numbers, in order. |
| ConfigHelpers.GetConfigFromObject | src/config/helpers/index.ts:6-11 | Definition: the defaults, then the given properties assigned over them. Its fields are ConfigHelpers.ConfigFromObjectFields. |
| ConfigHelpers.ConfigFromObjectFields | src/config/helpers/index.ts:6-11 | Every field the object gives overrides the default, every other field keeps the default, and the keys are those of both. |
| ConfigHelpers.OrElse | src/config/helpers/index.ts:18 | The logical-or fallback on a string flag: an absent flag and an empty one both fall back. |
| ConfigHelpers.ParsePorts | src/config/helpers/index.ts:31-38 | Definition: a `CommonPorts` group name gives that group, anything else is split at commas and each part read by `parseInt`. ConfigHelpers.ArgsPortGroup and ConfigHelpers.ArgsPortList state the two cases. |
| ConfigHelpers.ParsePortList | src/config/helpers/index.ts:37 | The port list has one entry per comma-separated part. |
| ConfigHelpers.BuildConfig | src/config/helpers/index.ts:41-49 | Fails exactly when the range failed. Otherwise it takes the range's ends and the parsed ports, and each other field is its flag `??` the default. |
| ConfigHelpers.GetConfigFromArgs | src/config/helpers/index.ts:13-52 | Definition: the range from `--ip` or the defaults, the ports, then each flag or its default. ConfigHelpers.ArgsRange, ConfigHelpers.ArgsDefaultRange and ConfigHelpers.ArgsPortList state its result. |
| ConfigHelpers.ArgsDefaultRange | src/config/helpers/index.ts:18-24 | Without `--ip`, the range is the default start and end. |
| ConfigHelpers.DefaultRangeParse | src/config/helpers/index.ts:18-22 | The default range written `start-end` parses back into the same two addresses. |
| ConfigHelpers.ArgsRange | src/config/helpers/index.ts:18-28 | With `--ip`, the ends are what `parseIpRange` returns, and a throwing `parseIpRange` ends the run with its message. |
| ConfigHelpers.ArgsCidr24 | src/config/helpers/index.ts:18-24 | `--ip a.b.c.0/24` scans `a.b.c.1` to `a.b.c.254`. |
| ConfigHelpers.ArgsPortGroup | src/config/helpers/index.ts:31-35 | A `CommonPorts` group name as `--ports` gives that group's ports. |
| ConfigHelpers.ArgsPortList | src/config/helpers/index.ts:31-38 | A comma-separated list of numbers gives those numbers, in order. |
| ConfigHelpers.ArgsDefaultPorts | src/config/helpers/index.ts:31-38 | Without `--ports`, the default ports come back from their comma-joined text, unless that text names a group. |
| ConfigHelpers.NumberTextPlain | src/config/helpers/index.ts:31-37 | A port's decimal text holds no comma and no surrounding space, and `parseInt` reads the port back from it. |
| ConfigHelpers.ParseTexts | src/config/helpers/index.ts:37 | Parsing the texts of numbers gives the numbers back. |
| ConfigHelpers.PortsTextRoundTrip | src/config/helpers/index.ts:31-37 | Joining ports with commas, splitting and parsing gives the same ports back. |
| ConfigHelpers.AssertIsValidConfig | src/config/helpers/index.ts:59-114 | Definition: the error of the first guard that fails, or none. ConfigHelpers.ValidIff and ConfigHelpers.FirstFailureDecides state it. |
| ConfigHelpers.ValidIff | src/config/helpers/index.ts:59-114 | `assertIsValidConfig` passes exactly the configurations whose every field is of the right type and in range. |
| ConfigHelpers.ValidIffWith | src/config/helpers/index.ts:59-114 | The guard chain passes exactly when the value is object-like and all field conditions hold, for any address test and reader. |
| ConfigHelpers.FirstFailureDecides | src/config/helpers/index.ts:59-114 | The error thrown is that of the first guard, in code order, that fails; no error means no guard fails. |
| ConfigHelpers.FirstFailureWith | src/config/helpers/index.ts:59-114 | The first-failing-guard property, for any address test and reader. |
| ConfigHelpers.LaterGuards | src/config/helpers/index.ts:87-113 | Once the object and address guards pass, the ports, timeout, concurrency, identify and verbose guards decide in that order. |
| ConfigHelpers.NotAnObjectFirst | src/config/helpers/index.ts:60-62 | A non-object or `null` is refused with 'Configuration must be an object' before any field is looked at. |
| ConfigHelpers.TypedValid | src/config/helpers/index.ts:59-114 | A typed configuration object passes exactly when its addresses are valid and ordered, its ports are non-empty and in 1..65535, and timeout and concurrency are positive. |
| ConfigHelpers.PortValuesValid | src/config/helpers/index.ts:88-93 | The ports guard passes exactly when the list is non-empty and every port is a number in 1..65535. |
| ConfigHelpers.DefaultConfigValid | src/config/config.default.ts:9-17 | The defaults pass every check whenever the common ports are valid port numbers. |
| ConfigHelpers.DefaultScanValid | src/config/config.default.ts:9-17 | The defaults are a valid typed configuration whenever the common ports are valid port numbers. |
| ConfigHelpers.DefaultAddresses | src/config/config.default.ts:14-15 | The default range `192.168.1.1` to `192.168.1.254` consists of two valid addresses in ascending order. |
| ConfigHelpers.ScanValidPasses | src/config/helpers/index.ts:59-114 | A typed configuration whose fields are in range passes `assertIsValidConfig`. |
| Config.NewConfig | src/config/index.ts:18-22 | Definition: the configuration from arguments or from an object, chosen by the mode. Config.ArgsModeChecked and Config.ObjectModeChecked state what is stored. |
| Config.Checked | src/config/index.ts:19-24 | What is stored has passed `assertIsValidConfig` and is the built configuration. The result fails exactly when building or checking fails. |
| Config.ConfigStore.constructor | src/config/index.ts:10 | The slot starts empty. |
| Config.ConfigStore.InitConfig | src/config/index.ts:18-25 | Succeeds exactly when the built configuration passes the checks, and then stores it. A throw leaves the stored configuration as it was. |
| Config.ConfigStore.GetConfig | src/config/index.ts:33-38 | Throws 'Configuration not initialized' while the slot is empty, and otherwise returns the stored configuration. |
| Config.ArgsModeChecked | src/config/index.ts:19-24 | In args mode, a parsed configuration is stored exactly when its typed fields are in range, and it is stored as that configuration's object. |
| Config.ArgsModeRangeError | src/config/index.ts:19-20 | A range flag that does not parse ends `initConfig` with its own message, before any check. |
| Config.ObjectModeChecked | src/config/index.ts:19-24 | In object mode, the defaults merged with the object are stored if they pass the checks; otherwise the first failing check's message is thrown. |
| Config.EmptyObjectStoresDefaults | src/config/index.ts:19-24 | `initConfig` with an empty object stores the defaults. |
| Promise.CallAsyncMethodWithTimeout | src/utils/promise/index.ts:6-51 | The loop's result and invocation count are those of the attempt recursion. It sleeps once between consecutive attempts when `delay` is non-zero, and never otherwise. |
| Promise.RunFrom | src/utils/promise/index.ts:18-50 | Definition of the loop from one attempt on. Promise.RunBounds, Promise.FirstResolved, Promise.FirstRejected and Promise.AllTimedOut state its outcomes. |
| Promise.RunBounds | src/utils/promise/index.ts:15-50 | With attempts allowed, the operation runs at least once and at most `retry + 1` times. With none (`retry < 0`) it never runs, and the call throws 'Something went wrong'. |
| Promise.RunLast | src/utils/promise/index.ts:18-47 | Every invocation before the last timed out, and the last one decides: its value, its rejection, or `timeoutReturn` at the last allowed attempt. |
| Promise.AllTimedOut | src/utils/promise/index.ts:32-38 | When every attempt times out, the call returns `timeoutReturn` after exactly `retry + 1` invocations. |
| Promise.FirstResolved | src/utils/promise/index.ts:41-42 | The first attempt that resolves ends the call with its value, even one equal to `timeoutReturn`, and nothing runs after it. |
| Promise.FirstRejected | src/utils/promise/index.ts:43-46 | A rejection is rethrown at once and never retried. |
| Promise.NeverRejected | src/utils/promise/index.ts:18-46 | An operation that never rejects makes the call succeed. |
| PortStatus.EventStatus | src/utils/network/port/get-port-status.ts:27-62 | Definition: connect gives open, timeout gives unreachable, an error is classified by its code. PortStatus.ErrorStatus states the error codes. |
| PortStatus.ErrorStatus | src/utils/network/port/get-port-status.ts:37-62 | An error is never 'open'. It is 'closed' exactly for ECONNREFUSED, ECONNRESET and EPIPE, and 'unreachable' for every other code. |
| PortStatus.FirstStatus | src/utils/network/port/get-port-status.ts:13-70 | The probe settles exactly when connect throws or some event arrives. It is 'open' exactly when connect did not throw and the first event is `connect`. |
| PortStatus.PortProbe.constructor | src/utils/network/port/get-port-status.ts:16 | The probe starts unresolved and unsettled. |
| PortStatus.PortProbe.Cleanup | src/utils/network/port/get-port-status.ts:18-23 | Cleanup sets the flag and destroys the socket once, however often it is called. |
| PortStatus.PortProbe.Resolve | src/utils/network/port/get-port-status.ts:14 | A promise settles once; later resolutions change nothing. |
| PortStatus.PortProbe.Handle | src/utils/network/port/get-port-status.ts:27-62 | An event cleans up and then settles the probe with the event's status, unless it had settled already. |
| PortStatus.PortProbe.ConnectFailed | src/utils/network/port/get-port-status.ts:64-69 | A throwing `connect` cleans up and settles the probe as 'unreachable', unless it had settled already. |
| PortStatus.GetPortStatus | src/utils/network/port/get-port-status.ts:13-71 | The probe settles with the first event's status, and the socket is destroyed exactly once when anything happened. |
| OpenPorts.BatchCheck.constructor | src/utils/network/device/device-has-open-ports.ts:20-21 | A batch starts with no completed checks and no answer. |
| OpenPorts.BatchCheck.OnSettled | src/utils/network/device/device-has-open-ports.ts:25-43 | An 'open' result answers `true` at once. Any other result, rejections included, counts one completed check and answers `false` when the count reaches the batch size. An answer is never changed. |
| OpenPorts.HasAnyDeviceAnOpenPort | src/utils/network/device/device-has-open-ports.ts:18-45 | In any settling order, a non-empty batch answers exactly whether some port of it is open. An empty batch never answers. |
| OpenPorts.AnyOpen | src/utils/network/device/device-has-open-ports.ts:5-16 | Reference definition: some port of the list answers open. OpenPorts.DeviceHasOpenPorts is proved against it. |
| OpenPorts.OpenInOutcomes | src/utils/network/device/device-has-open-ports.ts:26-42 | An 'open' outcome is among the settled ones exactly when some port of the batch is open. |
| OpenPorts.DeviceHasOpenPorts | src/utils/network/device/device-has-open-ports.ts:5-16 | Returns `true` exactly when some port is open. On `false` every port was probed. On `true` the probes stop at the end of the batch holding the first open port. |
| OpenPorts.BatchOpen | src/utils/network/device/device-has-open-ports.ts:8-13 | An open port of a batch is an open port of the list, at a position inside the batch. |
| OpenPorts.BatchClosed | src/utils/network/device/device-has-open-ports.ts:8-15 | A batch without open ports has none at its positions in the list. |
| OpenPorts.LeastOpen | src/utils/network/device/device-has-open-ports.ts:8-13 | When a stretch of the list holds an open port, it holds a first one. |
| Arp.TestFrom | src/utils/network/device/is-device-in-arp-table.ts:11 | `regex.test` holds exactly when the MAC pattern matches at some position. |
| Arp.MacTextMatches | src/utils/network/device/is-device-in-arp-table.ts:11 | Any groups of one or two hex digits, joined by ':' or '-', match where they are written. |
| Arp.MatchIsMacText | src/utils/network/device/is-device-in-arp-table.ts:11 | A match is such a text written at its position. |
| Arp.HasMacIff | src/utils/network/device/is-device-in-arp-table.ts:11 | The output holds a MAC address exactly when six groups of one or two hex digits, joined by five separators, appear in it. |
| Arp.NoSeparatorNoMac | src/utils/network/device/is-device-in-arp-table.ts:11 | Output without ':' and '-', such as `(incomplete)` or `<no entry>`, holds no MAC address. |
| Arp.NoHexNoMac | src/utils/network/device/is-device-in-arp-table.ts:11 | Output without hex digits holds no MAC address, and neither does empty output. |
| Arp.IsDeviceInArpTable | src/utils/network/device/is-device-in-arp-table.ts:3-14 | Definition: an error of the command propagates, else whether the output holds a MAC address. Arp.HasMacIff, Arp.MacFound and Arp.ArpErrorPropagates state it. |
| Arp.MacFound | src/utils/network/device/is-device-in-arp-table.ts:11 | A MAC address anywhere in the output is found: upper or lower case, one-digit groups and mixed separators alike. |
| Arp.IncompleteNotFound | src/utils/network/device/is-device-in-arp-table.ts:11 | `(incomplete)` is not a MAC address. |
| Arp.ArpErrorPropagates | src/utils/network/device/is-device-in-arp-table.ts:8 | A failing `arp` command rejects with its error; it is not read as "not in the table". |
| Arp.ArpCommand | src/utils/network/device/is-device-in-arp-table.ts:4-6 | Definition: `arp -a <ip>` on Windows and `arp -n <ip>` elsewhere. Arp.ArpCommandShape states it. |
| Arp.ArpCommandShape | src/utils/network/device/is-device-in-arp-table.ts:4-6 | The command is `arp -a <ip>` on Windows and `arp -n <ip>` elsewhere. |
| Ping.CeilSeconds | src/utils/network/device/ping-device.ts:20 | `Math.ceil(timeout / 1000)` is a number of whole seconds that covers the timeout with less than one second to spare. |
| Ping.CeilSecondsLeast | src/utils/network/device/ping-device.ts:20 | It is the least whole number of seconds covering the timeout. |
| Ping.CeilSecondsExamples | src/utils/network/device/ping-device.ts:20 | 1500 ms gives 2 s, 100 ms gives 1 s and 10000 ms gives 10 s. |
| Ping.PingDevice | src/utils/network/device/ping-device.ts:14-27 | Definition: true when the command completes within the timeout plus 500 ms, false on any failure. Ping.PingRuns states it. |
| Ping.PingRuns | src/utils/network/device/ping-device.ts:14-26 | The host answers exactly when the command completes without error within the timeout plus 500 ms. The default timeout is 1000. |
| Ping.PingCommand | src/utils/network/device/ping-device.ts:17-20 | Definition: `-n 1 -w <ms>` on Windows, `-c 1 -W <seconds rounded up>` elsewhere. Ping.PingCommandShape and Ping.LinuxExample state it. |
| Ping.PingCommandShape | src/utils/network/device/ping-device.ts:18-20 | Both commands send one request (`-n 1` on Windows, `-c 1` elsewhere) and end with the address. |
| Ping.LinuxExample | src/utils/network/device/ping-device.ts:20 | 1500 ms elsewhere than Windows gives `ping -c 1 -W 2 <ip>`. |
| Liveness.PingTimeout | src/device-discovery/helpers/is-device-alive.ts:26 | The ping timeout is the smaller of the timeout and 1000. |
| Liveness.IsDeviceAlive | src/device-discovery/helpers/is-device-alive.ts:18-54 | The result is the cascade over ping, ARP and ports. ARP is read only when the ping fails. Ports are probed only after the ping fails and ARP says no, and then all of them unless one is open. |
| Liveness.Cascade | src/device-discovery/helpers/is-device-alive.ts:26-53 | Definition: ping, then ARP, then open ports; the first that answers decides, and an ARP error throws. Liveness.CascadeShape and Liveness.CascadeAlive state it. |
| Liveness.CascadeShape | src/device-discovery/helpers/is-device-alive.ts:28-53 | The result keeps the address, and the host is alive exactly when a detection method is named. |
| Liveness.CascadeAlive | src/device-discovery/helpers/is-device-alive.ts:27-53 | The host is alive exactly when some stage finds it, and the method is that of the first stage that does: 'ping', then 'arp', then 'port-scan'. |
| Liveness.CascadeArpError | src/device-discovery/helpers/is-device-alive.ts:38 | The cascade throws exactly when the ping got no answer and the ARP lookup failed. |
| Discovery.SwapDown | src/device-discovery/index.ts:31 | Exchanging two neighbours changes nothing else and keeps the elements. |
| Discovery.SortBy | src/device-discovery/index.ts:31 | The in-place sort leaves the array ascending by key and a permutation of what it was. |
| Discovery.Normalize | src/device-discovery/index.ts:34-38 | The `forEach` builds the record of the alive results from the sorted array. |
| Discovery.DiscoverDevices | src/device-discovery/index.ts:15-41 | Fails exactly when the start's number exceeds the end's. Otherwise the keys are the alive canonical addresses of the range, each with its own check's method, ascending by number. |
| Discovery.DiscoveryOutput | src/device-discovery/index.ts:24-38 | For the generated range and any settling order, the sorted and filtered record is the discovery result. |
| Discovery.GeneratedOutput | src/device-discovery/index.ts:24-38 | The discovery result property, stated for what `generateIpRange` returns. |
| Discovery.KeysInRange | src/device-discovery/index.ts:24-38 | Keys that are alive addresses of the generated list are the alive canonical addresses between the two ends. |
| Discovery.ScanOutput | src/device-discovery/index.ts:25-38 | The record holds exactly the alive checked addresses, each with its check's entry, in strictly ascending number order. |
| Discovery.LiveKeys | src/device-discovery/index.ts:34-38 | A key of the record is exactly an alive address of the range. |
| Discovery.NormalizeInto | src/device-discovery/index.ts:34-38 | Definition of the `forEach` from a partial record on: each alive result is stored under its address. Discovery.NormalizeAppends and Discovery.LiveKeys state it. |
| Discovery.NormalizeAppends | src/device-discovery/index.ts:34-38 | With distinct new addresses, the loop appends one entry per alive result, in order. |
| Discovery.FilterSorted | src/device-discovery/index.ts:31-38 | Keeping only the alive results of a sorted list keeps it sorted. |
| PortScan.ProbeTask | src/port-scan/index.ts:29-34 | Definition: the record of one port and its status text. PortScan.OpenRecordsPorts states which ports come out of these records. |
| PortScan.ScanDevicePorts | src/port-scan/index.ts:22-39 | As a multiset, the open ports are exactly the ports whose probe answers 'open', in any settling order. |
| PortScan.OpenRecordsPorts | src/port-scan/index.ts:37-38 | In input order, filtering the 'open' records and plucking `port` gives the open ports. |
| PortScan.GetDevicesOpenPorts | src/port-scan/index.ts:7-19 | Every address, scanned one after another, has its `{ openPorts }` entry. With distinct addresses the keys are the addresses in input order. |
| PortScan.ScanStep | src/port-scan/index.ts:13-16 | Storing one scanned device's entry extends the result by that device. |
| ArrayUtil.Pluck | src/utils/array/index.ts:8-12 | Reference definition: `item[key]` for every item, in order. ArrayUtil.CreateArrayFromObjectKey computes it. |
| ArrayUtil.CreateArrayFromObjectKey | src/utils/array/index.ts:1-13 | The loop pushes `item[key]` for each item, in order. |
| ArrayUtil.PluckEntries | src/utils/array/index.ts:8-12 | There is one value per record, in the same order, each the record's own value for the key (`undefined` where it has none). |
| ArrayUtil.PluckPut | src/utils/array/index.ts:9-11 | Records given values under the key give those values back. |
| ArrayUtil.PluckPermutation | src/utils/array/index.ts:9-11 | Reordering the records reorders the plucked values the same way. |
| Parallel.Map | src/utils/concurrency/parallelize.ts:16-21 | One outcome per item, the item's own. |
| Parallel.Filter | src/port-scan/index.ts:37 | The filtered list is no longer than the list, and every element of it passes the test. |
| Parallel.FilterCount | src/port-scan/index.ts:37 | An element occurs in the filtered list as often as in the list when it passes the test, and not at all otherwise. |
| Parallel.FilterPermutation | src/port-scan/index.ts:37 | Filtering two permutations of each other gives permutations of each other. |
| Parallel.MapPermutation | src/utils/concurrency/parallelize.ts:16-44 | Mapping two permutations of each other gives permutations of each other, so the settling order does not change which outcomes arrive. |
| Values.IsObject | src/utils/object/merge.ts:45-47 | Definition: a plain object, not an array or `null`. Values.IsObjectIff states it. |
| Merge.DeepMerge | src/utils/object/merge.ts:17-40 | The in-place merge, with its `shift` of the sources and its recursion, computes the reference merge of the sources in order. |
| Merge.MergeObjects | src/utils/object/merge.ts:8-12 | `mergeObjects` merges every object into a fresh `{}`. |
| Merge.MergeAll | src/utils/object/merge.ts:17-40 | Definition: the sources merged in one at a time. Merge.MergeAllKeys, Merge.MergeAllObject and Merge.MergeAllNonObject state its result. |
| Merge.MergeInto | src/utils/object/merge.ts:22-36 | Definition: the source's properties merged into the target in order, when both are plain objects. Merge.GetMergeProps and Merge.KeysMergeProps state its keys and values. |
| Merge.MergeValue | src/utils/object/merge.ts:24-34 | Definition: a plain object is merged into the current value or a fresh `{}`, and anything else replaces it. Merge.MergeNested, Merge.MergeLaterWins and Merge.MergeFillsFalsy state it. |
| Merge.GetMergeProps | src/utils/object/merge.ts:23-35 | Key by key, a source key gets the merged value and any other key keeps the target's value. |
| Merge.KeysMergeProps | src/utils/object/merge.ts:23-35 | The keys after merging are those of the target and those of the source. |
| Merge.MergeKeepsTargetOnly | src/utils/object/merge.ts:23-35 | A key only the target has keeps its value. |
| Merge.MergeLaterWins | src/utils/object/merge.ts:31-33 | A later primitive, array or `null` replaces whatever was there. |
| Merge.MergeNested | src/utils/object/merge.ts:24-30 | Two plain objects under the same key are merged recursively, not replaced. |
| Merge.MergeKeepsTruthyLeaf | src/utils/object/merge.ts:26-30 | A truthy non-object (array, number, string) is kept when a plain object arrives under its key. |
| Merge.MergeFillsFalsy | src/utils/object/merge.ts:26-30 | A plain object arriving under a missing or falsy key is copied as it is. |
| Merge.CopyValue | src/utils/object/merge.ts:26-30 | Merging a plain object into a fresh `{}` copies it unchanged. |
| Merge.MergeObjectsSingle | src/utils/object/merge.ts:11 | `mergeObjects(x)` of one plain object is a copy of it. |
| Merge.MergeAllNonObject | src/utils/object/merge.ts:22-39 | A target that is not a plain object comes back untouched, whatever the sources. |
| Merge.MergeAllObject | src/utils/object/merge.ts:17-40 | Merging into a plain object gives a plain object. |
| Merge.MergeAllKeys | src/utils/object/merge.ts:17-40 | The keys of the result are exactly those of the target and of every plain-object source. |
| Merge.MergeWellFormed | src/utils/object/merge.ts:17-40 | Merging values whose objects have unique keys at every depth gives such a value. |
| Flatten.NewKey | src/utils/object/flatten.ts:12 | Definition: `parent + separator + key`, or the key alone under an empty parent. Flatten.FlatKeysPrefix states the prefix. |
| Flatten.Flatten | src/utils/object/flatten.ts:2-25 | Definition of `flattenObject` as a function. Flatten.FlattenObject computes it; Flatten.FlattenKeys and Flatten.FlattenValues state its keys and values. |
| Flatten.FlattenInto | src/utils/object/flatten.ts:9-22 | Definition of the key loop from a partial result on. Flatten.FlattenIntoKeys and Flatten.FlattenIntoValues state what it adds. |
| Flatten.Leaves | src/utils/object/flatten.ts:12-20 | Reference definition: each non-object value under its key path, in the order the loop writes them. |
| Flatten.LastValue | src/utils/object/flatten.ts:17-20 | The last leaf written under a key wins. It gives no value exactly when no leaf has that key. |
| Flatten.FlattenObject | src/utils/object/flatten.ts:9-22 | The loop over the own keys, with its recursion and `Object.assign`, computes the flattening. Flatten.FlattenKeys and Flatten.FlattenValues state its keys and the value under each. |
| Flatten.FlattenKeys | src/utils/object/flatten.ts:9-22 | The flattened object has exactly the keys of the leaves, each named by its key path. |
| Flatten.FlattenValues | src/utils/object/flatten.ts:9-22 | The value under every key of the flattened object is the value of the last leaf written under that key path. A key no leaf has is absent. |
| Flatten.FlattenLeafValue | src/utils/object/flatten.ts:12-20 | When no two leaves share a path, every leaf's value is found under its path. |
| Flatten.FlatKeysPrefix | src/utils/object/flatten.ts:12 | Below a non-empty parent, every key starts with the parent and the separator. |
| Flatten.FlattenNoObjects | src/utils/object/flatten.ts:15-20 | The flattened object holds no plain object. |
| Flatten.FlattenFlat | src/utils/object/flatten.ts:12-20 | An object with no nested plain object is its own flattening. |
| IdentityHelpers.FindService | src/device-identity/helpers/index.ts:478-480 | The first service declared for the port, or none exactly when no service uses the port. |
| IdentityHelpers.FirstLine | src/device-identity/helpers/index.ts:510 | The banner's trimmed first line holds no line break. |
| IdentityHelpers.FirstLineLabel | src/device-identity/helpers/index.ts:510-515 | The fallback label, when given, has 1 to 99 characters and a single line. |
| IdentityHelpers.Strip220 | src/device-identity/helpers/index.ts:526 | Removing `220` and the spaces after it leaves a tail of the line. |
| IdentityHelpers.SpaceRun | src/device-identity/helpers/index.ts:526 | The leading run of `\s` is measured exactly: it is all white space, and the next character is not. |
| IdentityHelpers.Greeting220 | src/device-identity/helpers/index.ts:526 | The greeting `220` with its white space never runs past the end of the line. |
| IdentityHelpers.SshPrefix | src/device-identity/helpers/index.ts:526 | The `SSH-<version>-` prefix never runs past the end of the line. |
| IdentityHelpers.DigitDotRun | src/device-identity/helpers/index.ts:526 | The leading run of `[\d.]` is measured exactly: it is all digits and dots, and the next character is neither. |
| IdentityHelpers.StripSshVersion | src/device-identity/helpers/index.ts:526 | Removing `SSH-<version>-` leaves a tail of the line. |
| IdentityHelpers.FirstRule | src/device-identity/helpers/index.ts:499-507 | The first keyword rule, in the source's order, that the lower-cased banner contains; none when it contains no keyword. |
| IdentityHelpers.StripSeparators | src/device-identity/helpers/index.ts:80 | Removing ':' and '-' leaves no separator and never lengthens the text. |
| IdentityHelpers.Prefix | src/device-identity/helpers/index.ts:80 | `substring(0, n)` is a prefix of length `n`, or the whole text when shorter. |
| IdentityHelpers.VendorIndex | src/device-identity/helpers/index.ts:12-20 | Reference definition of the reverse OUI index. IdentityHelpers.LastVendorWins states which vendor an OUI maps to. |
| IdentityHelpers.BuildVendorIndex | src/device-identity/helpers/index.ts:12-20 | The `reduce` builds the reverse index, entry by entry. |
| IdentityHelpers.IdentifyService | src/device-identity/helpers/index.ts:475-516 | Definition: the port table without a banner, else the SSH label, the first keyword rule, or the short first line. IdentityHelpers.NoBannerUsesTable, IdentityHelpers.SshWins, IdentityHelpers.FtpFirst and IdentityHelpers.NoKeywordUsesFirstLine state it. |
| IdentityHelpers.NoBannerUsesTable | src/device-identity/helpers/index.ts:476-481 | Without a banner, or with an empty one, the label is the first service declared for the port. |
| IdentityHelpers.SshWins | src/device-identity/helpers/index.ts:487-497 | Any banner naming SSH gets an `SSH: ` label, whatever else it names. |
| IdentityHelpers.FtpFirst | src/device-identity/helpers/index.ts:499 | A banner naming FTP and not SSH is labelled `FTP: ` with its version text, whatever other service it names. |
| IdentityHelpers.NoKeywordUsesFirstLine | src/device-identity/helpers/index.ts:499-515 | A banner naming neither SSH nor any keyword falls back to its trimmed first line. |
| IdentityHelpers.ExtractVersion | src/device-identity/helpers/index.ts:521-529 | Definition: the trimmed first line without a `220` greeting or an `SSH-<version>-` prefix. IdentityHelpers.VersionIsTail and IdentityHelpers.ExtractVersionIgnoresService state it. |
| IdentityHelpers.ExtractVersionIgnoresService | src/device-identity/helpers/index.ts:521-529 | `split` always yields a first line, so the service argument is never returned. |
| IdentityHelpers.VersionIsTail | src/device-identity/helpers/index.ts:524-526 | The version text is a tail of the trimmed first line: only prefixes are removed. |
| IdentityHelpers.StripSshPrefix | src/device-identity/helpers/index.ts:526 | An `SSH-<digits and dots>-` prefix is removed whole, in any letter case. |
| IdentityHelpers.Strip220Greeting | src/device-identity/helpers/index.ts:526 | A `220` greeting and the spaces after it are removed. |
| IdentityHelpers.Oui | src/device-identity/helpers/index.ts:80 | Definition: separators removed, first six characters, upper-cased. IdentityHelpers.OuiShape and IdentityHelpers.MacOui state it. |
| IdentityHelpers.OuiShape | src/device-identity/helpers/index.ts:80 | The OUI has at most six characters, no separator and no lower-case letter. |
| IdentityHelpers.StripJoined | src/device-identity/helpers/index.ts:80 | Removing the separators from groups joined by ':' or '-' concatenates the groups. |
| IdentityHelpers.MacOui | src/device-identity/helpers/index.ts:80 | For a MAC address of two-character groups, the OUI is its first three groups, upper-cased. |
| IdentityHelpers.LastVendorWins | src/device-identity/helpers/index.ts:12-20 | An OUI is in the index exactly when some vendor lists it, and it maps to the last vendor that does. |
| IdentityHelpers.AssignAllGet | src/device-identity/helpers/index.ts:14-16 | After the `forEach`, a listed OUI maps to the vendor and every other entry is unchanged. |
| IdentityHelpers.GetVendorFromMac | src/device-identity/helpers/index.ts:78-90 | Definition: the local index first, the online lookup otherwise. IdentityHelpers.LocalBeforeOnline and IdentityHelpers.UnknownGoesOnline state it. |
| IdentityHelpers.LocalBeforeOnline | src/device-identity/helpers/index.ts:84-86 | An OUI the local index names a vendor for is answered from the index, whatever the online lookup would say. |
| IdentityHelpers.UnknownGoesOnline | src/device-identity/helpers/index.ts:84-89 | An OUI the index does not know is answered by the online lookup. |
| Identity.BestHostname | src/device-identity/index.ts:68-87 | A chosen hostname is non-empty, and its method is one of the naming methods. |
| Identity.BestHostnameIsFirstCandidate | src/device-identity/index.ts:68-87 | The hostname is the first usable candidate in the order DNS (unless it equals the ip), SNMP, SMB, NetBIOS, mDNS, MAC vendor, with the matching method. |
| Identity.OsHint | src/device-identity/index.ts:90-99 | The OS hint, when set, is one of Linux, Windows, macOS, FreeBSD, Cisco and MikroTik. |
| Identity.DeviceTypeFor | src/device-identity/index.ts:104-141 | A device type the chain picks is never empty. |
| Identity.DeviceTypeNeedsEvidence | src/device-identity/index.ts:102-141 | The chain picks no type exactly when there is no vendor, no UPnP type and no OS hint, and the name holds none of the chain's words. |
| Identity.UntypedHasNoEvidence | src/device-identity/index.ts:104-141 | A device the chain leaves untyped has no vendor, no UPnP type, no OS hint and none of the chain's words in its name. |
| Identity.TypedHasKeyword | src/device-identity/index.ts:104-141 | Without a vendor, a UPnP type or an OS hint, a type is picked only because the name holds one of the chain's words. |
| Identity.TitleType | src/device-identity/index.ts:166-187 | A page title that names a product gives a non-empty device type. |
| Identity.BannerCandidates | src/device-identity/index.ts:194 | The banner candidates are open ports from the banner port list. |
| Identity.BannerTargets | src/device-identity/index.ts:196 | The grabbed ports are the first banner candidates: at most five, and fewer only when there are no more. |
| Identity.BannerTargetsComplete | src/device-identity/index.ts:194 | Every open port of the banner port list is a candidate. |
| Identity.Identified | src/device-identity/index.ts:35-229 | Definition of `deviceInfo` after the naming chain, the HTTP pass, the banner pass and the basic-service pass. Identity.IdentifiedConsistent and the pass lemmas state it. |
| Identity.Identify | src/device-identity/index.ts:31-236 | Definition of the returned identity, with the `UNKNOWN` and `NONE` defaults. Identity.IdentityNames, Identity.NamedKept and Identity.NoAnswers state it. |
| Identity.IdentifyDevice | src/device-identity/index.ts:31-236 | The step-by-step filling of `deviceInfo` gives the identity: hostname and type chains, HTTP loop, banner loop, basic services, then the defaults. |
| Identity.CheckHttpServices | src/device-identity/index.ts:144-190 | The HTTP loop computes the HTTP pass over the open ports. |
| Identity.HttpPassKeeps | src/device-identity/index.ts:146-190 | The HTTP pass never replaces a hostname, a method or a device type already set, leaves the services alone, and keeps the record consistent. |
| Identity.HttpSilent | src/device-identity/index.ts:146-190 | Without any HTTP answer the HTTP pass changes nothing. |
| Identity.IdentifiedConsistent | src/device-identity/index.ts:154-187 | In the final record a hostname is non-empty and comes with a method, every method is one of the naming methods, and a device type is never empty. |
| Identity.GrabBanners | src/device-identity/index.ts:193-214 | The banner loop computes the banner pass over the first five banner ports. |
| Identity.BannerPassKeeps | src/device-identity/index.ts:196-214 | The banner pass never touches the hostname, the method or the HTTP server, and without banners it leaves the device type alone. |
| Identity.BannerStepKeeps | src/device-identity/index.ts:197-213 | One banner keeps the hostname, the method and the HTTP server, and no banner keeps the device type. |
| Identity.BannerPassAgrees | src/device-identity/index.ts:196-198 | Only the banners of the grabbed ports matter. |
| Identity.BannerTypesKept | src/device-identity/index.ts:203-211 | The SSH banner rules set only non-empty device types. |
| Identity.AddBasicServices | src/device-identity/index.ts:216-225 | The loop computes the basic-service pass over the open ports. |
| Identity.BasicPassLabels | src/device-identity/index.ts:217-225 | The basic pass only adds labels. It keeps every label already present and gives every listed port the table's name when the table has one. |
| Identity.NamedKept | src/device-identity/index.ts:68-235 | The hostname and method the chain picks are the ones returned. |
| Identity.IdentityNames | src/device-identity/index.ts:231-235 | The method is a naming method or 'NONE'. 'NONE' comes only with the 'UNKNOWN' hostname, and no field is empty. |
| Identity.NoAnswers | src/device-identity/index.ts:231-235 | A device no probe answers is 'UNKNOWN', of type 'UNKNOWN', named by 'NONE'. |
| Identity.SnmpNeedsPort161 | src/device-identity/index.ts:45 | With port 161 closed, the SNMP answer plays no part. |
| Identity.SmbNeedsPort445 | src/device-identity/index.ts:46 | With port 445 closed, the SMB answer plays no part. |
| Identity.OnlyTargetBanners | src/device-identity/index.ts:194-197 | Only the banners of the first five open banner ports matter. |
| Identity.IdentifyWithTimeout | src/device-identity/index.ts:14-19 | One device's identity, from the timeout wrapper with retry 1 and delay 100. |
| Identity.IdentityOf | src/device-identity/index.ts:14-20 | Definition: the identity of the first attempt that finishes, or none. Identity.IdentityOfAttempts states it. |
| Identity.IdentityOfAttempts | src/device-identity/index.ts:14-20 | The first attempt that finishes gives the identity. When both attempts time out, the device gets `{}`. |
| Identity.AttemptsNeverReject | src/device-identity/index.ts:14-19 | The timeout wrapper never throws for an identification. |
| Identity.GetDevicesIdentity | src/device-identity/index.ts:8-24 | Every device gets its identity entry. With distinct addresses the keys are the addresses in order. |
| Identity.IdentityStep | src/device-identity/index.ts:20 | Storing one device's entry extends the result by that device. |

## Left out

- The network and the operating system are parameters: socket events and error codes, `exec` of `ping` and `arp`, `dns`, `dgram`, `http.request`, `fetch`, and the probe helpers `getMacAddress`, `getNetBiosName`, `getMdnsName`, `getSnmpInfo`, `getSmbHostname`, `getUpnpInfo`, `getEnhancedHttpInfo`, `getHostname`, `grabBanner` and the online vendor lookup. Their bodies are not part of this model.
- Timers, `sleep` and `setTimeout`/`clearTimeout` are left out. Each race against a timer is an oracle outcome: `Resolved`, `Rejected` or `TimedOut` per attempt. The 2500 ms HTTP race is folded into the HTTP answer.
- `parallelize` is modelled as an executor that returns the outcome of every item, in some order (any permutation). The source does less. After each `Promise.race` it removes the promise it has just pushed, not the one that settled (src/utils/concurrency/parallelize.ts:31-39). So `Promise.allSettled` (line 43) waits only for the first `limit - 1` tasks, and the call can return before the later tasks have stored their outcomes. Its `null` for a failed task is not modelled either.
- Discovery.DiscoverDevices: the statement that every alive address is a key of the result rests on the executor returning every outcome. In the source, an outcome stored after `parallelize` returns is missing from the record.
- PortScan.ScanDevicePorts: the multiset equality between the open ports and the probed ports that answered 'open' rests on the same assumption. The source can miss ports whose probe settles late.
- Discovery.DiscoverDevices: every liveness check is assumed to produce a result. A failing `arp` command makes `parallelize` store `null`, which the sort would crash on; that path is not modelled.
- JavaScript numbers in configuration values and `parseInt` results are modelled as NaN or an integer. Fractions and infinities are left out there, so a fractional timeout is not modelled. `Number()` on a string is modelled exactly, as NaN, an infinity or a mantissa times a power of ten.
- Ip.IpToNumber: a part `Number()` reads as a value that a double cannot hold exactly (above 2^53) is not rounded as JavaScript rounds it before `ToInt32`, and one above the largest double does not become Infinity. The model applies `ToInt32` to the exact integer part.
- Case mapping covers ASCII letters only. There is no Unicode case folding, and string lengths count characters, not UTF-16 code units.
- Objects are ordered lists of own properties. Prototype keys, and the `hasOwnProperty` test they call for, are left out, and so is JavaScript's ordering of integer-like keys before other keys.
- Merge.DeepMerge: is modelled on values. Every target it writes is `{}` or a fresh nested `{}` (merge.ts:11,27), so no input is aliased, but mutation of a caller's own target is not modelled.
- `CommonPorts`, `PortByServiceName` and `MacOUIByVendor` are parameters (an ordered list of groups, of service names, of vendors), not the tables of src/constants/ports/index.ts.
- The regular expressions (`/([0-9A-Fa-f]{1,2}[:-]){5}([0-9A-Fa-f]{1,2})/`, `/^220\s*/i`, `/^SSH-[\d.]+-/i`, `/[:-]/g`) are modelled by functions that scan the text.
- The keyword `if` chain of `identifyService` is an ordered rule table, tried in the source's order.
- ConfigHelpers.GetConfigFromArgs: `process.exit(1)` on a bad range is a `Failure` carrying the error's message. The message printed to the console is not modelled.
- ConfigHelpers.ArgsDefaultPorts: is stated for a non-empty default port list. An empty list joins to `""`, which parses to `[NaN]`; the model computes that case but no lemma states it.
- The command-line flag mismatch (`--concurrencyLimit`/`--identifyDevices` in the parser vs `--concurrency`/`--identify` read here) is not modelled: the parser in src/cli/index.ts is not part of this model.
- OpenPorts.HasAnyDeviceAnOpenPort: an empty batch never resolves in the source. The model answers `None` there, which `deviceHasOpenPorts` never reaches.
- Identity.IdentifyDevice: the `try`/`catch` around the identification is not modelled. The probe answers are well-typed values, and nothing in the modelled steps throws.
- Identity.IdentifyDevice: `services` and `httpServer` are computed but dropped from the returned record, as in the source.
- Identity.GetDevicesIdentity: each attempt runs the probes afresh. This is modelled by indexing the probe answers by attempt (`probes(ip, n)`), and the device order by the given list of addresses (`Object.keys` order).
- The entry points (src/index.ts, src/index.cli.ts, src/index.node.ts), the console output, src/utils/time/index.ts and src/cli/index.ts are not part of this model.
