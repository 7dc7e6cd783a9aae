/** The configuration helpers (`src/config/helpers/index.ts`): a configuration
    built from an object over the defaults, or from the command-line
    arguments, and the ordered chain of checks a configuration must pass. */
module ConfigHelpers {
  import opened Js
  import opened Wrappers
  import opened Values
  import opened Ip

  /** `ScanConfig` (`src/config/types/index.ts`). Ports and numbers are JS
      numbers, so the `NaN` of a failed `parseInt` can reach them. */
  datatype ScanConfig = ScanConfig(
    startIp: string,
    endIp: string,
    ports: seq<JsNumber>,
    timeout: JsNumber,
    concurrencyLimit: JsNumber,
    identifyDevices: bool,
    verbose: bool)

  /** The ports of a `CommonPorts` group, as JS numbers. */
  function GroupPorts(ns: seq<int>): (ps: seq<JsNumber>)
    ensures |ps| == |ns| && forall i :: 0 <= i < |ns| ==> ps[i] == Int(ns[i])
  {
    if ns == [] then [] else [Int(ns[0])] + GroupPorts(ns[1..])
  }

  /** `defaultConfig` (`src/config/config.default.ts`); `common` is the
      `CommonPorts.Common` group. */
  const DefaultStartIp: string := "192.168.1.1"
  const DefaultEndIp: string := "192.168.1.254"

  function DefaultConfig(common: seq<int>): ScanConfig
  {
    ScanConfig(DefaultStartIp, DefaultEndIp, GroupPorts(common), Int(2000), Int(50), true, false)
  }

  function PortValues(ports: seq<JsNumber>): (vs: seq<Value>)
    ensures |vs| == |ports| && forall i :: 0 <= i < |ports| ==> vs[i] == Num(ports[i])
  {
    if ports == [] then [] else [Num(ports[0])] + PortValues(ports[1..])
  }

  /** A `ScanConfig` as the JavaScript object it is. */
  function Props(c: ScanConfig): seq<Prop>
  {
    [Prop("startIp", Str(c.startIp)), Prop("endIp", Str(c.endIp)), Prop("ports", Arr(PortValues(c.ports))),
     Prop("timeout", Num(c.timeout)), Prop("concurrencyLimit", Num(c.concurrencyLimit)),
     Prop("identifyDevices", Bool(c.identifyDevices)), Prop("verbose", Bool(c.verbose))]
  }

  // ---------------------------------------------------------------------
  // getConfigFromObject
  // ---------------------------------------------------------------------

  /** `{ ...defaultConfig, ...config }`. */
  function GetConfigFromObject(config: seq<Prop>, defaultConfig: ScanConfig): seq<Prop>
  {
    Assign(Props(defaultConfig), config)
  }

  /** Every field the object gives overrides the default, every other field
      keeps the default, and the keys are those of both. */
  lemma ConfigFromObjectFields(config: seq<Prop>, defaultConfig: ScanConfig, key: string)
    requires UniqueKeys(config)
    ensures Get(GetConfigFromObject(config, defaultConfig), key) ==
      if key in Keys(config) then Get(config, key) else Get(Props(defaultConfig), key)
    ensures key in Keys(GetConfigFromObject(config, defaultConfig)) <==>
      key in Keys(Props(defaultConfig)) || key in Keys(config)
  {
    GetAssign(Props(defaultConfig), config, key);
    KeysAssign(Props(defaultConfig), config, key);
  }

  // ---------------------------------------------------------------------
  // getConfigFromArgs
  // ---------------------------------------------------------------------

  /** The parsed command line; an absent flag is `None`. */
  datatype Args = Args(
    ip: Option<string>,
    ports: Option<string>,
    timeout: Option<JsNumber>,
    concurrency: Option<JsNumber>,
    identify: Option<bool>,
    verbose: Option<bool>)

  /** `arg || fallback` on a string flag: an empty string falls back too. */
  function OrElse(arg: Option<string>, fallback: string): (r: string)
    ensures r == fallback <== arg.None? || arg.value == ""
  {
    if arg.Some? && arg.value != "" then arg.value else fallback
  }

  /** `arg ?? fallback`: only an absent flag falls back. */
  function Coalesce<T>(arg: Option<T>, fallback: T): T
  {
    if arg.Some? then arg.value else fallback
  }

  /** `String(n)` for a port. */
  function NumberText(n: JsNumber): string
  {
    match n
    case NaN => "NaN"
    case Int(v) => IntToString(v)
  }

  function NumberTexts(ports: seq<JsNumber>): (ts: seq<string>)
    ensures |ts| == |ports| && forall i :: 0 <= i < |ports| ==> ts[i] == NumberText(ports[i])
  {
    if ports == [] then [] else [NumberText(ports[0])] + NumberTexts(ports[1..])
  }

  /** `parts.map((p) => parseInt(p.trim(), 10))`. */
  function ParsePortList(parts: seq<string>): (ps: seq<JsNumber>)
    ensures |ps| == |parts|
  {
    if parts == [] then [] else [ParseInt(Trim(parts[0]))] + ParsePortList(parts[1..])
  }

  /** The ports flag: a `CommonPorts` group name, or a comma-separated list. */
  function ParsePorts(portsArg: string, groups: map<string, seq<int>>): seq<JsNumber>
  {
    if portsArg in groups then GroupPorts(groups[portsArg])
    else ParsePortList(Split(portsArg, ','))
  }

  /** The range flag: `--ip`, or the default range written `start-end`. */
  function RangeArg(args: Args, defaultConfig: ScanConfig): string
  {
    OrElse(args.ip, defaultConfig.startIp + "-" + defaultConfig.endIp)
  }

  /** The ports flag: `--ports`, or the default ports joined with commas. */
  function PortsArg(args: Args, defaultConfig: ScanConfig): string
  {
    OrElse(args.ports, Join(NumberTexts(defaultConfig.ports), ","))
  }

  /** The configuration once the range flag has been parsed. */
  function BuildConfig(range: Result<IpRange>, args: Args, groups: map<string, seq<int>>,
                       defaultConfig: ScanConfig): (r: Result<ScanConfig>)
    ensures r.Failure? <==> range.Failure?
    ensures r.Success? ==> r.value.startIp == range.value.startIp && r.value.endIp == range.value.endIp
    ensures r.Success? ==> r.value.ports == ParsePorts(PortsArg(args, defaultConfig), groups)
    ensures r.Success? ==> r.value.timeout == Coalesce(args.timeout, defaultConfig.timeout)
    ensures r.Success? ==> r.value.concurrencyLimit == Coalesce(args.concurrency, defaultConfig.concurrencyLimit)
    ensures r.Success? ==> r.value.identifyDevices == Coalesce(args.identify, defaultConfig.identifyDevices)
    ensures r.Success? ==> r.value.verbose == Coalesce(args.verbose, defaultConfig.verbose)
  {
    match range
    case Failure(e) => Failure(e)
    case Success(range) =>
      Success(ScanConfig(range.startIp, range.endIp, ParsePorts(PortsArg(args, defaultConfig), groups),
                         Coalesce(args.timeout, defaultConfig.timeout),
                         Coalesce(args.concurrency, defaultConfig.concurrencyLimit),
                         Coalesce(args.identify, defaultConfig.identifyDevices),
                         Coalesce(args.verbose, defaultConfig.verbose)))
  }

  /** `getConfigFromArgs`; the process exit on a bad range is the `Failure`,
      carrying the error's message. */
  function GetConfigFromArgs(args: Args, groups: map<string, seq<int>>, defaultConfig: ScanConfig): Result<ScanConfig>
  {
    BuildConfig(ParseIpRange(RangeArg(args, defaultConfig)), args, groups, defaultConfig)
  }

  /** An address text without separators or surrounding white space. */
  predicate PlainAddress(s: string)
  {
    '/' !in s && '-' !in s && (s == [] || (!IsJsSpace(s[0]) && !IsJsSpace(s[|s| - 1])))
  }

  /** Without `--ip`, the range is the default one. */
  lemma ArgsDefaultRange(args: Args, groups: map<string, seq<int>>, defaultConfig: ScanConfig)
    requires args.ip.None? || args.ip.value == ""
    requires PlainAddress(defaultConfig.startIp) && PlainAddress(defaultConfig.endIp)
    ensures var r := GetConfigFromArgs(args, groups, defaultConfig);
      r.Success? && r.value.startIp == defaultConfig.startIp && r.value.endIp == defaultConfig.endIp
  {
    assert RangeArg(args, defaultConfig) == defaultConfig.startIp + "-" + defaultConfig.endIp;
    DefaultRangeParse(defaultConfig.startIp, defaultConfig.endIp);
  }

  lemma DefaultRangeParse(startIp: string, endIp: string)
    requires PlainAddress(startIp) && PlainAddress(endIp)
    ensures ParseIpRange(startIp + "-" + endIp) == Success(IpRange(startIp, endIp))
  {
    RangeNotation(startIp, endIp);
    TrimNoSpace(startIp);
    TrimNoSpace(endIp);
  }

  /** With `--ip`, the range is what `parseIpRange` makes of it, and an
      invalid CIDR ends the run with its message. */
  lemma ArgsRange(args: Args, groups: map<string, seq<int>>, defaultConfig: ScanConfig)
    requires args.ip.Some? && args.ip.value != ""
    ensures var r := GetConfigFromArgs(args, groups, defaultConfig);
      match ParseIpRange(args.ip.value)
      case Failure(e) => r == Failure(e)
      case Success(range) => r.Success? && r.value.startIp == range.startIp && r.value.endIp == range.endIp
  {
  }

  /** `--ip a.b.c.0/24` scans `a.b.c.1` to `a.b.c.254`. */
  lemma ArgsCidr24(args: Args, groups: map<string, seq<int>>, defaultConfig: ScanConfig, a: nat, b: nat, c: nat)
    requires IsOctet(a) && IsOctet(b) && IsOctet(c)
    requires args.ip == Some(Quad(a, b, c, 0) + "/24")
    ensures var r := GetConfigFromArgs(args, groups, defaultConfig);
      r.Success? && r.value.startIp == Quad(a, b, c, 1) && r.value.endIp == Quad(a, b, c, 254)
  {
    Cidr24(a, b, c);
    assert '/' in Quad(a, b, c, 0) + "/24" by {
      assert (Quad(a, b, c, 0) + "/24")[|Quad(a, b, c, 0)|] == '/';
    }
  }

  /** A group name as `--ports` gives the group's ports. */
  lemma ArgsPortGroup(args: Args, groups: map<string, seq<int>>, defaultConfig: ScanConfig)
    requires args.ports.Some? && args.ports.value != "" && args.ports.value in groups
    ensures var r := GetConfigFromArgs(args, groups, defaultConfig);
      r.Success? ==> r.value.ports == GroupPorts(groups[args.ports.value])
  {
    assert PortsArg(args, defaultConfig) == args.ports.value;
  }

  /** A comma-separated list of numbers gives those numbers, in order. */
  lemma ArgsPortList(args: Args, groups: map<string, seq<int>>, defaultConfig: ScanConfig, ns: seq<int>)
    requires ns != [] && args.ports == Some(Join(NumberTexts(GroupPorts(ns)), ","))
    requires args.ports.value !in groups
    ensures var r := GetConfigFromArgs(args, groups, defaultConfig);
      r.Success? ==> r.value.ports == GroupPorts(ns)
  {
    PortsTextRoundTrip(GroupPorts(ns));
  }

  /** Without `--ports`, the default ports come back from their joined text,
      unless that text names a group. */
  lemma ArgsDefaultPorts(args: Args, groups: map<string, seq<int>>, defaultConfig: ScanConfig)
    requires args.ports.None? && defaultConfig.ports != []
    requires Join(NumberTexts(defaultConfig.ports), ",") !in groups
    ensures var r := GetConfigFromArgs(args, groups, defaultConfig);
      r.Success? ==> r.value.ports == defaultConfig.ports
  {
    PortsTextRoundTrip(defaultConfig.ports);
  }

  /** The decimal text of a number holds no comma and no surrounding white
      space, and `parseInt` reads the number back from it. */
  lemma NumberTextPlain(n: JsNumber)
    ensures ',' !in NumberText(n)
    ensures Trim(NumberText(n)) == NumberText(n)
    ensures ParseInt(NumberText(n)) == n
  {
    match n
    case NaN => NaNText();
    case Int(v) => IntText(v);
  }

  lemma NaNText()
    ensures ',' !in "NaN" && Trim("NaN") == "NaN" && ParseInt("NaN") == NaN
  {
    var t := "NaN";
    assert t == ['N', 'a', 'N'];
    assert !IsJsSpace(t[0]) && !IsJsSpace(t[2]) && !IsDigit(t[0]);
    TrimNoSpace(t);
    assert TrimStart(t) == t;
    assert DigitPrefix(t) == [];
  }

  lemma IntText(v: int)
    ensures ',' !in IntToString(v) && Trim(IntToString(v)) == IntToString(v)
    ensures ParseInt(IntToString(v)) == Int(v)
  {
    ParseIntOfInt(v);
    IntTextShape(v);
    TrimNoSpace(IntToString(v));
  }

  /** The text of an integer holds no comma and neither starts nor ends with
      white space. */
  lemma IntTextShape(v: int)
    ensures var s := IntToString(v);
      s != [] && ',' !in s && !IsJsSpace(s[0]) && !IsJsSpace(s[|s| - 1])
  {
    var digits := NatToString(if v < 0 then -v else v);
    if v < 0 {
      assert IntToString(v) == ['-'] + digits;
    } else {
      assert IntToString(v) == digits;
    }
    DigitNotSpace(digits[0]);
    DigitNotSpace(digits[|digits| - 1]);
    assert forall c :: c in digits ==> IsDigit(c);
  }

  lemma DigitNotSpace(c: char)
    requires IsDigit(c)
    ensures !IsJsSpace(c) && c != ','
  {
  }

  /** Parsing the texts of numbers gives the numbers back. */
  lemma {:induction false} ParseTexts(ports: seq<JsNumber>)
    ensures ParsePortList(NumberTexts(ports)) == ports
  {
    if ports != [] {
      NumberTextPlain(ports[0]);
      assert NumberTexts(ports)[1..] == NumberTexts(ports[1..]);
      ParseTexts(ports[1..]);
    }
  }

  /** Joining the ports with commas and parsing the list gives them back. */
  lemma PortsTextRoundTrip(ports: seq<JsNumber>)
    requires ports != []
    ensures ParsePortList(Split(Join(NumberTexts(ports), ","), ',')) == ports
  {
    var ts := NumberTexts(ports);
    forall k | 0 <= k < |ts|
      ensures ',' !in ts[k]
    {
      NumberTextPlain(ports[k]);
    }
    SplitJoin(ts, ',');
    ParseTexts(ports);
  }

  // ---------------------------------------------------------------------
  // assertIsValidConfig
  // ---------------------------------------------------------------------

  /** `newConfig.key` when it is an own property of an object. */
  function Field(v: Value, key: string): Option<Value>
  {
    if v.Obj? then Get(v.props, key) else None
  }

  /** The seven fields the checks look at, as read from the configuration. */
  datatype Fields = Fields(
    startIp: Option<Value>,
    endIp: Option<Value>,
    ports: Option<Value>,
    timeout: Option<Value>,
    concurrencyLimit: Option<Value>,
    identifyDevices: Option<Value>,
    verbose: Option<Value>)

  function FieldsOf(v: Value): Fields
  {
    Fields(Field(v, "startIp"), Field(v, "endIp"), Field(v, "ports"), Field(v, "timeout"),
           Field(v, "concurrencyLimit"), Field(v, "identifyDevices"), Field(v, "verbose"))
  }

  /** `'key' in newConfig && typeof newConfig.key === 'string'`. */
  predicate IsString(f: Option<Value>)
  {
    f.Some? && f.value.Str?
  }

  function Text(f: Option<Value>): string
  {
    if IsString(f) then f.value.s else ""
  }

  /** A number that is not NaN and greater than zero. */
  predicate IsPositive(f: Option<Value>)
  {
    match f
    case Some(Num(Int(n))) => n > 0
    case _ => false
  }

  predicate IsBoolean(f: Option<Value>)
  {
    f.Some? && f.value.Bool?
  }

  /** A non-empty array. */
  predicate IsPortList(f: Option<Value>)
  {
    f.Some? && f.value.Arr? && f.value.items != []
  }

  function PortItems(f: Option<Value>): seq<Value>
  {
    if IsPortList(f) then f.value.items else []
  }

  /** A number between 1 and 65535. */
  predicate ValidPort(p: Value)
  {
    p.Num? && p.n.Int? && 1 <= p.n.val <= 65535
  }

  /** The errors the checks throw. */
  datatype ConfigError =
    | NotAnObject
    | StartNotString
    | InvalidStart(startIp: string)
    | EndNotString
    | InvalidEnd(endIp: string)
    | RangeOrder
    | NoPorts
    | BadPorts
    | BadTimeout
    | BadConcurrency
    | BadIdentify
    | BadVerbose

  /** The message each error is thrown with. */
  function Message(e: ConfigError): string
  {
    match e
    case NotAnObject => "Configuration must be an object"
    case StartNotString => "startIp must be a string"
    case InvalidStart(ip) => "Invalid startIp: " + ip
    case EndNotString => "endIp must be a string"
    case InvalidEnd(ip) => "Invalid endIp: " + ip
    case RangeOrder => "startIp must be less than or equal to endIp"
    case NoPorts => "At least one port must be specified"
    case BadPorts => "Invalid port number(s). Ports must be between 1 and 65535"
    case BadTimeout => "Timeout must be a positive number"
    case BadConcurrency => "Concurrency must be a positive number"
    case BadIdentify => "Identify must be a boolean"
    case BadVerbose => "Verbose must be a boolean"
  }

  /** `typeof newConfig === 'object' && newConfig !== null`; arrays pass and
      then fail on their missing fields. */
  predicate IsObjectLike(v: Value)
  {
    v.Obj? || v.Arr?
  }

  /** `assertIsValidConfig`: the error of the first check that fails, or
      `None` when the configuration passes them all. */
  function AssertIsValidConfig(newConfig: Value): Option<ConfigError>
  {
    ValidationChain(IsObjectLike(newConfig), FieldsOf(newConfig), IsValidIpAddress, IpToNumber)
  }

  /** The chain of checks on the fields, over the address test
      (`isValidIpAddress`) and the address reading (`ipToNumber`) it uses. */
  function ValidationChain(isObject: bool, f: Fields, validIp: string -> bool, ipNumber: string -> int): Option<ConfigError>
  {
    if !isObject then Some(NotAnObject)
    else if !IsString(f.startIp) then Some(StartNotString)
    else if !validIp(Text(f.startIp)) then Some(InvalidStart(Text(f.startIp)))
    else if !IsString(f.endIp) then Some(EndNotString)
    else if !validIp(Text(f.endIp)) then Some(InvalidEnd(Text(f.endIp)))
    else if ipNumber(Text(f.startIp)) > ipNumber(Text(f.endIp)) then Some(RangeOrder)
    else if !IsPortList(f.ports) then Some(NoPorts)
    else if !Every(PortItems(f.ports), ValidPort) then Some(BadPorts)
    else if !IsPositive(f.timeout) then Some(BadTimeout)
    else if !IsPositive(f.concurrencyLimit) then Some(BadConcurrency)
    else if !IsBoolean(f.identifyDevices) then Some(BadIdentify)
    else if !IsBoolean(f.verbose) then Some(BadVerbose)
    else None
  }

  /** A valid configuration, field by field. */
  predicate IsValidConfig(v: Value)
  {
    v.Obj? && ValidFields(FieldsOf(v), IsValidIpAddress, IpToNumber)
  }

  predicate ValidFields(f: Fields, validIp: string -> bool, ipNumber: string -> int)
  {
    IsString(f.startIp) && IsString(f.endIp) &&
    validIp(Text(f.startIp)) && validIp(Text(f.endIp)) &&
    ipNumber(Text(f.startIp)) <= ipNumber(Text(f.endIp)) &&
    IsPortList(f.ports) && (forall k :: 0 <= k < |PortItems(f.ports)| ==> ValidPort(PortItems(f.ports)[k])) &&
    IsPositive(f.timeout) && IsPositive(f.concurrencyLimit) &&
    IsBoolean(f.identifyDevices) && IsBoolean(f.verbose)
  }

  /** The check passes exactly the valid configurations. */
  lemma ValidIff(v: Value)
    ensures AssertIsValidConfig(v).None? <==> IsValidConfig(v)
  {
    ValidIffWith(IsObjectLike(v), FieldsOf(v), IsValidIpAddress, IpToNumber);
    if v.Arr? {
      assert FieldsOf(v).startIp == None;
    }
  }

  lemma ValidIffWith(isObject: bool, f: Fields, validIp: string -> bool, ipNumber: string -> int)
    ensures ValidationChain(isObject, f, validIp, ipNumber).None? <==> isObject && ValidFields(f, validIp, ipNumber)
  {
    EveryAll(PortItems(f.ports), ValidPort);
  }

  /** One check of the chain: whether it fails, and the error it throws. */
  datatype Guard = Guard(fails: bool, error: ConfigError)

  /** The checks in the order they are written, each judged on its own. */
  function Guards(isObject: bool, f: Fields, validIp: string -> bool, ipNumber: string -> int): seq<Guard>
  {
    var start := IsString(f.startIp);
    var end := IsString(f.endIp);
    var ports := PortItems(f.ports);
    [Guard(!isObject, NotAnObject),
     Guard(!start, StartNotString),
     Guard(start && !validIp(Text(f.startIp)), InvalidStart(Text(f.startIp))),
     Guard(!end, EndNotString),
     Guard(end && !validIp(Text(f.endIp)), InvalidEnd(Text(f.endIp))),
     Guard(start && end && ipNumber(Text(f.startIp)) > ipNumber(Text(f.endIp)), RangeOrder),
     Guard(!IsPortList(f.ports), NoPorts),
     Guard(exists k :: 0 <= k < |ports| && !ValidPort(ports[k]), BadPorts),
     Guard(!IsPositive(f.timeout), BadTimeout),
     Guard(!IsPositive(f.concurrencyLimit), BadConcurrency),
     Guard(!IsBoolean(f.identifyDevices), BadIdentify),
     Guard(!IsBoolean(f.verbose), BadVerbose)]
  }

  /** Check `i` fails and none before it does. */
  predicate FirstFailing(gs: seq<Guard>, i: int)
  {
    0 <= i < |gs| && gs[i].fails && forall j :: 0 <= j < i ==> !gs[j].fails
  }

  /** The chain throws the error of the first check that fails, whatever
      fails after it, and passes when no check fails. */
  lemma FirstFailureDecides(v: Value)
    ensures var gs := Guards(IsObjectLike(v), FieldsOf(v), IsValidIpAddress, IpToNumber);
      match AssertIsValidConfig(v)
      case None => forall i :: 0 <= i < |gs| ==> !gs[i].fails
      case Some(e) => exists i :: FirstFailing(gs, i) && gs[i].error == e
  {
    FirstFailureWith(IsObjectLike(v), FieldsOf(v), IsValidIpAddress, IpToNumber);
  }

  lemma FirstFailureWith(isObject: bool, f: Fields, validIp: string -> bool, ipNumber: string -> int)
    ensures var gs := Guards(isObject, f, validIp, ipNumber);
      match ValidationChain(isObject, f, validIp, ipNumber)
      case None => forall i :: 0 <= i < |gs| ==> !gs[i].fails
      case Some(e) => exists i :: FirstFailing(gs, i) && gs[i].error == e
  {
    var gs := Guards(isObject, f, validIp, ipNumber);
    if !isObject {
      assert FirstFailing(gs, 0);
    } else if !IsString(f.startIp) {
      assert FirstFailing(gs, 1);
    } else if !validIp(Text(f.startIp)) {
      assert FirstFailing(gs, 2);
    } else if !IsString(f.endIp) {
      assert FirstFailing(gs, 3);
    } else if !validIp(Text(f.endIp)) {
      assert FirstFailing(gs, 4);
    } else if ipNumber(Text(f.startIp)) > ipNumber(Text(f.endIp)) {
      assert FirstFailing(gs, 5);
    } else if !IsPortList(f.ports) {
      assert FirstFailing(gs, 6);
    } else {
      LaterGuards(isObject, f, validIp, ipNumber);
    }
  }

  /** The checks after the address checks, once those pass. */
  lemma LaterGuards(isObject: bool, f: Fields, validIp: string -> bool, ipNumber: string -> int)
    requires forall j :: 0 <= j < 7 ==> !Guards(isObject, f, validIp, ipNumber)[j].fails
    ensures var gs := Guards(isObject, f, validIp, ipNumber);
      match ValidationChain(isObject, f, validIp, ipNumber)
      case None => forall i :: 0 <= i < |gs| ==> !gs[i].fails
      case Some(e) => exists i :: FirstFailing(gs, i) && gs[i].error == e
  {
    var gs := Guards(isObject, f, validIp, ipNumber);
    assert !gs[0].fails && !gs[1].fails && !gs[2].fails && !gs[3].fails && !gs[4].fails && !gs[5].fails && !gs[6].fails;
    EveryAll(PortItems(f.ports), ValidPort);
    if !Every(PortItems(f.ports), ValidPort) {
      assert FirstFailing(gs, 7);
    } else if !IsPositive(f.timeout) {
      assert FirstFailing(gs, 8);
    } else if !IsPositive(f.concurrencyLimit) {
      assert FirstFailing(gs, 9);
    } else if !IsBoolean(f.identifyDevices) {
      assert FirstFailing(gs, 10);
    } else if !IsBoolean(f.verbose) {
      assert FirstFailing(gs, 11);
    }
  }

  /** A configuration that is not an object, or is `null`, is refused before
      anything else is looked at. */
  lemma NotAnObjectFirst(v: Value)
    requires !v.Obj? && !v.Arr?
    ensures AssertIsValidConfig(v) == Some(NotAnObject)
  {
  }

  /** The typed reading of a valid configuration. */
  predicate ValidScanConfig(c: ScanConfig)
  {
    ValidScanWith(c, IsValidIpAddress, IpToNumber)
  }

  /** Every port is a number between 1 and 65535. */
  predicate PortsInRange(ports: seq<JsNumber>)
  {
    forall k :: 0 <= k < |ports| ==> ports[k].Int? && 1 <= ports[k].val <= 65535
  }

  predicate ValidScanWith(c: ScanConfig, validIp: string -> bool, ipNumber: string -> int)
  {
    validIp(c.startIp) && validIp(c.endIp) && ipNumber(c.startIp) <= ipNumber(c.endIp) &&
    c.ports != [] && PortsInRange(c.ports) &&
    c.timeout.Int? && c.timeout.val > 0 && c.concurrencyLimit.Int? && c.concurrencyLimit.val > 0
  }

  /** The fields of a `ScanConfig` object. */
  lemma PropsFields(c: ScanConfig)
    ensures FieldsOf(Obj(Props(c))) ==
      Fields(Some(Str(c.startIp)), Some(Str(c.endIp)), Some(Arr(PortValues(c.ports))), Some(Num(c.timeout)),
             Some(Num(c.concurrencyLimit)), Some(Bool(c.identifyDevices)), Some(Bool(c.verbose)))
  {
    PropsGet(c, 0);
    PropsGet(c, 1);
    PropsGet(c, 2);
    PropsGet(c, 3);
    PropsGet(c, 4);
    PropsGet(c, 5);
    PropsGet(c, 6);
  }

  lemma PropsGet(c: ScanConfig, i: nat)
    requires i < 7
    ensures Get(Props(c), Props(c)[i].key) == Some(Props(c)[i].val)
  {
    PropsUnique(c);
    GetAt(Props(c), i);
  }

  /** The seven keys of a `ScanConfig` object are distinct. */
  lemma PropsUnique(c: ScanConfig)
    ensures UniqueKeys(Props(c))
  {
  }

  /** A `ScanConfig` object passes the check exactly when its fields are in range. */
  lemma TypedValid(c: ScanConfig)
    ensures AssertIsValidConfig(Obj(Props(c))).None? <==> ValidScanConfig(c)
  {
    PropsFields(c);
    TypedValidWith(c, FieldsOf(Obj(Props(c))), IsValidIpAddress, IpToNumber);
  }

  lemma TypedValidWith(c: ScanConfig, f: Fields, validIp: string -> bool, ipNumber: string -> int)
    requires f == Fields(Some(Str(c.startIp)), Some(Str(c.endIp)), Some(Arr(PortValues(c.ports))), Some(Num(c.timeout)),
                         Some(Num(c.concurrencyLimit)), Some(Bool(c.identifyDevices)), Some(Bool(c.verbose)))
    ensures ValidationChain(true, f, validIp, ipNumber).None? <==> ValidScanWith(c, validIp, ipNumber)
  {
    ValidIffWith(true, f, validIp, ipNumber);
    PortValuesValid(c.ports);
  }

  /** The port values are valid ports exactly when the numbers are in range. */
  lemma PortValuesValid(ports: seq<JsNumber>)
    ensures var items := PortItems(Some(Arr(PortValues(ports))));
      (IsPortList(Some(Arr(PortValues(ports)))) <==> ports != []) &&
      ((forall k :: 0 <= k < |items| ==> ValidPort(items[k])) <==>
       PortsInRange(ports))
  {
    var items := PortItems(Some(Arr(PortValues(ports))));
    assert items == PortValues(ports);
    if forall k :: 0 <= k < |items| ==> ValidPort(items[k]) {
      forall k | 0 <= k < |ports|
        ensures ports[k].Int? && 1 <= ports[k].val <= 65535
      {
        assert ValidPort(items[k]);
      }
    }
  }

  /** The defaults pass the check when the common ports are valid ports. */
  lemma DefaultConfigValid(common: seq<int>)
    requires common != [] && forall k :: 0 <= k < |common| ==> 1 <= common[k] <= 65535
    ensures AssertIsValidConfig(Obj(Props(DefaultConfig(common)))).None?
  {
    DefaultScanValid(common);
    ScanValidPasses(DefaultConfig(common));
  }

  lemma DefaultScanValid(common: seq<int>)
    requires common != [] && forall k :: 0 <= k < |common| ==> 1 <= common[k] <= 65535
    ensures ValidScanConfig(DefaultConfig(common))
  {
    GroupPortsValid(common);
    DefaultScanOf(GroupPorts(common));
  }

  lemma DefaultScanOf(ports: seq<JsNumber>)
    requires ports != [] && PortsInRange(ports)
    ensures ValidScanConfig(ScanConfig(DefaultStartIp, DefaultEndIp, ports, Int(2000), Int(50), true, false))
  {
    DefaultAddresses();
  }

  lemma DefaultAddressesOf(c: ScanConfig)
    requires c.startIp == DefaultStartIp && c.endIp == DefaultEndIp
    ensures IsValidIpAddress(c.startIp) && IsValidIpAddress(c.endIp) && IpToNumber(c.startIp) <= IpToNumber(c.endIp)
  {
    DefaultAddresses();
  }

  /** A group of valid port numbers gives valid ports. */
  lemma GroupPortsValid(ns: seq<int>)
    requires forall k :: 0 <= k < |ns| ==> 1 <= ns[k] <= 65535
    ensures PortsInRange(GroupPorts(ns))
  {
  }

  lemma ScanValidOf(c: ScanConfig)
    requires IsValidIpAddress(c.startIp) && IsValidIpAddress(c.endIp) && IpToNumber(c.startIp) <= IpToNumber(c.endIp)
    requires c.ports != [] && PortsInRange(c.ports)
    requires c.timeout.Int? && c.timeout.val > 0 && c.concurrencyLimit.Int? && c.concurrencyLimit.val > 0
    ensures ValidScanConfig(c)
  {
  }

  lemma ScanValidPasses(c: ScanConfig)
    requires ValidScanConfig(c)
    ensures AssertIsValidConfig(Obj(Props(c))).None?
  {
    TypedValid(c);
  }

  /** The default range is two valid addresses in ascending order. */
  lemma DefaultAddresses()
    ensures IsValidIpAddress("192.168.1.1") && IsValidIpAddress("192.168.1.254")
    ensures IpToNumber("192.168.1.1") <= IpToNumber("192.168.1.254")
  {
    DefaultStart();
    DefaultEnd();
    PackOrder();
  }

  lemma DefaultStart()
    ensures IsValidIpAddress("192.168.1.1") && IpToNumber("192.168.1.1") == ToInt32(Pack(192, 168, 1, 1))
  {
    StartText();
    ValidQuad(192, 168, 1, 1);
    IpToNumberQuad(192, 168, 1, 1);
  }

  lemma DefaultEnd()
    ensures IsValidIpAddress("192.168.1.254") && IpToNumber("192.168.1.254") == ToInt32(Pack(192, 168, 1, 254))
  {
    EndText();
    ValidQuad(192, 168, 1, 254);
    IpToNumberQuad(192, 168, 1, 254);
  }

  lemma StartText()
    ensures Quad(192, 168, 1, 1) == "192.168.1.1"
  {
    OctetTexts();
    StartJoin();
  }

  lemma EndText()
    ensures Quad(192, 168, 1, 254) == "192.168.1.254"
  {
    OctetTexts();
    EndJoin();
  }

  lemma OctetTexts()
    ensures NatToString(192) == "192" && NatToString(168) == "168"
    ensures NatToString(1) == "1" && NatToString(254) == "254"
  {
  }

  lemma StartJoin()
    ensures Join(["192", "168", "1", "1"], ".") == "192.168.1.1"
  {
  }

  lemma EndJoin()
    ensures Join(["192", "168", "1", "254"], ".") == "192.168.1.254"
  {
  }

  lemma PackOrder()
    ensures ToInt32(Pack(192, 168, 1, 1)) <= ToInt32(Pack(192, 168, 1, 254))
  {
  }
}
