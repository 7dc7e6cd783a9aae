/** The configuration store (`src/config/index.ts`): one private slot that
    `initConfig` fills with a configuration that has passed the checks and
    `getConfig` reads. The `CommonPorts` groups and the defaults are
    parameters of the operations. */
module Config {
  import opened Wrappers
  import opened Values
  import opened ConfigHelpers

  /** `InitConfigOptions`: parsed command-line arguments, or a partial
      configuration object. */
  datatype InitOptions = ArgsMode(args: Args) | ObjectMode(data: seq<Prop>)

  const NotInitialized := "Configuration not initialized"

  /** The configuration `initConfig` builds before checking it; a bad range
      argument ends the run here. */
  function NewConfig(options: InitOptions, groups: map<string, seq<int>>, defaultConfig: ScanConfig): Result<Value>
  {
    match options
    case ArgsMode(args) =>
      (match GetConfigFromArgs(args, groups, defaultConfig)
       case Failure(e) => Failure(e)
       case Success(c) => Success(Obj(Props(c))))
    case ObjectMode(data) => Success(Obj(GetConfigFromObject(data, defaultConfig)))
  }

  /** What `initConfig` stores, or the message it throws: the built
      configuration once it has passed `assertIsValidConfig`. */
  function Checked(built: Result<Value>): (r: Result<Value>)
    ensures r.Success? ==> IsValidConfig(r.value) && built == Success(r.value)
    ensures r.Failure? <==> built.Failure? || AssertIsValidConfig(built.value).Some?
  {
    match built
    case Failure(e) => Failure(e)
    case Success(v) =>
      ValidIff(v);
      match AssertIsValidConfig(v)
      case Some(err) => Failure(Message(err))
      case None => Success(v)
  }

  /** The module-level `config` variable. */
  class ConfigStore {
    var config: Option<Value>

    /** Only a configuration that passed the checks is ever stored. */
    ghost predicate Valid()
      reads this
    {
      config.Some? ==> IsValidConfig(config.value)
    }

    /** `let config = null`. */
    constructor()
      ensures config == None && Valid()
    {
      config := None;
    }

    /** `initConfig`: builds the configuration, checks it, and only then
        stores it; a throw leaves the slot as it was. */
    method InitConfig(options: InitOptions, groups: map<string, seq<int>>, defaultConfig: ScanConfig)
      returns (r: Result<()>)
      requires Valid()
      modifies this
      ensures Valid()
      ensures r.Success? <==> Checked(NewConfig(options, groups, defaultConfig)).Success?
      ensures r.Success? ==> config == Some(Checked(NewConfig(options, groups, defaultConfig)).value)
      ensures r.Failure? ==> r.error == Checked(NewConfig(options, groups, defaultConfig)).error && config == old(config)
    {
      var newConfig := NewConfig(options, groups, defaultConfig);
      if newConfig.Failure? {
        assert Checked(newConfig) == Failure(newConfig.error);
        return Failure(newConfig.error);
      }
      var check := AssertIsValidConfig(newConfig.value);
      if check.Some? {
        assert Checked(newConfig) == Failure(Message(check.value));
        return Failure(Message(check.value));
      }
      assert Checked(newConfig) == Success(newConfig.value);
      config := Some(newConfig.value);
      r := Success(());
    }

    /** `getConfig`: the stored configuration, or a throw while none is. */
    method GetConfig() returns (r: Result<Value>)
      ensures config.None? ==> r == Failure(NotInitialized)
      ensures config.Some? ==> r == Success(config.value)
    {
      if config.None? {
        return Failure(NotInitialized);
      }
      r := Success(config.value);
    }
  }

  // ---------------------------------------------------------------------
  // Properties
  // ---------------------------------------------------------------------

  /** In args mode a parsed configuration is stored exactly when its typed
      fields are in range, and it is stored as that configuration's object. */
  lemma ArgsModeChecked(args: Args, groups: map<string, seq<int>>, defaultConfig: ScanConfig)
    requires GetConfigFromArgs(args, groups, defaultConfig).Success?
    ensures var c := GetConfigFromArgs(args, groups, defaultConfig).value;
      var r := Checked(NewConfig(ArgsMode(args), groups, defaultConfig));
      (r.Success? <==> ValidScanConfig(c)) && (r.Success? ==> r.value == Obj(Props(c)))
  {
    TypedValid(GetConfigFromArgs(args, groups, defaultConfig).value);
  }

  /** A range argument that does not parse is thrown with its own message,
      before any check. */
  lemma ArgsModeRangeError(args: Args, groups: map<string, seq<int>>, defaultConfig: ScanConfig)
    requires GetConfigFromArgs(args, groups, defaultConfig).Failure?
    ensures Checked(NewConfig(ArgsMode(args), groups, defaultConfig)) == Failure(GetConfigFromArgs(args, groups, defaultConfig).error)
  {
  }

  /** In object mode the defaults overridden by the given fields are stored
      exactly when they pass the checks, and a failing check throws its
      message. */
  lemma ObjectModeChecked(data: seq<Prop>, groups: map<string, seq<int>>, defaultConfig: ScanConfig)
    ensures var v := Obj(GetConfigFromObject(data, defaultConfig));
      var r := Checked(NewConfig(ObjectMode(data), groups, defaultConfig));
      match AssertIsValidConfig(v)
      case None => r == Success(v)
      case Some(err) => r == Failure(Message(err))
  {
  }

  /** An empty object stores the defaults, which pass the checks whenever
      the common ports are valid ports. */
  lemma EmptyObjectStoresDefaults(common: seq<int>, groups: map<string, seq<int>>)
    requires common != [] && forall k :: 0 <= k < |common| ==> 1 <= common[k] <= 65535
    ensures Checked(NewConfig(ObjectMode([]), groups, DefaultConfig(common))) == Success(Obj(Props(DefaultConfig(common))))
  {
    DefaultConfigValid(common);
  }
}
