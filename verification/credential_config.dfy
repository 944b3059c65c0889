/** The `Credential` facade: it lower-cases the keys of a configuration
    array, selects a credential class from the `type` option and binds that
    class's constructor parameters from the configuration. PHP reflection
    over the constructor is replaced by a declared parameter table. */
module CredentialConfig {
  import opened Wrappers
  import opened Php

  /** The five credential classes the registry can select. */
  datatype Kind = AccessKey | Sts | EcsRamRole | RamRoleArn | RsaKeyPair

  /** The `$types` registry, in declaration order. */
  const Registry: Assoc<Kind> := [
    ("access_key", AccessKey),
    ("sts", Sts),
    ("ecs_ram_role", EcsRamRole),
    ("ram_role_arn", RamRoleArn),
    ("rsa_key_pair", RsaKeyPair)
  ]

  /** One constructor parameter as reflection reports it: its name, whether
      it is declared `array`, and its default value if it has one. */
  datatype Param = Param(name: string, isArray: bool, default: Option<Value>)

  /** The declared constructor parameters of each class. */
  type Signatures = Kind -> seq<Param>

  /** An argument passed to a constructor: the whole configuration (for an
      `array` parameter) or a single value. */
  datatype Arg = WholeConfig(config: Assoc<Value>) | Scalar(value: Value)

  /** The credential object `newInstance` builds: its class and the arguments. */
  datatype Provider = Provider(kind: Kind, args: seq<Arg>)

  /** The constructors of the credential classes: whether running the
      constructor of a class on the bound arguments returns or throws. */
  type Constructors = (Kind, seq<Arg>) -> Result<(), Error>

  /** Where the facade's credential came from: the default provider chain
      (empty configuration) or the registry class named by `type`. */
  datatype Source = DefaultChain | Configured(typeName: string, provider: Provider)

  /** A constructed facade: its stored (lower-cased) configuration and credential. */
  datatype Credential = Credential(config: Assoc<Value>, source: Source)

  /** `implode($sep, $parts)`. */
  function Join(parts: seq<string>, sep: string): string {
    if |parts| == 0 then ""
    else if |parts| == 1 then parts[0]
    else parts[0] + sep + Join(parts[1..], sep)
  }

  function TypeNames(): seq<string> {
    seq(|Registry|, i requires 0 <= i < |Registry| => Registry[i].0)
  }

  const MissingTypeMessage: string := "Missing required type option"

  function InvalidTypeMessage(): string {
    "Invalid type option, support: " + Join(TypeNames(), ", ")
  }

  function MissingOptionMessage(name: string, typeName: string): string {
    "Missing required " + name + " option in config for " + typeName
  }

  /** The registry class for a `type` value. The lookup is an exact match on
      a string: the value is not lower-cased, and a non-string never matches. */
  function KindOf(v: Value): (r: Option<Kind>)
    ensures r.Some? <==> v.Str? && v.s in TypeNames()
    ensures r.Some? ==> (v.s, r.value) in Registry
  {
    if v.Str? then
      RegisteredIffNamed(v.s);
      Get(Registry, v.s)
    else None
  }

  /** A name is a registry key exactly when it is one of the listed type names. */
  lemma RegisteredIffNamed(name: string)
    ensures HasKey(Registry, name) <==> name in TypeNames()
  {
    if name in TypeNames() {
      var i :| 0 <= i < |TypeNames()| && TypeNames()[i] == name;
      assert Registry[i].0 == name;
    }
    if HasKey(Registry, name) {
      var i :| 0 <= i < |Registry| && Registry[i].0 == name;
      assert TypeNames()[i] == name;
    }
  }

  /** A parameter can be bound: it is an array, its lower-cased name is a
      key of the configuration, or it has a default. */
  predicate Resolvable(config: Assoc<Value>, p: Param) {
    p.isArray || HasKey(config, ToLower(p.name)) || p.default.Some?
  }

  /** The binding precedence: array parameters take the whole configuration;
      otherwise the configuration entry for the lower-cased name wins; the
      default is used only when there is no such entry. */
  predicate Binds(config: Assoc<Value>, p: Param, arg: Arg) {
    if p.isArray then arg == WholeConfig(config)
    else if HasKey(config, ToLower(p.name)) then arg == Scalar(Get(config, ToLower(p.name)).value)
    else p.default.Some? && arg == Scalar(p.default.value)
  }

  /** `getValue($parameter)`. */
  function ResolveParam(config: Assoc<Value>, typeName: string, p: Param): (r: Result<Arg, Error>)
    ensures r.Success? <==> Resolvable(config, p)
    ensures r.Success? ==> Binds(config, p, r.value)
    ensures r.Failure? ==> r.error == InvalidArgument(MissingOptionMessage(p.name, typeName))
  {
    if p.isArray then Success(WholeConfig(config))
    else match Get(config, ToLower(p.name))
      case Some(v) => Success(Scalar(v))
      case None =>
        if p.default.Some? then Success(Scalar(p.default.value))
        else Failure(InvalidArgument(MissingOptionMessage(p.name, typeName)))
  }

  /** The `foreach` over the constructor parameters: one argument per
      parameter, in order; the first parameter that cannot be bound aborts
      with its error. */
  function Resolve(config: Assoc<Value>, typeName: string, params: seq<Param>): (r: Result<seq<Arg>, Error>)
    ensures r.Success? <==> forall i :: 0 <= i < |params| ==> Resolvable(config, params[i])
    ensures r.Success? ==> |r.value| == |params| && forall i :: 0 <= i < |params| ==> Binds(config, params[i], r.value[i])
    ensures r.Failure? ==> exists i :: 0 <= i < |params| && !Resolvable(config, params[i])
                                  && (forall j :: 0 <= j < i ==> Resolvable(config, params[j]))
                                  && r.error == InvalidArgument(MissingOptionMessage(params[i].name, typeName))
  {
    if params == [] then Success([])
    else
      var head :- ResolveParam(config, typeName, params[0]);
      var tail :- Resolve(config, typeName, params[1..]);
      assert forall i :: 1 <= i < |params| ==> params[i] == params[1..][i - 1];
      Success([head] + tail)
  }

  /** Lines 91-100 of `parseConfig()` for a selected class: bind every
      parameter, then `newInstance(...$parameters)`, whose constructor may
      itself throw. */
  function Instantiate(config: Assoc<Value>, typeName: string, kind: Kind, table: Signatures,
                       construct: Constructors): (r: Result<Provider, Error>)
    ensures Resolve(config, typeName, table(kind)).Failure? ==>
              r == Failure(Resolve(config, typeName, table(kind)).error)
    ensures Resolve(config, typeName, table(kind)).Success? ==>
              var args := Resolve(config, typeName, table(kind)).value;
              && (r.Success? <==> construct(kind, args).Success?)
              && (r.Success? ==> r.value == Provider(kind, args))
              && (r.Failure? ==> r.error == construct(kind, args).error)
  {
    var args :- Resolve(config, typeName, table(kind));
    var _ :- construct(kind, args);
    Success(Provider(kind, args))
  }

  /** `parseConfig()` on an already lower-cased configuration. */
  function Parse(config: Assoc<Value>, table: Signatures, construct: Constructors): (r: Result<Source, Error>)
    ensures !IsSet(config, "type") ==> r == Failure(InvalidArgument(MissingTypeMessage))
    ensures IsSet(config, "type") && KindOf(Get(config, "type").value).None? ==>
              r == Failure(InvalidArgument(InvalidTypeMessage()))
    ensures r.Success? ==>
              && r.value.Configured?
              && Get(config, "type") == Some(Str(r.value.typeName))
              && (r.value.typeName, r.value.provider.kind) in Registry
              && |r.value.provider.args| == |table(r.value.provider.kind)|
              && (forall i :: 0 <= i < |table(r.value.provider.kind)| ==>
                   Binds(config, table(r.value.provider.kind)[i], r.value.provider.args[i]))
              && construct(r.value.provider.kind, r.value.provider.args).Success?
  {
    if !IsSet(config, "type") then Failure(InvalidArgument(MissingTypeMessage))
    else
      var t := Get(config, "type").value;
      match KindOf(t)
      case None => Failure(InvalidArgument(InvalidTypeMessage()))
      case Some(kind) =>
        var provider :- Instantiate(config, t.s, kind, table, construct);
        Success(Configured(t.s, provider))
  }

  /** `new Credential($config)`. An empty configuration defers to the default
      provider chain, which is not part of this model. */
  function New(input: Assoc<Value>, table: Signatures, construct: Constructors): (r: Result<Credential, Error>)
    ensures input == [] ==> r == Success(Credential([], DefaultChain))
    ensures input != [] && r.Success? ==> r.value.config == ChangeKeyCase(input) && r.value.source.Configured?
    ensures input != [] ==> (r.Success? <==> Parse(ChangeKeyCase(input), table, construct).Success?)
    ensures input != [] && r.Failure? ==> r.error == Parse(ChangeKeyCase(input), table, construct).error
  {
    if input == [] then Success(Credential([], DefaultChain))
    else
      var config := ChangeKeyCase(input);
      var source :- Parse(config, table, construct);
      Success(Credential(config, source))
  }

  /** `getConfig()`. */
  function GetConfig(c: Credential): Assoc<Value> {
    c.config
  }

  /** After a successful construction every stored key is lower-case and
      unique, and a key that several input keys lower-case to carries the
      value of the last of them. */
  lemma StoredConfigIsLowerCased(input: Assoc<Value>, table: Signatures, construct: Constructors, k: string)
    requires New(input, table, construct).Success?
    ensures var config := GetConfig(New(input, table, construct).value);
            && UniqueKeys(config)
            && (forall i :: 0 <= i < |config| ==> IsLower(config[i].0))
            && Get(config, k) == LastValueFor(input, k)
  {
    ChangeKeyCaseSemantics(input, k);
  }

  /** The configuration handed to an `array` parameter is the stored one:
      binding the arguments leaves the configuration as it was stored. */
  lemma WholeConfigIsStoredConfig(input: Assoc<Value>, table: Signatures, construct: Constructors, i: nat)
    requires New(input, table, construct).Success?
    requires New(input, table, construct).value.source.Configured?
    requires i < |New(input, table, construct).value.source.provider.args|
    requires New(input, table, construct).value.source.provider.args[i].WholeConfig?
    ensures New(input, table, construct).value.source.provider.args[i].config
            == GetConfig(New(input, table, construct).value)
    ensures GetConfig(New(input, table, construct).value) == ChangeKeyCase(input)
  {
    var c := New(input, table, construct).value;
    var kind := c.source.provider.kind;
    assert Binds(c.config, table(kind)[i], c.source.provider.args[i]);
  }

  /** A non-empty configuration fails with "Missing required type option"
      exactly when no key lower-cases to `type` or the last such key holds
      null, provided no credential constructor throws that same message. */
  lemma MissingTypeExactly(input: Assoc<Value>, table: Signatures, construct: Constructors)
    requires input != []
    requires forall kind, args :: construct(kind, args) != Failure(InvalidArgument(MissingTypeMessage))
    ensures New(input, table, construct) == Failure(InvalidArgument(MissingTypeMessage))
            <==> (LastValueFor(input, "type") == None || LastValueFor(input, "type") == Some(Null))
  {
    var config := ChangeKeyCase(input);
    ChangeKeyCaseSemantics(input, "type");
    var r := Parse(config, table, construct);
    if IsSet(config, "type") {
      var t := Get(config, "type").value;
      if KindOf(t).None? {
        assert InvalidTypeMessage()[..7] == "Invalid";
        assert MissingTypeMessage[..7] == "Missing";
      } else {
        var kind := KindOf(t).value;
        var params := table(kind);
        var bound := Resolve(config, t.s, params);
        if bound.Failure? {
          var i :| 0 <= i < |params| && bound.error == InvalidArgument(MissingOptionMessage(params[i].name, t.s));
          assert |MissingOptionMessage(params[i].name, t.s)| > |MissingTypeMessage|;
        } else {
          assert construct(kind, bound.value) != Failure(InvalidArgument(MissingTypeMessage));
        }
      }
    }
  }

  /** The error text lists the five registry names, comma-separated, in registry order. */
  lemma InvalidTypeMessageText()
    ensures InvalidTypeMessage()
            == "Invalid type option, support: " + "access_key" + ", " + "sts" + ", " + "ecs_ram_role"
               + ", " + "ram_role_arn" + ", " + "rsa_key_pair"
  {
    TypeNamesListed();
    JoinNamesFromSts();
    var names := ["access_key", "sts", "ecs_ram_role", "ram_role_arn", "rsa_key_pair"];
    assert names[1..] == ["sts", "ecs_ram_role", "ram_role_arn", "rsa_key_pair"];
  }

  lemma JoinNamesFromSts()
    ensures Join(["sts", "ecs_ram_role", "ram_role_arn", "rsa_key_pair"], ", ")
            == "sts" + ", " + "ecs_ram_role" + ", " + "ram_role_arn" + ", " + "rsa_key_pair"
  {
    JoinNamesFromEcs();
    var names := ["sts", "ecs_ram_role", "ram_role_arn", "rsa_key_pair"];
    assert names[1..] == ["ecs_ram_role", "ram_role_arn", "rsa_key_pair"];
  }

  lemma JoinNamesFromEcs()
    ensures Join(["ecs_ram_role", "ram_role_arn", "rsa_key_pair"], ", ")
            == "ecs_ram_role" + ", " + "ram_role_arn" + ", " + "rsa_key_pair"
  {
    var names := ["ecs_ram_role", "ram_role_arn", "rsa_key_pair"];
    assert names[1..] == ["ram_role_arn", "rsa_key_pair"];
    assert names[1..][1..] == ["rsa_key_pair"];
  }

  /** The registry names, in order. */
  lemma TypeNamesListed()
    ensures TypeNames() == ["access_key", "sts", "ecs_ram_role", "ram_role_arn", "rsa_key_pair"]
  {
  }

  /** Only keys are lower-cased: `TYPE => ACCESS_KEY` names no registry class,
      while `TYPE => access_key` is dispatched to AccessKeyCredential, whatever
      that class's parameters and constructor do. */
  lemma TypeValueIsCaseSensitive(table: Signatures, construct: Constructors)
    ensures New([("TYPE", Str("ACCESS_KEY"))], table, construct) == Failure(InvalidArgument(InvalidTypeMessage()))
    ensures var config: Assoc<Value> := [("type", Str("access_key"))];
            var made := Instantiate(config, "access_key", AccessKey, table, construct);
            var r := New([("TYPE", Str("access_key"))], table, construct);
            && (r.Success? <==> made.Success?)
            && (r.Success? ==> r.value == Credential(config, Configured("access_key", made.value)))
            && (r.Failure? ==> r.error == made.error)
  {
    UpperTypeValueIsInvalid(table, construct);
    var config: Assoc<Value> := [("type", Str("access_key"))];
    KeyLowerCased("access_key");
    assert Registry[0] == ("access_key", AccessKey);
    KindOfRegistered("access_key", AccessKey);
    ParseWithKind(config, table, construct, "access_key", AccessKey);
  }

  /** A single upper-case `TYPE` key is stored as `type` with its value unchanged. */
  lemma KeyLowerCased(typeName: string)
    ensures ChangeKeyCase([("TYPE", Str(typeName))]) == [("type", Str(typeName))]
  {
    var input: Assoc<Value> := [("TYPE", Str(typeName))];
    assert ToLower("TYPE") == "type";
    assert input[..0] == [];
  }

  lemma UpperTypeValueIsInvalid(table: Signatures, construct: Constructors)
    ensures New([("TYPE", Str("ACCESS_KEY"))], table, construct) == Failure(InvalidArgument(InvalidTypeMessage()))
  {
    KeyLowerCased("ACCESS_KEY");
    TypeNamesListed();
    assert "ACCESS_KEY" !in TypeNames();
  }

  /** A successful construction selects the registry class of the last `type`
      entry of the input, binds exactly one argument per declared parameter,
      in order, under the binding precedence, and that class's constructor
      accepted the arguments. */
  lemma DispatchFollowsRegistry(input: Assoc<Value>, table: Signatures, construct: Constructors)
    requires input != []
    requires New(input, table, construct).Success?
    ensures var c := New(input, table, construct).value;
            && c.source.Configured?
            && LastValueFor(input, "type") == Some(Str(c.source.typeName))
            && (c.source.typeName, c.source.provider.kind) in Registry
            && |c.source.provider.args| == |table(c.source.provider.kind)|
            && (forall i :: 0 <= i < |c.source.provider.args| ==>
                 Binds(ChangeKeyCase(input), table(c.source.provider.kind)[i], c.source.provider.args[i]))
            && construct(c.source.provider.kind, c.source.provider.args).Success?
  {
    ChangeKeyCaseSemantics(input, "type");
  }

  /** With a valid `type`, construction succeeds exactly when every declared
      parameter can be bound and the class's constructor accepts the bound
      arguments. Otherwise the error names the first unbindable parameter,
      or, when all bind, it is the error the constructor threw. */
  lemma ConstructionOutcome(input: Assoc<Value>, table: Signatures, construct: Constructors, typeName: string, kind: Kind)
    requires input != []
    requires LastValueFor(input, "type") == Some(Str(typeName))
    requires (typeName, kind) in Registry
    ensures var params := table(kind);
            var config := ChangeKeyCase(input);
            var r := New(input, table, construct);
            && (r.Success? <==> (forall i :: 0 <= i < |params| ==> Resolvable(config, params[i]))
                                && construct(kind, Resolve(config, typeName, params).value).Success?)
            && ((exists i :: 0 <= i < |params| && !Resolvable(config, params[i])) ==>
                  exists i :: 0 <= i < |params| && !Resolvable(config, params[i])
                    && (forall j :: 0 <= j < i ==> Resolvable(config, params[j]))
                    && r == Failure(InvalidArgument(MissingOptionMessage(params[i].name, typeName))))
            && ((forall i :: 0 <= i < |params| ==> Resolvable(config, params[i])) && r.Failure? ==>
                  r.error == construct(kind, Resolve(config, typeName, params).value).error)
  {
    var config := ChangeKeyCase(input);
    ChangeKeyCaseSemantics(input, "type");
    KindOfRegistered(typeName, kind);
    ParseWithKind(config, table, construct, typeName, kind);
  }

  /** A registered name selects its own class. */
  lemma KindOfRegistered(typeName: string, kind: Kind)
    requires (typeName, kind) in Registry
    ensures KindOf(Str(typeName)) == Some(kind)
  {
    assert UniqueKeys(Registry);
    var j :| 0 <= j < |Registry| && Registry[j] == (typeName, kind);
    assert TypeNames()[j] == typeName;
  }

  /** With a registered `type`, parsing succeeds or fails exactly as
      instantiating that class does. */
  lemma ParseWithKind(config: Assoc<Value>, table: Signatures, construct: Constructors, typeName: string, kind: Kind)
    requires Get(config, "type") == Some(Str(typeName))
    requires KindOf(Str(typeName)) == Some(kind)
    ensures var made := Instantiate(config, typeName, kind, table, construct);
            && (Parse(config, table, construct).Success? <==> made.Success?)
            && (made.Success? ==> Parse(config, table, construct).value == Configured(typeName, made.value))
            && (made.Failure? ==> Parse(config, table, construct).error == made.error)
  {
    assert IsSet(config, "type");
  }
}
