/** `RsaKeyPairCredential` as its unit tests pin it down: argument
    validation at construction, the string form, and how the session access
    key returned by the key-pair exchange becomes a credential. The class's
    own source is not part of this model; its behaviour here is what the
    tests assert. */
module KeyPair {
  import opened Wrappers
  import opened Php
  import Iso8601
  import CredentialConfig

  /** A constructed key-pair credential. */
  datatype RsaKeyPairCredential = RsaKeyPairCredential(
    publicKeyId: string,
    privateKeyFile: string,
    privateKey: string,
    config: Assoc<Value>)

  /** The declared constructor parameters `($public_key_id, $private_key_file, array $config = [])`. */
  const Params: seq<CredentialConfig.Param> := [
    CredentialConfig.Param("public_key_id", false, None),
    CredentialConfig.Param("private_key_file", false, None),
    CredentialConfig.Param("config", true, Some(List([])))
  ]

  function NotStringMessage(option: string): string {
    option + " must be a string"
  }

  function EmptyMessage(option: string): string {
    option + " cannot be empty"
  }

  /** The string-option check: a non-string is rejected before an empty string. */
  function CheckString(v: Value, option: string): (r: Result<string, Error>)
    ensures r.Success? <==> v.Str? && v.s != ""
    ensures r.Success? ==> r.value == v.s
    ensures !v.Str? ==> r == Failure(InvalidArgument(NotStringMessage(option)))
    ensures v == Str("") ==> r == Failure(InvalidArgument(EmptyMessage(option)))
  {
    if !v.Str? then Failure(InvalidArgument(NotStringMessage(option)))
    else if v.s == "" then Failure(InvalidArgument(EmptyMessage(option)))
    else Success(v.s)
  }

  /** `new RsaKeyPairCredential($public_key_id, $private_key_file, $config = [])`.
      Reading the private key file is the `readFile` parameter; its error is
      rethrown as an invalid-argument error. */
  function New(publicKeyId: Value, privateKeyFile: Value, readFile: string -> Result<string, string>,
               config: Assoc<Value> := []): (r: Result<RsaKeyPairCredential, Error>)
    ensures r.Success? <==> && publicKeyId.Str? && publicKeyId.s != ""
                            && privateKeyFile.Str? && privateKeyFile.s != ""
                            && readFile(privateKeyFile.s).Success?
    ensures r.Success? ==> r.value == RsaKeyPairCredential(publicKeyId.s, privateKeyFile.s,
                                                           readFile(privateKeyFile.s).value, config)
    ensures publicKeyId == Str("") ==> r == Failure(InvalidArgument(EmptyMessage("public_key_id")))
    ensures !publicKeyId.Str? ==> r == Failure(InvalidArgument(NotStringMessage("public_key_id")))
    ensures CheckString(publicKeyId, "public_key_id").Success? && privateKeyFile == Str("") ==>
              r == Failure(InvalidArgument(EmptyMessage("private_key_file")))
    ensures CheckString(publicKeyId, "public_key_id").Success? && !privateKeyFile.Str? ==>
              r == Failure(InvalidArgument(NotStringMessage("private_key_file")))
    ensures && CheckString(publicKeyId, "public_key_id").Success?
            && CheckString(privateKeyFile, "private_key_file").Success?
            && readFile(privateKeyFile.s).Failure? ==>
              r == Failure(InvalidArgument(readFile(privateKeyFile.s).error))
  {
    var id :- CheckString(publicKeyId, "public_key_id");
    var file :- CheckString(privateKeyFile, "private_key_file");
    match readFile(file)
    case Failure(message) => Failure(InvalidArgument(message))
    case Success(key) => Success(RsaKeyPairCredential(id, file, key, config))
  }

  /** `(string) $credential`. */
  function ToString(c: RsaKeyPairCredential): string {
    "publicKeyId#" + c.publicKeyId
  }

  /** `getOriginalAccessKeyId()`: the public key id stands in for an access key id. */
  function OriginalAccessKeyId(c: RsaKeyPairCredential): string {
    c.publicKeyId
  }

  const StringPrefix: string := "publicKeyId#"

  /** Reads the public key id back out of the string form. */
  function PublicKeyIdOfString(s: string): Option<string> {
    if |s| >= |StringPrefix| && s[..|StringPrefix|] == StringPrefix then Some(s[|StringPrefix|..]) else None
  }

  /** The string form names the public key id and determines it. */
  lemma ToStringRoundTrip(c: RsaKeyPairCredential)
    ensures PublicKeyIdOfString(ToString(c)) == Some(c.publicKeyId)
  {
    assert ToString(c)[..|StringPrefix|] == StringPrefix;
    assert ToString(c)[|StringPrefix|..] == c.publicKeyId;
  }

  /** The construction test: a valid id and a readable key file give a
      credential that keeps the id, holds the file's contents, has an empty
      configuration, prints as `publicKeyId#<id>` and uses the id as its
      original access key id. */
  lemma ConstructAsTested(id: string, file: string, readFile: string -> Result<string, string>)
    requires id != "" && file != "" && readFile(file).Success?
    ensures New(Str(id), Str(file), readFile).Success?
    ensures var c := New(Str(id), Str(file), readFile).value;
            && c.publicKeyId == id && c.privateKey == readFile(file).value && c.config == []
            && ToString(c) == "publicKeyId#" + id && OriginalAccessKeyId(c) == id
  {
  }

  // ---- The session access key exchange ----

  /** The decoded JSON body of an exchange response. */
  datatype Json = JNull | JBool(b: bool) | JNum(n: int) | JStr(s: string) | JObj(members: Assoc<Json>)

  /** `$j[$k]` on a decoded object: a repeated member name keeps its last value. */
  function Member(j: Json, k: string): Option<Json> {
    if j.JObj? then GetLast(j.members, k) else None
  }

  /** A member given again later in the body overrides the earlier one, so an
      id and secret supplied last make the response complete. */
  lemma LaterMemberWins(members: Assoc<Json>, k: string, v: Json)
    ensures Member(JObj(members + [(k, v)]), k) == Some(v)
  {
    GetLastAppend(members, k, v);
  }

  /** `isset($j[$k])` with a string value. */
  predicate HasString(j: Json, k: string) {
    Member(j, k).Some? && Member(j, k).value.JStr?
  }

  /** The credential the exchange yields. */
  datatype SessionCredential = SessionCredential(
    accessKeyId: string,
    accessKeySecret: string,
    securityToken: string,
    expiration: Option<int>)

  const NoCredentialsMessage: string := "Result contains no credentials"

  /** The `SessionAccessKey` block of a response, or `JNull` when there is none. */
  function Block(response: Json): Json {
    match Member(response, "SessionAccessKey")
    case Some(b) => b
    case None => JNull
  }

  /** A response is usable exactly when its `SessionAccessKey` block carries
      both the id and the secret. */
  predicate Complete(response: Json) {
    HasString(Block(response), "SessionAccessKeyId") && HasString(Block(response), "SessionAccessKeySecret")
  }

  /** Turns an exchange response into a session credential. This exchange
      issues no security token; the expiration is `strtotime` of the
      `Expiration` field (absent when it cannot be read). */
  function SessionFromResponse(response: Json): (r: Result<SessionCredential, Error>)
    ensures r.Success? <==> Complete(response)
    ensures r.Failure? ==> r.error == Runtime(NoCredentialsMessage)
    ensures r.Success? ==>
              && Member(Block(response), "SessionAccessKeyId") == Some(JStr(r.value.accessKeyId))
              && Member(Block(response), "SessionAccessKeySecret") == Some(JStr(r.value.accessKeySecret))
              && r.value.securityToken == ""
    ensures r.Success? && HasString(Block(response), "Expiration") ==>
              r.value.expiration == Iso8601.StrToTime(Member(Block(response), "Expiration").value.s)
    ensures r.Success? && !HasString(Block(response), "Expiration") ==> r.value.expiration == None
  {
    var block := Block(response);
    if !Complete(response) then Failure(Runtime(NoCredentialsMessage))
    else
      var expiration := if HasString(block, "Expiration")
                        then Iso8601.StrToTime(Member(block, "Expiration").value.s) else None;
      Success(SessionCredential(Member(block, "SessionAccessKeyId").value.s,
                                Member(block, "SessionAccessKeySecret").value.s, "", expiration))
  }

  /** The response of the exchange test. */
  function TestResponse(withSecret: bool): Json {
    JObj([
      ("RequestId", JStr("F702286E-F231-4F40-BB86-XXXXXX")),
      ("SessionAccessKey", JObj(
        [("SessionAccessKeyId", JStr("TMPSK.**************")),
         ("Expiration", JStr("2023-02-19T07:02:36.225Z"))]
        + (if withSecret then [("SessionAccessKeySecret", JStr("**************"))] else [])))
    ])
  }

  /** The exchange test: the id and secret are taken as sent, the token is
      empty and the expiration is 2023-02-19T07:02:36Z in epoch seconds. */
  lemma ExchangeAsTested()
    ensures SessionFromResponse(TestResponse(true))
            == Success(SessionCredential("TMPSK.**************", "**************", "", Some(1676790156)))
  {
    TestBlockMembers();
    Iso8601.TestExpiration();
  }

  /** The members of the tested response's `SessionAccessKey` block. */
  lemma TestBlockMembers()
    ensures Member(Block(TestResponse(true)), "SessionAccessKeyId") == Some(JStr("TMPSK.**************"))
    ensures Member(Block(TestResponse(true)), "SessionAccessKeySecret") == Some(JStr("**************"))
    ensures Member(Block(TestResponse(true)), "Expiration") == Some(JStr("2023-02-19T07:02:36.225Z"))
  {
    var block := Block(TestResponse(true));
    assert block == JObj([("SessionAccessKeyId", JStr("TMPSK.**************")),
                          ("Expiration", JStr("2023-02-19T07:02:36.225Z")),
                          ("SessionAccessKeySecret", JStr("**************"))]);
    var m := block.members;
    assert m[..2] == [m[0], m[1]];
    assert m[..2][..1] == [m[0]];
    assert |m[2].0| != |"SessionAccessKeyId"| && |m[1].0| != |"SessionAccessKeyId"|;
    assert GetLast(m, "SessionAccessKeyId") == GetLast(m[..2], "SessionAccessKeyId");
    assert GetLast(m[..2], "SessionAccessKeyId") == GetLast([m[0]], "SessionAccessKeyId");
  }

  /** The incomplete-response test: without the secret the exchange fails,
      although the id is present. */
  lemma IncompleteExchangeAsTested()
    ensures HasString(Block(TestResponse(false)), "SessionAccessKeyId")
    ensures SessionFromResponse(TestResponse(false)) == Failure(Runtime(NoCredentialsMessage))
  {
  }

  // ---- Through the configuration facade ----

  /** The facade only ever passes the three declared arguments; any other
      argument list is a PHP type or argument-count error. */
  const ArgumentMismatchMessage: string := "Arguments do not match the declared parameters"

  /** The key-pair constructor as `newInstance` runs it on the bound arguments. */
  function Construct(readFile: string -> Result<string, string>, args: seq<CredentialConfig.Arg>): (r: Result<(), Error>)
    ensures |args| == 3 && args[0].Scalar? && args[1].Scalar? && args[2].WholeConfig? ==>
              var made := New(args[0].value, args[1].value, readFile, args[2].config);
              && (r.Success? <==> made.Success?)
              && (r.Failure? ==> r.error == made.error)
    ensures !(|args| == 3 && args[0].Scalar? && args[1].Scalar? && args[2].WholeConfig?) ==>
              r == Failure(Runtime(ArgumentMismatchMessage))
  {
    if |args| == 3 && args[0].Scalar? && args[1].Scalar? && args[2].WholeConfig? then
      var _ :- New(args[0].value, args[1].value, readFile, args[2].config);
      Success(())
    else Failure(Runtime(ArgumentMismatchMessage))
  }

  /** The class constructors with the key-pair one written out; the other
      four classes are left as given. */
  function Constructors(readFile: string -> Result<string, string>, others: CredentialConfig.Constructors)
    : CredentialConfig.Constructors
  {
    (kind, args) => if kind == CredentialConfig.RsaKeyPair then Construct(readFile, args) else others(kind, args)
  }

  /** `new Credential(['type' => 'rsa_key_pair', …])` with both key options
      present succeeds exactly when the key-pair constructor does, and
      otherwise reports that constructor's own error. */
  lemma FacadeReportsKeyPairErrors(input: Assoc<Value>, table: CredentialConfig.Signatures,
                                   others: CredentialConfig.Constructors, readFile: string -> Result<string, string>)
    requires input != []
    requires table(CredentialConfig.RsaKeyPair) == Params
    requires LastValueFor(input, "type") == Some(Str("rsa_key_pair"))
    requires LastValueFor(input, "public_key_id").Some? && LastValueFor(input, "private_key_file").Some?
    ensures var r := CredentialConfig.New(input, table, Constructors(readFile, others));
            var made := New(LastValueFor(input, "public_key_id").value, LastValueFor(input, "private_key_file").value,
                            readFile, ChangeKeyCase(input));
            && (r.Success? <==> made.Success?)
            && (r.Failure? ==> r.error == made.error)
  {
    var construct := Constructors(readFile, others);
    var config := ChangeKeyCase(input);
    assert ("rsa_key_pair", CredentialConfig.RsaKeyPair) == CredentialConfig.Registry[4];
    KeyOptionsBind(input);
    var bound := CredentialConfig.Resolve(config, "rsa_key_pair", Params).value;
    assert construct(CredentialConfig.RsaKeyPair, bound) == Construct(readFile, bound);
    CredentialConfig.ConstructionOutcome(input, table, construct, "rsa_key_pair", CredentialConfig.RsaKeyPair);
  }

  /** With both key options present, the three declared parameters bind to
      the last value of each option and the whole stored configuration. */
  lemma KeyOptionsBind(input: Assoc<Value>)
    requires LastValueFor(input, "public_key_id").Some? && LastValueFor(input, "private_key_file").Some?
    ensures var config := ChangeKeyCase(input);
            var bound := CredentialConfig.Resolve(config, "rsa_key_pair", Params);
            && bound.Success? && |bound.value| == 3
            && bound.value[0] == CredentialConfig.Scalar(LastValueFor(input, "public_key_id").value)
            && bound.value[1] == CredentialConfig.Scalar(LastValueFor(input, "private_key_file").value)
            && bound.value[2] == CredentialConfig.WholeConfig(config)
  {
    var config := ChangeKeyCase(input);
    KeyOptionNamesAreLower();
    OptionPresent(input, "public_key_id");
    OptionPresent(input, "private_key_file");
    var id := LastValueFor(input, "public_key_id").value;
    var file := LastValueFor(input, "private_key_file").value;
    assert CredentialConfig.ResolveParam(config, "rsa_key_pair", Params[0]) == Success(CredentialConfig.Scalar(id));
    assert CredentialConfig.ResolveParam(config, "rsa_key_pair", Params[1]) == Success(CredentialConfig.Scalar(file));
    assert Params[1..][1..] == [Params[2]];
  }

  lemma KeyOptionNamesAreLower()
    ensures ToLower("public_key_id") == "public_key_id"
    ensures ToLower("private_key_file") == "private_key_file"
  {
    ToLowerNormalises("public_key_id");
    ToLowerNormalises("private_key_file");
  }

  /** An option the input sets under any spelling is stored under its
      lower-case name with the last value given. */
  lemma OptionPresent(input: Assoc<Value>, name: string)
    requires ToLower(name) == name
    requires LastValueFor(input, name).Some?
    ensures HasKey(ChangeKeyCase(input), ToLower(name))
    ensures Get(ChangeKeyCase(input), ToLower(name)) == LastValueFor(input, name)
  {
    ChangeKeyCaseSemantics(input, name);
  }

  /** An empty public key id given through the facade surfaces as the
      key-pair constructor's "public_key_id cannot be empty". */
  lemma FacadeRejectsEmptyPublicKeyId(table: CredentialConfig.Signatures, others: CredentialConfig.Constructors,
                                      readFile: string -> Result<string, string>)
    requires table(CredentialConfig.RsaKeyPair) == Params
    ensures CredentialConfig.New([("type", Str("rsa_key_pair")), ("public_key_id", Str("")), ("private_key_file", Str("/k"))],
                                 table, Constructors(readFile, others))
            == Failure(InvalidArgument(EmptyMessage("public_key_id")))
  {
    var input: Assoc<Value> := [("type", Str("rsa_key_pair")), ("public_key_id", Str("")), ("private_key_file", Str("/k"))];
    EmptyIdOptions();
    FacadeReportsKeyPairErrors(input, table, others, readFile);
  }

  /** The three options of the empty-id configuration, each given once. */
  lemma EmptyIdOptions()
    ensures var input: Assoc<Value> := [("type", Str("rsa_key_pair")), ("public_key_id", Str("")), ("private_key_file", Str("/k"))];
            && LastValueFor(input, "type") == Some(Str("rsa_key_pair"))
            && LastValueFor(input, "public_key_id") == Some(Str(""))
            && LastValueFor(input, "private_key_file") == Some(Str("/k"))
  {
    var input: Assoc<Value> := [("type", Str("rsa_key_pair")), ("public_key_id", Str("")), ("private_key_file", Str("/k"))];
    assert ToLower("type") == "type";
    assert ToLower("public_key_id") == "public_key_id";
    assert ToLower("private_key_file") == "private_key_file";
    assert input[..2][..1] == [input[0]];
  }

  /** Through the configuration facade, `type => rsa_key_pair` without a
      public key id fails on that parameter, the first one declared, before
      any constructor runs. */
  lemma FacadeNamesFirstMissingOption(table: CredentialConfig.Signatures, construct: CredentialConfig.Constructors)
    requires table(CredentialConfig.RsaKeyPair) == Params
    ensures CredentialConfig.New([("type", Str("rsa_key_pair"))], table, construct)
            == Failure(InvalidArgument(CredentialConfig.MissingOptionMessage("public_key_id", "rsa_key_pair")))
  {
    var input: Assoc<Value> := [("type", Str("rsa_key_pair"))];
    TypeOnlyConfig();
    TypeOnlyMissesPublicKeyId();
    assert ("rsa_key_pair", CredentialConfig.RsaKeyPair) == CredentialConfig.Registry[4];
    CredentialConfig.KindOfRegistered("rsa_key_pair", CredentialConfig.RsaKeyPair);
    CredentialConfig.ParseWithKind(input, table, construct, "rsa_key_pair", CredentialConfig.RsaKeyPair);
  }

  /** A configuration holding only a lower-case `type` key is stored as given. */
  lemma TypeOnlyConfig()
    ensures ChangeKeyCase([("type", Str("rsa_key_pair"))]) == [("type", Str("rsa_key_pair"))]
    ensures Get([("type", Str("rsa_key_pair"))], "type") == Some(Str("rsa_key_pair"))
  {
    var input: Assoc<Value> := [("type", Str("rsa_key_pair"))];
    assert input[..0] == [];
    assert ToLower("type") == "type";
  }

  /** Binding the key-pair parameters against a type-only configuration stops
      at the public key id. */
  lemma TypeOnlyMissesPublicKeyId()
    ensures CredentialConfig.Resolve([("type", Str("rsa_key_pair"))], "rsa_key_pair", Params)
            == Failure(InvalidArgument(CredentialConfig.MissingOptionMessage("public_key_id", "rsa_key_pair")))
  {
    var input: Assoc<Value> := [("type", Str("rsa_key_pair"))];
    assert ToLower("public_key_id") == "public_key_id";
    assert Get(input, "public_key_id") == None;
  }
}
