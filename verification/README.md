# Credential configuration and refresh results, modelled in Dafny

This project models three pure pieces of the PHP credential library for a
cloud provider's API clients:

- **The `Credential` facade** (`src/Credential.php`). It lower-cases the keys
  of a configuration array. It reads the `type` option and looks it up in a
  fixed five-entry registry (`access_key`, `sts`, `ecs_ram_role`,
  `ram_role_arn`, `rsa_key_pair`). Then it binds each constructor parameter
  of the selected class from the configuration. Finally it runs that class's
  constructor, whose exception propagates out of the facade. The PHP
  reflection over the constructor is replaced by a declared parameter table
  (`Kind -> seq<Param>`). Each `Param` has a name, an "is `array`" flag and an
  optional default. The constructors themselves are a parameter
  (`(Kind, seq<Arg>) -> Result<(), Error>`). For `rsa_key_pair` the model
  supplies one built from `KeyPair.New`.
- **The `RefreshResult` value object** (`src/Credential/RefreshResult.php`):
  its constructor defaults, `toMap` and `fromMap`.
- **`RsaKeyPairCredential`**, as its unit tests
  (`tests/Unit/RsaKeyPairCredentialTest.php`) pin it down. This covers
  argument validation, the `publicKeyId#<id>` string form, and turning the
  key-pair exchange's JSON response into a session credential. The response's
  ISO-8601 expiration is converted to epoch seconds the way `strtotime` does
  for that shape. A member name repeated in the response keeps its last
  value, as `json_decode` does.

Files and modules:

| file | module | models |
|---|---|---|
| `wrappers.dfy` | `Wrappers` | `Option`, `Result` |
| `php.dfy` | `Php` | PHP values, truthiness, `isset`, ordered string-keyed arrays, ASCII `strtolower`, `array_change_key_case`, thrown errors |
| `credential_config.dfy` | `CredentialConfig` | `Credential::__construct`, `parseConfig`, `getValue`, `getConfig` |
| `refresh_result.dfy` | `Refresh` | `RefreshResult` |
| `iso8601.dfy` | `Iso8601` | `strtotime` on `YYYY-MM-DDThh:mm:ss.sssZ` |
| `key_pair.dfy` | `KeyPair` | `RsaKeyPairCredential` construction, string form, exchange response |

PHP arrays are ordered association lists (`seq<(string, V)>`). Order
matters: `array_change_key_case` keeps the position of the first key that
lower-cases to a given name, but stores the value of the last one. Thrown
exceptions are the `Failure` side of a `Result`, carrying the exception's
class (`InvalidArgument` or `Runtime`) and its message.

Behaviour of the code worth knowing:

- Only the configuration keys are lower-cased, never the `type` value.
  `TYPE => ACCESS_KEY` is therefore an invalid type.
- `getValue` returns a configuration entry even if its value is null.
  Presence is what counts there, unlike the `isset` test on `type`.
- An `array` parameter always receives the whole configuration, even when a
  key with its name exists.
- The facade does not validate option values. An empty `public_key_id`
  binds fine. The key-pair constructor then throws "public_key_id cannot be
  empty", and that exception is what `new Credential(...)` throws.
- `strtotime` accepts month `00` and day `00` and rolls them back. For
  example, `0000-00-00T00:00:00.000Z` is -62169984000.
- The `RefreshResult` constructor does not enforce `prefetchTime <= staleTime`.
  `Refresh.NewDoesNotOrderInstants` shows a result whose prefetch time is
  after its stale time. A design in which the two are always ordered is
  therefore not what the code does.
- `fromMap` does not apply the constructor's falsy-to-`PHP_INT_MAX` rule. A
  `staleTime` of `0` is stored as `0`.

## Model

| member | source | states |
|---|---|---|
| `Php.Get` | src/Credential.php:115-119 | a key is found exactly when present; the value is that of the first entry with the key, and the only one when keys are unique |
| `Php.PutGet` | src/Credential.php:59 | after assigning `$a[$k] = $v`, reading `k` gives `v` and every other key reads as before |
| `Php.ToLowerNormalises` | src/Credential.php:116 | `strtolower` yields a string with no upper-case ASCII letter and changes exactly the strings that have one |
| `Php.ChangeKeyCaseSemantics` | src/Credential.php:59 | every key of `array_change_key_case($a)` is lower-case; its keys are exactly the lower-cased keys of `a`; each carries the value of the last entry of `a` that lower-cases to it |
| `Php.ChangeKeyCaseOfLowerKeys` | src/Credential.php:59 | an array whose keys are already lower-case and distinct is returned unchanged |
| `Php.ChangeKeyCaseIdempotent` | src/Credential.php:59 | lower-casing keys twice equals lower-casing once |
| `CredentialConfig.KindOf` | src/Credential.php:83-84 | a `type` value selects a class exactly when it is a string equal to a registry name, and then it selects that name's class |
| `CredentialConfig.ResolveParam` | src/Credential.php:109-126 | a parameter binds exactly when it is an array, its lower-cased name is a key, or it has a default; array beats key beats default; otherwise the error names the parameter and type |
| `CredentialConfig.Resolve` | src/Credential.php:91-100 | one argument per declared parameter, in order, each bound by the precedence; failure exactly when some parameter cannot bind, reported for the first such parameter |
| `CredentialConfig.Instantiate` | src/Credential.php:91-100 | a binding failure is reported as is; once all parameters bind, the outcome is the class constructor's: success with the bound arguments, or the constructor's own error |
| `CredentialConfig.Parse` | src/Credential.php:77-101 | a missing or null `type` fails with "Missing required type option"; an unknown one fails with the invalid-type message; success carries the registry class of the `type` string and the bound arguments, which the constructor accepted |
| `CredentialConfig.New` | src/Credential.php:56-64 | an empty configuration defers to the default chain; otherwise the stored configuration is the key-lower-cased input, and construction succeeds or fails exactly as parsing it does |
| `CredentialConfig.StoredConfigIsLowerCased` | src/Credential.php:131-134 | after construction `getConfig()` has unique lower-case keys, and a key carries the value of the last input key that lower-cases to it |
| `CredentialConfig.WholeConfigIsStoredConfig` | src/Credential.php:111-113 | the configuration passed to an `array` parameter is the stored configuration, which is the lower-cased input |
| `CredentialConfig.MissingTypeExactly` | src/Credential.php:79-81 | a non-empty configuration fails with "Missing required type option" if and only if no key lower-cases to `type` or the last such key holds null (given that no class constructor throws that same text) |
| `CredentialConfig.InvalidTypeMessageText` | src/Credential.php:84-88 | the invalid-type message lists the five registry names in registry order, separated by ", " |
| `CredentialConfig.TypeValueIsCaseSensitive` | src/Credential.php:83-84 | for every parameter table and constructor: `TYPE => ACCESS_KEY` is an invalid type, while `TYPE => access_key` is dispatched to AccessKeyCredential and has exactly that class's binding and construction outcome |
| `CredentialConfig.DispatchFollowsRegistry` | src/Credential.php:91-100 | on success the class is the registry class of the last `type` entry, with exactly one argument per declared parameter, each bound by the precedence, and the constructor accepted them |
| `CredentialConfig.ConstructionOutcome` | src/Credential.php:91-125 | with a valid `type`, construction succeeds if and only if every parameter can bind and the class constructor accepts the bound arguments; an unbindable parameter gives the error for the first one, otherwise a failure is the constructor's error |
| `Refresh.New` | src/Credential/RefreshResult.php:7-12 | credentials are stored unchanged; each instant is the argument when truthy and PHP_INT_MAX otherwise, so both stored instants are truthy |
| `Refresh.NewDefaults` | src/Credential/RefreshResult.php:7-11 | without arguments both instants are PHP_INT_MAX and the credentials are the empty array; `0` behaves like null |
| `Refresh.NewDoesNotOrderInstants` | src/Credential/RefreshResult.php:10-11 | a prefetch time later than the stale time is stored as given |
| `Refresh.ToMap` | src/Credential/RefreshResult.php:16-29 | the map has a key for a field exactly when the field is not null, with that field's value, and no other keys |
| `Refresh.ToMapOfNewHasInstants` | src/Credential/RefreshResult.php:19-24 | the map of a constructed result always holds both instants, and holds credentials exactly when they are not null |
| `Refresh.FromMap` | src/Credential/RefreshResult.php:34-47 | as written: prefetch time is always PHP_INT_MAX and credentials always `[]`; stale time is the last set key among staleTime, prefetchTime, credentials, else PHP_INT_MAX |
| `Refresh.FromMapLosesFields` | src/Credential/RefreshResult.php:37-46 | reading back `toMap` of a result with credentials and both instants moves the credentials into staleTime and loses the rest |
| `Refresh.FromMapNeverRoundTrips` | src/Credential/RefreshResult.php:36-46 | for every constructed result `r`, `fromMap(toMap(r)) != r` |
| `Refresh.FromMapFixed` | src/Credential/RefreshResult.php:34-47 | corrected: each set key goes to the property of the same name; unset keys keep the constructor defaults |
| `Refresh.FromMapFixedRoundTrip` | src/Credential/RefreshResult.php:16-47 | with the correction, `fromMap(toMap(r)) == r` for every result with no null field |
| `Refresh.ToMapAfterFromMapFixed` | src/Credential/RefreshResult.php:16-47 | with the correction, `toMap(fromMap(m))` keeps every recognised key that was set in `m` |
| `Iso8601.ParseRender` | tests/Unit/RsaKeyPairCredentialTest.php:74 | reading a rendered timestamp gives back its fields |
| `Iso8601.RenderParse` | tests/Unit/RsaKeyPairCredentialTest.php:74 | every accepted string is the rendering of the fields read from it |
| `Iso8601.DaysBeforeYearCounts` | tests/Unit/RsaKeyPairCredentialTest.php:74 | the closed-form day count is zero in 1970 and grows by each year's length, leap years included |
| `Iso8601.DaysBeforeMonthCounts` | tests/Unit/RsaKeyPairCredentialTest.php:74 | within a year each month adds its own length |
| `Iso8601.StrToTime` | tests/Unit/RsaKeyPairCredentialTest.php:74 | an instant exists exactly when the string is accepted, with month and day `00` allowed, and it is the epoch seconds of the fields read |
| `Iso8601.MonthZeroRollsBack` | tests/Unit/RsaKeyPairCredentialTest.php:74 | month `00` denotes December of the previous year |
| `Iso8601.DayZeroRollsBack` | tests/Unit/RsaKeyPairCredentialTest.php:74 | day `00` denotes the last day of the previous month, or December 31st of the previous year in January |
| `Iso8601.ZeroDate` | tests/Unit/RsaKeyPairCredentialTest.php:74 | `0000-00-00T00:00:00.000Z` is -62169984000 |
| `Iso8601.MillisecondsDiscarded` | tests/Unit/RsaKeyPairCredentialTest.php:74 | accepted timestamps that differ only in milliseconds denote the same instant |
| `Iso8601.TestExpiration` | tests/Unit/RsaKeyPairCredentialTest.php:65 | `2023-02-19T07:02:36.225Z` is 1676790156 seconds after the epoch |
| `KeyPair.CheckString` | tests/Unit/RsaKeyPairCredentialTest.php:153-203 | an option passes exactly when it is a non-empty string; a non-string is "must be a string", the empty string "cannot be empty" |
| `KeyPair.New` | tests/Unit/RsaKeyPairCredentialTest.php:103-203 | construction succeeds exactly for non-empty string id and key file with a readable file; each rejection carries the message the tests expect, and a read failure carries the reader's own message |
| `KeyPair.ConstructAsTested` | tests/Unit/RsaKeyPairCredentialTest.php:41-52 | a valid construction keeps the id and key contents, has an empty config, prints as `publicKeyId#<id>` and uses the id as original access key id |
| `KeyPair.ToStringRoundTrip` | tests/Unit/RsaKeyPairCredentialTest.php:46-49 | the string form carries the public key id after the `publicKeyId#` prefix and determines it |
| `KeyPair.SessionFromResponse` | tests/Unit/RsaKeyPairCredentialTest.php:59-101 | succeeds exactly when the SessionAccessKey block has both id and secret, taken as sent, with an empty token and the `strtotime` of Expiration; else "Result contains no credentials" |
| `KeyPair.LaterMemberWins` | tests/Unit/RsaKeyPairCredentialTest.php:61-68 | a member of the decoded response given again later overrides the earlier value |
| `Php.GetLastUnique` | src/Credential.php:115-119 | last-wins lookup agrees with first-match lookup whenever the keys are unique |
| `KeyPair.ExchangeAsTested` | tests/Unit/RsaKeyPairCredentialTest.php:61-74 | the tested response yields its id and secret, an empty token and expiration 1676790156 |
| `KeyPair.IncompleteExchangeAsTested` | tests/Unit/RsaKeyPairCredentialTest.php:83-100 | a response with the id but without the secret fails with "Result contains no credentials" |
| `KeyPair.FacadeNamesFirstMissingOption` | src/Credential.php:121-125 | `type => rsa_key_pair` alone fails on `public_key_id`, the first declared parameter, whatever the constructors do |
| `KeyPair.Construct` | src/Credential.php:100 | run on the three declared arguments, the key-pair constructor succeeds or fails exactly as `new RsaKeyPairCredential(...)` does |
| `KeyPair.FacadeReportsKeyPairErrors` | src/Credential.php:91-100 | with both key options present, `new Credential(['type' => 'rsa_key_pair', …])` succeeds exactly when the key-pair constructor does on the last value of each option, and otherwise throws that constructor's error |
| `KeyPair.FacadeRejectsEmptyPublicKeyId` | src/Credential.php:100 | `['type' => 'rsa_key_pair', 'public_key_id' => '', 'private_key_file' => '/k']` fails with "public_key_id cannot be empty" |

## Findings

| source | as written | input that shows it | evidently intended | confidence | as-written member | corrected member |
|---|---|---|---|---|---|---|
| src/Credential/RefreshResult.php:40-45 | `fromMap` assigns the `prefetchTime` and `credentials` entries to `$model->staleTime` | for non-null `$c`, `fromMap(toMap(new RefreshResult($c, 1700000000, 1699999000)))` gives staleTime `$c`, prefetchTime PHP_INT_MAX, credentials `[]` | each entry is assigned to the property of the same name, so `fromMap(toMap($r))` equals `$r` whenever no field of `$r` is null | high; not executed | `Refresh.FromMapNeverRoundTrips` | `Refresh.FromMapFixedRoundTrip` |

## Left out

- The default provider chain used when the configuration is empty (`Credentials::get()`). It is global state loaded from the environment and files. The model records only that this path was taken (`DefaultChain`).
- `__call` forwarding from the facade to the credential object. It is dynamic dispatch by method name, with nothing to state beyond delegation.
- PHP reflection. It is replaced by a parameter table that the caller supplies. The constructors of the five credential classes are not part of this model. Only `RsaKeyPairCredential`'s parameters (`public_key_id`, `private_key_file`, `array $config = []`) are written out, as the tests use them.
- The accessors `getCredential()`, `credentials()`, `staleTime()` and `prefetchTime()`. They are the datatypes' field selectors. `RefreshResult::validate()` has an empty body and is not modelled.
- Integer array keys and PHP's conversion of numeric-string keys to integers. Configuration keys are modelled as strings only.
- Php.Value: has no float case, so the constructor's falsy test on `0.0` (and `-0.0`) is not expressible. Floats do not occur in the modelled code paths.
- Php.ToLower: lower-cases ASCII letters only. This matches `strtolower` in PHP 8.2 and later, and the "C" locale before that.
- CredentialConfig.KindOf: an array or object used as the `type` value is treated as an invalid type. Depending on the PHP version, PHP may raise an illegal-offset error for it instead. Booleans, integers and null used as a key are likewise not converted the way PHP converts array offsets.
- CredentialConfig.MissingTypeExactly: assumes that no class constructor throws the facade's own "Missing required type option" text. Without that assumption a constructor could raise the same message, and the "only if" direction would not hold.
- The constructors of AccessKeyCredential, StsCredential, EcsRamRoleCredential and RamRoleArnCredential. They are a parameter, since their source is not part of this model.
- Iso8601.StrToTime: accepts only the `YYYY-MM-DDThh:mm:ss.sssZ` shape the exchange returns, with exactly three fraction digits. Every other string is treated as unreadable, although `strtotime` accepts many more formats.
- KeyPair.New: the class's source is not part of this model. The order of the checks (public key id before key file, type before emptiness) and the rethrowing of a file-read error as an invalid-argument error are assumed. Reading the file is a parameter, so PHP's warning texts for missing files and `open_basedir` are not modelled.
- KeyPair.Construct: an argument list other than the three declared arguments fails with a placeholder message. In PHP that is a type or argument-count error. The facade never produces such a list from the declared parameters.
- KeyPair.SessionFromResponse: a non-string id or secret is treated as missing. The tests only show these fields absent or as strings.
- The signed exchange request, HTTP transport, the `mockResponse`/`cancelMock` hooks and the `ShaHmac1Signature` signer (including the `getSignature()` assertion). These are network I/O and cryptography.
- Refresh caching, prefetch scheduling and single-flight concurrency. No such code is in the modelled files.
