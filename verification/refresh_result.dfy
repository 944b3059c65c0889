/** `RefreshResult`: the credentials a provider fetched together with the
    instants at which they become stale and at which a refresh should be
    prefetched. Fields hold arbitrary PHP values because `fromMap` can store
    any map value in them. */
module Refresh {
  import opened Wrappers
  import opened Php

  datatype RefreshResult = RefreshResult(credentials: Value, staleTime: Value, prefetchTime: Value)

  /** The constructor's timestamp rule: a falsy argument becomes PHP_INT_MAX. */
  function OrIntMax(v: Value): Value {
    if Truthy(v) then v else Int(IntMax)
  }

  /** `new RefreshResult($credentials = [], $staleTime = null, $prefetchTime = null)`. */
  function New(credentials: Value := List([]), staleTime: Value := Null, prefetchTime: Value := Null): (r: RefreshResult)
    ensures r.credentials == credentials
    ensures Truthy(staleTime) ==> r.staleTime == staleTime
    ensures !Truthy(staleTime) ==> r.staleTime == Int(IntMax)
    ensures Truthy(prefetchTime) ==> r.prefetchTime == prefetchTime
    ensures !Truthy(prefetchTime) ==> r.prefetchTime == Int(IntMax)
    ensures Truthy(r.staleTime) && Truthy(r.prefetchTime)
  {
    RefreshResult(credentials, OrIntMax(staleTime), OrIntMax(prefetchTime))
  }

  /** Without arguments both instants are PHP_INT_MAX (never refresh) and the
      credentials are the empty array; null and 0 are both treated as absent. */
  lemma NewDefaults()
    ensures New() == RefreshResult(List([]), Int(IntMax), Int(IntMax))
    ensures New(List([]), Int(0), Null) == New()
  {
  }

  /** The constructor does not order the two instants: a prefetch time after
      the stale time is stored as given. */
  lemma NewDoesNotOrderInstants()
    ensures var r := New(Object(0), Int(100), Int(200));
            r.staleTime == Int(100) && r.prefetchTime == Int(200)
  {
  }

  /** The entry `$res[$k] = $v` guarded by `null !== $v`. */
  function EntryIfNotNull(k: string, v: Value): (e: Assoc<Value>)
    ensures |e| <= 1 && forall i :: 0 <= i < |e| ==> e[i].0 == k
    ensures forall k' :: Get(e, k') == if k' == k && !v.Null? then Some(v) else None
  {
    if v.Null? then [] else [(k, v)]
  }

  function Entries(r: RefreshResult): Assoc<Value> {
    EntryIfNotNull("staleTime", r.staleTime)
    + (EntryIfNotNull("prefetchTime", r.prefetchTime) + EntryIfNotNull("credentials", r.credentials))
  }

  lemma EntriesKeys(r: RefreshResult)
    ensures UniqueKeys(Entries(r))
    ensures forall i :: 0 <= i < |Entries(r)| ==> Entries(r)[i].0 in {"staleTime", "prefetchTime", "credentials"}
  {
    var a := EntryIfNotNull("staleTime", r.staleTime);
    var b := EntryIfNotNull("prefetchTime", r.prefetchTime);
    var c := EntryIfNotNull("credentials", r.credentials);
    var m := Entries(r);
    forall i | 0 <= i < |m| ensures m[i].0 == (if i < |a| then "staleTime" else if i < |a| + |b| then "prefetchTime" else "credentials") {
      if i < |a| { assert m[i] == a[i]; }
      else if i < |a| + |b| { assert m[i] == b[i - |a|]; }
      else { assert m[i] == c[i - |a| - |b|]; }
    }
  }

  lemma EntriesGet(r: RefreshResult)
    ensures Get(Entries(r), "staleTime") == (if r.staleTime.Null? then None else Some(r.staleTime))
    ensures Get(Entries(r), "prefetchTime") == (if r.prefetchTime.Null? then None else Some(r.prefetchTime))
    ensures Get(Entries(r), "credentials") == (if r.credentials.Null? then None else Some(r.credentials))
  {
    var a := EntryIfNotNull("staleTime", r.staleTime);
    var b := EntryIfNotNull("prefetchTime", r.prefetchTime);
    var c := EntryIfNotNull("credentials", r.credentials);
    GetConcat(a, b + c, "staleTime");
    GetConcat(a, b + c, "prefetchTime");
    GetConcat(b, c, "prefetchTime");
    GetConcat(a, b + c, "credentials");
    GetConcat(b, c, "credentials");
  }

  /** `toMap()`: each non-null field is written under its own name, in the
      order staleTime, prefetchTime, credentials. */
  function ToMap(r: RefreshResult): (m: Assoc<Value>)
    ensures UniqueKeys(m)
    ensures Get(m, "staleTime") == (if r.staleTime.Null? then None else Some(r.staleTime))
    ensures Get(m, "prefetchTime") == (if r.prefetchTime.Null? then None else Some(r.prefetchTime))
    ensures Get(m, "credentials") == (if r.credentials.Null? then None else Some(r.credentials))
    ensures forall i :: 0 <= i < |m| ==> m[i].0 in {"staleTime", "prefetchTime", "credentials"}
  {
    EntriesKeys(r);
    EntriesGet(r);
    Entries(r)
  }

  /** A freshly constructed result always serialises both instants. */
  lemma ToMapOfNewHasInstants(credentials: Value, staleTime: Value, prefetchTime: Value)
    ensures var m := ToMap(New(credentials, staleTime, prefetchTime));
            && IsSet(m, "staleTime") && IsSet(m, "prefetchTime")
            && (HasKey(m, "credentials") <==> !credentials.Null?)
  {
  }

  /** `fromMap($map)` as written: starting from `new self()`, every
      recognised key that is set is assigned to `staleTime`. */
  function FromMap(m: Assoc<Value> := []): (r: RefreshResult)
    ensures r.credentials == List([]) && r.prefetchTime == Int(IntMax)
    ensures r.staleTime == (if IsSet(m, "credentials") then Get(m, "credentials").value
                            else if IsSet(m, "prefetchTime") then Get(m, "prefetchTime").value
                            else if IsSet(m, "staleTime") then Get(m, "staleTime").value
                            else Int(IntMax))
  {
    var model := New();
    var model := if IsSet(m, "staleTime") then model.(staleTime := Get(m, "staleTime").value) else model;
    var model := if IsSet(m, "prefetchTime") then model.(staleTime := Get(m, "prefetchTime").value) else model;
    var model := if IsSet(m, "credentials") then model.(staleTime := Get(m, "credentials").value) else model;
    model
  }

  /** The defect of `fromMap`: serialising a result and reading it back puts
      the credentials into `staleTime` and loses both the prefetch time and
      the credentials. */
  lemma FromMapLosesFields()
    ensures var r := New(Object(7), Int(1700000000), Int(1699999000));
            && FromMap(ToMap(r)) == RefreshResult(List([]), Object(7), Int(IntMax))
            && FromMap(ToMap(r)) != r
  {
  }

  /** The defect holds for every constructed result: reading back its map
      never restores it. */
  lemma FromMapNeverRoundTrips(credentials: Value, staleTime: Value, prefetchTime: Value)
    ensures var r := New(credentials, staleTime, prefetchTime);
            FromMap(ToMap(r)) != r
  {
  }

  /** `fromMap` with each key assigned to the field of the same name. */
  function FromMapFixed(m: Assoc<Value> := []): (r: RefreshResult)
    ensures r.staleTime == (if IsSet(m, "staleTime") then Get(m, "staleTime").value else Int(IntMax))
    ensures r.prefetchTime == (if IsSet(m, "prefetchTime") then Get(m, "prefetchTime").value else Int(IntMax))
    ensures r.credentials == (if IsSet(m, "credentials") then Get(m, "credentials").value else List([]))
  {
    var model := New();
    var model := if IsSet(m, "staleTime") then model.(staleTime := Get(m, "staleTime").value) else model;
    var model := if IsSet(m, "prefetchTime") then model.(prefetchTime := Get(m, "prefetchTime").value) else model;
    var model := if IsSet(m, "credentials") then model.(credentials := Get(m, "credentials").value) else model;
    model
  }

  /** With the fix, reading back a serialised result restores it whenever no
      field is null (in particular for any constructed result whose
      credentials are not null). */
  lemma FromMapFixedRoundTrip(r: RefreshResult)
    requires !r.credentials.Null? && !r.staleTime.Null? && !r.prefetchTime.Null?
    ensures FromMapFixed(ToMap(r)) == r
  {
  }

  /** And serialising what was read back keeps every recognised key that was set. */
  lemma ToMapAfterFromMapFixed(m: Assoc<Value>, k: string)
    requires k in {"staleTime", "prefetchTime", "credentials"}
    requires IsSet(m, k)
    ensures Get(ToMap(FromMapFixed(m)), k) == Get(m, k)
  {
  }
}
