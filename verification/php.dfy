/** The slice of PHP runtime semantics the credential library relies on:
    dynamically typed values, truthiness, `isset`, ordered string-keyed
    arrays, ASCII `strtolower` and `array_change_key_case`. */
module Php {
  import opened Wrappers

  /** PHP_INT_MAX on a 64-bit build. */
  const IntMax: int := 0x7FFF_FFFF_FFFF_FFFF

  /** A PHP value as far as the library inspects it. Objects are opaque
      handles; lists stand for arrays whose contents are never inspected. */
  datatype Value =
    | Null
    | Bool(b: bool)
    | Int(i: int)
    | Str(s: string)
    | List(items: seq<Value>)
    | Object(handle: nat)

  /** What `$v ? … : …` tests: null, false, 0, "", "0" and the empty array are falsy. */
  predicate Truthy(v: Value) {
    match v
    case Null => false
    case Bool(b) => b
    case Int(i) => i != 0
    case Str(s) => s != "" && s != "0"
    case List(items) => |items| > 0
    case Object(_) => true
  }

  /** The exceptions the library throws, with their messages. */
  datatype Error = InvalidArgument(message: string) | Runtime(message: string)

  /** An ordered PHP array with string keys: insertion order is observable. */
  type Assoc<V> = seq<(string, V)>

  predicate HasKey<V>(a: Assoc<V>, k: string) {
    exists i :: 0 <= i < |a| && a[i].0 == k
  }

  predicate UniqueKeys<V>(a: Assoc<V>) {
    forall i, j :: 0 <= i < j < |a| ==> a[i].0 != a[j].0
  }

  /** Position of the first entry with key `k`. */
  function IndexOf<V>(a: Assoc<V>, k: string): (i: nat)
    requires HasKey(a, k)
    ensures i < |a| && a[i].0 == k
    ensures forall j :: 0 <= j < i ==> a[j].0 != k
  {
    if a[0].0 == k then 0 else 1 + IndexOf(a[1..], k)
  }

  /** `$a[$k]` read through a `foreach` that returns at the first key equal to `k`. */
  function Get<V>(a: Assoc<V>, k: string): (r: Option<V>)
    ensures r.Some? <==> HasKey(a, k)
    ensures r.Some? ==> r.value == a[IndexOf(a, k)].1
    ensures UniqueKeys(a) ==> forall i :: 0 <= i < |a| && a[i].0 == k ==> r == Some(a[i].1)
  {
    if a == [] then None
    else if a[0].0 == k then Some(a[0].1)
    else
      assert HasKey(a, k) ==> HasKey(a[1..], k) by {
        if HasKey(a, k) {
          var i :| 0 <= i < |a| && a[i].0 == k;
          assert a[1..][i - 1].0 == k;
        }
      }
      Get(a[1..], k)
  }

  /** `$a[$k]` on an array decoded from text that repeats `k`: the last
      occurrence wins, as `json_decode` keeps the last duplicate member. */
  function GetLast<V>(a: Assoc<V>, k: string): (r: Option<V>)
    ensures r.Some? <==> HasKey(a, k)
    decreases |a|
  {
    if a == [] then None
    else if a[|a| - 1].0 == k then Some(a[|a| - 1].1)
    else
      assert HasKey(a, k) ==> HasKey(a[..|a| - 1], k) by {
        if HasKey(a, k) {
          var i :| 0 <= i < |a| && a[i].0 == k;
          assert a[..|a| - 1][i].0 == k;
        }
      }
      GetLast(a[..|a| - 1], k)
  }

  /** With unique keys, first and last occurrence are the same entry. */
  lemma {:induction false} GetLastUnique<V>(a: Assoc<V>, k: string)
    requires UniqueKeys(a)
    ensures GetLast(a, k) == Get(a, k)
    decreases |a|
  {
    if a != [] {
      var n := |a| - 1;
      if a[n].0 != k {
        GetLastUnique(a[..n], k);
        GetConcat(a[..n], [a[n]], k);
        assert a[..n] + [a[n]] == a;
        if !HasKey(a[..n], k) {
          assert !HasKey([a[n]], k);
        }
      }
    }
  }

  /** A later entry for `k` overrides every earlier one. */
  lemma GetLastAppend<V>(a: Assoc<V>, k: string, v: V)
    ensures GetLast(a + [(k, v)], k) == Some(v)
  {
    assert (a + [(k, v)])[|a|] == (k, v);
  }

  /** Reading a key of a concatenation finds it in the first part if it is there. */
  lemma {:induction false} GetConcat<V>(a: Assoc<V>, b: Assoc<V>, k: string)
    ensures Get(a + b, k) == if HasKey(a, k) then Get(a, k) else Get(b, k)
    decreases |a|
  {
    if a == [] {
      assert a + b == b;
    } else {
      assert (a + b)[0] == a[0];
      assert (a + b)[1..] == a[1..] + b;
      GetConcat(a[1..], b, k);
      if a[0].0 != k && HasKey(a, k) {
        var i :| 0 <= i < |a| && a[i].0 == k;
        assert a[1..][i - 1].0 == k;
      }
      if a[0].0 != k && HasKey(a[1..], k) {
        var i :| 0 <= i < |a[1..]| && a[1..][i].0 == k;
        assert a[i + 1].0 == k;
      }
    }
  }

  /** `isset($a[$k])`: the key is present and its value is not null. */
  predicate IsSet(a: Assoc<Value>, k: string) {
    Get(a, k).Some? && !Get(a, k).value.Null?
  }

  /** `$a[$k] = $v`: an existing key keeps its position and takes the new
      value; a new key is appended. */
  function Put<V>(a: Assoc<V>, k: string, v: V): (r: Assoc<V>)
    requires UniqueKeys(a)
    ensures UniqueKeys(r)
    ensures HasKey(a, k) ==> |r| == |a| && forall i :: 0 <= i < |a| ==> r[i].0 == a[i].0
    ensures !HasKey(a, k) ==> r == a + [(k, v)]
  {
    if HasKey(a, k) then a[IndexOf(a, k) := (k, v)] else a + [(k, v)]
  }

  /** After `$a[$k] = $v`, reading `k` gives `v` and every other key reads as before. */
  lemma PutGet<V>(a: Assoc<V>, k: string, v: V, k': string)
    requires UniqueKeys(a)
    ensures Get(Put(a, k, v), k) == Some(v)
    ensures k' != k ==> Get(Put(a, k, v), k') == Get(a, k')
  {
    var r := Put(a, k, v);
    assert r[if HasKey(a, k) then IndexOf(a, k) else |a|] == (k, v);
    if k' != k && HasKey(a, k') {
      var i := IndexOf(a, k');
      assert r[i] == a[i];
    }
    if k' != k && HasKey(r, k') {
      var i :| 0 <= i < |r| && r[i].0 == k';
      assert r[i] == a[i];
    }
  }

  /** ASCII lower-casing of one character, as `strtolower` does. */
  function LowerChar(c: char): char {
    if 'A' <= c <= 'Z' then (c as int + 32) as char else c
  }

  function ToLower(s: string): (r: string)
    ensures |r| == |s|
  {
    seq(|s|, i requires 0 <= i < |s| => LowerChar(s[i]))
  }

  /** No upper-case ASCII letter occurs in `s`. */
  predicate IsLower(s: string) {
    forall i :: 0 <= i < |s| ==> !('A' <= s[i] <= 'Z')
  }

  /** `strtolower` yields a lower-case string and leaves lower-case strings alone. */
  lemma ToLowerNormalises(s: string)
    ensures IsLower(ToLower(s))
    ensures IsLower(s) <==> ToLower(s) == s
  {
    if !IsLower(s) {
      var i :| 0 <= i < |s| && 'A' <= s[i] <= 'Z';
      assert ToLower(s)[i] != s[i];
    }
  }

  /** `array_change_key_case($a)`: entries are inserted in order under their
      lower-cased key, so a later key that differs only in case overwrites the
      value but not the position of an earlier one. */
  function ChangeKeyCase<V>(a: Assoc<V>): (r: Assoc<V>)
    ensures UniqueKeys(r)
    ensures |r| <= |a|
    decreases |a|
  {
    if a == [] then []
    else
      var n := |a| - 1;
      Put(ChangeKeyCase(a[..n]), ToLower(a[n].0), a[n].1)
  }

  /** Reference reading: the value of the last entry whose lower-cased key is `k`. */
  function LastValueFor<V>(a: Assoc<V>, k: string): Option<V>
    decreases |a|
  {
    if a == [] then None
    else
      var n := |a| - 1;
      if ToLower(a[n].0) == k then Some(a[n].1) else LastValueFor(a[..n], k)
  }

  lemma {:induction false} LastValueForPresent<V>(a: Assoc<V>, k: string)
    ensures LastValueFor(a, k).Some? <==> exists j :: 0 <= j < |a| && ToLower(a[j].0) == k
    decreases |a|
  {
    if a != [] {
      var n := |a| - 1;
      LastValueForPresent(a[..n], k);
      if exists j :: 0 <= j < n && ToLower(a[..n][j].0) == k {
        var j :| 0 <= j < n && ToLower(a[..n][j].0) == k;
        assert a[j] == a[..n][j];
      }
      if exists j :: 0 <= j < |a| && ToLower(a[j].0) == k {
        var j :| 0 <= j < |a| && ToLower(a[j].0) == k;
        if j < n { assert a[..n][j] == a[j]; }
      }
    }
  }

  /** Every key of `array_change_key_case($a)` is lower-case, the keys are
      exactly the lower-cased keys of `a`, and each key carries the value of
      the LAST entry of `a` that lower-cases to it. */
  lemma {:induction false} ChangeKeyCaseSemantics<V>(a: Assoc<V>, k: string)
    ensures forall i :: 0 <= i < |ChangeKeyCase(a)| ==> IsLower(ChangeKeyCase(a)[i].0)
    ensures Get(ChangeKeyCase(a), k) == LastValueFor(a, k)
    ensures HasKey(ChangeKeyCase(a), k) <==> exists j :: 0 <= j < |a| && ToLower(a[j].0) == k
    decreases |a|
  {
    LastValueForPresent(a, k);
    if a != [] {
      var n := |a| - 1;
      var pre := ChangeKeyCase(a[..n]);
      ChangeKeyCaseSemantics(a[..n], k);
      ToLowerNormalises(a[n].0);
      PutGet(pre, ToLower(a[n].0), a[n].1, k);
      var r := ChangeKeyCase(a);
      forall i | 0 <= i < |r| ensures IsLower(r[i].0) {
        if HasKey(pre, ToLower(a[n].0)) {
          assert r[i].0 == pre[i].0;
        } else {
          assert r == pre + [(ToLower(a[n].0), a[n].1)];
          if i < |pre| { assert r[i] == pre[i]; }
        }
      }
    }
  }

  /** An array whose keys are already lower-case is returned unchanged. */
  lemma {:induction false} ChangeKeyCaseOfLowerKeys<V>(a: Assoc<V>)
    requires UniqueKeys(a)
    requires forall i :: 0 <= i < |a| ==> IsLower(a[i].0)
    ensures ChangeKeyCase(a) == a
    decreases |a|
  {
    if a != [] {
      var n := |a| - 1;
      ChangeKeyCaseOfLowerKeys(a[..n]);
      ToLowerNormalises(a[n].0);
      assert !HasKey(a[..n], a[n].0);
      assert a[..n] + [a[n]] == a;
    }
  }

  /** Lower-casing the keys twice is the same as once. */
  lemma ChangeKeyCaseIdempotent<V>(a: Assoc<V>)
    ensures ChangeKeyCase(ChangeKeyCase(a)) == ChangeKeyCase(a)
  {
    var r := ChangeKeyCase(a);
    forall i | 0 <= i < |r| ensures IsLower(r[i].0) {
      ChangeKeyCaseSemantics(a, "");
    }
    ChangeKeyCaseOfLowerKeys(r);
  }
}
