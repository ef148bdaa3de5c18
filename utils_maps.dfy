/**
  `Utils.createKeyValueMap` and `Utils.createResourceStringMap`: index a
  collection of resource strings by key, the later of two strings with the
  same key replacing the earlier.
 */
module UtilsMaps {
  import opened JavaText
  import opened ResourceStrings

  /** The map that putting `val(r)` under `r.key` for every `r` of `rs`, in order, builds. */
  function MapByKey<V>(rs: seq<ResourceString>, val: ResourceString -> V): (r: map<JString, V>)
    decreases |rs|
  {
    if rs == [] then map[]
    else MapByKey(rs[..|rs| - 1], val)[rs[|rs| - 1].key := val(rs[|rs| - 1])]
  }

  /** The keys of the map are exactly the keys of the strings. */
  lemma {:induction false} MapByKeyKeys<V>(rs: seq<ResourceString>, val: ResourceString -> V)
    ensures MapByKey(rs, val).Keys == set i | 0 <= i < |rs| :: rs[i].key
    decreases |rs|
  {
    if rs != [] {
      var init := rs[..|rs| - 1];
      MapByKeyKeys(init, val);
      assert (set i | 0 <= i < |rs| :: rs[i].key) == (set i | 0 <= i < |init| :: init[i].key) + {rs[|rs| - 1].key} by {
        forall i | 0 <= i < |init| ensures init[i] == rs[i] { }
      }
    }
  }

  /** A key maps to what the last string with that key gives. */
  lemma {:induction false} MapByKeyLastWins<V>(rs: seq<ResourceString>, val: ResourceString -> V, i: nat)
    requires i < |rs|
    requires forall j | i < j < |rs| :: rs[j].key != rs[i].key
    ensures rs[i].key in MapByKey(rs, val) && MapByKey(rs, val)[rs[i].key] == val(rs[i])
    decreases |rs|
  {
    if i < |rs| - 1 {
      var init := rs[..|rs| - 1];
      assert init[i] == rs[i];
      MapByKeyLastWins(init, val, i);
    }
  }

  /** Every value in the map is what some string with that key gives. */
  lemma {:induction false} MapByKeyValues<V>(rs: seq<ResourceString>, val: ResourceString -> V, k: JString)
    requires k in MapByKey(rs, val)
    ensures exists i | 0 <= i < |rs| :: rs[i].key == k && MapByKey(rs, val)[k] == val(rs[i])
    decreases |rs|
  {
    var n := |rs| - 1;
    if rs[n].key != k {
      var init := rs[..n];
      MapByKeyValues(init, val, k);
      var i :| 0 <= i < |init| && init[i].key == k && MapByKey(init, val)[k] == val(init[i]);
      assert rs[i] == init[i];
    }
  }

  function ValueOf(r: ResourceString): (res: JString) {
    r.value
  }

  function Itself(r: ResourceString): (res: ResourceString) {
    r
  }

  /** The loop of `createKeyValueMap`/`createResourceStringMap`, putting `val(r)` under each key. */
  method PutAll<V>(rs: seq<ResourceString>, val: ResourceString -> V) returns (m: map<JString, V>)
    ensures m == MapByKey(rs, val)
  {
    m := map[];
    var i := 0;
    while i < |rs|
      invariant 0 <= i <= |rs|
      invariant m == MapByKey(rs[..i], val)
    {
      assert rs[..i + 1][..i] == rs[..i];
      m := m[rs[i].key := val(rs[i])];
      i := i + 1;
    }
    assert rs[..i] == rs;
  }

  /** `createKeyValueMap`: each key to the value of the last string with that key. */
  method CreateKeyValueMap(rs: seq<ResourceString>) returns (m: map<JString, JString>)
    ensures m == MapByKey(rs, ValueOf)
  {
    m := PutAll(rs, ValueOf);
  }

  /** `createResourceStringMap`: each key to the last string with that key. */
  method CreateResourceStringMap(rs: seq<ResourceString>) returns (m: map<JString, ResourceString>)
    ensures m == MapByKey(rs, Itself)
  {
    m := PutAll(rs, Itself);
  }
}
