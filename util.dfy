/** `concatMaps` (util.go, repeated verbatim at the end of main.go): the maps
    copied one after another into a fresh map, later ones overwriting. */
module Util {

  /** The merge of the maps, left to right, later values winning. */
  function Merge<K, V>(ms: seq<map<K, V>>): map<K, V>
    decreases |ms|
  {
    if ms == [] then map[] else Merge(ms[..|ms| - 1]) + ms[|ms| - 1]
  }

  /** `concatMaps`: copies each input map into `out`. */
  method ConcatMaps<K, V>(ms: seq<map<K, V>>) returns (out: map<K, V>)
    ensures out == Merge(ms)
  {
    out := map[];
    for i := 0 to |ms|
      invariant out == Merge(ms[..i])
    {
      assert ms[..i + 1][..i] == ms[..i];
      out := out + ms[i];
    }
    assert ms[..|ms|] == ms;
  }

  /** With no input maps the result is empty. */
  lemma MergeEmpty<K, V>()
    ensures Merge<K, V>([]) == map[]
  {
  }

  /** The keys of the result are the keys of all input maps together. */
  lemma {:induction false} MergeKeys<K, V>(ms: seq<map<K, V>>, k: K)
    ensures k in Merge(ms) <==> exists i :: 0 <= i < |ms| && k in ms[i]
    decreases |ms|
  {
    if ms != [] {
      var init := ms[..|ms| - 1];
      MergeKeys(init, k);
      if k in Merge(ms) && k !in ms[|ms| - 1] {
        var i :| 0 <= i < |init| && k in init[i];
        assert k in ms[i];
      }
      if exists i :: 0 <= i < |ms| && k in ms[i] {
        var i :| 0 <= i < |ms| && k in ms[i];
        if i < |ms| - 1 {
          assert k in init[i];
        }
      }
    }
  }

  /** A key's value comes from the last input map that holds the key. */
  lemma {:induction false} MergeLast<K, V>(ms: seq<map<K, V>>, i: nat, k: K)
    requires i < |ms| && k in ms[i]
    requires forall j :: i < j < |ms| ==> k !in ms[j]
    ensures k in Merge(ms) && Merge(ms)[k] == ms[i][k]
    decreases |ms|
  {
    if i < |ms| - 1 {
      var init := ms[..|ms| - 1];
      assert init[i] == ms[i];
      forall j | i < j < |init| ensures k !in init[j] {
        assert init[j] == ms[j];
      }
      MergeLast(init, i, k);
    }
  }

  /** Every value of the result is the value of one of the input maps. */
  lemma {:induction false} MergeFrom<K, V>(ms: seq<map<K, V>>, k: K)
    requires k in Merge(ms)
    ensures exists i :: 0 <= i < |ms| && k in ms[i] && Merge(ms)[k] == ms[i][k]
    decreases |ms|
  {
    var last := |ms| - 1;
    if k !in ms[last] {
      var init := ms[..last];
      MergeFrom(init, k);
      var i :| 0 <= i < |init| && k in init[i] && Merge(init)[k] == init[i][k];
      assert ms[i] == init[i];
    }
  }
}
