/** A Python dictionary filled by plain updates `d[k] = v` in a fixed order:
    a later update of the same key replaces the earlier one. */
module Dicts {

  /** The dictionary left by `d[keys[i]] = vals[i]` for i = 0, 1, ..., in
      that order, starting from an empty one. */
  function Assign<K, V>(keys: seq<K>, vals: seq<V>): map<K, V>
    requires |keys| == |vals|
    decreases |keys|
  {
    if |keys| == 0 then map[]
    else Assign(keys[..|keys| - 1], vals[..|vals| - 1])[keys[|keys| - 1] := vals[|vals| - 1]]
  }

  /** Every key that was written is present, and no other. */
  lemma {:induction false} AssignDomain<K, V>(keys: seq<K>, vals: seq<V>, k: K)
    requires |keys| == |vals|
    ensures k in Assign(keys, vals) <==> k in keys
    decreases |keys|
  {
    if |keys| > 0 {
      var n := |keys| - 1;
      AssignDomain(keys[..n], vals[..n], k);
      assert keys == keys[..n] + [keys[n]];
    }
  }

  /** Last write wins: a key holds the value of its last update. */
  lemma {:induction false} AssignLastWrite<K, V>(keys: seq<K>, vals: seq<V>, i: nat)
    requires |keys| == |vals|
    requires i < |keys|
    requires forall j :: i < j < |keys| ==> keys[j] != keys[i]
    ensures keys[i] in Assign(keys, vals) && Assign(keys, vals)[keys[i]] == vals[i]
    decreases |keys|
  {
    var n := |keys| - 1;
    if i < n {
      AssignLastWrite(keys[..n], vals[..n], i);
    }
  }

  /** Updating with entry i extends the dictionary of the first i entries to
      that of the first i + 1. */
  lemma AssignPrefixStep<K, V>(keys: seq<K>, vals: seq<V>, i: nat)
    requires |keys| == |vals| && i < |keys|
    ensures Assign(keys[..i + 1], vals[..i + 1]) == Assign(keys[..i], vals[..i])[keys[i] := vals[i]]
  {
    assert keys[..i + 1][..i] == keys[..i];
    assert vals[..i + 1][..i] == vals[..i];
  }
}
