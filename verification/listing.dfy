/** Query results over a table come back in an unspecified order. A result
    "lists exactly" a key set when every key appears once and nothing else does. */
module Listing {
  import opened Keys

  ghost predicate ListsExactly<T>(r: seq<T>, key: T -> Guid, keys: set<Guid>) {
    && |r| == |keys|
    && (forall i :: 0 <= i < |r| ==> key(r[i]) in keys)
    && (forall k :: k in keys ==> exists i :: 0 <= i < |r| && key(r[i]) == k)
    && (forall i, j :: 0 <= i < j < |r| ==> key(r[i]) != key(r[j]))
  }

  /** Putting the row for `k` in front of a listing of the other keys lists them all. */
  lemma ConsStep<T>(x: T, rest: seq<T>, key: T -> Guid, k: Guid, keys: set<Guid>)
    requires k in keys && key(x) == k && ListsExactly(rest, key, keys - {k})
    ensures ListsExactly([x] + rest, key, keys)
  {
    var r := [x] + rest;
    forall k' | k' in keys ensures exists i :: 0 <= i < |r| && key(r[i]) == k' {
      if k' != k {
        assert k' in keys - {k};
        var i :| 0 <= i < |rest| && key(rest[i]) == k';
        assert r[i + 1] == rest[i];
      } else {
        assert key(r[0]) == k';
      }
    }
    forall i, j | 0 <= i < j < |r| ensures key(r[i]) != key(r[j]) {
      assert r[j] == rest[j - 1];
      if i > 0 {
        assert r[i] == rest[i - 1];
      }
    }
  }
}
