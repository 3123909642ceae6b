/** Insertion-ordered dictionaries, as Python's built-in dict keeps them: the
    keys in the order they were first inserted, beside a map from each key to
    its current value. Assigning to a key that is already present replaces its
    value and keeps its position; a new key goes to the end. */
module Dicts {

  predicate Distinct<K(==)>(s: seq<K>) {
    forall i, j :: 0 <= i < j < |s| ==> s[i] != s[j]
  }

  /** `keys` lists the members of `ks`, each once. Stated by recursion, so that
      the verifier unfolds it only on demand; `ListsMeans` gives its meaning. */
  ghost predicate Lists<K(!new)>(keys: seq<K>, ks: set<K>)
    decreases |keys|
  {
    if keys == [] then ks == {}
    else
      var k := keys[|keys| - 1];
      k in ks && Lists(keys[..|keys| - 1], ks - {k})
  }

  lemma {:induction false} ListsMeans<K(!new)>(keys: seq<K>, ks: set<K>)
    requires Lists(keys, ks)
    ensures Distinct(keys)
    ensures forall k :: k in ks <==> k in keys
    decreases |keys|
  {
    if keys != [] {
      var n := |keys| - 1;
      var init, last := keys[..n], keys[n];
      ListsMeans(init, ks - {last});
      assert keys == init + [last];
      forall i, j | 0 <= i < j < |keys| ensures keys[i] != keys[j] {
        assert keys[i] == init[i] && keys[i] in ks - {last};
        if j < n {
          assert keys[j] == init[j];
        }
      }
    }
  }

  datatype Dict<K(==,!new), V> = Dict(keys: seq<K>, vals: map<K, V>) {

    /** The keys listed are exactly the keys mapped, each listed once. */
    ghost predicate Valid() {
      Lists(keys, vals.Keys)
    }

    /** `d[k] = v` (equivalently `d.update({k: v})`). */
    function Put(k: K, v: V): (d: Dict<K, V>)
      ensures d.vals == vals[k := v]
      ensures k in vals ==> d.keys == keys
      ensures k !in vals ==> d.keys == keys + [k]
    {
      Dict(if k in vals then keys else keys + [k], vals[k := v])
    }

  }

  lemma PutValid<K(!new), V>(d: Dict<K, V>, k: K, v: V)
    requires d.Valid()
    ensures d.Put(k, v).Valid()
  {
    var e := d.Put(k, v);
    if k in d.vals {
      assert e.vals.Keys == d.vals.Keys;
    } else {
      assert e.keys[..|e.keys| - 1] == d.keys;
      assert e.vals.Keys - {k} == d.vals.Keys;
    }
  }

  /** What validity means: the keys are distinct and are the keys mapped. */
  lemma ValidMeans<K(!new), V>(d: Dict<K, V>)
    requires d.Valid()
    ensures Distinct(d.keys)
    ensures forall k :: k in d.vals <==> k in d.keys
    ensures forall i :: 0 <= i < |d.keys| ==> d.keys[i] in d.vals
  {
    ListsMeans(d.keys, d.vals.Keys);
  }

  /** Conversely, distinct keys listing exactly the mapped keys are a
      well-formed dictionary. */
  lemma {:induction false} ListsFrom<K(!new)>(keys: seq<K>, ks: set<K>)
    requires Distinct(keys)
    requires forall k :: k in ks <==> k in keys
    ensures Lists(keys, ks)
    decreases |keys|
  {
    if keys == [] {
      assert forall k :: k !in ks;
    } else {
      var n := |keys| - 1;
      var init, last := keys[..n], keys[n];
      assert keys == init + [last];
      assert last !in init by {
        forall i | 0 <= i < n ensures init[i] != last {
          assert init[i] == keys[i];
        }
      }
      assert Distinct(init) by {
        forall i, j | 0 <= i < j < n ensures init[i] != init[j] {
          assert init[i] == keys[i] && init[j] == keys[j];
        }
      }
      forall k ensures k in ks - {last} <==> k in init {
        assert k in keys <==> k in init || k == last;
      }
      ListsFrom(init, ks - {last});
    }
  }

  lemma ValidFrom<K(!new), V>(d: Dict<K, V>)
    requires Distinct(d.keys)
    requires forall k :: k in d.vals <==> k in d.keys
    ensures d.Valid()
  {
    ListsFrom(d.keys, d.vals.Keys);
  }

  /** Filling a dictionary in the order of distinct keys `keys`, the next key
      is not yet present. */
  lemma NextKeyIsNew<K(!new), V>(d: Dict<K, V>, keys: seq<K>, i: nat)
    requires d.Valid() && Distinct(keys) && i < |keys| && d.keys == keys[..i]
    ensures keys[i] !in d.vals
  {
    ValidMeans(d);
  }

  /** Two well-formed dictionaries listing the same keys map the same keys. */
  lemma SameKeys<K(!new), V, W>(d: Dict<K, V>, e: Dict<K, W>)
    requires d.Valid() && e.Valid() && d.keys == e.keys
    ensures d.vals.Keys == e.vals.Keys
  {
    ValidMeans(d);
    ValidMeans(e);
  }

  function Empty<K(==,!new), V>(): (d: Dict<K, V>)
    ensures d.Valid() && d.keys == [] && d.vals == map[]
  {
    Dict([], map[])
  }

  // ---------------------------------------------------------------------
  // Inverting a dictionary

  /** `{v: k for k, v in d.items()}` over the keys `keys`, in order: each value
      is assigned its key in turn, so a value shared by several keys names the
      last of them (`InvertOfLastWins`) and sits where the first of them put it
      (`InvertOfGrows`). */
  function InvertOf<K(==,!new), V(==,!new)>(keys: seq<K>, vals: map<K, V>): (inv: Dict<V, K>)
    requires forall i :: 0 <= i < |keys| ==> keys[i] in vals
    decreases |keys|
  {
    if keys == [] then Empty()
    else
      var k := keys[|keys| - 1];
      InvertOf(keys[..|keys| - 1], vals).Put(vals[k], k)
  }

  function Invert<K(==,!new), V(==,!new)>(d: Dict<K, V>): (inv: Dict<V, K>)
    requires d.Valid()
  {
    ValidMeans(d);
    InvertOf(d.keys, d.vals)
  }

  /** The inverse is a well-formed dictionary. */
  lemma {:induction false} InvertOfValid<K(!new), V(!new)>(keys: seq<K>, vals: map<K, V>)
    requires forall i :: 0 <= i < |keys| ==> keys[i] in vals
    ensures InvertOf(keys, vals).Valid()
    decreases |keys|
  {
    if keys != [] {
      var k := keys[|keys| - 1];
      InvertOfValid(keys[..|keys| - 1], vals);
      PutValid(InvertOf(keys[..|keys| - 1], vals), vals[k], k);
    }
  }

  /** Inverting more keys only appends to the inverse's keys: a value keeps the
      position the first key that has it gave it. */
  lemma {:induction false} InvertOfGrows<K(!new), V(!new)>(keys: seq<K>, vals: map<K, V>, i: nat)
    requires forall j :: 0 <= j < |keys| ==> keys[j] in vals
    requires i <= |keys|
    ensures InvertOf(keys[..i], vals).keys <= InvertOf(keys, vals).keys
    decreases |keys|
  {
    if i == |keys| {
      assert keys[..i] == keys;
    } else {
      var n := |keys| - 1;
      var init := keys[..n];
      assert init[..i] == keys[..i];
      InvertOfGrows(init, vals, i);
      assert InvertOf(keys, vals) == InvertOf(init, vals).Put(vals[keys[n]], keys[n]);
    }
  }

  /** A value is a key of the inverse exactly when some key has it. */
  lemma {:induction false} InvertOfHasValue<K(!new), V(!new)>(keys: seq<K>, vals: map<K, V>, v: V)
    requires forall i :: 0 <= i < |keys| ==> keys[i] in vals
    ensures v in InvertOf(keys, vals).vals <==> exists i :: 0 <= i < |keys| && vals[keys[i]] == v
    decreases |keys|
  {
    if keys != [] {
      var n := |keys| - 1;
      var init := keys[..n];
      InvertOfHasValue(init, vals, v);
      var prev := InvertOf(init, vals);
      assert InvertOf(keys, vals) == prev.Put(vals[keys[n]], keys[n]);
      if v == vals[keys[n]] {
        assert vals[keys[n]] == v;
      } else if v in prev.vals {
        var i :| 0 <= i < n && vals[init[i]] == v;
        assert vals[keys[i]] == v;
      } else {
        forall i | 0 <= i < |keys| ensures vals[keys[i]] != v {
          if i < n {
            assert keys[i] == init[i];
          }
        }
      }
    }
  }

  /** A value names the last key that has it. */
  lemma {:induction false} InvertOfLastWins<K(!new), V(!new)>(keys: seq<K>, vals: map<K, V>, i: nat)
    requires forall j :: 0 <= j < |keys| ==> keys[j] in vals
    requires i < |keys|
    requires forall j :: i < j < |keys| ==> vals[keys[j]] != vals[keys[i]]
    ensures vals[keys[i]] in InvertOf(keys, vals).vals
    ensures InvertOf(keys, vals).vals[vals[keys[i]]] == keys[i]
    decreases |keys|
  {
    var n := |keys| - 1;
    var init := keys[..n];
    var prev := InvertOf(init, vals);
    assert InvertOf(keys, vals) == prev.Put(vals[keys[n]], keys[n]);
    if i < n {
      assert forall j :: i < j < n ==> vals[init[j]] != vals[init[i]] by {
        forall j | i < j < n ensures vals[init[j]] != vals[init[i]] {
          assert init[j] == keys[j];
        }
      }
      InvertOfLastWins(init, vals, i);
      assert init[i] == keys[i];
      assert vals[keys[n]] != vals[keys[i]];
    }
  }

  /** Every value of `d` is a key of its inverse. */
  lemma InvertCovers<K(!new), V(!new)>(d: Dict<K, V>)
    requires d.Valid()
    ensures forall k :: k in d.vals ==> d.vals[k] in Invert(d).vals
  {
    ValidMeans(d);
    forall k | k in d.vals ensures d.vals[k] in Invert(d).vals {
      var i :| 0 <= i < |d.keys| && d.keys[i] == k;
      InvertOfHasValue(d.keys, d.vals, d.vals[k]);
    }
  }

  /** When no two keys share a value, the inverse undoes `d` exactly: its keys
      are `d`'s values and each names the key that has it. */
  lemma InvertExact<K(!new), V(!new)>(d: Dict<K, V>)
    requires d.Valid()
    requires forall k1, k2 :: k1 in d.vals && k2 in d.vals && k1 != k2 ==> d.vals[k1] != d.vals[k2]
    ensures forall k :: k in d.vals ==> d.vals[k] in Invert(d).vals && Invert(d).vals[d.vals[k]] == k
    ensures forall v :: v in Invert(d).vals ==> exists k :: k in d.vals && d.vals[k] == v
  {
    ValidMeans(d);
    forall k | k in d.vals ensures d.vals[k] in Invert(d).vals && Invert(d).vals[d.vals[k]] == k {
      var i :| 0 <= i < |d.keys| && d.keys[i] == k;
      forall j | i < j < |d.keys| ensures d.vals[d.keys[j]] != d.vals[d.keys[i]] {
        assert d.keys[j] != d.keys[i];
      }
      InvertOfLastWins(d.keys, d.vals, i);
    }
    forall v | v in Invert(d).vals ensures exists k :: k in d.vals && d.vals[k] == v {
      InvertOfHasValue(d.keys, d.vals, v);
      var i :| 0 <= i < |d.keys| && d.vals[d.keys[i]] == v;
      assert d.keys[i] in d.vals;
    }
  }

  // ---------------------------------------------------------------------
  // Selecting values

  /** The values, in key order, of those keys of `keys` that lie in `sel`. */
  function Select<K(!new), V>(keys: seq<K>, vals: map<K, V>, sel: set<K>): seq<V>
    requires forall i :: 0 <= i < |keys| ==> keys[i] in vals
    decreases |keys|
  {
    if keys == [] then []
    else
      var k := keys[|keys| - 1];
      Select(keys[..|keys| - 1], vals, sel) + (if k in sel then [vals[k]] else [])
  }

  /** A value is selected exactly when some selected key has it. */
  lemma {:induction false} SelectHas<K(!new), V(!new)>(keys: seq<K>, vals: map<K, V>, sel: set<K>, v: V)
    requires forall i :: 0 <= i < |keys| ==> keys[i] in vals
    ensures v in Select(keys, vals, sel) <==> exists i :: 0 <= i < |keys| && keys[i] in sel && vals[keys[i]] == v
    decreases |keys|
  {
    if keys != [] {
      var n := |keys| - 1;
      var init := keys[..n];
      SelectHas(init, vals, sel, v);
      var k := keys[n];
      assert Select(keys, vals, sel) == Select(init, vals, sel) + (if k in sel then [vals[k]] else []);
      if k in sel && vals[k] == v {
        assert keys[n] in sel && vals[keys[n]] == v;
      } else if v in Select(init, vals, sel) {
        var i :| 0 <= i < n && init[i] in sel && vals[init[i]] == v;
        assert keys[i] == init[i];
      } else {
        forall i | 0 <= i < |keys| ensures !(keys[i] in sel && vals[keys[i]] == v) {
          if i < n {
            assert keys[i] == init[i];
          }
        }
      }
    }
  }

  /** Selection depends only on the values and the membership in `sel` of the
      keys listed. */
  lemma {:induction false} SelectFrame<K(!new), V>(keys: seq<K>, vals: map<K, V>, vals': map<K, V>, sel: set<K>, sel': set<K>)
    requires forall i :: 0 <= i < |keys| ==> keys[i] in vals && keys[i] in vals'
    requires forall i :: 0 <= i < |keys| ==> vals[keys[i]] == vals'[keys[i]] && (keys[i] in sel <==> keys[i] in sel')
    ensures Select(keys, vals, sel) == Select(keys, vals', sel')
    decreases |keys|
  {
    if keys != [] {
      var n := |keys| - 1;
      var init := keys[..n];
      assert forall i :: 0 <= i < n ==> init[i] == keys[i];
      SelectFrame(init, vals, vals', sel, sel');
    }
  }

  /** Nothing is selected exactly when no key lies in `sel`. */
  lemma {:induction false} SelectNone<K(!new), V>(keys: seq<K>, vals: map<K, V>, sel: set<K>)
    requires forall i :: 0 <= i < |keys| ==> keys[i] in vals
    ensures Select(keys, vals, sel) == [] <==> forall i :: 0 <= i < |keys| ==> keys[i] !in sel
    decreases |keys|
  {
    if keys != [] {
      var n := |keys| - 1;
      var init := keys[..n];
      SelectNone(init, vals, sel);
      assert forall i :: 0 <= i < n ==> init[i] == keys[i];
    }
  }
}
