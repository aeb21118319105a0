/** Option and Result values for the optional fields and the fatal errors of the simulator and the gate. */
module Wrappers {

  datatype Option<+T> = None | Some(value: T)
  {
    /** The wrapped value, or `default` when there is none (Python's `dict.get(key, default)`). */
    function GetOr(default: T): T
    {
      match this
      case Some(v) => v
      case None => default
    }
  }

  datatype Result<+T, +E> = Success(value: T) | Failure(error: E)

  /** `{k: f(m[k]) for k in keys}`. */
  function MapValues<K, A, B>(m: map<K, A>, keys: set<K>, f: A -> B): (r: map<K, B>)
    requires keys <= m.Keys
    ensures r.Keys == keys
    ensures forall k :: k in r ==> r[k] == f(m[k])
  {
    map k | k in keys :: f(m[k])
  }

  /** One more key in the comprehension is one more entry. */
  lemma MapValuesStep<K, A, B>(m: map<K, A>, keys: set<K>, f: A -> B, k: K)
    requires keys <= m.Keys && k in m
    ensures MapValues(m, keys + {k}, f) == MapValues(m, keys, f)[k := f(m[k])]
  {
    var a, b := MapValues(m, keys + {k}, f), MapValues(m, keys, f)[k := f(m[k])];
    assert a.Keys == b.Keys;
  }

  /** `selected.setdefault(k, []).append(f(k))` for every `k` in `ks`. */
  function Appended<K, V>(sel: map<K, seq<V>>, ks: set<K>, f: K -> V): (r: map<K, seq<V>>)
    ensures r.Keys == sel.Keys + ks
    ensures forall k :: k in r ==> r[k] == Get(sel, k, []) + (if k in ks then [f(k)] else [])
  {
    map k | k in sel.Keys + ks :: Get(sel, k, []) + (if k in ks then [f(k)] else [])
  }

  lemma AppendedNone<K, V>(sel: map<K, seq<V>>, f: K -> V)
    ensures Appended(sel, {}, f) == sel
  {
    var a := Appended(sel, {}, f);
    assert a.Keys == sel.Keys;
    forall k | k in a ensures a[k] == sel[k] {
      assert Get(sel, k, []) == sel[k];
    }
  }

  /** Appending for one more key touches that key's sequence only. */
  lemma AppendedStep<K, V>(sel: map<K, seq<V>>, ks: set<K>, f: K -> V, k: K)
    requires k !in ks
    ensures var m := Appended(sel, ks, f);
            Appended(sel, ks + {k}, f) == m[k := Get(m, k, []) + [f(k)]]
  {
    var m := Appended(sel, ks, f);
    var a, b := Appended(sel, ks + {k}, f), m[k := Get(m, k, []) + [f(k)]];
    assert a.Keys == b.Keys;
    forall x | x in a ensures a[x] == b[x] {
      if x == k && k !in sel {
        assert Get(sel, k, []) == [];
      }
    }
  }

  /** Python's `mapping.get(key, default)`. */
  function Get<K, V>(m: map<K, V>, k: K, default: V): V
  {
    if k in m then m[k] else default
  }
}
