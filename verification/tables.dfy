/**
 * The script keeps every table in a Python dict keyed by a name. Those dicts
 * are iterated in insertion order, so a table is modelled as the list of its
 * keys in insertion order together with the map from key to value.
 */
module Tables {
  type Name = string

  datatype Option<T> = None | Some(value: T)

  /** The outcome of a pass that may stop on a Python `KeyError` for `key`. */
  datatype Result<T> = Ok(value: T) | KeyError(key: Name)

  /** An insertion-ordered dictionary: `keys` in insertion order, `entries` the values. */
  datatype Dict<V> = Dict(keys: seq<Name>, entries: map<Name, V>) {

    /** Keys are listed once each, and exactly the keys of `entries` are listed. */
    ghost predicate Valid() {
      && Distinct(keys)
      && (forall k :: k in entries <==> k in keys)
    }

    /** `d[k] = v`: a new key is appended, a present key keeps its position. */
    function Put(k: Name, v: V): (d: Dict<V>)
      requires Valid()
      ensures d.Valid()
      ensures d.entries == entries[k := v]
      ensures k in entries ==> d.keys == keys
      ensures k !in entries ==> d.keys == keys + [k]
    {
      if k in entries then Dict(keys, entries[k := v]) else Dict(keys + [k], entries[k := v])
    }

    /** `del d[k]` for every `k` of `gone`: those keys leave both the order and the map. */
    function RemoveAll(gone: set<Name>): (d: Dict<V>)
      requires Valid()
      ensures d.Valid()
      ensures d.entries == entries - gone
      ensures forall x :: x in d.keys <==> x in keys && x !in gone
    {
      OutsideMembers(keys, gone);
      OutsideDistinct(keys, gone);
      Dict(Outside(keys, gone), entries - gone)
    }

    /** `del d[k]`. */
    function Remove(k: Name): (d: Dict<V>)
      requires Valid()
      ensures d.Valid()
      ensures d.entries == entries - {k}
      ensures forall x :: x in d.keys <==> x in keys && x != k
    {
      RemoveAll({k})
    }
  }

  /** An alias table: canonical name -> its aliases. */
  type Groups = Dict<seq<Name>>

  /** No alias of the table is itself a canonical name of the table: every alias chain has length one. */
  ghost predicate Flat(g: Groups) {
    forall m, a :: m in g.entries && a in g.entries[m] ==> a !in g.entries
  }

  function Empty<V>(): (d: Dict<V>)
    ensures d.Valid() && d.keys == [] && d.entries == map[]
  {
    Dict([], map[])
  }

  ghost predicate Distinct<T>(s: seq<T>) {
    forall i, j :: 0 <= i < j < |s| ==> s[i] != s[j]
  }

  /** The elements of `s` that are not in `gone`, in their order. */
  function Outside(s: seq<Name>, gone: set<Name>): seq<Name> {
    if s == [] then []
    else (if s[0] in gone then [] else [s[0]]) + Outside(s[1..], gone)
  }

  lemma {:induction false} OutsideMembers(s: seq<Name>, gone: set<Name>)
    ensures forall x :: x in Outside(s, gone) <==> x in s && x !in gone
  {
    if s != [] {
      OutsideMembers(s[1..], gone);
      assert s == [s[0]] + s[1..];
    }
  }

  lemma {:induction false} OutsideDistinct(s: seq<Name>, gone: set<Name>)
    requires Distinct(s)
    ensures Distinct(Outside(s, gone))
  {
    if s != [] {
      OutsideDistinct(s[1..], gone);
      OutsideMembers(s[1..], gone);
      var t := Outside(s[1..], gone);
      if s[0] !in gone {
        assert s[0] !in s[1..];
        assert s[0] !in t;
        forall i, j | 0 <= i < j < |[s[0]] + t| ensures ([s[0]] + t)[i] != ([s[0]] + t)[j] {
          if i == 0 {
            assert ([s[0]] + t)[j] == t[j - 1];
          }
        }
      }
    }
  }

  /** Filtering twice is filtering once by both sets. */
  lemma {:induction false} OutsideTwice(s: seq<Name>, gone: set<Name>, more: set<Name>)
    ensures Outside(Outside(s, gone), more) == Outside(s, gone + more)
  {
    if s != [] {
      OutsideTwice(s[1..], gone, more);
      var t := Outside(s[1..], gone);
      if s[0] in gone {
        assert Outside(s, gone) == t;
      } else {
        var x := [s[0]] + t;
        assert Outside(s, gone) == x;
        assert x[0] == s[0] && x[1..] == t;
      }
    }
  }

  /** Filtering out keys that do not occur changes nothing. */
  lemma {:induction false} OutsideNothing(s: seq<Name>, gone: set<Name>)
    requires forall x :: x in gone ==> x !in s
    ensures Outside(s, gone) == s
  {
    if s != [] {
      assert s[0] !in gone;
      OutsideNothing(s[1..], gone);
      assert s == [s[0]] + s[1..];
    }
  }

  /** Deleting no key changes nothing. */
  lemma RemoveNone<V>(d: Dict<V>)
    requires d.Valid()
    ensures d.RemoveAll({}) == d
  {
    OutsideNothing(d.keys, {});
  }

  /** Deleting one more key after a set of keys is deleting both at once. */
  lemma RemoveMore<V>(d: Dict<V>, gone: set<Name>, k: Name)
    requires d.Valid()
    ensures d.RemoveAll(gone).Remove(k) == d.RemoveAll(gone + {k})
  {
    OutsideTwice(d.keys, gone, {k});
    assert (d.entries - gone) - {k} == d.entries - (gone + {k});
  }

  /** Deleting a key that is already gone changes nothing. */
  lemma RemoveAbsent<V>(d: Dict<V>, gone: set<Name>, k: Name)
    requires d.Valid() && k !in d.RemoveAll(gone).entries
    ensures d.RemoveAll(gone + {k}) == d.RemoveAll(gone)
  {
    OutsideTwice(d.keys, gone, {k});
    OutsideMembers(d.keys, gone);
    OutsideNothing(Outside(d.keys, gone), {k});
    assert d.entries - (gone + {k}) == d.entries - gone;
  }

  /** Appending an element not yet listed keeps a list free of repeats. */
  lemma DistinctSnoc<T>(s: seq<T>, x: T)
    requires Distinct(s) && x !in s
    ensures Distinct(s + [x])
  {
    forall i, j | 0 <= i < j < |s + [x]| ensures (s + [x])[i] != (s + [x])[j] {
      if j == |s| {
        assert (s + [x])[i] == s[i];
      }
    }
  }

  /** In a sequence without repetitions no element occurs before its own position. */
  lemma DistinctLast<T>(s: seq<T>, k: nat)
    requires Distinct(s) && 0 < k <= |s|
    ensures s[k - 1] !in s[..k - 1]
  {
    forall i | 0 <= i < k - 1 ensures s[i] != s[k - 1] {}
  }

  /** A prefix one longer is the shorter prefix and one more element. */
  lemma PrefixSnoc<T>(s: seq<T>, k: nat)
    requires 0 < k <= |s|
    ensures s[..k] == s[..k - 1] + [s[k - 1]]
  {
  }
}
