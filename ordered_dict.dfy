/**
 * A Python `dict` with string keys, as an association list in insertion
 * order. `Set` is `d[k] = v`: a key already present keeps its position and
 * takes the new value, a new key goes to the end. `Update` is
 * `d.update(e)`: the entries of `e` are set one after another, in order.
 */
module OrderedDict {
  import opened Wrappers

  type Dict<V> = seq<(string, V)>

  function Keys<V>(d: Dict<V>): (ks: seq<string>)
    ensures |ks| == |d|
    ensures forall i :: 0 <= i < |d| ==> ks[i] == d[i].0
  {
    if d == [] then [] else [d[0].0] + Keys(d[1..])
  }

  predicate DistinctKeys<V>(d: Dict<V>)
  {
    forall i, j :: 0 <= i < j < |d| ==> d[i].0 != d[j].0
  }

  /** The position of the first entry with key `k`. */
  function IndexOf<V>(d: Dict<V>, k: string): (i: nat)
    requires k in Keys(d)
    ensures i < |d| && d[i].0 == k
    ensures forall j :: 0 <= j < i ==> d[j].0 != k
  {
    if d[0].0 == k then 0 else IndexOf(d[1..], k) + 1
  }

  /** `d.get(k)`: the value of the first entry with key `k`. */
  function Get<V>(d: Dict<V>, k: string): (r: Option<V>)
    ensures r.None? <==> k !in Keys(d)
    ensures r.Some? ==> r.value == d[IndexOf(d, k)].1
  {
    if d == [] then None else if d[0].0 == k then Some(d[0].1) else Get(d[1..], k)
  }

  lemma GetAt<V>(d: Dict<V>, i: nat)
    requires DistinctKeys(d) && i < |d|
    ensures Get(d, d[i].0) == Some(d[i].1)
  {
    var j := IndexOf(d, d[i].0);
    assert j == i;
  }

  /** `d[k] = v`. */
  function Set<V>(d: Dict<V>, k: string, v: V): Dict<V>
  {
    if d == [] then [(k, v)]
    else if d[0].0 == k then [(k, v)] + d[1..]
    else [d[0]] + Set(d[1..], k, v)
  }

  /** `d[k] = v` appends a new key, and replaces the entry of an existing key in place. */
  lemma {:induction false} SetShape<V>(d: Dict<V>, k: string, v: V)
    ensures k !in Keys(d) ==> Set(d, k, v) == d + [(k, v)]
    ensures k in Keys(d) ==> Set(d, k, v) == d[IndexOf(d, k) := (k, v)]
  {
    if d != [] && d[0].0 != k {
      SetShape(d[1..], k, v);
      assert Keys(d) == [d[0].0] + Keys(d[1..]);
      assert d == [d[0]] + d[1..];
      if k in Keys(d) {
        var i := IndexOf(d[1..], k);
        assert IndexOf(d, k) == i + 1;
        assert [d[0]] + d[1..][i := (k, v)] == d[i + 1 := (k, v)];
      }
    }
  }

  /** What `d[k] = v` does to the keys and the lookups. */
  lemma SetSpec<V>(d: Dict<V>, k: string, v: V)
    ensures Keys(Set(d, k, v)) == if k in Keys(d) then Keys(d) else Keys(d) + [k]
    ensures Get(Set(d, k, v), k) == Some(v)
    ensures forall k' :: k' != k ==> Get(Set(d, k, v), k') == Get(d, k')
    ensures DistinctKeys(d) ==> DistinctKeys(Set(d, k, v))
    ensures forall p :: p in Set(d, k, v) ==> p in d || p == (k, v)
  {
    SetKeys(d, k, v);
    SetGet(d, k, v);
    forall k' | k' != k ensures Get(Set(d, k, v), k') == Get(d, k') {
      SetGetOther(d, k, v, k');
    }
    SetValues(d, k, v);
  }

  lemma {:induction false} SetKeys<V>(d: Dict<V>, k: string, v: V)
    ensures Keys(Set(d, k, v)) == if k in Keys(d) then Keys(d) else Keys(d) + [k]
  {
    if d != [] && d[0].0 != k {
      SetKeys(d[1..], k, v);
      assert Keys(d) == [d[0].0] + Keys(d[1..]);
      assert Keys(Set(d, k, v)) == [d[0].0] + Keys(Set(d[1..], k, v));
    } else if d != [] {
      assert Keys(Set(d, k, v)) == [k] + Keys(d[1..]);
      assert Keys(d) == [k] + Keys(d[1..]);
    }
  }

  lemma {:induction false} SetGet<V>(d: Dict<V>, k: string, v: V)
    ensures Get(Set(d, k, v), k) == Some(v)
  {
    if d != [] && d[0].0 != k {
      SetGet(d[1..], k, v);
      assert Set(d, k, v)[1..] == Set(d[1..], k, v);
    }
  }

  lemma {:induction false} SetGetOther<V>(d: Dict<V>, k: string, v: V, k': string)
    requires k' != k
    ensures Get(Set(d, k, v), k') == Get(d, k')
  {
    if d != [] && d[0].0 != k {
      SetGetOther(d[1..], k, v, k');
      assert Set(d, k, v)[1..] == Set(d[1..], k, v);
    } else if d != [] {
      assert Set(d, k, v)[1..] == d[1..];
    }
  }

  lemma SetValues<V>(d: Dict<V>, k: string, v: V)
    ensures DistinctKeys(d) ==> DistinctKeys(Set(d, k, v))
    ensures forall p :: p in Set(d, k, v) ==> p in d || p == (k, v)
  {
    SetShape(d, k, v);
    var r := Set(d, k, v);
    if DistinctKeys(d) {
      forall i, j | 0 <= i < j < |r| ensures r[i].0 != r[j].0 {
        if k in Keys(d) {
          assert r[i].0 == d[i].0 && r[j].0 == d[j].0;
        } else if j < |d| {
          assert r[i].0 == d[i].0 && r[j].0 == d[j].0;
        } else {
          assert d[i].0 == Keys(d)[i];
        }
      }
    }
  }

  /** `d.update(e)`, for an `e` whose entries are visited in order. */
  function Update<V>(d: Dict<V>, e: Dict<V>): Dict<V>
    decreases |e|
  {
    if e == [] then d else Update(Set(d, e[0].0, e[0].1), e[1..])
  }

  /** Appending keys that are not there yet, in order of first occurrence. */
  function AddKeys(ks: seq<string>, more: seq<string>): seq<string>
    decreases |more|
  {
    if more == [] then ks
    else AddKeys(if more[0] in ks then ks else ks + [more[0]], more[1..])
  }

  /** The value the last entry with key `k` carries. */
  function LastValue<V>(e: Dict<V>, k: string): (r: Option<V>)
    ensures r.None? <==> k !in Keys(e)
  {
    if e == [] then None
    else
      var rest := LastValue(e[1..], k);
      if rest.Some? then rest else if e[0].0 == k then Some(e[0].1) else None
  }

  lemma {:induction false} AddKeysMembers(ks: seq<string>, more: seq<string>)
    ensures forall k :: k in AddKeys(ks, more) <==> k in ks || k in more
    decreases |more|
  {
    if more != [] {
      AddKeysMembers(if more[0] in ks then ks else ks + [more[0]], more[1..]);
    }
  }

  /**
   * `d.update(e)` keeps the old keys in place and appends the new ones in
   * order of first occurrence.
   */
  lemma {:induction false} UpdateKeys<V>(d: Dict<V>, e: Dict<V>)
    ensures Keys(Update(d, e)) == AddKeys(Keys(d), Keys(e))
    decreases |e|
  {
    if e != [] {
      SetKeys(d, e[0].0, e[0].1);
      UpdateKeys(Set(d, e[0].0, e[0].1), e[1..]);
      assert Keys(e) == [e[0].0] + Keys(e[1..]);
    }
  }

  /** After `d.update(e)` a key takes the last value `e` gives it, or keeps its old one. */
  lemma {:induction false} UpdateGet<V>(d: Dict<V>, e: Dict<V>, k: string)
    ensures Get(Update(d, e), k) == if k in Keys(e) then LastValue(e, k) else Get(d, k)
    decreases |e|
  {
    if e != [] {
      var d' := Set(d, e[0].0, e[0].1);
      UpdateGet(d', e[1..], k);
      assert Keys(e) == [e[0].0] + Keys(e[1..]);
      if k == e[0].0 {
        SetGet(d, k, e[0].1);
      } else {
        SetGetOther(d, e[0].0, e[0].1, k);
      }
    }
  }

  /** `d.update(e)` keeps the keys distinct and brings in no value from elsewhere. */
  lemma {:induction false} UpdateEntries<V>(d: Dict<V>, e: Dict<V>)
    ensures DistinctKeys(d) ==> DistinctKeys(Update(d, e))
    ensures forall p :: p in Update(d, e) ==> p in d || p in e
    decreases |e|
  {
    if e != [] {
      var d' := Set(d, e[0].0, e[0].1);
      SetValues(d, e[0].0, e[0].1);
      UpdateEntries(d', e[1..]);
      forall p | p in Update(d, e) ensures p in d || p in e {
        assert p in d' || p in e[1..];
      }
    }
  }

  lemma {:induction false} UpdateConcat<V>(d: Dict<V>, a: Dict<V>, b: Dict<V>)
    ensures Update(d, a + b) == Update(Update(d, a), b)
    decreases |a|
  {
    if a == [] {
      assert a + b == b;
    } else {
      assert (a + b)[0] == a[0];
      assert (a + b)[1..] == a[1..] + b;
      UpdateConcat(Set(d, a[0].0, a[0].1), a[1..], b);
    }
  }

  /** Updating an empty dict with entries whose keys are distinct gives them back unchanged. */
  lemma {:induction false} UpdateDistinct<V>(d: Dict<V>, e: Dict<V>)
    requires DistinctKeys(d + e)
    ensures Update(d, e) == d + e
    decreases |e|
  {
    if e != [] {
      assert (d + e)[|d|] == e[0];
      assert e[0].0 !in Keys(d) by {
        forall i | 0 <= i < |d| ensures d[i].0 != e[0].0 {
          assert (d + e)[i] == d[i];
        }
      }
      assert d + e == (d + [e[0]]) + e[1..];
      SetShape(d, e[0].0, e[0].1);
      UpdateDistinct(d + [e[0]], e[1..]);
    }
  }

  lemma {:induction false} AddKeysDedup(ks: seq<string>, x: seq<string>)
    ensures AddKeys(ks, AddKeys([], x)) == AddKeys(ks, x)
    decreases |x|
  {
    if x != [] {
      var last := x[|x| - 1];
      var init := x[..|x| - 1];
      assert x == init + [last];
      AddKeysSnoc(ks, init, last);
      AddKeysSnoc([], init, last);
      AddKeysDedup(ks, init);
      AddKeysMembers([], init);
      AddKeysMembers(ks, init);
      if last in AddKeys([], init) {
      } else {
        AddKeysSnoc(ks, AddKeys([], init), last);
        assert AddKeys([], init) + [last] == AddKeys([], init) + [last];
      }
    }
  }

  lemma {:induction false} AddKeysSnoc(ks: seq<string>, x: seq<string>, k: string)
    ensures AddKeys(ks, x + [k]) == var s := AddKeys(ks, x); if k in s then s else s + [k]
    decreases |x|
  {
    if x == [] {
      assert [k][1..] == [];
    } else {
      assert (x + [k])[1..] == x[1..] + [k];
      AddKeysSnoc(if x[0] in ks then ks else ks + [x[0]], x[1..], k);
    }
  }

  /** Two dicts with distinct keys, the same key order and the same lookups are equal. */
  lemma Extensionality<V>(a: Dict<V>, b: Dict<V>)
    requires DistinctKeys(a) && DistinctKeys(b) && Keys(a) == Keys(b)
    requires forall k :: Get(a, k) == Get(b, k)
    ensures a == b
  {
    forall i | 0 <= i < |a| ensures a[i] == b[i] {
      GetAt(a, i);
      GetAt(b, i);
      assert Get(a, a[i].0) == Get(b, b[i].0);
    }
  }

  lemma LastValueOfDistinct<V>(e: Dict<V>, k: string)
    requires DistinctKeys(e)
    ensures LastValue(e, k) == Get(e, k)
  {
    if e != [] && k in Keys(e) {
      if e[0].0 == k {
        assert k !in Keys(e[1..]);
      } else {
        LastValueOfDistinct(e[1..], k);
      }
    }
  }

  /**
   * Updating with an already-collapsed dict is updating with the entries it
   * was collapsed from: `d.update(flatten(...))` equals setting the
   * sub-result's assignments on `d` directly.
   */
  lemma UpdateWithUpdated<V>(d: Dict<V>, e: Dict<V>)
    requires DistinctKeys(d)
    ensures Update(d, Update([], e)) == Update(d, e)
  {
    var c := Update([], e);
    UpdateEntries([], e);
    UpdateEntries(d, c);
    UpdateEntries(d, e);
    UpdateKeys([], e);
    UpdateKeys(d, c);
    UpdateKeys(d, e);
    AddKeysDedup(Keys(d), Keys(e));
    AddKeysMembers([], Keys(e));
    forall k ensures Get(Update(d, c), k) == Get(Update(d, e), k) {
      UpdateGet(d, c, k);
      UpdateGet(d, e, k);
      UpdateGet([], e, k);
      LastValueOfDistinct(c, k);
    }
    Extensionality(Update(d, c), Update(d, e));
  }
}
