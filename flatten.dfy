/**
 * `flatten` of json2csv.py: a JSON object becomes one flat dict from dotted
 * paths to scalar values. Members of a nested object are named
 * `parent + sep + name`, list elements `path + sep + str(index)`; at the top
 * level (a parent key that is the empty string, which Python treats as
 * false) a member is named by its own name alone.
 *
 * `Flatten` follows the code: it fills a dict with `d[k] = v` and merges
 * the results of recursive calls with `dict.update`. `Leaves` is an
 * independent description: the list of every (path, scalar) assignment in
 * traversal order. `FlattenIsUpdateOfLeaves` ties the two together, and the
 * properties of flattening are then read off `Leaves`.
 */
module JsonFlatten {
  import opened Wrappers
  import opened JsonValue
  import opened Decimal
  import opened OrderedDict

  /** One flattened row: path to scalar, in insertion order. */
  type Row = Dict<Json>

  /** The separator `json_to_csv_output` uses (the default of `sep`). */
  const Sep: string := "."

  /** `parent_key + sep + k if parent_key else k`. */
  function MemberKey(parent: string, sep: string, k: string): string
  {
    if parent != "" then parent + sep + k else k
  }

  /** `new_key + sep + str(idx)`. */
  function IndexKey(key: string, sep: string, idx: nat): string
  {
    key + sep + NatToString(idx)
  }

  /** `flatten(json_object, parent_key, sep)`. Anything but an object flattens to `{}`. */
  function Flatten(j: Json, parent: string, sep: string): (r: Row)
    ensures !j.JObj? ==> r == []
  {
    match j
    case JObj(fields) => FlattenFields(fields, parent, sep, [])
    case _ => []
  }

  /** The loop over `json_object.items()`, with `items` as the accumulator. */
  function FlattenFields(fields: seq<(string, Json)>, parent: string, sep: string, items: Row): Row
  {
    if fields == [] then items
    else
      var p := fields[0];
      assert p in fields && p.1 < p;
      var key := MemberKey(parent, sep, p.0);
      var items' :=
        match p.1
        case JObj(_) => Update(items, Flatten(p.1, key, sep))
        case JArr(elems) => FlattenElems(elems, 0, key, sep, items)
        case _ => Set(items, key, p.1);
      FlattenFields(fields[1..], parent, sep, items')
  }

  /** The loop over `enumerate(v)`; `idx` is the index of `elems[0]` in the list. */
  function FlattenElems(elems: seq<Json>, idx: nat, key: string, sep: string, items: Row): Row
  {
    if elems == [] then items
    else
      var listKey := IndexKey(key, sep, idx);
      var items' :=
        if elems[0].JObj? || elems[0].JArr? then Update(items, Flatten(elems[0], listKey, sep))
        else Set(items, listKey, elems[0]);
      FlattenElems(elems[1..], idx + 1, key, sep, items')
  }

  /** Every scalar assignment flattening performs, in the order it performs them. */
  function Leaves(j: Json, parent: string, sep: string): seq<(string, Json)>
  {
    match j
    case JObj(fields) => FieldLeaves(fields, parent, sep)
    case _ => []
  }

  function FieldLeaves(fields: seq<(string, Json)>, parent: string, sep: string): seq<(string, Json)>
  {
    if fields == [] then []
    else
      var p := fields[0];
      assert p in fields;
      MemberLeaves(p, parent, sep) + FieldLeaves(fields[1..], parent, sep)
  }

  function MemberLeaves(p: (string, Json), parent: string, sep: string): seq<(string, Json)>
  {
    var key := MemberKey(parent, sep, p.0);
    match p.1
    case JObj(_) => Leaves(p.1, key, sep)
    case JArr(elems) => ElemLeaves(elems, 0, key, sep)
    case _ => [(key, p.1)]
  }

  function ElemLeaves(elems: seq<Json>, idx: nat, key: string, sep: string): seq<(string, Json)>
  {
    if elems == [] then []
    else
      var listKey := IndexKey(key, sep, idx);
      (if elems[0].JObj? || elems[0].JArr? then Leaves(elems[0], listKey, sep) else [(listKey, elems[0])])
      + ElemLeaves(elems[1..], idx + 1, key, sep)
  }

  /**
   * Flattening with nested `update` calls performs exactly the leaf
   * assignments, in traversal order, on an empty dict.
   */
  lemma {:induction false} FlattenIsUpdateOfLeaves(j: Json, parent: string, sep: string)
    ensures Flatten(j, parent, sep) == Update([], Leaves(j, parent, sep))
  {
    if j.JObj? {
      FlattenFieldsIsUpdate(j.fields, parent, sep, []);
    }
  }

  lemma {:induction false} FlattenFieldsIsUpdate(fields: seq<(string, Json)>, parent: string, sep: string, items: Row)
    requires DistinctKeys(items)
    ensures FlattenFields(fields, parent, sep, items) == Update(items, FieldLeaves(fields, parent, sep))
  {
    if fields != [] {
      var p := fields[0];
      assert p in fields && p.1 < p;
      var key := MemberKey(parent, sep, p.0);
      var ml := MemberLeaves(p, parent, sep);
      var rest := FieldLeaves(fields[1..], parent, sep);
      var items' :=
        match p.1
        case JObj(_) => Update(items, Flatten(p.1, key, sep))
        case JArr(elems) => FlattenElems(elems, 0, key, sep, items)
        case _ => Set(items, key, p.1);
      assert items' == Update(items, ml) by {
        match p.1
        case JObj(_) =>
          FlattenIsUpdateOfLeaves(p.1, key, sep);
          UpdateWithUpdated(items, Leaves(p.1, key, sep));
        case JArr(elems) =>
          FlattenElemsIsUpdate(elems, 0, key, sep, items);
        case _ =>
          assert ml == [(key, p.1)];
      }
      UpdateEntries(items, ml);
      FlattenFieldsIsUpdate(fields[1..], parent, sep, items');
      UpdateConcat(items, ml, rest);
    }
  }

  lemma {:induction false} FlattenElemsIsUpdate(elems: seq<Json>, idx: nat, key: string, sep: string, items: Row)
    requires DistinctKeys(items)
    ensures FlattenElems(elems, idx, key, sep, items) == Update(items, ElemLeaves(elems, idx, key, sep))
  {
    if elems != [] {
      var listKey := IndexKey(key, sep, idx);
      var el := if elems[0].JObj? || elems[0].JArr? then Leaves(elems[0], listKey, sep) else [(listKey, elems[0])];
      var items' :=
        if elems[0].JObj? || elems[0].JArr? then Update(items, Flatten(elems[0], listKey, sep))
        else Set(items, listKey, elems[0]);
      assert items' == Update(items, el) by {
        if elems[0].JObj? || elems[0].JArr? {
          FlattenIsUpdateOfLeaves(elems[0], listKey, sep);
          UpdateWithUpdated(items, Leaves(elems[0], listKey, sep));
        }
      }
      UpdateEntries(items, el);
      FlattenElemsIsUpdate(elems[1..], idx + 1, key, sep, items');
      UpdateConcat(items, el, ElemLeaves(elems[1..], idx + 1, key, sep));
    }
  }

  lemma {:induction false} LeavesAreScalars(j: Json, parent: string, sep: string)
    ensures forall p :: p in Leaves(j, parent, sep) ==> IsScalar(p.1)
  {
    if j.JObj? {
      FieldLeavesAreScalars(j.fields, parent, sep);
    }
  }

  lemma {:induction false} FieldLeavesAreScalars(fields: seq<(string, Json)>, parent: string, sep: string)
    ensures forall p :: p in FieldLeaves(fields, parent, sep) ==> IsScalar(p.1)
  {
    if fields != [] {
      var p := fields[0];
      assert p in fields && p.1 < p;
      var key := MemberKey(parent, sep, p.0);
      if p.1.JObj? {
        LeavesAreScalars(p.1, key, sep);
      } else if p.1.JArr? {
        ElemLeavesAreScalars(p.1.elems, 0, key, sep);
      }
      FieldLeavesAreScalars(fields[1..], parent, sep);
    }
  }

  lemma {:induction false} ElemLeavesAreScalars(elems: seq<Json>, idx: nat, key: string, sep: string)
    ensures forall p :: p in ElemLeaves(elems, idx, key, sep) ==> IsScalar(p.1)
  {
    if elems != [] {
      if elems[0].JObj? || elems[0].JArr? {
        LeavesAreScalars(elems[0], IndexKey(key, sep, idx), sep);
      }
      ElemLeavesAreScalars(elems[1..], idx + 1, key, sep);
    }
  }

  /**
   * A flattened row has distinct keys and only scalar values; its keys are
   * the leaf paths in order of first assignment, and when two leaves share a
   * path the later value wins while the key keeps its first position.
   */
  lemma FlattenRow(j: Json, parent: string, sep: string)
    ensures DistinctKeys(Flatten(j, parent, sep))
    ensures forall p :: p in Flatten(j, parent, sep) ==> IsScalar(p.1)
    ensures Keys(Flatten(j, parent, sep)) == AddKeys([], Keys(Leaves(j, parent, sep)))
    ensures forall k :: Get(Flatten(j, parent, sep), k) == LastValue(Leaves(j, parent, sep), k)
  {
    var l := Leaves(j, parent, sep);
    FlattenIsUpdateOfLeaves(j, parent, sep);
    LeavesAreScalars(j, parent, sep);
    UpdateEntries([], l);
    UpdateKeys([], l);
    forall k ensures Get(Flatten(j, parent, sep), k) == LastValue(l, k) {
      UpdateGet([], l, k);
    }
  }

  lemma {:induction false} TopLevelScalarLeaves(fields: seq<(string, Json)>, sep: string)
    requires forall i :: 0 <= i < |fields| ==> IsScalar(fields[i].1)
    ensures FieldLeaves(fields, "", sep) == fields
  {
    if fields != [] {
      TopLevelScalarLeaves(fields[1..], sep);
    }
  }

  lemma SingleMemberLeaves(k: string, v: Json, parent: string, sep: string)
    ensures Leaves(JObj([(k, v)]), parent, sep) == MemberLeaves((k, v), parent, sep)
  {
    var fs := [(k, v)];
    assert fs[0] == (k, v) && fs[1..] == [];
    assert FieldLeaves(fs, parent, sep) == MemberLeaves((k, v), parent, sep) + [];
  }

  /** An object whose values are all scalars flattens to itself: same keys, order and values. */
  lemma FlattenScalarObject(fields: seq<(string, Json)>, sep: string)
    requires DistinctKeys(fields)
    requires forall i :: 0 <= i < |fields| ==> IsScalar(fields[i].1)
    ensures Flatten(JObj(fields), "", sep) == fields
  {
    FlattenIsUpdateOfLeaves(JObj(fields), "", sep);
    TopLevelScalarLeaves(fields, sep);
    assert [] + fields == fields;
    UpdateDistinct([], fields);
  }

  /**
   * A member holding an object contributes that object flattened under
   * `parent + sep + k`, or under the bare `k` when the parent key is empty.
   */
  lemma FlattenNestedObject(k: string, v: Json, parent: string, sep: string)
    requires v.JObj?
    ensures Flatten(JObj([(k, v)]), parent, sep) == Flatten(v, if parent == "" then k else parent + sep + k, sep)
  {
    var key := MemberKey(parent, sep, k);
    FlattenIsUpdateOfLeaves(JObj([(k, v)]), parent, sep);
    FlattenIsUpdateOfLeaves(v, key, sep);
    SingleMemberLeaves(k, v, parent, sep);
    assert Leaves(JObj([(k, v)]), parent, sep) == Leaves(v, key, sep);
  }

  lemma {:induction false} ScalarElemLeaves(elems: seq<Json>, idx: nat, key: string, sep: string)
    requires forall i :: 0 <= i < |elems| ==> IsScalar(elems[i])
    ensures ElemLeaves(elems, idx, key, sep) == seq(|elems|, i requires 0 <= i < |elems| => (key + sep + NatToString(idx + i), elems[i]))
  {
    if elems != [] {
      var t := elems[1..];
      ScalarElemLeaves(t, idx + 1, key, sep);
      var head := (key + sep + NatToString(idx), elems[0]);
      var rest := seq(|t|, i requires 0 <= i < |t| => (key + sep + NatToString(idx + 1 + i), t[i]));
      assert ElemLeaves(elems, idx, key, sep) == [head] + rest;
      var all := seq(|elems|, i requires 0 <= i < |elems| => (key + sep + NatToString(idx + i), elems[i]));
      assert |all| == |[head] + rest|;
      forall i | 0 <= i < |elems| ensures all[i] == ([head] + rest)[i] {
        if i > 0 {
          assert ([head] + rest)[i] == rest[i - 1];
          assert idx + 1 + (i - 1) == idx + i;
        }
      }
    }
  }

  /**
   * A member holding a list of scalars contributes `key + sep + str(i)` for
   * each element `i`, in index order, where `key` is the member's path.
   */
  lemma FlattenScalarList(k: string, elems: seq<Json>, parent: string, sep: string)
    requires forall i :: 0 <= i < |elems| ==> IsScalar(elems[i])
    ensures var key := if parent == "" then k else parent + sep + k;
      Flatten(JObj([(k, JArr(elems))]), parent, sep)
      == seq(|elems|, i requires 0 <= i < |elems| => (key + sep + NatToString(i), elems[i]))
  {
    var key := MemberKey(parent, sep, k);
    var l := seq(|elems|, i requires 0 <= i < |elems| => (key + sep + NatToString(i), elems[i]));
    FlattenIsUpdateOfLeaves(JObj([(k, JArr(elems))]), parent, sep);
    SingleMemberLeaves(k, JArr(elems), parent, sep);
    ScalarElemLeaves(elems, 0, key, sep);
    assert Leaves(JObj([(k, JArr(elems))]), parent, sep) == l;
    IndexKeysDistinct(l, elems, key, sep);
    assert [] + l == l;
    UpdateDistinct([], l);
  }

  lemma IndexKeysDistinct(l: seq<(string, Json)>, elems: seq<Json>, key: string, sep: string)
    requires l == seq(|elems|, i requires 0 <= i < |elems| => (key + sep + NatToString(i), elems[i]))
    ensures DistinctKeys(l)
  {
    forall i, j | 0 <= i < j < |l| ensures l[i].0 != l[j].0 {
      assert l[i].0[|key + sep|..] == NatToString(i);
      assert l[j].0[|key + sep|..] == NatToString(j);
      NatToStringInjective(i, j);
    }
  }

  lemma {:induction false} ElemLeavesConcat(a: seq<Json>, b: seq<Json>, idx: nat, key: string, sep: string)
    ensures ElemLeaves(a + b, idx, key, sep) == ElemLeaves(a, idx, key, sep) + ElemLeaves(b, idx + |a|, key, sep)
  {
    if a == [] {
      assert a + b == b;
    } else {
      assert (a + b)[0] == a[0] && (a + b)[1..] == a[1..] + b;
      ElemLeavesConcat(a[1..], b, idx + 1, key, sep);
    }
  }

  /**
   * A list element that is itself a list contributes nothing, yet still
   * takes its index: the elements after it keep their positions.
   */
  lemma NestedListVanishes(pre: seq<Json>, inner: seq<Json>, post: seq<Json>, idx: nat, key: string, sep: string)
    ensures ElemLeaves(pre + [JArr(inner)] + post, idx, key, sep)
      == ElemLeaves(pre, idx, key, sep) + ElemLeaves(post, idx + |pre| + 1, key, sep)
  {
    ElemLeavesConcat(pre + [JArr(inner)], post, idx, key, sep);
    ElemLeavesConcat(pre, [JArr(inner)], idx, key, sep);
    assert ElemLeaves([JArr(inner)], idx + |pre|, key, sep) == [];
  }

  /** An empty list, an empty object or a list of lists as a member's value contributes nothing. */
  lemma EmptyContainersVanish(k: string, inner: seq<Json>, parent: string, sep: string)
    ensures Flatten(JObj([(k, JArr([]))]), parent, sep) == []
    ensures Flatten(JObj([(k, JObj([]))]), parent, sep) == []
    ensures Flatten(JObj([(k, JArr([JArr(inner)]))]), parent, sep) == []
  {
    var key := MemberKey(parent, sep, k);
    EmptyMemberVanishes(k, JArr([]), parent, sep);
    assert MemberLeaves((k, JObj([])), parent, sep) == FieldLeaves([], key, sep);
    EmptyMemberVanishes(k, JObj([]), parent, sep);
    assert ElemLeaves([JArr(inner)], 0, key, sep) == [] + [];
    assert MemberLeaves((k, JArr([JArr(inner)])), parent, sep) == ElemLeaves([JArr(inner)], 0, key, sep);
    EmptyMemberVanishes(k, JArr([JArr(inner)]), parent, sep);
  }

  lemma EmptyMemberVanishes(k: string, v: Json, parent: string, sep: string)
    requires MemberLeaves((k, v), parent, sep) == []
    ensures Flatten(JObj([(k, v)]), parent, sep) == []
  {
    FlattenIsUpdateOfLeaves(JObj([(k, v)]), parent, sep);
    SingleMemberLeaves(k, v, parent, sep);
  }

  /** `{"a": {"b": 1}}`, `{"a": [1, 2]}` and `{"a": [{"b": 1}]}` at the top level. */
  lemma FlattenExamples()
    ensures Flatten(JObj([("a", JObj([("b", JNum(1))]))]), "", Sep) == [("a.b", JNum(1))]
    ensures Flatten(JObj([("a", JArr([JNum(1), JNum(2)]))]), "", Sep) == [("a.0", JNum(1)), ("a.1", JNum(2))]
    ensures Flatten(JObj([("a", JArr([JObj([("b", JNum(1))])]))]), "", Sep) == [("a.0.b", JNum(1))]
  {
    var b1 := JObj([("b", JNum(1))]);
    assert NatToString(0) == "0" && NatToString(1) == "1";
    // {"a": {"b": 1}}
    SingleMemberLeaves("b", JNum(1), "a", Sep);
    FlattenNestedObject("a", b1, "", Sep);
    FlattenIsUpdateOfLeaves(b1, "a", Sep);
    assert MemberKey("a", Sep, "b") == "a.b";
    assert MemberLeaves(("b", JNum(1)), "a", Sep) == [("a.b", JNum(1))];
    UpdateDistinct([], [("a.b", JNum(1))]);
    // {"a": [1, 2]}
    FlattenScalarList("a", [JNum(1), JNum(2)], "", Sep);
    var l := seq(2, i requires 0 <= i < 2 => ("a" + Sep + NatToString(i), [JNum(1), JNum(2)][i]));
    assert "a" + Sep + "0" == "a.0" && "a" + Sep + "1" == "a.1";
    assert l[0] == ("a.0", JNum(1)) && l[1] == ("a.1", JNum(2));
    assert l == [("a.0", JNum(1)), ("a.1", JNum(2))];
    // {"a": [{"b": 1}]}
    SingleMemberLeaves("b", JNum(1), "a.0", Sep);
    SingleMemberLeaves("a", JArr([b1]), "", Sep);
    FlattenIsUpdateOfLeaves(JObj([("a", JArr([b1]))]), "", Sep);
    assert IndexKey("a", Sep, 0) == "a.0";
    assert MemberKey("a.0", Sep, "b") == "a.0.b";
    assert MemberLeaves(("b", JNum(1)), "a.0", Sep) == [("a.0.b", JNum(1))];
    assert ElemLeaves([b1], 0, "a", Sep) == Leaves(b1, "a.0", Sep) + ElemLeaves([], 1, "a", Sep);
    assert MemberLeaves(("a", JArr([b1])), "", Sep) == ElemLeaves([b1], 0, "a", Sep);
    UpdateDistinct([], [("a.0.b", JNum(1))]);
  }
}
