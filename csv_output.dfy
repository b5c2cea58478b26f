/**
 * `json_to_csv_output` of json2csv.py, up to the CSV text: which input
 * elements become rows, the header, the cells of each row, and the
 * `ValueError` the strict `csv.DictWriter` raises for a row holding a key
 * that the header lacks.
 */
module Json2Csv {
  import opened Wrappers
  import opened JsonValue
  import opened OrderedDict
  import opened JsonFlatten

  /** The outcome of one run. */
  datatype CsvOutput =
      /** `No valid data found to convert to CSV.` is printed instead of a table. */
    | NoValidData
      /** The header line, then one line per row; a `None` cell is the writer's empty `restval`. */
    | Table(header: seq<string>, rows: seq<seq<Option<Json>>>)
      /** `writerow` raised for row `row`, whose keys `fields` are not in the header; nothing is printed. */
    | ExtraFields(row: nat, fields: seq<string>)

  /** The elements for which `isinstance(item, dict)` holds, in input order. */
  function ObjectsOf(data: seq<Json>): (objs: seq<Json>)
    ensures forall x :: x in objs <==> x in data && x.JObj?
  {
    if data == [] then [] else (if data[0].JObj? then [data[0]] else []) + ObjectsOf(data[1..])
  }

  /** Filtering distributes over concatenation, so the kept elements stay in input order. */
  lemma {:induction false} ObjectsOfAppend(a: seq<Json>, b: seq<Json>)
    ensures ObjectsOf(a + b) == ObjectsOf(a) + ObjectsOf(b)
  {
    if a == [] {
      assert a + b == b;
    } else {
      assert (a + b)[0] == a[0] && (a + b)[1..] == a[1..] + b;
      ObjectsOfAppend(a[1..], b);
    }
  }

  /** `flatten(item)` for each kept element. */
  function FlattenAll(objs: seq<Json>): seq<Row>
  {
    seq(|objs|, i requires 0 <= i < |objs| => Flatten(objs[i], "", Sep))
  }

  lemma ObjectsOfSnoc(data: seq<Json>, i: nat)
    requires i < |data|
    ensures ObjectsOf(data[..i + 1]) == ObjectsOf(data[..i]) + if data[i].JObj? then [data[i]] else []
  {
    assert data[..i + 1] == data[..i] + [data[i]];
    ObjectsOfAppend(data[..i], [data[i]]);
    assert ObjectsOf([data[i]]) == if data[i].JObj? then [data[i]] else [];
  }

  lemma FlattenAllSnoc(objs: seq<Json>, x: Json)
    ensures FlattenAll(objs + [x]) == FlattenAll(objs) + [Flatten(x, "", Sep)]
  {
    var l, r := FlattenAll(objs + [x]), FlattenAll(objs) + [Flatten(x, "", Sep)];
    assert |l| == |r|;
    forall i | 0 <= i < |l| ensures l[i] == r[i] {
      assert (objs + [x])[i] == if i < |objs| then objs[i] else x;
    }
  }

  /** The cells `DictWriter` writes for `row` under `header`: the row's value or the empty `restval`. */
  function RowCells(row: Row, header: seq<string>): (cells: seq<Option<Json>>)
    ensures |cells| == |header|
    ensures forall c :: 0 <= c < |header| ==> cells[c] == Get(row, header[c])
  {
    if header == [] then [] else [Get(row, header[0])] + RowCells(row, header[1..])
  }

  /** The keys of `row` that are not in `header` (the writer's `wrong_fields`), in row order. */
  function ExtraKeys(row: Row, header: seq<string>): seq<string>
  {
    if row == [] then []
    else (if row[0].0 in header then [] else [row[0].0]) + ExtraKeys(row[1..], header)
  }

  /** `writerow` rejects exactly the row's keys that the header lacks. */
  lemma {:induction false} ExtraKeysMembers(row: Row, header: seq<string>)
    ensures forall k :: k in ExtraKeys(row, header) <==> k in Keys(row) && k !in header
  {
    if row != [] {
      assert Keys(row) == [row[0].0] + Keys(row[1..]);
      ExtraKeysMembers(row[1..], header);
    }
  }

  /** A row whose keys all appear in the header is written without error. */
  lemma {:induction false} NoExtraKeys(row: Row, header: seq<string>)
    requires forall k :: k in Keys(row) ==> k in header
    ensures ExtraKeys(row, header) == []
  {
    if row != [] {
      assert Keys(row) == [row[0].0] + Keys(row[1..]);
      NoExtraKeys(row[1..], header);
    }
  }

  /** Under its own keys as the header, a row's cells are its values in order, none missing. */
  lemma RowCellsOwnHeader(row: Row)
    requires DistinctKeys(row)
    ensures RowCells(row, Keys(row)) == seq(|row|, i requires 0 <= i < |row| => Some(row[i].1))
  {
    var ks := Keys(row);
    var cells := RowCells(row, ks);
    var values := seq(|row|, i requires 0 <= i < |row| => Some(row[i].1));
    assert |cells| == |values|;
    forall i | 0 <= i < |row| ensures cells[i] == values[i] {
      assert cells[i] == Get(row, ks[i]);
      assert ks[i] == row[i].0;
      GetAt(row, i);
    }
  }

  /** The first loop of `json_to_csv_output`: flatten each dict element, in order. */
  method FlattenedRows(data: seq<Json>) returns (flattened: seq<Row>)
    ensures flattened == FlattenAll(ObjectsOf(data))
  {
    flattened := [];
    for i := 0 to |data|
      invariant flattened == FlattenAll(ObjectsOf(data[..i]))
    {
      ghost var before := ObjectsOf(data[..i]);
      ObjectsOfSnoc(data, i);
      if data[i].JObj? {
        FlattenAllSnoc(before, data[i]);
        flattened := flattened + [Flatten(data[i], "", Sep)];
      } else {
        assert ObjectsOf(data[..i + 1]) == before;
      }
    }
    assert data[..|data|] == data;
  }

  /** The second loop of `json_to_csv_output`: `writer.writerow(row)` for each flattened row. */
  method WriteRows(flattened: seq<Row>, header: seq<string>) returns (out: CsvOutput)
    ensures out.Table? || out.ExtraFields?
    ensures out.Table? <==> forall r :: 0 <= r < |flattened| ==> ExtraKeys(flattened[r], header) == []
    ensures out.Table? ==>
      out.header == header
      && |out.rows| == |flattened|
      && forall r :: 0 <= r < |flattened| ==> out.rows[r] == RowCells(flattened[r], header)
    ensures out.ExtraFields? ==>
      out.row < |flattened|
      && out.fields == ExtraKeys(flattened[out.row], header)
      && out.fields != []
      && forall r :: 0 <= r < out.row ==> ExtraKeys(flattened[r], header) == []
  {
    var rows: seq<seq<Option<Json>>> := [];
    for i := 0 to |flattened|
      invariant |rows| == i
      invariant forall r :: 0 <= r < i ==> rows[r] == RowCells(flattened[r], header)
      invariant forall r :: 0 <= r < i ==> ExtraKeys(flattened[r], header) == []
    {
      var extra := ExtraKeys(flattened[i], header);
      if extra != [] {
        assert ExtraKeys(flattened[i], header) != [];
        return ExtraFields(i, extra);
      }
      rows := rows + [RowCells(flattened[i], header)];
      assert rows[i] == RowCells(flattened[i], header);
    }
    return Table(header, rows);
  }

  /**
   * What `json_to_csv_output` produces from the flattened rows `flat`: the
   * diagnostic when there are none; otherwise the first row's keys as the
   * header, and either every row's cells under it or the first row holding
   * a key the header lacks. The first row itself never fails.
   */
  predicate CsvOf(flat: seq<Row>, out: CsvOutput)
  {
    && (out.NoValidData? <==> flat == [])
    && (out.Table? <==> flat != [] && forall r :: 0 <= r < |flat| ==> ExtraKeys(flat[r], Keys(flat[0])) == [])
    && (out.Table? ==>
          out.header == Keys(flat[0])
          && |out.rows| == |flat|
          && forall r :: 0 <= r < |flat| ==> out.rows[r] == RowCells(flat[r], out.header))
    && (out.ExtraFields? ==>
          0 < out.row < |flat|
          && out.fields == ExtraKeys(flat[out.row], Keys(flat[0]))
          && out.fields != []
          && forall r :: 0 <= r < out.row ==> ExtraKeys(flat[r], Keys(flat[0])) == [])
  }

  /** `json_to_csv_output(json_data)`, up to the rendering of the CSV text. */
  method JsonToCsvOutput(data: seq<Json>) returns (out: CsvOutput)
    ensures out.NoValidData? <==> ObjectsOf(data) == []
    ensures CsvOf(FlattenAll(ObjectsOf(data)), out)
  {
    var flattened := FlattenedRows(data);
    if flattened == [] {
      return NoValidData;
    }
    var header := Keys(flattened[0]);
    NoExtraKeys(flattened[0], header);
    out := WriteRows(flattened, header);
  }
}
