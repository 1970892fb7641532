/** The one-off loader that rebuilds ACCIDENT_HOTSPOTS from a JSON array of
    records: each record becomes one row with a value per column of
    `ColumnNames`, and the table is dropped and recreated before one bulk
    insert. Reading and parsing the file are given as their outcome. */
module JsonLoader {
  import opened Wrappers
  import opened Text
  import DbSetup

  /** A parsed JSON value. */
  datatype Json = JNull | JBool(b: bool) | JNumber(n: real) | JString(s: string)
                | JArray(items: seq<Json>) | JObject(fields: seq<(string, Json)>)

  /** One element of the JSON array: its keys and their values. */
  type Record = map<string, Json>

  const TableName: string := "ACCIDENT_HOTSPOTS"

  /** The columns written, in order; also the JSON keys read. */
  const ColumnNames: seq<string> := [
    "fid", "id", "legal_dong_code", "spot_code", "city_district_name", "spot_name",
    "accident_count", "casualty_count", "death_count", "severe_injury_count",
    "minor_injury_count", "reported_injury_count", "longitude", "latitude",
    "polygon_geom"]

  lemma ColumnNamesDistinct()
    ensures |ColumnNames| == 15
    ensures forall i, j :: 0 <= i < j < |ColumnNames| ==> ColumnNames[i] != ColumnNames[j]
  {
  }

  /** The JSON loader and the CSV loader of the bootstrap write the same
      columns in the same order. */
  lemma SameColumnsAsCsvLoader()
    ensures ColumnNames == DbSetup.CsvInsertColumns
  {
  }

  /** A bound parameter: SQL NULL or a JSON value passed through. */
  datatype SqlParam = SqlNull | Bound(value: Json)

  /** `record[col]`, with `undefined` and `null` both turned into NULL. */
  function ParamOf(record: Record, column: string): (p: SqlParam)
    ensures p == SqlNull <==> column !in record || record[column] == JNull
    ensures p.Bound? ==> column in record && p.value == record[column]
  {
    if column in record && record[column] != JNull then Bound(record[column]) else SqlNull
  }

  /** The inner `COLUMN_NAMES.map(...)`: one row. */
  function BuildRow(record: Record): (row: seq<SqlParam>)
    ensures |row| == |ColumnNames|
    ensures forall i :: 0 <= i < |row| ==>
      (row[i] == SqlNull <==> ColumnNames[i] !in record || record[ColumnNames[i]] == JNull)
  {
    seq(|ColumnNames|, i requires 0 <= i < |ColumnNames| => ParamOf(record, ColumnNames[i]))
  }

  /** `jsonData.map(...)`: one row per record, in record order. */
  function BuildRows(records: seq<Record>): (rows: seq<seq<SqlParam>>)
    ensures |rows| == |records|
    ensures forall i :: 0 <= i < |rows| ==> rows[i] == BuildRow(records[i]) && |rows[i]| == |ColumnNames|
  {
    seq(|records|, i requires 0 <= i < |records| => BuildRow(records[i]))
  }

  /** Only `undefined` and `null` become NULL: other falsy values such as
      0, the empty string and false are passed through unchanged. */
  lemma FalsyValuesPassThrough(record: Record, i: nat)
    requires i < |ColumnNames| && ColumnNames[i] in record
    requires record[ColumnNames[i]] in {JNumber(0.0), JString(""), JBool(false)}
    ensures BuildRow(record)[i] == Bound(record[ColumnNames[i]])
  {
  }

  /** Reads a row back as a record under the given column names: the
      non-NULL columns and their values. */
  function RowAsRecord(row: seq<SqlParam>, names: seq<string>): map<string, Json>
    requires |row| == |names|
    requires forall i, j :: 0 <= i < j < |names| ==> names[i] != names[j]
  {
    map i | 0 <= i < |row| && row[i].Bound? :: names[i] := row[i].value
  }

  /** The part of a record a row under the given names keeps: its listed,
      non-null keys. */
  function KeptUnder(record: Record, names: seq<string>): map<string, Json>
  {
    map c | c in record && c in names && record[c] != JNull :: record[c]
  }

  /** Reads a built row back as a record. */
  function RowRecord(row: seq<SqlParam>): map<string, Json>
    requires |row| == |ColumnNames|
  {
    ColumnNamesDistinct();
    RowAsRecord(row, ColumnNames)
  }

  /** The part of a record the loader keeps. */
  function KeptFields(record: Record): map<string, Json>
  {
    KeptUnder(record, ColumnNames)
  }

  /** Value i of a built row is the parameter for column i. */
  lemma BuildRowParams(record: Record) returns (row: seq<SqlParam>)
    ensures row == BuildRow(record) && |row| == |ColumnNames|
    ensures forall i :: 0 <= i < |row| ==> row[i] == ParamOf(record, ColumnNames[i])
  {
    row := BuildRow(record);
  }

  /** The round trip for any list of distinct names. */
  lemma RoundTripFor(record: Record, names: seq<string>, row: seq<SqlParam>)
    requires |row| == |names|
    requires forall i, j :: 0 <= i < j < |names| ==> names[i] != names[j]
    requires forall i :: 0 <= i < |row| ==> row[i] == ParamOf(record, names[i])
    ensures RowAsRecord(row, names) == KeptUnder(record, names)
  {
    var back := RowAsRecord(row, names);
    var kept := KeptUnder(record, names);
    forall c | c in kept ensures c in back && back[c] == kept[c] {
      var i :| 0 <= i < |names| && names[i] == c;
      assert row[i] == Bound(record[c]);
    }
    forall c | c in back ensures c in kept {
      var i :| 0 <= i < |row| && row[i].Bound? && names[i] == c;
      assert row[i] == ParamOf(record, c);
    }
  }

  /** Building a row loses nothing but unlisted keys and nulls: reading the
      row back gives exactly the kept fields of the record. */
  lemma BuildRowRoundTrip(record: Record)
    ensures RowRecord(BuildRow(record)) == KeptFields(record)
  {
    var row := BuildRowParams(record);
    ColumnNamesDistinct();
    RoundTripFor(record, ColumnNames, row);
  }

  /** No column name holds a comma. */
  lemma NamesHaveNoComma()
    ensures forall k :: 0 <= k < |ColumnNames| ==> ',' !in ColumnNames[k]
  {
  }

  /** `COLUMN_NAMES.join(', ')`: the column clause names the columns in
      row-entry order; split at its commas, it gives the first name and then
      each other name after one space. */
  function ColumnClause(): (clause: string)
    ensures Split(clause, ',') == [ColumnNames[0]] + Spaced(ColumnNames[1..])
  {
    NamesHaveNoComma();
    SplitCommaSpaced(ColumnNames);
    Join(ColumnNames, ", ")
  }

  /** Adding the last member to the map of the earlier ones keeps every
      member's value that no later member overrides. */
  lemma LastMemberWins(fields: seq<(string, Json)>, prefix: seq<(string, Json)>, init: Record)
    requires |fields| > 0 && prefix == fields[..|fields| - 1]
    requires forall k :: k in init <==> exists i :: 0 <= i < |prefix| && prefix[i].0 == k
    requires forall i :: 0 <= i < |prefix| && (forall j :: i < j < |prefix| ==> prefix[j].0 != prefix[i].0) ==>
      init[prefix[i].0] == prefix[i].1
    ensures var r := init[fields[|prefix|].0 := fields[|prefix|].1];
      forall k :: k in r <==> exists i :: 0 <= i < |fields| && fields[i].0 == k
    ensures var r := init[fields[|prefix|].0 := fields[|prefix|].1];
      forall i :: 0 <= i < |fields| && (forall j :: i < j < |fields| ==> fields[j].0 != fields[i].0) ==>
        r[fields[i].0] == fields[i].1
  {
    var n := |prefix|;
    var r := init[fields[n].0 := fields[n].1];
    forall k ensures k in r <==> exists i :: 0 <= i < |fields| && fields[i].0 == k {
      if k in init && k != fields[n].0 {
        var i :| 0 <= i < n && prefix[i].0 == k;
        assert fields[i] == prefix[i];
      }
      if exists i :: 0 <= i < |fields| && fields[i].0 == k {
        var i :| 0 <= i < |fields| && fields[i].0 == k;
        if i < n {
          assert prefix[i] == fields[i];
        }
      }
    }
    forall i | 0 <= i < |fields| && (forall j :: i < j < |fields| ==> fields[j].0 != fields[i].0)
      ensures r[fields[i].0] == fields[i].1
    {
      if i < n {
        assert prefix[i] == fields[i];
        assert fields[i].0 != fields[n].0;
        forall j | i < j < n ensures prefix[j].0 != prefix[i].0 {
          assert prefix[j] == fields[j];
        }
      }
    }
  }

  /** The members of a JSON object as `JSON.parse` builds them: a key
      given twice keeps its last value. */
  function FieldsOf(fields: seq<(string, Json)>): (r: Record)
    ensures forall k :: k in r <==> exists i :: 0 <= i < |fields| && fields[i].0 == k
    ensures forall i :: 0 <= i < |fields| && (forall j :: i < j < |fields| ==> fields[j].0 != fields[i].0) ==>
      r[fields[i].0] == fields[i].1
  {
    if fields == [] then map[]
    else
      var n := |fields| - 1;
      var init := FieldsOf(fields[..n]);
      LastMemberWins(fields, fields[..n], init);
      init[fields[n].0 := fields[n].1]
  }

  /** `record[col]` for every column, seen as a record: an object gives its
      members; a number, string, boolean or array has none of the column
      names as a property, so every column reads `undefined`. */
  function AsRecord(item: Json): (r: Record)
    ensures item.JObject? ==> forall k :: k in r <==> exists i :: 0 <= i < |item.fields| && item.fields[i].0 == k
    ensures !item.JObject? ==> forall c :: ParamOf(r, c) == SqlNull
  {
    if item.JObject? then FieldsOf(item.fields) else map[]
  }

  /** The records `jsonData.map` walks over, or None when that walk throws:
      the parsed value is not an array (it has no `map`), or one of its
      elements is `null` (indexing `null` throws). */
  function RecordsOf(data: Json): (r: Option<seq<Record>>)
    ensures r.Some? <==> data.JArray? && forall i :: 0 <= i < |data.items| ==> data.items[i] != JNull
    ensures r.Some? ==> |r.value| == |data.items|
    ensures r.Some? ==> forall i :: 0 <= i < |r.value| ==> r.value[i] == AsRecord(data.items[i])
  {
    if data.JArray? && forall i :: 0 <= i < |data.items| ==> data.items[i] != JNull then
      Some(seq(|data.items|, i requires 0 <= i < |data.items| => AsRecord(data.items[i])))
    else None
  }

  /** The file as read: absent, not valid JSON, or parsed into a value. */
  datatype JsonFile = Missing | Malformed | Parsed(data: Json)

  datatype LoadOutcome = FileMissing | ParseFailed | ConnectFailed | InsertFailed | Loaded(affectedRows: nat)

  /** The statements the loader sends, in order; an insert sends
      `INSERT INTO ACCIDENT_HOTSPOTS (<Join(columns, ", ")>) VALUES ?`
      with one bound row per record. With no rows the placeholder expands
      to nothing, which leaves `VALUES` without a list: a syntax error. */
  datatype Step = DropTable | CreateTable | InsertRows(columns: seq<string>, rowCount: nat)

  /** The parse step fails for malformed text, and also for a document that
      is just `null`, whose `length` is read inside the same `try`. */
  predicate ParseSucceeds(file: JsonFile)
  {
    file.Parsed? && file.data != JNull
  }

  /** The MySQL server as the loader sees it. */
  class MySqlServer {
    /** ACCIDENT_HOTSPOTS; None while the table does not exist. */
    var hotspots: Option<seq<seq<SqlParam>>>
    var connectionsOpened: nat
    var openConnections: nat
    var executed: seq<Step>

    constructor (hotspots: Option<seq<seq<SqlParam>>>)
      ensures this.hotspots == hotspots && connectionsOpened == 0 && openConnections == 0 && executed == []
    {
      this.hotspots := hotspots;
      connectionsOpened, openConnections, executed := 0, 0, [];
    }

    /** `loadJsonToMysql`. `reachable` says whether the connection can be
        opened and `insertAccepted` whether the server accepts the bulk
        insert; both are the database's to decide. */
    method LoadJsonToMysql(file: JsonFile, reachable: bool, insertAccepted: bool) returns (outcome: LoadOutcome)
      modifies this
      ensures openConnections == old(openConnections)
      ensures outcome == FileMissing <==> file.Missing?
      ensures outcome == ParseFailed <==> file.Malformed? || file == Parsed(JNull)
      ensures outcome == ConnectFailed <==> ParseSucceeds(file) && !reachable
      ensures !ParseSucceeds(file) || !reachable ==>
        && hotspots == old(hotspots) && executed == old(executed)
        && connectionsOpened == old(connectionsOpened)
      ensures ParseSucceeds(file) && reachable ==> connectionsOpened == old(connectionsOpened) + 1
      ensures ParseSucceeds(file) && reachable && RecordsOf(file.data).None? ==>
        && executed == old(executed) + [DropTable, CreateTable]
        && hotspots == Some([])
        && outcome == InsertFailed
      ensures ParseSucceeds(file) && reachable && RecordsOf(file.data).Some? ==>
        var records := RecordsOf(file.data).value;
        && executed == old(executed) + [DropTable, CreateTable, InsertRows(ColumnNames, |records|)]
        && hotspots == Some(if insertAccepted && |records| > 0 then BuildRows(records) else [])
        && outcome == (if insertAccepted && |records| > 0 then Loaded(|records|) else InsertFailed)
      ensures file == Parsed(JArray([])) && reachable ==> outcome == InsertFailed && hotspots == Some([])
    {
      if file.Missing? {
        return FileMissing;
      }
      if !ParseSucceeds(file) {
        return ParseFailed;
      }
      if !reachable {
        return ConnectFailed;
      }
      connectionsOpened := connectionsOpened + 1;
      openConnections := openConnections + 1;

      executed := executed + [DropTable];
      hotspots := None;
      executed := executed + [CreateTable];
      hotspots := Some([]);

      var records := RecordsOf(file.data);
      if records.None? {
        outcome := InsertFailed;
      } else {
        var valuesToInsert := BuildRows(records.value);
        executed := executed + [InsertRows(ColumnNames, |valuesToInsert|)];
        if insertAccepted && |valuesToInsert| > 0 {
          hotspots := Some(valuesToInsert);
          outcome := Loaded(|valuesToInsert|);
        } else {
          outcome := InsertFailed;
        }
      }
      // finally: connection.end()
      openConnections := openConnections - 1;
    }
  }
}
