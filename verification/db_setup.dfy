/** Database bootstrap: split the schema script into statements and run them
    in order, seed the SAFETY_MEASURES advice once, and load the accident
    hotspot CSV once. The tables are sequences of rows; the CSV file
    arrives already parsed into records (or as absent). */
module DbSetup {
  import opened Wrappers
  import opened Text
  import Analysis

  // ----- Splitting the schema script -----

  /** The characters the regular expression `/\r\n|\n|\r|\t/` matches. */
  predicate IsBreakOrTab(c: char)
  {
    c == '\r' || c == '\n' || c == '\t'
  }

  predicate NoBreaks(s: string)
  {
    forall i :: 0 <= i < |s| ==> !IsBreakOrTab(s[i])
  }

  /** `s.replace(/\r\n|\n|\r|\t/g, ' ')`: every match becomes one space,
      and a CR LF pair is a single match. */
  function ReplaceBreaks(s: string): (r: string)
    ensures NoBreaks(r)
    ensures forall i :: 0 <= i < |r| ==> r[i] == ' ' || r[i] in s
    ensures |r| <= |s|
  {
    if s == [] then []
    else if |s| >= 2 && s[0] == '\r' && s[1] == '\n' then " " + ReplaceBreaks(s[2..])
    else if IsBreakOrTab(s[0]) then " " + ReplaceBreaks(s[1..])
    else [s[0]] + ReplaceBreaks(s[1..])
  }

  /** Concatenation regroups freely. */
  lemma AppendAssociates<T>(a: seq<T>, b: seq<T>, c: seq<T>, d: seq<T>)
    ensures a + b + c + d == a + (b + c + d)
  {
  }

  /** Text without line breaks or tabs goes through unchanged. */
  lemma {:induction false} ReplaceBreaksKeepsPlainText(s: string)
    requires NoBreaks(s)
    ensures ReplaceBreaks(s) == s
    decreases |s|
  {
    if s != [] {
      ReplaceBreaksKeepsPlainText(s[1..]);
      assert s == [s[0]] + s[1..];
    }
  }

  /** Without carriage returns every character maps on its own: a line
      feed or tab becomes a space, anything else stays. */
  lemma {:induction false} ReplaceBreaksPointwise(s: string)
    requires '\r' !in s
    ensures |ReplaceBreaks(s)| == |s|
    ensures forall i :: 0 <= i < |s| ==> ReplaceBreaks(s)[i] == if IsBreakOrTab(s[i]) then ' ' else s[i]
    decreases |s|
  {
    if s != [] {
      assert s[0] in s;
      assert forall i :: 0 <= i < |s[1..]| ==> s[1..][i] == s[i + 1];
      ReplaceBreaksPointwise(s[1..]);
    }
  }

  /** A CR LF pair becomes a single space wherever it stands, and the text
      on each side is converted independently. */
  lemma {:induction false} ReplaceBreaksCrLf(a: string, b: string)
    ensures ReplaceBreaks(a + "\r\n" + b) == ReplaceBreaks(a) + " " + ReplaceBreaks(b)
    decreases |a|
  {
    var s := a + "\r\n" + b;
    if a == [] {
      assert s == "\r\n" + b;
      assert s[2..] == b;
    } else if |a| >= 2 && a[0] == '\r' && a[1] == '\n' {
      assert s[2..] == a[2..] + "\r\n" + b;
      ReplaceBreaksCrLf(a[2..], b);
    } else {
      var head := if IsBreakOrTab(a[0]) then " " else [a[0]];
      assert s[0] == a[0];
      assert |a| >= 2 ==> s[1] == a[1];
      assert |a| == 1 ==> s[1] == '\r';
      assert s[1..] == a[1..] + "\r\n" + b;
      assert ReplaceBreaks(a) == head + ReplaceBreaks(a[1..]);
      assert ReplaceBreaks(s) == head + ReplaceBreaks(s[1..]);
      ReplaceBreaksCrLf(a[1..], b);
      AppendAssociates(head, ReplaceBreaks(a[1..]), " ", ReplaceBreaks(b));
    }
  }

  /** A CR not followed by LF becomes a single space wherever it stands,
      and the text on each side is converted independently. */
  lemma {:induction false} ReplaceBreaksLoneCr(a: string, b: string)
    requires b == [] || b[0] != '\n'
    ensures ReplaceBreaks(a + "\r" + b) == ReplaceBreaks(a) + " " + ReplaceBreaks(b)
    decreases |a|
  {
    var s := a + "\r" + b;
    if a == [] {
      assert s == "\r" + b;
      assert s[1..] == b;
      assert |s| >= 2 ==> s[1] == b[0];
      assert ReplaceBreaks(s) == " " + ReplaceBreaks(b);
    } else if |a| >= 2 && a[0] == '\r' && a[1] == '\n' {
      assert s[0] == '\r' && s[1] == '\n';
      assert s[2..] == a[2..] + "\r" + b;
      assert ReplaceBreaks(a) == " " + ReplaceBreaks(a[2..]);
      assert ReplaceBreaks(s) == " " + ReplaceBreaks(s[2..]);
      ReplaceBreaksLoneCr(a[2..], b);
      AppendAssociates(" ", ReplaceBreaks(a[2..]), " ", ReplaceBreaks(b));
    } else {
      var head := if IsBreakOrTab(a[0]) then " " else [a[0]];
      assert s[0] == a[0];
      assert |a| >= 2 ==> s[1] == a[1];
      assert |a| == 1 ==> s[1] == '\r';
      assert s[1..] == a[1..] + "\r" + b;
      assert ReplaceBreaks(a) == head + ReplaceBreaks(a[1..]);
      assert ReplaceBreaks(s) == head + ReplaceBreaks(s[1..]);
      ReplaceBreaksLoneCr(a[1..], b);
      AppendAssociates(head, ReplaceBreaks(a[1..]), " ", ReplaceBreaks(b));
    }
  }

  /** What the split pipeline hands to the connection: no `;`, no line
      break or tab, not empty, and no white space at either end. */
  predicate IsStatement(q: string)
  {
    && q != ""
    && Free(q, ';')
    && NoBreaks(q)
    && !IsJsWhitespace(q[0]) && !IsJsWhitespace(q[|q| - 1])
  }

  /** A string made only of characters of `s` avoids whatever `s` avoids. */
  lemma MembersInherit(q: string, s: string, c: char)
    requires forall i :: 0 <= i < |q| ==> q[i] in s
    ensures Free(s, c) ==> Free(q, c)
    ensures NoBreaks(s) ==> NoBreaks(q)
  {
    forall i | 0 <= i < |q| ensures (Free(s, c) ==> q[i] != c) && (NoBreaks(s) ==> !IsBreakOrTab(q[i])) {
      var j :| 0 <= j < |s| && s[j] == q[i];
    }
  }

  /** One piece after `.map(q => q.replace(...).trim())`. */
  function Normalize(piece: string): string
  {
    Trim(ReplaceBreaks(piece))
  }

  /** A normalised piece has no line break or tab, does not start or end
      with white space, and holds a `;` only if the piece did. */
  lemma NormalizeFacts(piece: string)
    ensures Free(piece, ';') ==> Free(Normalize(piece), ';')
    ensures NoBreaks(Normalize(piece))
    ensures var q := Normalize(piece);
      q == [] || (!IsJsWhitespace(q[0]) && !IsJsWhitespace(q[|q| - 1]))
  {
    var spaced := ReplaceBreaks(piece);
    assert Free(piece, ';') ==> Free(spaced, ';') by {
      if Free(piece, ';') {
        forall i | 0 <= i < |spaced| ensures spaced[i] != ';' {
          if spaced[i] != ' ' {
            var j :| 0 <= j < |piece| && piece[j] == spaced[i];
          }
        }
      }
    }
    MembersInherit(Trim(spaced), spaced, ';');
  }

  /** `.map(f).filter(q => q.length > 0)` over the pieces, in order. */
  function MapNonEmpty(pieces: seq<string>, f: string -> string): seq<string>
  {
    if pieces == [] then []
    else
      var q := f(pieces[0]);
      (if q != "" then [q] else []) + MapNonEmpty(pieces[1..], f)
  }

  /** One piece maps to its image, or to nothing when that is empty. */
  lemma MapNonEmptySingle(x: string, f: string -> string)
    ensures MapNonEmpty([x], f) == if f(x) != "" then [f(x)] else []
  {
    assert [x][1..] == [];
  }

  /** Mapping and filtering commutes with concatenation. */
  lemma {:induction false} MapNonEmptyConcat(p1: seq<string>, p2: seq<string>, f: string -> string)
    ensures MapNonEmpty(p1 + p2, f) == MapNonEmpty(p1, f) + MapNonEmpty(p2, f)
    decreases |p1|
  {
    if p1 == [] {
      assert p1 + p2 == p2;
    } else {
      var p := p1 + p2;
      assert p[0] == p1[0] && p[1..] == p1[1..] + p2;
      MapNonEmptyConcat(p1[1..], p2, f);
      var q := f(p1[0]);
      var head := if q != "" then [q] else [];
      assert MapNonEmpty(p, f) == head + (MapNonEmpty(p1[1..], f) + MapNonEmpty(p2, f));
    }
  }

  /** The cleaning step of the schema split, piece by piece. */
  function Clean(pieces: seq<string>): seq<string>
  {
    MapNonEmpty(pieces, Normalize)
  }

  /** A non-empty normalised `;`-free piece is a statement. */
  lemma NormalizedIsStatement(piece: string)
    requires Free(piece, ';')
    ensures Normalize(piece) != "" ==> IsStatement(Normalize(piece))
  {
    NormalizeFacts(piece);
  }

  ghost predicate AllStatements(qs: seq<string>)
  {
    forall k :: 0 <= k < |qs| ==> IsStatement(qs[k])
  }

  lemma AllStatementsAppend(a: seq<string>, b: seq<string>)
    requires AllStatements(a) && AllStatements(b)
    ensures AllStatements(a + b)
  {
    forall k | 0 <= k < |a + b| ensures IsStatement((a + b)[k]) {
      if k >= |a| {
        assert (a + b)[k] == b[k - |a|];
      }
    }
  }

  /** Every cleaned piece of a `;`-free sequence is a statement. */
  lemma {:induction false} CleanYieldsStatements(pieces: seq<string>)
    requires forall k :: 0 <= k < |pieces| ==> Free(pieces[k], ';')
    ensures AllStatements(Clean(pieces))
    ensures |Clean(pieces)| <= |pieces|
    decreases |pieces|
  {
    if pieces != [] {
      var tail := pieces[1..];
      assert forall k :: 0 <= k < |tail| ==> tail[k] == pieces[k + 1];
      CleanYieldsStatements(tail);
      var q := Normalize(pieces[0]);
      NormalizedIsStatement(pieces[0]);
      var head := if q != "" then [q] else [];
      assert Clean(pieces) == head + Clean(tail);
      AllStatementsAppend(head, Clean(tail));
    }
  }

  /** `DDL.split(';').map(...).filter(...)`. */
  function Statements(ddl: string): (qs: seq<string>)
    ensures AllStatements(qs)
  {
    CleanYieldsStatements(Split(ddl, ';'));
    Clean(Split(ddl, ';'))
  }

  /** A script without `;` is one piece: it yields its normalised text as
      the only statement, or nothing when that text is empty. */
  lemma StatementsOfPiece(p: string)
    requires Free(p, ';')
    ensures Statements(p) == if Normalize(p) == "" then [] else [Normalize(p)]
  {
    SplitFree(p, ';');
    MapNonEmptySingle(p, Normalize);
  }

  lemma CleanConcat(p1: seq<string>, p2: seq<string>)
    ensures Clean(p1 + p2) == Clean(p1) + Clean(p2)
  {
    MapNonEmptyConcat(p1, p2, Normalize);
  }

  /** Statements keep their order in the script: the statements of two
      scripts joined by `;` are those of the first followed by those of
      the second. */
  lemma StatementsConcat(a: string, b: string)
    ensures Statements(a + ";" + b) == Statements(a) + Statements(b)
  {
    SplitConcat(a, b, ';');
    assert a + ";" + b == a + [';'] + b;
    CleanConcat(Split(a, ';'), Split(b, ';'));
  }

  // ----- Seed data and the CSV row mapping -----

  /** The three SAFETY_MEASURES rows inserted into an empty table. */
  const SeedMeasures: seq<Analysis.SafetyMeasure> := [
    Analysis.SafetyMeasure("위험", "교차로 개선 및 단속 강화",
      Some("사망자 수에 집중하여 긴급 안전 대책 발동이 필요합니다. 주요 교차로 단속을 강화하세요.")),
    Analysis.SafetyMeasure("경계", "특정 지역 안전 캠페인 실시",
      Some("사고 다발 지역을 중심으로 보행자 및 운전자 안전 캠페인을 주기적으로 실시해야 합니다.")),
    Analysis.SafetyMeasure("주의", "교통안전 교육 확대",
      Some("현재는 안정적이지만, 모든 주민 대상 교통 안전 교육을 연 2회 이상 의무적으로 실시해야 합니다."))
  ]

  /** The table after `insertSafetyMeasures`: seeded only when empty. */
  function Seeded(table: seq<Analysis.SafetyMeasure>): (r: seq<Analysis.SafetyMeasure>)
    ensures |r| > 0
    ensures |table| != 0 ==> r == table
  {
    if |table| == 0 then SeedMeasures else table
  }

  /** Seeding twice is seeding once. */
  lemma SeedIdempotent(table: seq<Analysis.SafetyMeasure>)
    ensures Seeded(Seeded(table)) == Seeded(table)
  {
  }

  /** The seeded RISK_LEVEL values are exactly the tiers the ranking query
      produces, one row each, each with non-empty advice. */
  lemma SeedMatchesTiers()
    ensures forall row :: row in SeedMeasures ==> exists t :: row.riskLevel == Analysis.TierName(t)
    ensures forall t :: Analysis.LastAdvice(SeedMeasures, Analysis.TierName(t)) == Some(SeedMeasures[Analysis.Severity(Analysis.Danger) - Analysis.Severity(t)].detailAdvice)
    ensures forall k :: 0 <= k < |SeedMeasures| ==> SeedMeasures[k].detailAdvice.Some? && SeedMeasures[k].detailAdvice.value != ""
  {
    assert SeedMeasures[0].riskLevel == Analysis.TierName(Analysis.Danger);
    assert SeedMeasures[1].riskLevel == Analysis.TierName(Analysis.Caution);
    assert SeedMeasures[2].riskLevel == Analysis.TierName(Analysis.Attention);
    forall t ensures Analysis.LastAdvice(SeedMeasures, Analysis.TierName(t))
      == Some(SeedMeasures[Analysis.Severity(Analysis.Danger) - Analysis.Severity(t)].detailAdvice)
    {
      assert SeedMeasures[..2] == SeedMeasures[..3][..2];
      assert SeedMeasures[..1] == SeedMeasures[..2][..1];
    }
  }

  /** With the seeded advice table, `/top_hotspots` never falls back: every
      row gets the seeded advice of its own tier. */
  lemma SeededAdviceNeverFallsBack(ranked: seq<Analysis.ScoredHotspot>)
    ensures var reply := Analysis.Respond(ranked, Seeded([]));
      forall i :: 0 <= i < |ranked| ==>
        && reply.hotspots[i].safetyAdvice != Analysis.Fallback
        && Some(Some(reply.hotspots[i].safetyAdvice)) ==
           Analysis.LastAdvice(SeedMeasures, Analysis.TierName(ranked[i].calculatedRiskLevel))
  {
    SeedMatchesTiers();
  }

  /** A CSV record: header name to cell text; a missing header reads as `undefined`. */
  type CsvRecord = map<string, string>

  /** How a cell is converted before insertion. */
  datatype Conversion = ParseInt | ParseFloat | AsText

  /** An inserted value: `parseInt(cell)`, `parseFloat(cell)` or the cell
      itself, kept symbolic; `None` is an absent cell. */
  datatype CsvValue = IntOf(cell: Option<string>) | FloatOf(cell: Option<string>) | TextOf(cell: Option<string>)

  function Convert(c: Conversion, cell: Option<string>): CsvValue
  {
    match c
    case ParseInt => IntOf(cell)
    case ParseFloat => FloatOf(cell)
    case AsText => TextOf(cell)
  }

  /** The column list of the ACCIDENT_HOTSPOTS `INSERT`. */
  const CsvInsertColumns: seq<string> := [
    "fid", "id", "legal_dong_code", "spot_code", "city_district_name", "spot_name",
    "accident_count", "casualty_count", "death_count", "severe_injury_count",
    "minor_injury_count", "reported_injury_count", "longitude", "latitude", "polygon_geom"]

  /** For each inserted column, in order: the CSV header it is read from
      and how the cell is converted. */
  const CsvSources: seq<(string, Conversion)> := [
    ("사고다발지fid", ParseInt), ("사고다발지id", ParseInt), ("법정동코드", AsText),
    ("지점코드", AsText), ("시도시군구명", AsText), ("지점명", AsText),
    ("사고건수", ParseInt), ("사상자수", ParseInt), ("사망자수", ParseInt),
    ("중상자수", ParseInt), ("경상자수", ParseInt), ("부상신고자수", ParseInt),
    ("경도", ParseFloat), ("위도", ParseFloat), ("다발지역폴리곤", AsText)]

  function Cell(rec: CsvRecord, header: string): Option<string>
  {
    if header in rec then Some(rec[header]) else None
  }

  /** The `results.map(row => [...])` body: one value per INSERT column,
      value i read from the header paired with column i. */
  function MapCsvRow(rec: CsvRecord): (row: seq<CsvValue>)
    ensures |row| == |CsvInsertColumns| == |CsvSources| == 15
    ensures forall i :: 0 <= i < |row| ==> row[i] == Convert(CsvSources[i].1, Cell(rec, CsvSources[i].0))
  {
    [ IntOf(Cell(rec, "사고다발지fid")),
      IntOf(Cell(rec, "사고다발지id")),
      TextOf(Cell(rec, "법정동코드")),
      TextOf(Cell(rec, "지점코드")),
      TextOf(Cell(rec, "시도시군구명")),
      TextOf(Cell(rec, "지점명")),
      IntOf(Cell(rec, "사고건수")),
      IntOf(Cell(rec, "사상자수")),
      IntOf(Cell(rec, "사망자수")),
      IntOf(Cell(rec, "중상자수")),
      IntOf(Cell(rec, "경상자수")),
      IntOf(Cell(rec, "부상신고자수")),
      FloatOf(Cell(rec, "경도")),
      FloatOf(Cell(rec, "위도")),
      TextOf(Cell(rec, "다발지역폴리곤")) ]
  }

  function MapCsvRows(records: seq<CsvRecord>): (rows: seq<seq<CsvValue>>)
    ensures |rows| == |records|
    ensures forall i :: 0 <= i < |rows| ==> rows[i] == MapCsvRow(records[i]) && |rows[i]| == |CsvInsertColumns|
  {
    seq(|records|, i requires 0 <= i < |records| => MapCsvRow(records[i]))
  }

  /** ACCIDENT_HOTSPOTS after `loadCSVData`, given the parsed CSV file (or
      `None` when the file does not exist) and whether the server accepts
      the bulk INSERT. The server refuses it as a whole, for instance for a
      `NaN` that `parseInt`/`parseFloat` made of an empty or non-numeric
      cell, or for a duplicate `fid`. */
  function CsvLoaded(table: seq<seq<CsvValue>>, csv: Option<seq<CsvRecord>>, insertAccepted: bool): (r: seq<seq<CsvValue>>)
    ensures |table| > 0 || csv.None? || !insertAccepted ==> r == table
    ensures |table| == 0 && csv.Some? && insertAccepted ==>
      |r| == |csv.value| && forall i :: 0 <= i < |r| ==> r[i] == MapCsvRow(csv.value[i])
  {
    if |table| > 0 || csv.None? || !insertAccepted then table else table + MapCsvRows(csv.value)
  }

  /** A second CSV load changes nothing. */
  lemma CsvLoadOnce(table: seq<seq<CsvValue>>, csv: Option<seq<CsvRecord>>, insertAccepted: bool)
    ensures CsvLoaded(CsvLoaded(table, csv, insertAccepted), csv, insertAccepted) == CsvLoaded(table, csv, insertAccepted)
  {
  }

  // ----- The connection and its tables -----

  /** A query sent on the connection: a schema statement, one of the two
      `SELECT COUNT(*)` checks, or one of the two bulk `INSERT ... VALUES ?`
      with the rows it inserts. */
  datatype Query =
    | Ddl(text: string)
    | CountSafetyMeasures
    | InsertMeasures(measures: seq<Analysis.SafetyMeasure>)
    | CountHotspots
    | InsertHotspots(values: seq<seq<CsvValue>>)

  /** The schema statements as queries, in order. */
  function DdlQueries(statements: seq<string>): (r: seq<Query>)
    ensures |r| == |statements|
    ensures forall i :: 0 <= i < |r| ==> r[i] == Ddl(statements[i])
  {
    seq(|statements|, i requires 0 <= i < |statements| => Ddl(statements[i]))
  }

  /** The queries of `insertSafetyMeasures` for a table with these rows:
      the count, then the seed rows only when the count was 0. */
  function SeedQueries(table: seq<Analysis.SafetyMeasure>): (r: seq<Query>)
    ensures |r| >= 1 && r[0] == CountSafetyMeasures
    ensures |r| > 1 <==> |table| == 0
    ensures forall k :: 1 <= k < |r| ==> r[k] == InsertMeasures(SeedMeasures)
  {
    [CountSafetyMeasures] + if |table| == 0 then [InsertMeasures(SeedMeasures)] else []
  }

  /** The queries of `loadCSVData`: the count, then one `INSERT` only when
      the table was empty, the file exists and it has at least one record. */
  function CsvQueries(table: seq<seq<CsvValue>>, csv: Option<seq<CsvRecord>>): (r: seq<Query>)
    ensures |r| >= 1 && r[0] == CountHotspots
    ensures |r| > 1 <==> |table| == 0 && csv.Some? && |csv.value| > 0
    ensures forall k :: 1 <= k < |r| ==> csv.Some? && r[k] == InsertHotspots(MapCsvRows(csv.value)) && |r[k].values| > 0
  {
    [CountHotspots] + if |table| == 0 && csv.Some? && |csv.value| > 0 then [InsertHotspots(MapCsvRows(csv.value))] else []
  }

  /** Everything `initDB` sends, in order. */
  function InitQueries(ddl: string, measures: seq<Analysis.SafetyMeasure>, hotspots: seq<seq<CsvValue>>,
                       csv: Option<seq<CsvRecord>>): seq<Query>
  {
    DdlQueries(Statements(ddl)) + SeedQueries(measures) + CsvQueries(hotspots, csv)
  }

  class Database {
    /** Queries sent on the connection, in order. */
    var executed: seq<Query>
    var safetyMeasures: seq<Analysis.SafetyMeasure>
    var accidentHotspots: seq<seq<CsvValue>>

    constructor (safetyMeasures: seq<Analysis.SafetyMeasure>, accidentHotspots: seq<seq<CsvValue>>)
      ensures this.executed == [] && this.safetyMeasures == safetyMeasures
      ensures this.accidentHotspots == accidentHotspots
    {
      this.executed := [];
      this.safetyMeasures := safetyMeasures;
      this.accidentHotspots := accidentHotspots;
    }

    /** The `for ... of queries` loop: each statement, in order. */
    method RunStatements(queries: seq<string>)
      modifies this
      ensures executed == old(executed) + DdlQueries(queries)
      ensures safetyMeasures == old(safetyMeasures) && accidentHotspots == old(accidentHotspots)
    {
      for i := 0 to |queries|
        invariant executed == old(executed) + DdlQueries(queries[..i])
        invariant safetyMeasures == old(safetyMeasures) && accidentHotspots == old(accidentHotspots)
      {
        assert DdlQueries(queries[..i + 1]) == DdlQueries(queries[..i]) + [Ddl(queries[i])];
        executed := executed + [Ddl(queries[i])];
      }
      assert queries[..|queries|] == queries;
    }

    /** `insertSafetyMeasures`: count the rows, and insert the three advice
        rows into an empty table. */
    method InsertSafetyMeasures()
      modifies this
      ensures safetyMeasures == Seeded(old(safetyMeasures))
      ensures executed == old(executed) + SeedQueries(old(safetyMeasures))
      ensures accidentHotspots == old(accidentHotspots)
    {
      executed := executed + [CountSafetyMeasures];
      if |safetyMeasures| == 0 {
        executed := executed + [InsertMeasures(SeedMeasures)];
        safetyMeasures := safetyMeasures + SeedMeasures;
      }
    }

    /** `loadCSVData`: count the rows; unless the table already has rows or
        there is no file, collect the parsed records as the stream delivers
        them, map each to its 15 values and insert them when there is at
        least one. `ok` is false exactly when that INSERT is sent and
        refused, which makes `loadCSVData` (and so `initDB`) throw. */
    method LoadCsvData(csv: Option<seq<CsvRecord>>, insertAccepted: bool) returns (ok: bool)
      modifies this
      ensures accidentHotspots == CsvLoaded(old(accidentHotspots), csv, insertAccepted)
      ensures executed == old(executed) + CsvQueries(old(accidentHotspots), csv)
      ensures !ok <==> |CsvQueries(old(accidentHotspots), csv)| > 1 && !insertAccepted
      ensures safetyMeasures == old(safetyMeasures)
    {
      ok := true;
      executed := executed + [CountHotspots];
      if |accidentHotspots| > 0 {
        return;
      }
      if csv.None? {
        return;
      }
      var records := csv.value;
      var results: seq<CsvRecord> := [];
      for i := 0 to |records|
        invariant results == records[..i]
      {
        results := results + [records[i]];
      }
      assert results == records;
      var dataToInsert := MapCsvRows(results);
      if |dataToInsert| > 0 {
        executed := executed + [InsertHotspots(dataToInsert)];
        if insertAccepted {
          accidentHotspots := accidentHotspots + dataToInsert;
        } else {
          ok := false;
        }
      }
    }

    /** `initDB`: run the schema script, then seed, then load the CSV; `ok`
        is false when it throws because the CSV INSERT was refused. */
    method InitDb(ddl: string, csv: Option<seq<CsvRecord>>, insertAccepted: bool) returns (ok: bool)
      modifies this
      ensures executed == old(executed) + InitQueries(ddl, old(safetyMeasures), old(accidentHotspots), csv)
      ensures safetyMeasures == Seeded(old(safetyMeasures))
      ensures accidentHotspots == CsvLoaded(old(accidentHotspots), csv, insertAccepted)
      ensures !ok <==> |CsvQueries(old(accidentHotspots), csv)| > 1 && !insertAccepted
    {
      ghost var before := executed;
      ghost var measures, hotspots := safetyMeasures, accidentHotspots;
      var statements := Statements(ddl);
      RunStatements(statements);
      InsertSafetyMeasures();
      ok := LoadCsvData(csv, insertAccepted);
      AppendAssociates(before, DdlQueries(statements), SeedQueries(measures), CsvQueries(hotspots, csv));
    }
  }
}
