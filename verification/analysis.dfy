/** The hotspot analysis endpoints: `/top_hotspots` ranks accident hotspots by
    a weighted risk index, classifies each into a risk tier and attaches the
    safety advice stored for that tier; `/nearby_hotspots` returns the
    hotspots inside a latitude/longitude box. Each SQL query is modelled by
    what it selects and how it orders, over the ACCIDENT_HOTSPOTS table as
    a sequence of rows. */
module Analysis {
  import opened Wrappers
  import opened Ranking

  /** The hotspot columns both queries select. */
  datatype Hotspot = Hotspot(
    hotspotId: int, guName: string, locationName: string,
    latitude: real, longitude: real,
    deathCount: int, accidentCount: int, casualtyCount: int)

  /** The three values of `calculated_risk_level`. */
  datatype Tier = Danger | Caution | Attention

  /** The text the query writes for each tier, which is also the
      RISK_LEVEL key of the SAFETY_MEASURES table. */
  function TierName(t: Tier): string
  {
    match t
    case Danger => "위험"
    case Caution => "경계"
    case Attention => "주의"
  }

  /** `total_risk_index`: deaths weigh 10, accidents 5, casualties 1. */
  function RiskIndex(h: Hotspot): (r: int)
    ensures h.deathCount >= 0 && h.accidentCount >= 0 && h.casualtyCount >= 0 ==> r >= 0
  {
    h.deathCount * 10 + h.accidentCount * 5 + h.casualtyCount * 1
  }

  /** One more death raises the index by 10, one more accident by 5 and one
      more casualty by 1, whatever the other counts are. */
  lemma RiskIndexWeights(h: Hotspot)
    ensures RiskIndex(h.(deathCount := h.deathCount + 1)) == RiskIndex(h) + 10
    ensures RiskIndex(h.(accidentCount := h.accidentCount + 1)) == RiskIndex(h) + 5
    ensures RiskIndex(h.(casualtyCount := h.casualtyCount + 1)) == RiskIndex(h) + 1
  {
  }

  /** The `CASE` that classifies an index: the first threshold met decides. */
  function TierOf(index: int): (t: Tier)
    ensures t == Danger <==> index >= 500
    ensures t == Caution <==> 300 <= index < 500
    ensures t == Attention <==> index < 300
  {
    if index >= 500 then Danger
    else if index >= 300 then Caution
    else Attention
  }

  /** How severe a tier is: attention < caution < danger. */
  function Severity(t: Tier): nat
  {
    match t
    case Attention => 0
    case Caution => 1
    case Danger => 2
  }

  /** A higher index never yields a milder tier. */
  lemma TierMonotone(i: int, j: int)
    requires i <= j
    ensures Severity(TierOf(i)) <= Severity(TierOf(j))
  {
  }

  /** Ten deaths, twenty accidents and five casualties score 205, below the
      caution threshold. */
  lemma RiskIndexExample()
    ensures var h := Hotspot(0, "", "", 0.0, 0.0, 10, 20, 5);
            RiskIndex(h) == 205 && TierOf(RiskIndex(h)) == Attention
  {
  }

  /** A row of the `/top_hotspots` query: the hotspot with its computed index and tier. */
  datatype ScoredHotspot = ScoredHotspot(spot: Hotspot, totalRiskIndex: int, calculatedRiskLevel: Tier)

  /** The index and the tier are never out of step with the counts. */
  ghost predicate InSync(r: ScoredHotspot)
  {
    r.totalRiskIndex == RiskIndex(r.spot) && r.calculatedRiskLevel == TierOf(r.totalRiskIndex)
  }

  /** The `SELECT` list of `/top_hotspots` applied to every row. */
  function ScoreAll(table: seq<Hotspot>): (r: seq<ScoredHotspot>)
    ensures |r| == |table|
    ensures forall i :: 0 <= i < |r| ==> r[i].spot == table[i] && InSync(r[i])
  {
    seq(|table|, i requires 0 <= i < |table| =>
      ScoredHotspot(table[i], RiskIndex(table[i]), TierOf(RiskIndex(table[i]))))
  }

  function RiskKey(r: ScoredHotspot): int { r.totalRiskIndex }

  function AccidentKey(h: Hotspot): int { h.accidentCount }

  const TopLimit: nat := 10

  /** `ORDER BY total_risk_index DESC LIMIT 10`: one admissible answer (ties
      in insertion-sort order; any order of ties is as valid). */
  function TopHotspotsQuery(table: seq<Hotspot>): (r: seq<ScoredHotspot>)
    ensures IsTopK(r, ScoreAll(table), TopLimit, RiskKey)
    ensures forall i :: 0 <= i < |r| ==> InSync(r[i]) && r[i].spot in table
  {
    var all := ScoreAll(table);
    var sorted := SortDesc(all, RiskKey);
    TakeOfSortedIsTopK(sorted, all, TopLimit, RiskKey);
    var r := Take(sorted, TopLimit);
    ScoredRowsInSync(r, table);
    r
  }

  /** Rows drawn from the scored table keep their scores in step. */
  lemma ScoredRowsInSync(r: seq<ScoredHotspot>, table: seq<Hotspot>)
    requires multiset(r) <= multiset(ScoreAll(table))
    ensures forall i :: 0 <= i < |r| ==> InSync(r[i]) && r[i].spot in table
  {
    var all := ScoreAll(table);
    forall i | 0 <= i < |r| ensures InSync(r[i]) && r[i].spot in table {
      assert r[i] in multiset(r);
      assert r[i] in multiset(all);
      var j :| 0 <= j < |all| && all[j] == r[i];
    }
  }

  /** A row of the SAFETY_MEASURES table; DETAIL_ADVICE may be NULL. */
  datatype SafetyMeasure = SafetyMeasure(riskLevel: string, recommendationType: string, detailAdvice: Option<string>)

  /** The advice given when no usable advice is stored for a tier. */
  const Fallback: string := "일반적인 안전 수칙 준수 필요"

  ghost predicate NoDuplicates<T>(s: seq<T>)
  {
    forall i, j :: 0 <= i < j < |s| ==> s[i] != s[j]
  }

  /** The tier of each ranked row, in row order. */
  function Levels(ranked: seq<ScoredHotspot>): seq<Tier>
  {
    seq(|ranked|, i requires 0 <= i < |ranked| => ranked[i].calculatedRiskLevel)
  }

  /** Adds to `seen` each element of `levels` not met before, keeping the
      order of first occurrence, as filling a `Set` does. */
  function AddNew(seen: seq<Tier>, levels: seq<Tier>): (r: seq<Tier>)
    requires NoDuplicates(seen)
    ensures NoDuplicates(r)
    ensures forall t :: t in r <==> t in seen || t in levels
    ensures |r| >= |seen| && r[..|seen|] == seen
    decreases |levels|
  {
    if levels == [] then seen
    else if levels[0] in seen then AddNew(seen, levels[1..])
    else AddNew(seen + [levels[0]], levels[1..])
  }

  /** `[...new Set(levels)]`. */
  function DistinctTiers(levels: seq<Tier>): (r: seq<Tier>)
    ensures NoDuplicates(r)
    ensures forall t :: t in r <==> t in levels
  {
    AddNew([], levels)
  }

  function TierNames(tiers: seq<Tier>): seq<string>
  {
    seq(|tiers|, i requires 0 <= i < |tiers| => TierName(tiers[i]))
  }

  /** `SELECT RISK_LEVEL, DETAIL_ADVICE FROM SAFETY_MEASURES WHERE RISK_LEVEL IN (?)`,
      rows read in table order. */
  function SelectAdvice(table: seq<SafetyMeasure>, names: seq<string>): (r: seq<SafetyMeasure>)
    ensures forall row :: row in r <==> row in table && row.riskLevel in names
  {
    if table == [] then []
    else
      var last := table[|table| - 1];
      var prefix := table[..|table| - 1];
      assert table == prefix + [last];
      SelectAdvice(prefix, names) + (if last.riskLevel in names then [last] else [])
  }

  /** Reference reading of "the last row read wins": the DETAIL_ADVICE of
      the last row of `rows` whose RISK_LEVEL is `name`, if there is one. */
  function LastAdvice(rows: seq<SafetyMeasure>, name: string): (r: Option<Option<string>>)
    ensures r.None? ==> forall i :: 0 <= i < |rows| ==> rows[i].riskLevel != name
  {
    if rows == [] then None
    else if rows[|rows| - 1].riskLevel == name then Some(rows[|rows| - 1].detailAdvice)
    else LastAdvice(rows[..|rows| - 1], name)
  }

  /** When a row of level `name` exists, the advice found is that of the
      last such row: `i` is its position and no later row has that level. */
  lemma {:induction false} LastAdviceIsLast(rows: seq<SafetyMeasure>, name: string) returns (i: int)
    requires LastAdvice(rows, name).Some?
    ensures 0 <= i < |rows| && rows[i].riskLevel == name
    ensures LastAdvice(rows, name) == Some(rows[i].detailAdvice)
    ensures forall j :: i < j < |rows| ==> rows[j].riskLevel != name
    decreases |rows|
  {
    var n := |rows| - 1;
    if rows[n].riskLevel == name {
      i := n;
    } else {
      i := LastAdviceIsLast(rows[..n], name);
      assert rows[..n][i] == rows[i];
      forall j | i < j < |rows| ensures rows[j].riskLevel != name {
        if j < n {
          assert rows[..n][j] == rows[j];
        }
      }
    }
  }

  /** The `reduce` that fills the advice dictionary row by row; a later row
      overwrites an earlier one with the same RISK_LEVEL. */
  function AdviceMap(rows: seq<SafetyMeasure>): (m: map<string, Option<string>>)
    ensures forall name :: name in m <==> LastAdvice(rows, name).Some?
    ensures forall name :: name in m ==> m[name] == LastAdvice(rows, name).value
  {
    if rows == [] then map[]
    else
      var row := rows[|rows| - 1];
      AdviceMap(rows[..|rows| - 1])[row.riskLevel := row.detailAdvice]
  }

  /** Keeping only the rows of the wanted levels does not change which row
      comes last for a wanted level. */
  lemma {:induction false} SelectKeepsLast(table: seq<SafetyMeasure>, names: seq<string>, name: string)
    requires name in names
    ensures LastAdvice(SelectAdvice(table, names), name) == LastAdvice(table, name)
    decreases |table|
  {
    if table != [] {
      var last := table[|table| - 1];
      var prefix := table[..|table| - 1];
      var sel := SelectAdvice(prefix, names);
      SelectKeepsLast(prefix, names, name);
      if last.riskLevel in names {
        assert SelectAdvice(table, names) == sel + [last];
        assert (sel + [last])[..|sel|] == sel;
      } else {
        assert SelectAdvice(table, names) == sel;
      }
    }
  }

  /** The advice text for a lookup result: JavaScript's `advice || fallback`
      takes the fallback for a missing key, a NULL and an empty string alike. */
  function AdviceText(found: Option<Option<string>>): (s: string)
    ensures s == Fallback || (found.Some? && found.value.Some? && s == found.value.value)
    ensures s != Fallback ==> s != ""
    ensures found.Some? && found.value.Some? && found.value.value != "" ==> s == found.value.value
  {
    match found
    case Some(Some(a)) => if a != "" then a else Fallback
    case _ => Fallback
  }

  datatype AdvisedHotspot = AdvisedHotspot(row: ScoredHotspot, safetyAdvice: string)

  /** What `/top_hotspots` answers, and the tier list it sent to the advice
      query (None when that query was not run). */
  datatype TopHotspotsReply = TopHotspotsReply(hotspots: seq<AdvisedHotspot>, adviceLookup: Option<seq<Tier>>)

  /** The handler after the ranking query: collect the distinct tiers, look
      up their advice, and attach it (or the fallback) to each row. */
  function Respond(ranked: seq<ScoredHotspot>, safetyMeasures: seq<SafetyMeasure>): (reply: TopHotspotsReply)
    ensures ranked == [] <==> reply.adviceLookup.None?
    ensures reply.adviceLookup.Some? ==>
      && NoDuplicates(reply.adviceLookup.value)
      && forall t :: t in reply.adviceLookup.value <==> t in Levels(ranked)
    ensures |reply.hotspots| == |ranked|
    ensures forall i :: 0 <= i < |ranked| ==>
      && reply.hotspots[i].row == ranked[i]
      && reply.hotspots[i].safetyAdvice == AdviceText(LastAdvice(safetyMeasures, TierName(ranked[i].calculatedRiskLevel)))
  {
    var levels := DistinctTiers(Levels(ranked));
    if |levels| == 0 then
      TopHotspotsReply([], None)
    else
      var names := TierNames(levels);
      var adviceMap := AdviceMap(SelectAdvice(safetyMeasures, names));
      var rows := seq(|ranked|, i requires 0 <= i < |ranked| =>
        var name := TierName(ranked[i].calculatedRiskLevel);
        AdvisedHotspot(ranked[i], AdviceText(if name in adviceMap then Some(adviceMap[name]) else None)));
      assert forall i :: 0 <= i < |ranked| ==>
        rows[i].safetyAdvice == AdviceText(LastAdvice(safetyMeasures, TierName(ranked[i].calculatedRiskLevel))) by {
        forall i | 0 <= i < |ranked|
          ensures rows[i].safetyAdvice == AdviceText(LastAdvice(safetyMeasures, TierName(ranked[i].calculatedRiskLevel)))
        {
          var t := ranked[i].calculatedRiskLevel;
          assert Levels(ranked)[i] == t;
          assert t in levels;
          var k :| 0 <= k < |levels| && levels[k] == t;
          assert names[k] == TierName(t);
          SelectKeepsLast(safetyMeasures, names, TierName(t));
        }
      }
      TopHotspotsReply(rows, Some(levels))
  }

  /** The shape of a top-10 answer, in terms of the scored rows' own fields. */
  lemma RankedShape(ranked: seq<ScoredHotspot>, hotspots: seq<Hotspot>)
    requires IsTopK(ranked, ScoreAll(hotspots), TopLimit, RiskKey)
    ensures |ranked| == (if |hotspots| < TopLimit then |hotspots| else TopLimit)
    ensures forall i, j :: 0 <= i < j < |ranked| ==> ranked[i].totalRiskIndex >= ranked[j].totalRiskIndex
  {
    assert |ScoreAll(hotspots)| == |hotspots|;
    assert forall i, j :: 0 <= i < j < |ranked| ==> RiskKey(ranked[i]) >= RiskKey(ranked[j]);
  }

  /** The scored rows of an answer, in answer order. */
  function RowsOf(advised: seq<AdvisedHotspot>): (rows: seq<ScoredHotspot>)
    ensures |rows| == |advised|
  {
    seq(|advised|, i requires 0 <= i < |advised| => advised[i].row)
  }

  /** Advising changes no row and no row order. */
  lemma RespondKeepsRows(ranked: seq<ScoredHotspot>, safetyMeasures: seq<SafetyMeasure>)
    ensures RowsOf(Respond(ranked, safetyMeasures).hotspots) == ranked
  {
    var rows := RowsOf(Respond(ranked, safetyMeasures).hotspots);
    assert forall i :: 0 <= i < |rows| ==> rows[i] == ranked[i];
  }

  /** Advising an admissible top-10 answer keeps it admissible, row for
      row, and gives each row the advice of its own tier. */
  lemma AdviseRanked(ranked: seq<ScoredHotspot>, hotspots: seq<Hotspot>, safetyMeasures: seq<SafetyMeasure>)
    requires IsTopK(ranked, ScoreAll(hotspots), TopLimit, RiskKey)
    requires forall i :: 0 <= i < |ranked| ==> InSync(ranked[i]) && ranked[i].spot in hotspots
    ensures var reply := Respond(ranked, safetyMeasures);
      && IsTopK(RowsOf(reply.hotspots), ScoreAll(hotspots), TopLimit, RiskKey)
      && |reply.hotspots| == (if |hotspots| < TopLimit then |hotspots| else TopLimit)
      && (hotspots == [] <==> reply.adviceLookup.None?)
    ensures var reply := Respond(ranked, safetyMeasures);
      forall i :: 0 <= i < |reply.hotspots| ==>
        && InSync(reply.hotspots[i].row)
        && reply.hotspots[i].row.spot in hotspots
        && reply.hotspots[i].safetyAdvice == AdviceText(LastAdvice(safetyMeasures, TierName(reply.hotspots[i].row.calculatedRiskLevel)))
    ensures var reply := Respond(ranked, safetyMeasures);
      forall i, j :: 0 <= i < j < |reply.hotspots| ==>
        reply.hotspots[i].row.totalRiskIndex >= reply.hotspots[j].row.totalRiskIndex
  {
    RankedShape(ranked, hotspots);
    RespondKeepsRows(ranked, safetyMeasures);
  }

  /** `GET /top_hotspots`: rank, then advise. */
  function TopHotspots(hotspots: seq<Hotspot>, safetyMeasures: seq<SafetyMeasure>): (reply: TopHotspotsReply)
    ensures IsTopK(RowsOf(reply.hotspots), ScoreAll(hotspots), TopLimit, RiskKey)
    ensures |reply.hotspots| == (if |hotspots| < TopLimit then |hotspots| else TopLimit)
    ensures hotspots == [] <==> reply.adviceLookup.None?
    ensures forall i :: 0 <= i < |reply.hotspots| ==>
      && InSync(reply.hotspots[i].row)
      && reply.hotspots[i].row.spot in hotspots
      && reply.hotspots[i].safetyAdvice == AdviceText(LastAdvice(safetyMeasures, TierName(reply.hotspots[i].row.calculatedRiskLevel)))
    ensures forall i, j :: 0 <= i < j < |reply.hotspots| ==>
      reply.hotspots[i].row.totalRiskIndex >= reply.hotspots[j].row.totalRiskIndex
  {
    var ranked := TopHotspotsQuery(hotspots);
    AdviseRanked(ranked, hotspots, safetyMeasures);
    Respond(ranked, safetyMeasures)
  }

  /** A query-string parameter: its raw text (what `!lat` tests) and the
      number `parseFloat` reads from it, assumed well formed. */
  datatype QueryParam = QueryParam(text: string, number: real)

  datatype NearbyRequest = NearbyRequest(lat: Option<QueryParam>, lon: Option<QueryParam>, radius: Option<real>)

  datatype NearbyReply = BadRequest | Found(nearbyHotspots: seq<Hotspot>)

  /** The radius used when the request gives none. */
  const DefaultRadius: real := 0.01

  /** `!p` is false: the parameter is present and not the empty string.
      Any non-empty text counts, `"0"` included. */
  predicate Given(p: Option<QueryParam>): (b: bool)
    ensures p.None? ==> !b
    ensures p.Some? && p.value.text == "" ==> !b
    ensures p == Some(QueryParam("0", 0.0)) ==> b
  {
    p.Some? && p.value.text != ""
  }

  /** The two `BETWEEN` conditions: both bounds included. */
  predicate InBox(h: Hotspot, lat: real, lon: real, radius: real): (b: bool)
    ensures b ==> radius >= 0.0
    ensures radius >= 0.0 && h.latitude == lat && h.longitude == lon ==> b
  {
    lat - radius <= h.latitude <= lat + radius && lon - radius <= h.longitude <= lon + radius
  }

  /** The `WHERE` clause of `/nearby_hotspots`, keeping table order. */
  function Within(table: seq<Hotspot>, lat: real, lon: real, radius: real): (r: seq<Hotspot>)
    ensures forall h :: multiset(r)[h] == if InBox(h, lat, lon, radius) then multiset(table)[h] else 0
  {
    if table == [] then []
    else
      var prefix := table[..|table| - 1];
      var last := table[|table| - 1];
      assert table == prefix + [last];
      Within(prefix, lat, lon, radius) + (if InBox(last, lat, lon, radius) then [last] else [])
  }

  /** `GET /nearby_hotspots`: 400 without a usable lat and lon; otherwise
      the hotspots in the box, most accidents first, with no row limit. */
  function Nearby(table: seq<Hotspot>, req: NearbyRequest): (reply: NearbyReply)
    ensures reply.BadRequest? <==> !Given(req.lat) || !Given(req.lon)
    ensures reply.Found? ==>
      var radius := if req.radius.Some? then req.radius.value else DefaultRadius;
      && IsOrderedBy(reply.nearbyHotspots, Within(table, req.lat.value.number, req.lon.value.number, radius), AccidentKey)
      && forall h :: h in reply.nearbyHotspots <==> h in table && InBox(h, req.lat.value.number, req.lon.value.number, radius)
  {
    if !Given(req.lat) || !Given(req.lon) then BadRequest
    else
      var radius := if req.radius.Some? then req.radius.value else DefaultRadius;
      var lat, lon := req.lat.value.number, req.lon.value.number;
      var rows := SortDesc(Within(table, lat, lon, radius), AccidentKey);
      assert forall h :: h in rows <==> h in table && InBox(h, lat, lon, radius) by {
        forall h ensures h in rows <==> h in table && InBox(h, lat, lon, radius) {
          assert h in rows <==> h in multiset(rows);
          assert h in table <==> h in multiset(table);
        }
      }
      Found(rows)
  }

  /** With radius 0 only hotspots at exactly the requested point are returned. */
  lemma NearbyZeroRadius(table: seq<Hotspot>, lat: QueryParam, lon: QueryParam, h: Hotspot)
    requires lat.text != "" && lon.text != ""
    ensures var reply := Nearby(table, NearbyRequest(Some(lat), Some(lon), Some(0.0)));
            h in reply.nearbyHotspots <==> h in table && h.latitude == lat.number && h.longitude == lon.number
  {
  }

  /** A negative radius makes both ranges empty, so nothing is returned. */
  lemma NearbyNegativeRadius(table: seq<Hotspot>, lat: QueryParam, lon: QueryParam, radius: real)
    requires lat.text != "" && lon.text != "" && radius < 0.0
    ensures Nearby(table, NearbyRequest(Some(lat), Some(lon), Some(radius))) == Found([])
  {
  }
}
