/** The request gate in front of the routes (the CORS origin check and the
    preflight short-cut) and the start-up switch that runs the database
    bootstrap. */
module Server {
  import opened Wrappers
  import DbSetup

  /** The origins whose browser requests are served. */
  const AllowedOrigins: set<string> := {
    "http://student20712-proj-web.s3-website.ap-northeast-2.amazonaws.com",
    "http://localhost:5173",
    "http://127.0.0.1:5173"
  }

  datatype OriginDecision = Allow | Blocked(message: string)

  /** The `origin` callback given to `cors`: a request without an Origin
      header (or with an empty one) is let through, as is one from a listed
      origin; any other origin is refused with an error naming it. */
  function CheckOrigin(origin: Option<string>): (d: OriginDecision)
    ensures d == Allow <==> origin.None? || origin.value == "" || origin.value in AllowedOrigins
    ensures d.Blocked? ==> d.message == "CORS blocked: " + origin.value
  {
    if origin.None? || origin.value == "" then Allow
    else if origin.value in AllowedOrigins then Allow
    else Blocked("CORS blocked: " + origin.value)
  }

  const StatusNoContent := 204

  /** Where a request ends up after the two first middlewares: refused by
      the origin check (the error goes to Express's error handler), answered
      204 as a preflight, or handed on to the body parsers and routes. */
  datatype GateOutcome = CorsRejected(message: string) | NoContent | ToRoutes

  function Gate(origin: Option<string>, httpMethod: string): (o: GateOutcome)
    ensures o.CorsRejected? <==> CheckOrigin(origin).Blocked?
    ensures o.CorsRejected? ==> o.message == CheckOrigin(origin).message
    ensures o == NoContent <==> CheckOrigin(origin) == Allow && httpMethod == "OPTIONS"
    ensures o == ToRoutes <==> CheckOrigin(origin) == Allow && httpMethod != "OPTIONS"
  {
    match CheckOrigin(origin)
    case Blocked(message) => CorsRejected(message)
    case Allow => if httpMethod == "OPTIONS" then NoContent else ToRoutes
  }

  /** Requests without an origin and requests from a listed origin pass;
      a preflight from a listed origin is answered 204. */
  lemma AllowedOriginExamples()
    ensures Gate(None, "GET") == ToRoutes
    ensures Gate(Some("http://localhost:5173"), "POST") == ToRoutes
    ensures Gate(Some("http://localhost:5173"), "OPTIONS") == NoContent
  {
  }

  /** The origin must match exactly, scheme and port included, and a
      refused origin is refused for preflights too. */
  lemma BlockedOriginExamples()
    ensures Gate(Some("http://localhost:3000"), "GET") == CorsRejected("CORS blocked: http://localhost:3000")
    ensures Gate(Some("https://localhost:5173"), "OPTIONS").CorsRejected?
  {
  }

  /** `process.env.RUN_DB_INIT === "true"`: only that exact text turns the
      bootstrap on. */
  predicate ShouldInitDb(runDbInit: Option<string>)
  {
    runDbInit == Some("true")
  }

  lemma InitSwitchExamples()
    ensures ShouldInitDb(Some("true"))
    ensures !ShouldInitDb(None) && !ShouldInitDb(Some("TRUE")) && !ShouldInitDb(Some("1"))
  {
  }

  /** Start-up: run `initDB` on the given database when the switch is on,
      and leave the database untouched otherwise. A failed `initDB` is only
      logged by its `.catch`, and the server starts all the same. */
  method Boot(runDbInit: Option<string>, db: DbSetup.Database, ddl: string, csv: Option<seq<DbSetup.CsvRecord>>,
              insertAccepted: bool)
      returns (initialised: bool)
    modifies db
    ensures initialised <==> runDbInit == Some("true")
    ensures initialised ==>
      && db.executed == old(db.executed) + DbSetup.InitQueries(ddl, old(db.safetyMeasures), old(db.accidentHotspots), csv)
      && db.safetyMeasures == DbSetup.Seeded(old(db.safetyMeasures))
      && db.accidentHotspots == DbSetup.CsvLoaded(old(db.accidentHotspots), csv, insertAccepted)
    ensures !initialised ==> unchanged(db)
  {
    initialised := ShouldInitDb(runDbInit);
    if initialised {
      var _ := db.InitDb(ddl, csv, insertAccepted);
    }
  }
}
