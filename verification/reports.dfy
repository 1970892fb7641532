/** The hazard-report endpoints over the USER_HAZARD_REPORTS table. The
    acting user comes from the request body, and ownership is enforced only
    by adding the owner to the `WHERE` of UPDATE and DELETE, so "no such
    report" and "not your report" give the same 404. */
module Reports {
  import opened Wrappers

  /** A row of USER_HAZARD_REPORTS, without its REPORT_ID key; text columns may be NULL. */
  datatype Report = Report(
    reporterUserId: int, title: Option<string>, guName: Option<string>,
    detailDescription: Option<string>, photoPath: Option<string>, reportDate: int)

  /** The request-body fields the handlers read; an absent field is `None`. */
  datatype ReportBody = ReportBody(
    userId: Option<int>, title: Option<string>, guName: Option<string>,
    description: Option<string>, photoPath: Option<string>)

  const StatusOk := 200
  const StatusCreated := 201
  const StatusBadRequest := 400
  const StatusNotFound := 404

  /** JavaScript truthiness of a text field: present and not empty. */
  predicate Filled(s: Option<string>)
  {
    s.Some? && s.value != ""
  }

  /** `req.body.user_id || 1`: an absent or zero user id acts as user 1. */
  function ActingUser(userId: Option<int>): (user: int)
    ensures user != 0
    ensures userId.Some? && userId.value != 0 ==> user == userId.value
    ensures userId.None? || userId.value == 0 ==> user == 1
  {
    if userId.Some? && userId.value != 0 then userId.value else 1
  }

  /** No operation changes the owner of a report that stays in the table. */
  ghost predicate OwnersKept(before: map<int, Report>, after: map<int, Report>)
  {
    forall id :: id in before && id in after ==> after[id].reporterUserId == before[id].reporterUserId
  }

  class ReportStore {
    /** The table, keyed by REPORT_ID. */
    var rows: map<int, Report>
    /** The next AUTO_INCREMENT value. */
    var nextId: int

    ghost predicate Valid()
      reads this
    {
      1 <= nextId && forall id :: id in rows ==> 1 <= id < nextId
    }

    /** The row that UPDATE and DELETE match: this id, owned by this user. */
    predicate Owns(reportId: int, user: int)
      reads this
    {
      reportId in rows && rows[reportId].reporterUserId == user
    }

    constructor ()
      ensures Valid() && rows == map[]
    {
      rows := map[];
      nextId := 1;
    }

    /** `POST /api/reports`; `now` stands for `NOW()`. */
    method Create(body: ReportBody, now: int) returns (status: int, reportId: int)
      requires Valid()
      modifies this
      ensures Valid() && OwnersKept(old(rows), rows)
      ensures status == StatusBadRequest <==> !Filled(body.title) || !Filled(body.guName) || !Filled(body.description)
      ensures status == StatusBadRequest ==> rows == old(rows) && nextId == old(nextId)
      ensures status != StatusBadRequest ==>
        && status == StatusCreated
        && reportId !in old(rows)
        && rows == old(rows)[reportId := Report(ActingUser(body.userId), body.title, body.guName,
                                                body.description, body.photoPath, now)]
    {
      if !Filled(body.title) || !Filled(body.guName) || !Filled(body.description) {
        return StatusBadRequest, 0;
      }
      reportId := nextId;
      rows := rows[reportId := Report(ActingUser(body.userId), body.title, body.guName,
                                      body.description, body.photoPath, now)];
      nextId := nextId + 1;
      status := StatusCreated;
    }

    /** `GET /api/reports/:user_id`: every report of that user, and no other. */
    method ListByUser(userId: int) returns (reports: map<int, Report>)
      ensures forall id :: id in reports <==> id in rows && rows[id].reporterUserId == userId
      ensures forall id :: id in reports ==> reports[id] == rows[id]
    {
      reports := map id | id in rows && rows[id].reporterUserId == userId :: rows[id];
    }

    /** `PUT /api/reports/:report_id`: rewrites the four editable columns of
        the acting user's report; the fields are not validated. */
    method Update(reportId: int, body: ReportBody) returns (status: int)
      requires Valid()
      modifies this
      ensures Valid() && OwnersKept(old(rows), rows) && nextId == old(nextId)
      ensures status == StatusOk <==> old(Owns(reportId, ActingUser(body.userId)))
      ensures status == StatusOk ==>
        rows == old(rows)[reportId := old(rows)[reportId].(
          title := body.title, detailDescription := body.description,
          guName := body.guName, photoPath := body.photoPath)]
      ensures status != StatusOk ==> status == StatusNotFound && rows == old(rows)
    {
      var user := ActingUser(body.userId);
      if !Owns(reportId, user) {
        return StatusNotFound;
      }
      rows := rows[reportId := rows[reportId].(
        title := body.title, detailDescription := body.description,
        guName := body.guName, photoPath := body.photoPath)];
      status := StatusOk;
    }

    /** `DELETE /api/reports/:report_id`: removes the acting user's report. */
    method Delete(reportId: int, userId: Option<int>) returns (status: int)
      requires Valid()
      modifies this
      ensures Valid() && OwnersKept(old(rows), rows) && nextId == old(nextId)
      ensures status == StatusOk <==> old(Owns(reportId, ActingUser(userId)))
      ensures status == StatusOk ==> rows == old(rows) - {reportId}
      ensures status != StatusOk ==> status == StatusNotFound && rows == old(rows)
    {
      var user := ActingUser(userId);
      if !Owns(reportId, user) {
        return StatusNotFound;
      }
      rows := rows - {reportId};
      status := StatusOk;
    }
  }

  /** What the owner-in-`WHERE` design gives a client: a report created by
      one user is listed for that user and not for another, the other user
      can neither change nor remove it (404), its owner can remove it (200),
      and removing it again is a 404. */
  method OwnershipScenario(store: ReportStore, owner: int, intruder: int, body: ReportBody, now: int)
      returns (created: int, listedForOwner: bool, listedForIntruder: bool,
               intruderUpdate: int, intruderDelete: int, ownerDelete: int, repeatedDelete: int)
    requires store.Valid()
    requires owner != 0 && intruder != 0 && owner != intruder
    requires Filled(body.title) && Filled(body.guName) && Filled(body.description)
    modifies store
    ensures store.Valid()
    ensures created == StatusCreated
    ensures listedForOwner && !listedForIntruder
    ensures intruderUpdate == StatusNotFound && intruderDelete == StatusNotFound
    ensures ownerDelete == StatusOk && repeatedDelete == StatusNotFound
    ensures store.rows == old(store.rows)
  {
    var id;
    created, id := store.Create(body.(userId := Some(owner)), now);
    var mine := store.ListByUser(owner);
    listedForOwner := id in mine;
    var theirs := store.ListByUser(intruder);
    listedForIntruder := id in theirs;
    intruderUpdate := store.Update(id, body.(userId := Some(intruder), title := None));
    intruderDelete := store.Delete(id, Some(intruder));
    ownerDelete := store.Delete(id, Some(owner));
    repeatedDelete := store.Delete(id, Some(owner));
  }
}
