/**
 * The write handlers of the HTTP API. Each one checks its precondition
 * against the current tables and then issues exactly one INSERT or UPDATE;
 * a handler that raises changes nothing. Request bodies are plain records,
 * and the current time is a parameter.
 */
module Handlers {
  import opened Results
  import opened Sql
  import opened Schema
  import opened Http

  // ---------------------------------------------------------------------------
  // Request and response bodies

  datatype InitiativeCreate = InitiativeCreate(
    title: string,
    description: string,
    category: string,
    location: string,
    startDate: string,
    endDate: string,
    hoursRequired: int,
    spotsAvailable: int,
    requirements: Option<string>,
    organizationId: int)

  /** The body of an application; its `initiativeId` is never read. */
  datatype ParticipationApply = ParticipationApply(
    volunteerId: int,
    initiativeId: int,
    message: Option<string>)

  datatype ParticipationApprove = ParticipationApprove(
    status: ParticipationStatus,
    hoursCompleted: Option<int>)

  datatype CertificateCreate = CertificateCreate(
    participationId: int,
    organizationId: int)

  datatype CertificateIssued = CertificateIssued(
    certificateId: int,
    volunteerName: string,
    initiativeTitle: string,
    hours: int)

  // ---------------------------------------------------------------------------
  // Lookups

  /** A user with this id exists and is of type organization. */
  predicate IsOrganization(users: map<int, User>, id: int)
  {
    id in users && users[id].userType == Organization
  }

  /**
   * The row create_certificate reads: the participation with this id, only if
   * it is completed and its initiative, its volunteer and the initiative's
   * organization all exist (three inner joins).
   */
  function CertificateSourceRow(
    users: map<int, User>,
    initiatives: map<int, Initiative>,
    participations: map<int, Participation>,
    participationId: int): (r: Option<CertificateSource>)
    ensures r.Some? <==>
      && participationId in participations
      && participations[participationId].status == Completed
      && participations[participationId].initiativeId in initiatives
      && participations[participationId].volunteerId in users
      && initiatives[participations[participationId].initiativeId].organizationId in users
    ensures r.Some? ==>
      && r.value.participationId == participationId
      && r.value.participation == participations[participationId]
      && r.value.volunteerName == users[participations[participationId].volunteerId].name
      && r.value.initiativeTitle == initiatives[participations[participationId].initiativeId].title
  {
    if participationId !in participations then None
    else
      var p := participations[participationId];
      if p.status != Completed || p.initiativeId !in initiatives || p.volunteerId !in users then None
      else
        var i := initiatives[p.initiativeId];
        if i.organizationId !in users then None
        else
          Some(CertificateSource(
            participationId, p, i.title, i.description, i.startDate, i.endDate, i.category,
            users[p.volunteerId].name, users[i.organizationId].name))
  }

  // ---------------------------------------------------------------------------
  // POST /initiatives

  /**
   * Refused with a 404 unless the named organization is an organization-type
   * user; otherwise inserts one active initiative echoing the request and
   * returns its fresh id.
   */
  method CreateInitiative(db: Database, req: InitiativeCreate, now: string) returns (r: Result<int, Error>)
    requires db.Valid()
    modifies db
    ensures db.Valid()
    ensures r.Failure? <==> !IsOrganization(old(db.users.rows), req.organizationId)
    ensures r.Failure? ==> r.error == OrganizationNotFound && unchanged(db)
    ensures r.Success? ==>
      && r.value > old(db.initiatives.lastId)
      && db.initiatives.lastId == r.value
      && db.initiatives.rows == old(db.initiatives.rows)[r.value := Initiative(
           req.title, req.description, req.category, req.location, req.startDate, req.endDate,
           req.hoursRequired, req.spotsAvailable, req.requirements, req.organizationId,
           Active, now)]
    ensures db.users == old(db.users) && db.participations == old(db.participations)
    ensures db.certificates == old(db.certificates)
  {
    if !IsOrganization(db.users.rows, req.organizationId) {
      return Failure(OrganizationNotFound);
    }
    var id := db.InsertInitiative(Initiative(
      req.title, req.description, req.category, req.location, req.startDate, req.endDate,
      req.hoursRequired, req.spotsAvailable, req.requirements, req.organizationId,
      Active, now));
    r := Success(id);
  }

  // ---------------------------------------------------------------------------
  // POST /initiatives/{initiativeId}/apply

  /**
   * Refused with a 404 when the initiative in the path is missing, and with a
   * 400 when this volunteer already has a participation in it; otherwise
   * inserts one pending participation for the path's initiative. The
   * volunteer's existence is not checked, and the body's initiative id is
   * ignored.
   */
  method ApplyToInitiative(db: Database, initiativeId: int, req: ParticipationApply, now: string)
    returns (r: Result<int, Error>)
    requires db.Valid()
    modifies db
    ensures db.Valid()
    ensures r == Failure(InitiativeNotFound) <==> initiativeId !in old(db.initiatives.rows)
    ensures r == Failure(AlreadyApplied) <==>
      initiativeId in old(db.initiatives.rows) &&
      HasApplied(old(db.participations.rows), req.volunteerId, initiativeId)
    ensures r.Success? <==>
      initiativeId in old(db.initiatives.rows) &&
      !HasApplied(old(db.participations.rows), req.volunteerId, initiativeId)
    ensures r.Failure? ==> unchanged(db)
    ensures r.Success? ==>
      && r.value > old(db.participations.lastId)
      && db.participations.lastId == r.value
      && db.participations.rows == old(db.participations.rows)[r.value := Participation(
           req.volunteerId, initiativeId, Pending, now, None, DEFAULT_HOURS_COMPLETED,
           req.message, None)]
    ensures db.users == old(db.users) && db.initiatives == old(db.initiatives)
    ensures db.certificates == old(db.certificates)
  {
    if initiativeId !in db.initiatives.rows {
      return Failure(InitiativeNotFound);
    }
    if HasApplied(db.participations.rows, req.volunteerId, initiativeId) {
      return Failure(AlreadyApplied);
    }
    var id := db.InsertParticipation(Participation(
      req.volunteerId, initiativeId, Pending, now, None, DEFAULT_HOURS_COMPLETED, req.message, None));
    r := Success(id.value);
  }

  // ---------------------------------------------------------------------------
  // PUT /participations/{participationId}/approve

  /**
   * Refused with a 404 when the participation is missing. Otherwise any
   * requested status is written, whatever the current one; the hours are
   * overwritten only when supplied; the approval date is set only for
   * `approved`; nothing else in the row or the store changes.
   */
  method ApproveParticipation(db: Database, participationId: int, req: ParticipationApprove, now: string)
    returns (r: Result<(), Error>)
    requires db.Valid()
    modifies db
    ensures db.Valid()
    ensures r.Failure? <==> participationId !in old(db.participations.rows)
    ensures r.Failure? ==> r.error == ParticipationNotFound && unchanged(db)
    ensures r.Success? ==>
      var p := old(db.participations.rows)[participationId];
      db.participations.rows == old(db.participations.rows)[participationId := p.(
        status := req.status,
        hoursCompleted := if req.hoursCompleted.Some? then req.hoursCompleted.value else p.hoursCompleted,
        approvedDate := if req.status == Approved then Some(now) else p.approvedDate)]
    ensures db.participations.lastId == old(db.participations.lastId)
    ensures db.users == old(db.users) && db.initiatives == old(db.initiatives)
    ensures db.certificates == old(db.certificates)
  {
    if participationId !in db.participations.rows {
      return Failure(ParticipationNotFound);
    }
    var set_ := [SetStatus(req.status)];
    if req.hoursCompleted.Some? {
      set_ := set_ + [SetHours(req.hoursCompleted.value)];
    }
    if req.status == Approved {
      set_ := set_ + [SetApprovedDate(now)];
    }
    ApprovalUpdate(db.participations.rows[participationId], req, now, set_);
    db.UpdateParticipation(participationId, set_);
    r := Success(());
  }

  /**
   * The SET list approve_participation builds (status, then hours when
   * supplied, then the approval date for `approved`) rewrites exactly the
   * status, the hours when supplied and the approval date when approving.
   */
  lemma ApprovalUpdate(p: Participation, req: ParticipationApprove, now: string, set_: seq<Assignment>)
    requires set_ == [SetStatus(req.status)]
      + (if req.hoursCompleted.Some? then [SetHours(req.hoursCompleted.value)] else [])
      + (if req.status == Approved then [SetApprovedDate(now)] else [])
    ensures ApplySet(p, set_) == p.(
      status := req.status,
      hoursCompleted := if req.hoursCompleted.Some? then req.hoursCompleted.value else p.hoursCompleted,
      approvedDate := if req.status == Approved then Some(now) else p.approvedDate)
  {
    var first := [SetStatus(req.status)];
    var second := first + (if req.hoursCompleted.Some? then [SetHours(req.hoursCompleted.value)] else []);
    assert ApplySet(p, first).status == req.status by {
      assert first[..0] == [];
    }
    if req.hoursCompleted.Some? {
      assert second[..1] == first;
    } else {
      assert second == first;
    }
    if req.status == Approved {
      assert set_[..|second|] == second;
    } else {
      assert set_ == second;
    }
  }

  // ---------------------------------------------------------------------------
  // POST /certificates

  /**
   * Refused with a 404 unless the participation exists, is completed and
   * joins to its initiative, volunteer and organization. Otherwise inserts one
   * certificate carrying the participation's volunteer and hours and the
   * request's organization id (taken unchecked). Earlier certificates for the
   * same participation do not stop it.
   */
  method CreateCertificate(db: Database, req: CertificateCreate, now: string)
    returns (r: Result<CertificateIssued, Error>)
    requires db.Valid()
    modifies db
    ensures db.Valid()
    ensures r.Failure? <==>
      CertificateSourceRow(old(db.users.rows), old(db.initiatives.rows), old(db.participations.rows),
                           req.participationId).None?
    ensures r.Failure? ==> r.error == CompletedParticipationNotFound && unchanged(db)
    ensures r.Success? ==>
      var src := CertificateSourceRow(old(db.users.rows), old(db.initiatives.rows),
                                      old(db.participations.rows), req.participationId).value;
      var p := old(db.participations.rows)[req.participationId];
      && r.value == CertificateIssued(r.value.certificateId, src.volunteerName, src.initiativeTitle,
                                      p.hoursCompleted)
      && r.value.certificateId > old(db.certificates.lastId)
      && db.certificates.lastId == r.value.certificateId
      && db.certificates.rows == old(db.certificates.rows)[r.value.certificateId := Certificate(
           req.participationId, p.volunteerId, req.organizationId, now, p.hoursCompleted,
           Snapshot(src))]
    ensures db.users == old(db.users) && db.initiatives == old(db.initiatives)
    ensures db.participations == old(db.participations)
  {
    var row := CertificateSourceRow(db.users.rows, db.initiatives.rows, db.participations.rows,
                                    req.participationId);
    if row.None? {
      return Failure(CompletedParticipationNotFound);
    }
    var src := row.value;
    var p := src.participation;
    var id := db.InsertCertificate(Certificate(
      req.participationId, p.volunteerId, req.organizationId, now, p.hoursCompleted, Snapshot(src)));
    r := Success(CertificateIssued(id, src.volunteerName, src.initiativeTitle, p.hoursCompleted));
  }

  // ---------------------------------------------------------------------------
  // What callers can rely on from the contracts alone

  /**
   * Applying for the same (volunteer, initiative) pair twice: whatever the
   * first call did, the second is refused with a 400 and changes nothing.
   */
  method ReapplicationIsRejected(db: Database, initiativeId: int, req: ParticipationApply, now: string)
    returns (first: Result<int, Error>, second: Result<int, Error>)
    requires db.Valid()
    requires initiativeId in db.initiatives.rows
    modifies db
    ensures db.Valid()
    ensures first.Failure? ==> first.error == AlreadyApplied
    ensures second == Failure(AlreadyApplied) && StatusCode(second.error) == 400
  {
    first := ApplyToInitiative(db, initiativeId, req, now);
    if first.Success? {
      assert db.participations.rows[first.value].volunteerId == req.volunteerId;
    }
    second := ApplyToInitiative(db, initiativeId, req, now);
  }

  /**
   * Nothing makes certificates unique per participation: issuing twice for
   * the same completed participation yields two certificates with distinct
   * ids and the same participation.
   */
  method CertificateIssuedTwice(db: Database, req: CertificateCreate, now: string)
    returns (first: Result<CertificateIssued, Error>, second: Result<CertificateIssued, Error>)
    requires db.Valid()
    requires CertificateSourceRow(db.users.rows, db.initiatives.rows, db.participations.rows,
                                  req.participationId).Some?
    modifies db
    ensures first.Success? && second.Success?
    ensures first.value.certificateId < second.value.certificateId
    ensures first.value.certificateId in db.certificates.rows
    ensures second.value.certificateId in db.certificates.rows
    ensures db.certificates.rows[first.value.certificateId].participationId == req.participationId
    ensures db.certificates.rows[second.value.certificateId].participationId == req.participationId
  {
    first := CreateCertificate(db, req, now);
    second := CreateCertificate(db, req, now);
  }
}
