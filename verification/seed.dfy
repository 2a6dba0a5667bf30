/**
 * The routine that fills a freshly created database with test data: users
 * in three groups, initiatives, applications drawn at random, and
 * certificates for some completed applications. The literal rows of the
 * routine and every random draw are parameters; a draw is constrained to
 * the range the routine draws it from.
 */
module Seed {
  import opened Results
  import opened Sql
  import opened Schema

  /** The number of applications the routine draws. */
  const SEED_DRAWS: nat := 30

  /** At most this many completed applications receive a certificate. */
  const SEED_CERTIFICATE_LIMIT: nat := 10

  /** The message an application carries when its coin toss says so. */
  const SEED_MESSAGE: string := "Chętnie pomogę w tej inicjatywie!"

  // ---------------------------------------------------------------------------
  // Users

  /** No row's e-mail is taken already, and no two rows share one. */
  predicate FreshEmails(existing: map<int, User>, rows: seq<User>)
  {
    && (forall k :: 0 <= k < |rows| ==> !EmailTaken(existing, rows[k].email))
    && (forall i, j :: 0 <= i < j < |rows| ==> rows[i].email != rows[j].email)
  }

  /** After inserting `rows`, an e-mail is taken exactly when it was already or one of the rows has it. */
  lemma EmailTakenAfter(t: Table<User>, rows: seq<User>, email: string)
    requires t.Valid()
    ensures EmailTaken(InsertAll(t, rows).rows, email)
        <==> EmailTaken(t.rows, email) || exists k :: 0 <= k < |rows| && rows[k].email == email
  {
    var r := InsertAll(t, rows);
    InsertAllRows(t, rows);
    if EmailTaken(r.rows, email) {
      var id :| id in r.rows && r.rows[id].email == email;
      if id !in t.rows {
        var k := id - t.lastId - 1;
        assert r.rows[t.lastId + k + 1] == rows[k];
      }
    }
    if exists k :: 0 <= k < |rows| && rows[k].email == email {
      var k :| 0 <= k < |rows| && rows[k].email == email;
      assert t.lastId + k + 1 in r.rows;
    }
  }

  /**
   * One more row keeps the e-mails fresh exactly when its e-mail is not taken
   * after the rows before it; when it is taken, the whole list is not fresh.
   */
  lemma FreshEmailsStep(start: Table<User>, rows: seq<User>, i: int)
    requires start.Valid()
    requires 0 <= i < |rows|
    requires FreshEmails(start.rows, rows[..i])
    ensures FreshEmails(start.rows, rows[..i + 1])
        <==> !EmailTaken(InsertAll(start, rows[..i]).rows, rows[i].email)
    ensures EmailTaken(InsertAll(start, rows[..i]).rows, rows[i].email) ==> !FreshEmails(start.rows, rows)
  {
    var prefix := rows[..i];
    var next := rows[..i + 1];
    var e := rows[i].email;
    EmailTakenAfter(start, prefix, e);
    assert next[i] == rows[i];
    assert forall k :: 0 <= k < i ==> next[k] == prefix[k] == rows[k];
    if EmailTaken(InsertAll(start, prefix).rows, e) {
      if EmailTaken(start.rows, e) {
        assert EmailTaken(start.rows, next[i].email) && EmailTaken(start.rows, rows[i].email);
      } else {
        var k :| 0 <= k < i && prefix[k].email == e;
        assert next[k].email == next[i].email && rows[k].email == rows[i].email;
      }
    } else {
      forall k | 0 <= k < i + 1
        ensures !EmailTaken(start.rows, next[k].email)
      {
        if k < i {
          assert !EmailTaken(start.rows, prefix[k].email);
        }
      }
      forall a, b | 0 <= a < b < i + 1
        ensures next[a].email != next[b].email
      {
        if b < i {
          assert prefix[a].email != prefix[b].email;
        } else {
          assert !(prefix[a].email == e);
        }
      }
    }
  }

  /**
   * One loop over a literal list of users. The first e-mail already taken
   * makes the INSERT raise, which aborts the routine: `ok` is false exactly
   * then. Otherwise every row is inserted, in order.
   */
  method SeedUsers(db: Database, rows: seq<User>) returns (ok: bool)
    requires db.Valid()
    modifies db
    ensures db.Valid()
    ensures ok <==> FreshEmails(old(db.users.rows), rows)
    ensures ok ==> db.users == InsertAll(old(db.users), rows)
    ensures db.initiatives == old(db.initiatives) && db.participations == old(db.participations)
    ensures db.certificates == old(db.certificates)
  {
    ghost var start := db.users;
    var i := 0;
    while i < |rows|
      invariant 0 <= i <= |rows|
      invariant db.Valid()
      invariant FreshEmails(start.rows, rows[..i])
      invariant db.users == InsertAll(start, rows[..i])
      invariant db.initiatives == old(db.initiatives) && db.participations == old(db.participations)
      invariant db.certificates == old(db.certificates)
    {
      FreshEmailsStep(start, rows, i);
      var id := db.InsertUser(rows[i]);
      InsertAllStep(start, rows, i);
      if id.None? {
        return false;
      }
      i := i + 1;
    }
    assert rows[..i] == rows;
    ok := true;
  }

  /**
   * Ten volunteers, then seven organizations, then three coordinators, into
   * an empty table: the volunteers get ids 1..10 and the organizations ids
   * 11..17, the ranges the later loops draw from.
   */
  lemma {:induction false} SeededUserIds(volunteers: seq<User>, organizations: seq<User>, coordinators: seq<User>)
    requires |volunteers| == 10 && |organizations| == 7
    requires forall k :: 0 <= k < |volunteers| ==> volunteers[k].userType == Volunteer
    requires forall k :: 0 <= k < |organizations| ==> organizations[k].userType == Organization
    ensures var users := InsertAll(InsertAll(InsertAll(Table(map[], 0), volunteers), organizations), coordinators);
      && (forall id :: 1 <= id <= 10 ==> id in users.rows && users.rows[id].userType == Volunteer)
      && (forall id :: 11 <= id <= 17 ==> id in users.rows && users.rows[id].userType == Organization)
  {
    var empty: Table<User> := Table(map[], 0);
    var afterVolunteers := InsertAll(empty, volunteers);
    var afterOrganizations := InsertAll(afterVolunteers, organizations);
    forall id | 1 <= id <= 10
      ensures id in afterOrganizations.rows && afterOrganizations.rows[id].userType == Volunteer
    {
      InsertAllPlaces(empty, volunteers, id - 1);
      InsertAllKeeps(afterVolunteers, organizations, id);
    }
    forall id | 11 <= id <= 17
      ensures id in afterOrganizations.rows && afterOrganizations.rows[id].userType == Organization
    {
      InsertAllPlaces(afterVolunteers, organizations, id - 11);
    }
    forall id | 1 <= id <= 17
      ensures id in InsertAll(afterOrganizations, coordinators).rows
      ensures InsertAll(afterOrganizations, coordinators).rows[id] == afterOrganizations.rows[id]
    {
      InsertAllKeeps(afterOrganizations, coordinators, id);
    }
  }

  // ---------------------------------------------------------------------------
  // Initiatives

  /** A literal initiative: title, description, category, hours, spots, requirements. */
  datatype InitiativeSeed = InitiativeSeed(
    title: string,
    description: string,
    category: string,
    hoursRequired: int,
    spotsAvailable: int,
    requirements: string)

  /**
   * The random part of one initiative: an organization from 11..17, a
   * district, and the start and end dates as formatted text.
   */
  datatype InitiativeDraw = InitiativeDraw(
    organizationId: int,
    location: string,
    startDate: string,
    endDate: string)

  const FIRST_ORGANIZATION_ID: int := 11
  const LAST_ORGANIZATION_ID: int := 17

  /** The districts an initiative's location is drawn from. */
  const DISTRICTS: seq<string> :=
    ["Stare Miasto", "Kazimierz", "Podgórze", "Krowodrza", "Nowa Huta", "Dębniki", "Prądnik Biały"]

  predicate InitiativeDrawInRange(d: InitiativeDraw)
  {
    FIRST_ORGANIZATION_ID <= d.organizationId <= LAST_ORGANIZATION_ID && d.location in DISTRICTS
  }

  /** The row one iteration inserts: the literal's columns, the draw's, status active. */
  function SeededInitiative(s: InitiativeSeed, d: InitiativeDraw, createdAt: string): (i: Initiative)
    ensures i.status == Active && i.organizationId == d.organizationId
    ensures i.title == s.title && i.category == s.category && i.location == d.location
    ensures i.requirements == Some(s.requirements)
  {
    Initiative(s.title, s.description, s.category, d.location, d.startDate, d.endDate,
      s.hoursRequired, s.spotsAvailable, Some(s.requirements), d.organizationId, Active, createdAt)
  }

  function SeededInitiatives(data: seq<InitiativeSeed>, draws: seq<InitiativeDraw>, createdAt: string): (r: seq<Initiative>)
    requires |draws| == |data|
    ensures |r| == |data|
    ensures forall k :: 0 <= k < |r| ==> r[k] == SeededInitiative(data[k], draws[k], createdAt)
  {
    seq(|data|, k requires 0 <= k < |data| => SeededInitiative(data[k], draws[k], createdAt))
  }

  /** The initiatives loop: one INSERT per literal, in order, each with its own draw. */
  method SeedInitiatives(db: Database, data: seq<InitiativeSeed>, draws: seq<InitiativeDraw>, createdAt: string)
    requires db.Valid()
    requires |draws| == |data|
    modifies db
    ensures db.Valid()
    ensures db.initiatives == InsertAll(old(db.initiatives), SeededInitiatives(data, draws, createdAt))
    ensures db.users == old(db.users) && db.participations == old(db.participations)
    ensures db.certificates == old(db.certificates)
  {
    ghost var start := db.initiatives;
    ghost var all := SeededInitiatives(data, draws, createdAt);
    var i := 0;
    while i < |data|
      invariant 0 <= i <= |data|
      invariant db.Valid()
      invariant db.initiatives == InsertAll(start, all[..i])
      invariant db.users == old(db.users) && db.participations == old(db.participations)
      invariant db.certificates == old(db.certificates)
    {
      var id := db.InsertInitiative(SeededInitiative(data[i], draws[i], createdAt));
      InsertAllStep(start, all, i);
      i := i + 1;
    }
    assert all[..i] == all;
  }

  /**
   * Into an empty table, fifteen literals give initiatives 1..15, the range
   * the applications are drawn from, all active and owned by an organization
   * id from 11..17.
   */
  lemma {:induction false} SeededInitiativeIds(data: seq<InitiativeSeed>, draws: seq<InitiativeDraw>, createdAt: string)
    requires |data| == 15 && |draws| == 15
    requires forall k :: 0 <= k < |draws| ==> InitiativeDrawInRange(draws[k])
    ensures var t := InsertAll(Table(map[], 0), SeededInitiatives(data, draws, createdAt));
      forall id :: 1 <= id <= 15 <==> id in t.rows
    ensures var t := InsertAll(Table(map[], 0), SeededInitiatives(data, draws, createdAt));
      forall id :: id in t.rows ==>
        t.rows[id].status == Active && FIRST_ORGANIZATION_ID <= t.rows[id].organizationId <= LAST_ORGANIZATION_ID
  {
    var all := SeededInitiatives(data, draws, createdAt);
    var t: Table<Initiative> := InsertAll(Table(map[], 0), all);
    InsertAllRows(Table(map[], 0), all);
    forall id | id in t.rows
      ensures t.rows[id].status == Active && FIRST_ORGANIZATION_ID <= t.rows[id].organizationId <= LAST_ORGANIZATION_ID
    {
      assert t.rows[0 + (id - 1) + 1] == all[id - 1];
      assert InitiativeDrawInRange(draws[id - 1]);
    }
  }

  // ---------------------------------------------------------------------------
  // Participations

  /**
   * The random part of one application: a volunteer from 1..10, an
   * initiative from 1..15, a status, the dates as text, hours from 2..8 and
   * the coin toss for the message. The dates and the hours are used only
   * when the status calls for them.
   */
  datatype ParticipationDraw = ParticipationDraw(
    volunteerId: int,
    initiativeId: int,
    status: ParticipationStatus,
    appliedDate: string,
    approvedDate: string,
    hours: int,
    withMessage: bool)

  predicate ParticipationDrawInRange(d: ParticipationDraw)
  {
    1 <= d.volunteerId <= 10 && 1 <= d.initiativeId <= 15 && 2 <= d.hours <= 8
  }

  /**
   * The row one iteration inserts: an approval date exactly for approved and
   * completed applications, hours from 2..8 exactly for completed ones and
   * 0 otherwise, and the fixed message or none.
   */
  function SeededParticipation(d: ParticipationDraw): (p: Participation)
    ensures p.volunteerId == d.volunteerId && p.initiativeId == d.initiativeId && p.status == d.status
    ensures p.approvedDate.Some? <==> p.status == Approved || p.status == Completed
    ensures p.status == Completed ==> p.hoursCompleted == d.hours
    ensures p.status != Completed ==> p.hoursCompleted == 0
    ensures p.message == Some(SEED_MESSAGE) || p.message == None
    ensures p.feedback == None
  {
    Participation(
      d.volunteerId, d.initiativeId, d.status, d.appliedDate,
      if d.status == Approved || d.status == Completed then Some(d.approvedDate) else None,
      if d.status == Completed then d.hours else 0,
      if d.withMessage then Some(SEED_MESSAGE) else None,
      None)
  }

  /** A seeded row from an in-range draw has hours in 2..8 exactly when it is completed. */
  lemma SeededHoursInRange(d: ParticipationDraw)
    requires ParticipationDrawInRange(d)
    ensures 2 <= SeededParticipation(d).hoursCompleted <= 8 <==> SeededParticipation(d).status == Completed
  {
  }

  /** The applications loop: a draw whose pair already has a participation is skipped. */
  function SeedApplications(t: Table<Participation>, draws: seq<ParticipationDraw>): (r: Table<Participation>)
    requires t.Valid()
    ensures r.Valid()
    decreases |draws|
  {
    if draws == [] then t
    else
      var before := SeedApplications(t, draws[..|draws| - 1]);
      var d := draws[|draws| - 1];
      if HasApplied(before.rows, d.volunteerId, d.initiativeId) then before
      else before.Insert(SeededParticipation(d)).0
  }

  /** The last draw's step of the loop. */
  lemma SeedApplicationsStep(t: Table<Participation>, draws: seq<ParticipationDraw>)
    requires t.Valid()
    requires draws != []
    ensures var before := SeedApplications(t, draws[..|draws| - 1]);
      var d := draws[|draws| - 1];
      var r := SeedApplications(t, draws);
      && (HasApplied(before.rows, d.volunteerId, d.initiativeId) ==> r == before)
      && (!HasApplied(before.rows, d.volunteerId, d.initiativeId) ==>
            && r.lastId == before.lastId + 1
            && before.lastId + 1 !in before.rows
            && r.rows == before.rows[before.lastId + 1 := SeededParticipation(d)])
  {
  }

  /** After the loop every drawn pair has a participation. */
  lemma {:induction false} SeedCoversDraws(t: Table<Participation>, draws: seq<ParticipationDraw>)
    requires t.Valid()
    ensures forall k :: 0 <= k < |draws| ==>
      HasApplied(SeedApplications(t, draws).rows, draws[k].volunteerId, draws[k].initiativeId)
    decreases |draws|
  {
    if draws != [] {
      var init := draws[..|draws| - 1];
      SeedCoversDraws(t, init);
      SeedApplicationsStep(t, draws);
      var before := SeedApplications(t, init);
      var d := draws[|draws| - 1];
      var r := SeedApplications(t, draws);
      if !HasApplied(before.rows, d.volunteerId, d.initiativeId) {
        var newId := before.lastId + 1;
        forall k | 0 <= k < |draws|
          ensures HasApplied(r.rows, draws[k].volunteerId, draws[k].initiativeId)
        {
          if k == |draws| - 1 {
            assert r.rows[newId] == SeededParticipation(d);
          } else {
            assert init[k] == draws[k];
            var id :| id in before.rows && before.rows[id].volunteerId == init[k].volunteerId
                                        && before.rows[id].initiativeId == init[k].initiativeId;
            assert r.rows[id] == before.rows[id];
          }
        }
      } else {
        forall k | 0 <= k < |draws|
          ensures HasApplied(r.rows, draws[k].volunteerId, draws[k].initiativeId)
        {
          if k < |draws| - 1 {
            assert init[k] == draws[k];
          }
        }
      }
    }
  }

  /**
   * The loop leaves the rows present before it untouched, and every row it
   * adds is the seeded row of one of the draws.
   */
  lemma {:induction false} SeedAddsOnlyDrawnRows(t: Table<Participation>, draws: seq<ParticipationDraw>)
    requires t.Valid()
    ensures var r := SeedApplications(t, draws);
      && (forall id :: id in t.rows ==> id in r.rows && r.rows[id] == t.rows[id])
      && (forall id :: id in r.rows && id !in t.rows ==>
            exists k :: 0 <= k < |draws| && r.rows[id] == SeededParticipation(draws[k]))
    decreases |draws|
  {
    if draws != [] {
      var init := draws[..|draws| - 1];
      SeedAddsOnlyDrawnRows(t, init);
      SeedApplicationsStep(t, draws);
      var before := SeedApplications(t, init);
      var r := SeedApplications(t, draws);
      forall id | id in r.rows && id !in t.rows
        ensures exists k :: 0 <= k < |draws| && r.rows[id] == SeededParticipation(draws[k])
      {
        if id in before.rows {
          var k :| 0 <= k < |init| && before.rows[id] == SeededParticipation(init[k]);
          assert init[k] == draws[k];
          assert r.rows[id] == SeededParticipation(draws[k]);
        } else {
          assert r.rows[id] == SeededParticipation(draws[|draws| - 1]);
        }
      }
    }
  }

  /** The loop inserts at most one row per draw. */
  lemma {:induction false} SeedInsertsAtMostOnePerDraw(t: Table<Participation>, draws: seq<ParticipationDraw>)
    requires t.Valid()
    ensures t.lastId <= SeedApplications(t, draws).lastId <= t.lastId + |draws|
    decreases |draws|
  {
    if draws != [] {
      SeedInsertsAtMostOnePerDraw(t, draws[..|draws| - 1]);
      SeedApplicationsStep(t, draws);
    }
  }

  /** No (volunteer, initiative) pair occurs twice after the loop if none did before. */
  lemma {:induction false} SeedKeepsPairsUnique(t: Table<Participation>, draws: seq<ParticipationDraw>)
    requires t.Valid()
    requires UniquePairs(t.rows)
    ensures UniquePairs(SeedApplications(t, draws).rows)
    decreases |draws|
  {
    if draws != [] {
      SeedKeepsPairsUnique(t, draws[..|draws| - 1]);
      SeedApplicationsStep(t, draws);
    }
  }

  /**
   * The applications loop: thirty draws; each one whose pair is new is
   * inserted and counted. At most thirty rows are added.
   */
  method SeedParticipations(db: Database, draws: seq<ParticipationDraw>) returns (count: nat)
    requires db.Valid()
    requires |draws| == SEED_DRAWS
    modifies db
    ensures db.Valid()
    ensures db.participations == SeedApplications(old(db.participations), draws)
    ensures count <= SEED_DRAWS
    ensures db.participations.lastId == old(db.participations.lastId) + count
    ensures db.users == old(db.users) && db.initiatives == old(db.initiatives)
    ensures db.certificates == old(db.certificates)
  {
    ghost var start := db.participations;
    count := 0;
    var i := 0;
    while i < |draws|
      invariant 0 <= i <= |draws|
      invariant db.Valid()
      invariant count <= i
      invariant db.participations == SeedApplications(start, draws[..i])
      invariant db.participations.lastId == start.lastId + count
      invariant db.users == old(db.users) && db.initiatives == old(db.initiatives)
      invariant db.certificates == old(db.certificates)
    {
      var d := draws[i];
      var next := draws[..i + 1];
      assert next[..|next| - 1] == draws[..i] && next[|next| - 1] == d;
      SeedApplicationsStep(start, next);
      ghost var after := SeedApplications(start, next);
      if !HasApplied(db.participations.rows, d.volunteerId, d.initiativeId) {
        var id := db.InsertParticipation(SeededParticipation(d));
        assert db.participations.rows == after.rows && db.participations.lastId == after.lastId;
        count := count + 1;
      }
      assert db.participations == after;
      i := i + 1;
    }
    assert draws[..i] == draws;
  }

  // ---------------------------------------------------------------------------
  // Certificates

  /**
   * The completed participations whose initiative exists (the inner join),
   * in rowid order, of which the first ten are taken.
   */
  function CertificateCandidates(parts: Table<Participation>, initiatives: map<int, Initiative>): (ids: seq<int>)
    requires parts.Valid()
    ensures |ids| <= SEED_CERTIFICATE_LIMIT
    ensures forall k :: 0 <= k < |ids| ==>
      ids[k] in parts.rows && parts.rows[ids[k]].status == Completed && parts.rows[ids[k]].initiativeId in initiatives
    ensures StrictlyAscending(ids)
  {
    var all := Completions(parts, initiatives);
    var ids := Limited(all, SEED_CERTIFICATE_LIMIT);
    forall k | 0 <= k < |ids|
      ensures ids[k] in parts.rows && parts.rows[ids[k]].status == Completed
      ensures parts.rows[ids[k]].initiativeId in initiatives
    {
      var id := all[k];
      assert id in all;
    }
    forall a, b | 0 <= a < b < |ids|
      ensures ids[a] < ids[b]
    {
      assert ids[a] == all[a] && ids[b] == all[b];
    }
    ids
  }

  predicate IsCompletion(p: Participation, initiatives: map<int, Initiative>)
  {
    p.status == Completed && p.initiativeId in initiatives
  }

  /** Every completed participation whose initiative exists, in rowid order. */
  function Completions(parts: Table<Participation>, initiatives: map<int, Initiative>): (all: seq<int>)
    requires parts.Valid()
    ensures forall id :: id in all <==> id in parts.rows && IsCompletion(parts.rows[id], initiatives)
    ensures StrictlyAscending(all)
  {
    Select(parts.rows, parts.Scan(), (p: Participation) => IsCompletion(p, initiatives))
  }

  /**
   * The candidates are the first ones in rowid order: a completed, joinable
   * participation left out has a larger rowid than every candidate, and one
   * is left out only when ten were taken.
   */
  lemma CandidatesAreFirst(parts: Table<Participation>, initiatives: map<int, Initiative>, id: int)
    requires parts.Valid()
    requires id in parts.rows && IsCompletion(parts.rows[id], initiatives)
    requires id !in CertificateCandidates(parts, initiatives)
    ensures |CertificateCandidates(parts, initiatives)| == SEED_CERTIFICATE_LIMIT
    ensures forall k :: 0 <= k < SEED_CERTIFICATE_LIMIT ==> CertificateCandidates(parts, initiatives)[k] < id
  {
    var all := Completions(parts, initiatives);
    var ids := CertificateCandidates(parts, initiatives);
    assert ids == Limited(all, SEED_CERTIFICATE_LIMIT);
    var m :| 0 <= m < |all| && all[m] == id;
    assert forall j :: 0 <= j < |ids| ==> ids[j] == all[j];
    assert m >= |ids|;
    forall k | 0 <= k < SEED_CERTIFICATE_LIMIT
      ensures ids[k] < id
    {
      assert ids[k] == all[k];
    }
  }

  /** The certificate issued for one candidate: its volunteer and hours, and its initiative's organization. */
  function SeededCertificate(
    parts: map<int, Participation>, initiatives: map<int, Initiative>, id: int, issuedDate: string
  ): (c: Certificate)
    requires id in parts && parts[id].initiativeId in initiatives
    ensures c.participationId == id
    ensures c.volunteerId == parts[id].volunteerId && c.hoursCompleted == parts[id].hoursCompleted
    ensures c.organizationId == initiatives[parts[id].initiativeId].organizationId
    ensures c.issuedDate == issuedDate && c.data == SeedMarker
  {
    Certificate(id, parts[id].volunteerId, initiatives[parts[id].initiativeId].organizationId,
      issuedDate, parts[id].hoursCompleted, SeedMarker)
  }

  /**
   * The certificates the loop issues: at most ten, each for a distinct
   * completed participation, copying its volunteer and hours, with its
   * initiative's organization.
   */
  function SeededCertificates(
    parts: Table<Participation>, initiatives: map<int, Initiative>, issuedDates: seq<string>
  ): (certs: seq<Certificate>)
    requires parts.Valid()
    requires |issuedDates| >= SEED_CERTIFICATE_LIMIT
    ensures |certs| == |CertificateCandidates(parts, initiatives)| <= SEED_CERTIFICATE_LIMIT
    ensures forall k :: 0 <= k < |certs| ==>
      var id := certs[k].participationId;
      && id in parts.rows && parts.rows[id].status == Completed
      && certs[k].volunteerId == parts.rows[id].volunteerId
      && certs[k].hoursCompleted == parts.rows[id].hoursCompleted
      && parts.rows[id].initiativeId in initiatives
      && certs[k].organizationId == initiatives[parts.rows[id].initiativeId].organizationId
      && certs[k].data == SeedMarker
    ensures forall a, b :: 0 <= a < b < |certs| ==> certs[a].participationId < certs[b].participationId
  {
    var ids := CertificateCandidates(parts, initiatives);
    seq(|ids|, k requires 0 <= k < |ids| => SeededCertificate(parts.rows, initiatives, ids[k], issuedDates[k]))
  }

  /** The certificates loop: one INSERT per candidate, in order. */
  method SeedCertificates(db: Database, issuedDates: seq<string>) returns (count: nat)
    requires db.Valid()
    requires |issuedDates| >= SEED_CERTIFICATE_LIMIT
    modifies db
    ensures db.Valid()
    ensures db.certificates ==
      InsertAll(old(db.certificates), SeededCertificates(old(db.participations), old(db.initiatives.rows), issuedDates))
    ensures count == |SeededCertificates(old(db.participations), old(db.initiatives.rows), issuedDates)|
    ensures count <= SEED_CERTIFICATE_LIMIT
    ensures db.users == old(db.users) && db.initiatives == old(db.initiatives)
    ensures db.participations == old(db.participations)
  {
    var candidates := CertificateCandidates(db.participations, db.initiatives.rows);
    ghost var all := SeededCertificates(db.participations, db.initiatives.rows, issuedDates);
    ghost var start := db.certificates;
    var i := 0;
    while i < |candidates|
      invariant 0 <= i <= |candidates|
      invariant db.Valid()
      invariant db.certificates == InsertAll(start, all[..i])
      invariant db.users == old(db.users) && db.initiatives == old(db.initiatives)
      invariant db.participations == old(db.participations)
    {
      var id := candidates[i];
      var c := SeededCertificate(db.participations.rows, db.initiatives.rows, id, issuedDates[i]);
      assert c == all[i];
      var certificateId := db.InsertCertificate(c);
      InsertAllStep(start, all, i);
      i := i + 1;
    }
    assert all[..i] == all;
    count := i;
  }

  // ---------------------------------------------------------------------------
  // The whole routine

  /**
   * Users in three groups, then initiatives, applications and certificates.
   * It stops (the routine raises) when a literal e-mail is already taken.
   */
  method PopulateTestData(
    db: Database,
    volunteers: seq<User>, organizations: seq<User>, coordinators: seq<User>,
    initiativeData: seq<InitiativeSeed>, initiativeDraws: seq<InitiativeDraw>,
    participationDraws: seq<ParticipationDraw>, issuedDates: seq<string>, now: string)
    returns (ok: bool)
    requires db.Valid()
    requires |initiativeDraws| == |initiativeData|
    requires |participationDraws| == SEED_DRAWS
    requires |issuedDates| >= SEED_CERTIFICATE_LIMIT
    modifies db
    ensures db.Valid()
    ensures ok <==> FreshEmails(old(db.users.rows), volunteers + organizations + coordinators)
    ensures ok ==>
      && db.users == InsertAll(InsertAll(InsertAll(old(db.users), volunteers), organizations), coordinators)
      && db.initiatives == InsertAll(old(db.initiatives), SeededInitiatives(initiativeData, initiativeDraws, now))
      && db.participations == SeedApplications(old(db.participations), participationDraws)
      && db.certificates == InsertAll(old(db.certificates),
           SeededCertificates(db.participations, db.initiatives.rows, issuedDates))
  {
    ghost var start := db.users;
    assert volunteers + organizations + coordinators == volunteers + (organizations + coordinators);
    FreshEmailsConcat(start, volunteers, organizations + coordinators);
    FreshEmailsConcat(InsertAll(start, volunteers), organizations, coordinators);
    ok := SeedUsers(db, volunteers);
    if !ok {
      return;
    }
    ok := SeedUsers(db, organizations);
    if !ok {
      return;
    }
    ok := SeedUsers(db, coordinators);
    if !ok {
      return;
    }
    SeedInitiatives(db, initiativeData, initiativeDraws, now);
    var inserted := SeedParticipations(db, participationDraws);
    var issued := SeedCertificates(db, issuedDates);
  }

  /**
   * Two lists have fresh e-mails together exactly when the first has and the
   * second has against the table the first one leaves.
   */
  lemma FreshEmailsConcat(t: Table<User>, a: seq<User>, b: seq<User>)
    requires t.Valid()
    ensures FreshEmails(t.rows, a + b) <==> FreshEmails(t.rows, a) && FreshEmails(InsertAll(t, a).rows, b)
  {
    var ab := a + b;
    var after := InsertAll(t, a).rows;
    forall k | 0 <= k < |b|
      ensures EmailTaken(after, b[k].email)
          <==> EmailTaken(t.rows, b[k].email) || exists j :: 0 <= j < |a| && a[j].email == b[k].email
    {
      EmailTakenAfter(t, a, b[k].email);
    }
    if FreshEmails(t.rows, ab) {
      forall k | 0 <= k < |a| ensures !EmailTaken(t.rows, a[k].email) {
        assert ab[k] == a[k];
      }
      forall i, j | 0 <= i < j < |a| ensures a[i].email != a[j].email {
        assert ab[i] == a[i] && ab[j] == a[j];
      }
      forall k | 0 <= k < |b| ensures !EmailTaken(after, b[k].email) {
        assert ab[|a| + k] == b[k];
        forall j | 0 <= j < |a| ensures a[j].email != b[k].email {
          assert ab[j] == a[j];
        }
      }
      forall i, j | 0 <= i < j < |b| ensures b[i].email != b[j].email {
        assert ab[|a| + i] == b[i] && ab[|a| + j] == b[j];
      }
    }
    if FreshEmails(t.rows, a) && FreshEmails(after, b) {
      forall k | 0 <= k < |ab| ensures !EmailTaken(t.rows, ab[k].email) {
        if k >= |a| {
          assert ab[k] == b[k - |a|];
        }
      }
      forall i, j | 0 <= i < j < |ab| ensures ab[i].email != ab[j].email {
        if j >= |a| && i < |a| {
          assert ab[j] == b[j - |a|] && ab[i] == a[i];
        } else if i >= |a| {
          assert ab[j] == b[j - |a|] && ab[i] == b[i - |a|];
        }
      }
    }
  }
}
