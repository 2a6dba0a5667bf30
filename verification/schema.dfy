/**
 * The relational schema of the volunteer-coordination store: four tables
 * (users, initiatives, participations, certificates), their column types,
 * their CHECK and UNIQUE clauses, the DEFAULT of `hours_completed`, and the
 * storage-level INSERT and
 * UPDATE statements that the handlers and the seeding routine issue.
 *
 * Foreign keys are declared but never switched on, so no statement here
 * checks that a referenced row exists.
 */
module Schema {
  import opened Results
  import opened Sql

  // ---------------------------------------------------------------------------
  // Enumerated columns

  datatype UserType = Volunteer | Organization | Coordinator
  datatype AgeCategory = Minor | Adult
  /**
   * An initiative's status. The stored text "completed" is `Finished`:
   * `ParticipationStatus` already has a constructor `Completed` in this
   * module, and a second one would make every unqualified `Completed`
   * ambiguous.
   */
  datatype InitiativeStatus = Active | Finished | Cancelled
  datatype ParticipationStatus = Pending | Approved | Rejected | Completed

  function UserTypeName(t: UserType): string
  {
    match t
    case Volunteer => "volunteer"
    case Organization => "organization"
    case Coordinator => "coordinator"
  }

  function AgeCategoryName(a: AgeCategory): string
  {
    match a
    case Minor => "minor"
    case Adult => "adult"
  }

  function InitiativeStatusName(s: InitiativeStatus): string
  {
    match s
    case Active => "active"
    case Finished => "completed"
    case Cancelled => "cancelled"
  }

  function ParticipationStatusName(s: ParticipationStatus): string
  {
    match s
    case Pending => "pending"
    case Approved => "approved"
    case Rejected => "rejected"
    case Completed => "completed"
  }

  /** Reads a stored user_type; exactly the three names parse, each to its own value. */
  function ParseUserType(text: string): (r: Option<UserType>)
    ensures r.Some? ==> UserTypeName(r.value) == text
    ensures forall t :: UserTypeName(t) == text ==> r == Some(t)
  {
    if text == "volunteer" then Some(Volunteer)
    else if text == "organization" then Some(Organization)
    else if text == "coordinator" then Some(Coordinator)
    else None
  }

  function ParseAgeCategory(text: string): (r: Option<AgeCategory>)
    ensures r.Some? ==> AgeCategoryName(r.value) == text
    ensures forall a :: AgeCategoryName(a) == text ==> r == Some(a)
  {
    if text == "minor" then Some(Minor)
    else if text == "adult" then Some(Adult)
    else None
  }

  function ParseInitiativeStatus(text: string): (r: Option<InitiativeStatus>)
    ensures r.Some? ==> InitiativeStatusName(r.value) == text
    ensures forall s :: InitiativeStatusName(s) == text ==> r == Some(s)
  {
    if text == "active" then Some(Active)
    else if text == "completed" then Some(Finished)
    else if text == "cancelled" then Some(Cancelled)
    else None
  }

  function ParseParticipationStatus(text: string): (r: Option<ParticipationStatus>)
    ensures r.Some? ==> ParticipationStatusName(r.value) == text
    ensures forall s :: ParticipationStatusName(s) == text ==> r == Some(s)
  {
    if text == "pending" then Some(Pending)
    else if text == "approved" then Some(Approved)
    else if text == "rejected" then Some(Rejected)
    else if text == "completed" then Some(Completed)
    else None
  }

  // ---------------------------------------------------------------------------
  // Column constraints as declared (NULL is None)

  /** `user_type TEXT NOT NULL CHECK(user_type IN ('volunteer', 'organization', 'coordinator'))` */
  function UserTypeAllowed(v: Option<string>): (ok: bool)
    ensures ok <==> v.Some? && ParseUserType(v.value).Some?
  {
    v.Some? && CheckPasses(In(v, [Some("volunteer"), Some("organization"), Some("coordinator")]))
  }

  /**
   * `status TEXT DEFAULT 'active' CHECK(status IN ('active', 'completed', 'cancelled'))`:
   * the column is nullable, and a NULL makes the CHECK unknown, which passes.
   */
  function InitiativeStatusAllowed(v: Option<string>): (ok: bool)
    ensures ok <==> v.None? || ParseInitiativeStatus(v.value).Some?
  {
    CheckPasses(In(v, [Some("active"), Some("completed"), Some("cancelled")]))
  }

  /** `status TEXT DEFAULT 'pending' CHECK(status IN ('pending', 'approved', 'rejected', 'completed'))` */
  function ParticipationStatusAllowed(v: Option<string>): (ok: bool)
    ensures ok <==> v.None? || ParseParticipationStatus(v.value).Some?
  {
    CheckPasses(In(v, [Some("pending"), Some("approved"), Some("rejected"), Some("completed")]))
  }

  /**
   * `age_category TEXT CHECK(age_category IN ('minor', 'adult', NULL))` as
   * written. Because the list holds a NULL, `IN` is never false, so the
   * constraint rejects nothing.
   */
  function AgeCategoryAllowedAsWritten(v: Option<string>): (ok: bool)
    ensures ok
  {
    CheckPasses(In(v, [Some("minor"), Some("adult"), None]))
  }

  lemma AgeCategoryAsWrittenAdmitsAnyText()
    ensures AgeCategoryAllowedAsWritten(Some("teenager"))
    ensures ParseAgeCategory("teenager").None?
  {
  }

  /**
   * The constraint the column evidently intends,
   * `CHECK(age_category IS NULL OR age_category IN ('minor', 'adult'))`:
   * NULL or one of the two category names, nothing else.
   */
  function AgeCategoryAllowed(v: Option<string>): (ok: bool)
    ensures ok <==> v.None? || ParseAgeCategory(v.value).Some?
  {
    v.None? || CheckPasses(In(v, [Some("minor"), Some("adult")]))
  }

  // ---------------------------------------------------------------------------
  // Rows

  /**
   * A row of `users`. `ageCategory` has the type the corrected constraint
   * admits; `createdAt` is the CURRENT_TIMESTAMP default, an opaque text.
   */
  datatype User = User(
    name: string,
    email: string,
    phone: Option<string>,
    userType: UserType,
    ageCategory: Option<AgeCategory>,
    schoolId: Option<int>,
    organizationType: Option<string>,
    address: Option<string>,
    description: Option<string>,
    createdAt: string)

  /** A row of `initiatives` (latitude and longitude are not modelled). */
  datatype Initiative = Initiative(
    title: string,
    description: string,
    category: string,
    location: string,
    startDate: string,
    endDate: string,
    hoursRequired: int,
    spotsAvailable: int,
    requirements: Option<string>,
    organizationId: int,
    status: InitiativeStatus,
    createdAt: string)

  /** A row of `participations`. */
  datatype Participation = Participation(
    volunteerId: int,
    initiativeId: int,
    status: ParticipationStatus,
    appliedDate: string,
    approvedDate: Option<string>,
    hoursCompleted: int,
    message: Option<string>,
    feedback: Option<string>)

  /**
   * The joined row a certificate is issued from: the participation and the
   * columns of its initiative, volunteer and organization that the query adds.
   */
  datatype CertificateSource = CertificateSource(
    participationId: int,
    participation: Participation,
    initiativeTitle: string,
    initiativeDescription: string,
    startDate: string,
    endDate: string,
    category: string,
    volunteerName: string,
    organizationName: string)

  /**
   * `certificate_data`: the JSON text of the joined row for a certificate
   * issued through the API, or the fixed marker object the seeding routine writes.
   */
  datatype CertificateData = SeedMarker | Snapshot(source: CertificateSource)

  /** A row of `certificates`. */
  datatype Certificate = Certificate(
    participationId: int,
    volunteerId: int,
    organizationId: int,
    issuedDate: string,
    hoursCompleted: int,
    data: CertificateData)

  /** `hours_completed INTEGER DEFAULT 0`: the value a row gets when its INSERT leaves the column out. */
  const DEFAULT_HOURS_COMPLETED: int := 0

  // ---------------------------------------------------------------------------
  // UNIQUE constraints

  /** `email TEXT UNIQUE NOT NULL` */
  predicate UniqueEmails(users: map<int, User>)
  {
    forall a, b :: a in users && b in users && a != b ==> users[a].email != users[b].email
  }

  /** `UNIQUE(volunteer_id, initiative_id)` */
  predicate UniquePairs(ps: map<int, Participation>)
  {
    forall a, b :: a in ps && b in ps && a != b ==>
      ps[a].volunteerId != ps[b].volunteerId || ps[a].initiativeId != ps[b].initiativeId
  }

  predicate EmailTaken(users: map<int, User>, email: string)
  {
    exists id :: id in users && users[id].email == email
  }

  /** Some participation already pairs this volunteer with this initiative. */
  predicate HasApplied(ps: map<int, Participation>, volunteerId: int, initiativeId: int)
  {
    exists id :: id in ps && ps[id].volunteerId == volunteerId && ps[id].initiativeId == initiativeId
  }

  // ---------------------------------------------------------------------------
  // UPDATE participations SET ...

  /** One `column = ?` item of an UPDATE's SET list. */
  datatype Assignment =
    | SetStatus(status: ParticipationStatus)
    | SetHours(hours: int)
    | SetApprovedDate(date: string)

  /**
   * The row after applying a SET list left to right. A column that no item
   * names keeps its value, and a column the final item names takes that
   * item's value. The volunteer, initiative, application date, message and
   * feedback are never named, so they never change.
   */
  function ApplySet(p: Participation, set_: seq<Assignment>): (q: Participation)
    ensures q.volunteerId == p.volunteerId && q.initiativeId == p.initiativeId
    ensures q.appliedDate == p.appliedDate && q.message == p.message && q.feedback == p.feedback
    ensures (forall a :: a in set_ ==> !a.SetStatus?) ==> q.status == p.status
    ensures (forall a :: a in set_ ==> !a.SetHours?) ==> q.hoursCompleted == p.hoursCompleted
    ensures (forall a :: a in set_ ==> !a.SetApprovedDate?) ==> q.approvedDate == p.approvedDate
    ensures set_ != [] && set_[|set_| - 1].SetStatus? ==> q.status == set_[|set_| - 1].status
    ensures set_ != [] && set_[|set_| - 1].SetHours? ==> q.hoursCompleted == set_[|set_| - 1].hours
    ensures set_ != [] && set_[|set_| - 1].SetApprovedDate? ==> q.approvedDate == Some(set_[|set_| - 1].date)
    decreases |set_|
  {
    if set_ == [] then p
    else
      var init := set_[..|set_| - 1];
      var before := ApplySet(p, init);
      assert forall a :: a in init ==> a in set_;
      assert forall k :: 0 <= k < |init| ==> init[k] == set_[k];
      match set_[|set_| - 1]
      case SetStatus(s) => before.(status := s)
      case SetHours(h) => before.(hoursCompleted := h)
      case SetApprovedDate(d) => before.(approvedDate := Some(d))
  }

  /**
   * Whatever comes before or after it, the last item that names a column
   * decides that column's value: later items naming other columns leave it
   * alone.
   */
  lemma {:induction false} LastAssignmentWins(p: Participation, set_: seq<Assignment>, k: nat)
    requires k < |set_|
    ensures set_[k].SetStatus? && (forall j :: k < j < |set_| ==> !set_[j].SetStatus?)
      ==> ApplySet(p, set_).status == set_[k].status
    ensures set_[k].SetHours? && (forall j :: k < j < |set_| ==> !set_[j].SetHours?)
      ==> ApplySet(p, set_).hoursCompleted == set_[k].hours
    ensures set_[k].SetApprovedDate? && (forall j :: k < j < |set_| ==> !set_[j].SetApprovedDate?)
      ==> ApplySet(p, set_).approvedDate == Some(set_[k].date)
    decreases |set_|
  {
    if k < |set_| - 1 {
      var init := set_[..|set_| - 1];
      LastAssignmentWins(p, init, k);
      assert init[k] == set_[k];
      assert forall j :: k < j < |init| ==> init[j] == set_[j];
    }
  }

  // ---------------------------------------------------------------------------
  // The store

  /**
   * The database file: four tables. `Valid` gathers the constraints the
   * storage layer enforces on every statement.
   */
  class Database {
    var users: Table<User>
    var initiatives: Table<Initiative>
    var participations: Table<Participation>
    var certificates: Table<Certificate>

    ghost predicate Valid()
      reads this
    {
      && users.Valid() && initiatives.Valid() && participations.Valid() && certificates.Valid()
      && UniqueEmails(users.rows)
      && UniquePairs(participations.rows)
    }

    /** create_database on a fresh file: four empty tables, no rowid issued yet. */
    constructor ()
      ensures Valid()
      ensures users == Table(map[], 0) && initiatives == Table(map[], 0)
      ensures participations == Table(map[], 0) && certificates == Table(map[], 0)
    {
      users := Table(map[], 0);
      initiatives := Table(map[], 0);
      participations := Table(map[], 0);
      certificates := Table(map[], 0);
    }

    /** INSERT INTO users: refused, changing nothing, when the email is taken. */
    method InsertUser(u: User) returns (id: Option<int>)
      requires Valid()
      modifies this
      ensures Valid()
      ensures id.None? <==> EmailTaken(old(users.rows), u.email)
      ensures id.None? ==> users == old(users)
      ensures id.Some? ==> (users, id.value) == old(users).Insert(u)
      ensures initiatives == old(initiatives) && participations == old(participations)
      ensures certificates == old(certificates)
    {
      if EmailTaken(users.rows, u.email) {
        id := None;
      } else {
        var inserted := users.Insert(u);
        users := inserted.0;
        id := Some(inserted.1);
      }
    }

    /**
     * INSERT INTO initiatives: always accepted. The organization it names is
     * not checked, since foreign keys are off.
     */
    method InsertInitiative(i: Initiative) returns (id: int)
      requires Valid()
      modifies this
      ensures Valid()
      ensures (initiatives, id) == old(initiatives).Insert(i)
      ensures users == old(users) && participations == old(participations)
      ensures certificates == old(certificates)
    {
      var inserted := initiatives.Insert(i);
      initiatives := inserted.0;
      id := inserted.1;
    }

    /**
     * INSERT INTO participations: refused, changing nothing, when the
     * (volunteer, initiative) pair is already present.
     */
    method InsertParticipation(p: Participation) returns (id: Option<int>)
      requires Valid()
      modifies this
      ensures Valid()
      ensures id.None? <==> HasApplied(old(participations.rows), p.volunteerId, p.initiativeId)
      ensures id.None? ==> participations == old(participations)
      ensures id.Some? ==> (participations, id.value) == old(participations).Insert(p)
      ensures users == old(users) && initiatives == old(initiatives)
      ensures certificates == old(certificates)
    {
      if HasApplied(participations.rows, p.volunteerId, p.initiativeId) {
        id := None;
      } else {
        var inserted := participations.Insert(p);
        participations := inserted.0;
        id := Some(inserted.1);
      }
    }

    /** UPDATE participations SET ... WHERE id = ?: touches at most that one row. */
    method UpdateParticipation(id: int, set_: seq<Assignment>)
      requires Valid()
      modifies this
      ensures Valid()
      ensures participations.lastId == old(participations.lastId)
      ensures participations.rows ==
        if id in old(participations.rows)
        then old(participations.rows)[id := ApplySet(old(participations.rows)[id], set_)]
        else old(participations.rows)
      ensures users == old(users) && initiatives == old(initiatives)
      ensures certificates == old(certificates)
    {
      if id in participations.rows {
        var rows := participations.rows[id := ApplySet(participations.rows[id], set_)];
        participations := Table(rows, participations.lastId);
      }
    }

    /** INSERT INTO certificates: always accepted; nothing is unique here. */
    method InsertCertificate(c: Certificate) returns (id: int)
      requires Valid()
      modifies this
      ensures Valid()
      ensures (certificates, id) == old(certificates).Insert(c)
      ensures users == old(users) && initiatives == old(initiatives)
      ensures participations == old(participations)
    {
      var inserted := certificates.Insert(c);
      certificates := inserted.0;
      id := inserted.1;
    }
  }
}
