/**
 * The read handlers of the HTTP API, as functions of the current tables:
 * the filtered initiative list, one initiative with its application count,
 * an organization's initiatives with their pending and approved counts, the
 * platform statistics and the user list. Lemmas tie them to the write
 * handlers and to each other.
 */
module Queries {
  import opened Results
  import opened Sql
  import opened Schema
  import opened Http

  // ---------------------------------------------------------------------------
  // GET /initiatives

  /** The query parameters; a missing parameter is None. */
  datatype InitiativeFilters = InitiativeFilters(
    category: Option<string>,
    location: Option<string>,
    status: Option<string>,
    organizationId: Option<int>)

  /** With no query parameters only `status` has a value, "active". */
  const DEFAULT_FILTERS: InitiativeFilters := InitiativeFilters(None, None, Some("active"), None)

  /** A text parameter takes part in the WHERE clause only when it is truthy: None and "" are skipped. */
  predicate TextGiven(o: Option<string>)
  {
    o.Some? && o.value != ""
  }

  /** An integer parameter takes part only when it is truthy: None and 0 are skipped. */
  predicate IdGiven(o: Option<int>)
  {
    o.Some? && o.value != 0
  }

  /** The WHERE clause: category equal, location LIKE '%x%', status equal, organization equal. */
  predicate MatchesFilters(i: Initiative, f: InitiativeFilters)
  {
    && (TextGiven(f.category) ==> i.category == f.category.value)
    && (TextGiven(f.location) ==> Contains(i.location, f.location.value))
    && (TextGiven(f.status) ==> InitiativeStatusName(i.status) == f.status.value)
    && (IdGiven(f.organizationId) ==> i.organizationId == f.organizationId.value)
  }

  /** The rows the inner join with the organization and the WHERE clause keep. */
  predicate Listed(users: map<int, User>, i: Initiative, f: InitiativeFilters)
  {
    i.organizationId in users && MatchesFilters(i, f)
  }

  /** An initiative with the name and e-mail of the user it is joined to. */
  datatype InitiativeRow = InitiativeRow(
    id: int,
    initiative: Initiative,
    organizationName: string,
    organizationEmail: string)

  function StartDate(i: Initiative): string
  {
    i.startDate
  }

  function CreatedAt(i: Initiative): string
  {
    i.createdAt
  }

  /** The row of initiative `id` joined to its organization. */
  function JoinOrganization(users: map<int, User>, initiatives: map<int, Initiative>, id: int): (r: InitiativeRow)
    requires id in initiatives && initiatives[id].organizationId in users
    ensures r.id == id && r.initiative == initiatives[id]
    ensures r.organizationName == users[r.initiative.organizationId].name
    ensures r.organizationEmail == users[r.initiative.organizationId].email
  {
    var i := initiatives[id];
    InitiativeRow(id, i, users[i.organizationId].name, users[i.organizationId].email)
  }

  /**
   * The ids of the listed initiatives: every initiative that joins an
   * existing user and passes the given filters appears exactly once, no
   * other does, and the start dates never increase down the list.
   */
  function ListedIds(users: map<int, User>, initiatives: Table<Initiative>, f: InitiativeFilters): (ids: seq<int>)
    requires initiatives.Valid()
    ensures forall id :: id in ids <==> id in initiatives.rows && Listed(users, initiatives.rows[id], f)
    ensures Distinct(ids)
    ensures forall k :: 0 <= k < |ids| ==>
      ids[k] in initiatives.rows && initiatives.rows[ids[k]].organizationId in users
    ensures forall a, b :: 0 <= a < b < |ids| ==>
      TextLe(initiatives.rows[ids[b]].startDate, initiatives.rows[ids[a]].startDate)
  {
    SelectOrdered(initiatives, i => Listed(users, i, f), StartDate)
  }

  /** The listed initiatives, in the order of `ListedIds`, each joined to its organization. */
  function GetInitiatives(users: map<int, User>, initiatives: Table<Initiative>, f: InitiativeFilters): (rows: seq<InitiativeRow>)
    requires initiatives.Valid()
    ensures var ids := ListedIds(users, initiatives, f);
      && |rows| == |ids|
      && forall k :: 0 <= k < |rows| ==> rows[k] == JoinOrganization(users, initiatives.rows, ids[k])
  {
    var ids := ListedIds(users, initiatives, f);
    seq(|ids|, k requires 0 <= k < |ids| => JoinOrganization(users, initiatives.rows, ids[k]))
  }

  /**
   * A location parameter only narrows the list: it keeps exactly the
   * initiatives listed without it whose location contains it, and an empty
   * parameter keeps them all.
   */
  lemma LocationFilterNarrows(users: map<int, User>, t: Table<Initiative>, f: InitiativeFilters, x: string, id: int)
    requires t.Valid() && !TextGiven(f.location)
    ensures id in ListedIds(users, t, f.(location := Some(x)))
        <==> id in ListedIds(users, t, f) && (x == "" || Contains(t.rows[id].location, x))
  {
    var g := f.(location := Some(x));
    if id in t.rows {
      var i := t.rows[id];
      assert Listed(users, i, g) <==> Listed(users, i, f) && (x == "" || Contains(i.location, x));
    }
  }

  /**
   * An initiative listed without a location parameter stays listed when the
   * parameter is its own location, because LIKE '%x%' matches x itself.
   */
  lemma OwnLocationMatches(users: map<int, User>, t: Table<Initiative>, f: InitiativeFilters, id: int)
    requires t.Valid() && !TextGiven(f.location)
    requires id in ListedIds(users, t, f)
    ensures id in ListedIds(users, t, f.(location := Some(t.rows[id].location)))
  {
    ContainsItself(t.rows[id].location);
  }

  // ---------------------------------------------------------------------------
  // GET /initiatives/{initiative_id}

  /** The participations that count as applications to an initiative: pending or approved. */
  function Applications(parts: map<int, Participation>, initiativeId: int): set<int>
  {
    set id | id in parts && parts[id].initiativeId == initiativeId
                         && (parts[id].status == Pending || parts[id].status == Approved)
  }

  /** The participations of one initiative that have one status. */
  function WithStatus(parts: map<int, Participation>, initiativeId: int, s: ParticipationStatus): set<int>
  {
    set id | id in parts && parts[id].initiativeId == initiativeId && parts[id].status == s
  }

  datatype InitiativeDetail = InitiativeDetail(
    row: InitiativeRow,
    organizationPhone: Option<string>,
    applicationsCount: nat)

  /**
   * One initiative, joined to its organization, with the number of its
   * pending and approved applications; not found when the initiative is
   * missing or its organization id names no user.
   */
  function GetInitiative(
    users: map<int, User>, initiatives: map<int, Initiative>, parts: map<int, Participation>, id: int
  ): (r: Result<InitiativeDetail, Error>)
    ensures r.Failure? <==> id !in initiatives || initiatives[id].organizationId !in users
    ensures r.Failure? ==> r.error == InitiativeNotFound
    ensures r.Success? ==>
      && r.value.row == JoinOrganization(users, initiatives, id)
      && r.value.organizationPhone == users[initiatives[id].organizationId].phone
      && r.value.applicationsCount == |Applications(parts, id)|
  {
    if id !in initiatives || initiatives[id].organizationId !in users then Failure(InitiativeNotFound)
    else
      var org := users[initiatives[id].organizationId];
      Success(InitiativeDetail(JoinOrganization(users, initiatives, id), org.phone, |Applications(parts, id)|))
  }

  // ---------------------------------------------------------------------------
  // GET /organizations/{org_id}/initiatives

  datatype OrganizationInitiativeRow = OrganizationInitiativeRow(
    id: int,
    initiative: Initiative,
    pendingApplications: nat,
    approvedVolunteers: nat)

  predicate OwnedBy(i: Initiative, orgId: int)
  {
    i.organizationId == orgId
  }

  /**
   * The ids of the organization's initiatives (no join with users: the
   * organization need not exist), each exactly once, start dates never
   * increasing.
   */
  function OwnedIds(initiatives: Table<Initiative>, orgId: int): (ids: seq<int>)
    requires initiatives.Valid()
    ensures forall id :: id in ids <==> id in initiatives.rows && initiatives.rows[id].organizationId == orgId
    ensures Distinct(ids)
    ensures forall k :: 0 <= k < |ids| ==> ids[k] in initiatives.rows
    ensures forall a, b :: 0 <= a < b < |ids| ==>
      TextLe(initiatives.rows[ids[b]].startDate, initiatives.rows[ids[a]].startDate)
  {
    SelectOrdered(initiatives, i => OwnedBy(i, orgId), StartDate)
  }

  /**
   * The organization's initiatives in the order of `OwnedIds`, each with the
   * number of its pending and of its approved participations (the LEFT JOIN
   * gives an initiative without participations the counts 0 and 0).
   */
  function GetOrganizationInitiatives(
    initiatives: Table<Initiative>, parts: map<int, Participation>, orgId: int
  ): (rows: seq<OrganizationInitiativeRow>)
    requires initiatives.Valid()
    ensures var ids := OwnedIds(initiatives, orgId);
      && |rows| == |ids|
      && forall k :: 0 <= k < |rows| ==>
        && rows[k].id == ids[k]
        && rows[k].initiative == initiatives.rows[ids[k]]
        && rows[k].pendingApplications == |WithStatus(parts, ids[k], Pending)|
        && rows[k].approvedVolunteers == |WithStatus(parts, ids[k], Approved)|
  {
    var ids := OwnedIds(initiatives, orgId);
    seq(|ids|, k requires 0 <= k < |ids| =>
      var id := ids[k];
      OrganizationInitiativeRow(id, initiatives.rows[id],
        |WithStatus(parts, id, Pending)|, |WithStatus(parts, id, Approved)|))
  }

  /** The application count of an initiative is its pending count plus its approved count. */
  lemma ApplicationsArePendingPlusApproved(parts: map<int, Participation>, initiativeId: int)
    ensures |Applications(parts, initiativeId)|
         == |WithStatus(parts, initiativeId, Pending)| + |WithStatus(parts, initiativeId, Approved)|
  {
    var pending := WithStatus(parts, initiativeId, Pending);
    var approved := WithStatus(parts, initiativeId, Approved);
    assert Applications(parts, initiativeId) == pending + approved;
    assert pending * approved == {};
  }

  /** Every initiative the list shows is found by the detail view, with the same joined row. */
  lemma ListedInitiativeIsFound(
    users: map<int, User>, initiatives: Table<Initiative>, parts: map<int, Participation>,
    f: InitiativeFilters, k: int)
    requires initiatives.Valid()
    requires 0 <= k < |GetInitiatives(users, initiatives, f)|
    ensures var row := GetInitiatives(users, initiatives, f)[k];
      && GetInitiative(users, initiatives.rows, parts, row.id).Success?
      && GetInitiative(users, initiatives.rows, parts, row.id).value.row == row
  {
    var ids := ListedIds(users, initiatives, f);
    var id := ids[k];
    assert id in ids;
  }

  /** Without parameters the list holds exactly the active initiatives that join a user. */
  lemma DefaultListsActive(users: map<int, User>, initiatives: Table<Initiative>, id: int)
    requires initiatives.Valid()
    requires id in initiatives.rows
    ensures id in ListedIds(users, initiatives, DEFAULT_FILTERS)
        <==> initiatives.rows[id].status == Active && initiatives.rows[id].organizationId in users
  {
    var i := initiatives.rows[id];
    var ids := ListedIds(users, initiatives, DEFAULT_FILTERS);
    assert id in ids <==> Listed(users, i, DEFAULT_FILTERS);
    assert MatchesFilters(i, DEFAULT_FILTERS) <==> InitiativeStatusName(i.status) == "active";
    assert InitiativeStatusName(i.status) == "active" <==> i.status == Active;
  }

  /** A successful application raises the count of its own initiative by one and no other count. */
  lemma {:induction false} ApplicationAddsOne(
    parts: map<int, Participation>, newId: int, p: Participation, initiativeId: int)
    requires newId !in parts
    requires p.status == Pending
    ensures |Applications(parts[newId := p], initiativeId)|
         == |Applications(parts, initiativeId)| + (if initiativeId == p.initiativeId then 1 else 0)
  {
    if initiativeId == p.initiativeId {
      assert Applications(parts[newId := p], initiativeId) == Applications(parts, initiativeId) + {newId};
    } else {
      assert Applications(parts[newId := p], initiativeId) == Applications(parts, initiativeId);
    }
  }

  // ---------------------------------------------------------------------------
  // GET /statistics

  function UsersOfType(users: map<int, User>, t: UserType): set<int>
  {
    set id | id in users && users[id].userType == t
  }

  function InitiativesWithStatus(initiatives: map<int, Initiative>, s: InitiativeStatus): set<int>
  {
    set id | id in initiatives && initiatives[id].status == s
  }

  function CompletedParticipations(parts: map<int, Participation>): set<int>
  {
    set id | id in parts && parts[id].status == Completed
  }

  /** What one participation adds to SUM(hours_completed) WHERE status = 'completed'. */
  function Contribution(p: Participation): int
  {
    if p.status == Completed then p.hoursCompleted else 0
  }

  /** The hours of the completed participations among `ids`, added up. */
  function CompletedHours(parts: map<int, Participation>, ids: seq<int>): int
    requires forall id :: id in ids ==> id in parts
  {
    if ids == [] then 0
    else
      var first := ids[0];
      assert first in ids;
      Contribution(parts[first]) + CompletedHours(parts, ids[1..])
  }

  /** SUM(hours_completed) over the completed participations: NULL when there are none. */
  function TotalHours(parts: Table<Participation>): (h: Option<int>)
    requires parts.Valid()
    ensures h.None? <==> CompletedParticipations(parts.rows) == {}
  {
    if CompletedParticipations(parts.rows) == {} then None
    else Some(CompletedHours(parts.rows, parts.Scan()))
  }

  function OrZero(h: Option<int>): int
  {
    if h.Some? then h.value else 0
  }

  datatype Overview = Overview(
    volunteers: nat,
    organizations: nat,
    coordinators: nat,
    activeInitiatives: nat,
    completedParticipations: nat,
    totalHours: Option<int>)

  /**
   * The overview counts. Every user has exactly one of the three types, so
   * the three user counts add up to the number of users; the hour total is
   * NULL exactly when no participation is completed.
   */
  function GetOverview(
    users: map<int, User>, initiatives: map<int, Initiative>, parts: Table<Participation>
  ): (o: Overview)
    requires parts.Valid()
    ensures o.volunteers == |UsersOfType(users, Volunteer)|
    ensures o.organizations == |UsersOfType(users, Organization)|
    ensures o.coordinators == |UsersOfType(users, Coordinator)|
    ensures o.volunteers + o.organizations + o.coordinators == |users|
    ensures o.activeInitiatives == |InitiativesWithStatus(initiatives, Active)|
    ensures o.completedParticipations == |CompletedParticipations(parts.rows)|
    ensures o.totalHours == TotalHours(parts)
    ensures o.totalHours.None? <==> o.completedParticipations == 0
  {
    UserTypesPartition(users);
    Overview(
      |UsersOfType(users, Volunteer)|,
      |UsersOfType(users, Organization)|,
      |UsersOfType(users, Coordinator)|,
      |InitiativesWithStatus(initiatives, Active)|,
      |CompletedParticipations(parts.rows)|,
      TotalHours(parts))
  }

  /** The three user types split the users. */
  lemma UserTypesPartition(users: map<int, User>)
    ensures |UsersOfType(users, Volunteer)| + |UsersOfType(users, Organization)|
          + |UsersOfType(users, Coordinator)| == |users|
  {
    var v := UsersOfType(users, Volunteer);
    var o := UsersOfType(users, Organization);
    var c := UsersOfType(users, Coordinator);
    forall id | id in users ensures id in v + o + c {
      match users[id].userType
      case Volunteer => assert id in v;
      case Organization => assert id in o;
      case Coordinator => assert id in c;
    }
    assert users.Keys == v + o + c;
    assert v * o == {};
    assert (v + o) * c == {};
  }

  lemma {:induction false} CompletedHoursAppend(parts: map<int, Participation>, ids: seq<int>, id: int)
    requires forall x :: x in ids ==> x in parts
    requires id in parts
    ensures CompletedHours(parts, ids + [id]) == CompletedHours(parts, ids) + Contribution(parts[id])
  {
    if ids == [] {
      assert ([] + [id])[1..] == [];
    } else {
      assert (ids + [id])[1..] == ids[1..] + [id];
      CompletedHoursAppend(parts, ids[1..], id);
    }
  }

  lemma {:induction false} CompletedHoursAgree(a: map<int, Participation>, b: map<int, Participation>, ids: seq<int>)
    requires forall x :: x in ids ==> x in a && x in b && a[x] == b[x]
    ensures CompletedHours(a, ids) == CompletedHours(b, ids)
  {
    if ids != [] {
      CompletedHoursAgree(a, b, ids[1..]);
    }
  }

  lemma {:induction false} CompletedHoursUpdate(parts: map<int, Participation>, ids: seq<int>, id: int, q: Participation)
    requires forall x :: x in ids ==> x in parts
    requires Distinct(ids)
    requires id in ids
    ensures CompletedHours(parts[id := q], ids)
         == CompletedHours(parts, ids) - Contribution(parts[id]) + Contribution(q)
  {
    var rest := ids[1..];
    assert Distinct(rest) by {
      forall i, j | 0 <= i < j < |rest| ensures rest[i] != rest[j] {
        assert rest[i] == ids[i + 1] && rest[j] == ids[j + 1];
      }
    }
    if ids[0] == id {
      assert id !in rest by {
        forall k | 0 <= k < |rest| ensures rest[k] != id {
          assert rest[k] == ids[k + 1];
        }
      }
      CompletedHoursAgree(parts[id := q], parts, rest);
    } else {
      CompletedHoursUpdate(parts, rest, id, q);
    }
  }

  lemma {:induction false} NoneCompletedSumsToZero(parts: map<int, Participation>, ids: seq<int>)
    requires forall x :: x in ids ==> x in parts && parts[x].status != Completed
    ensures CompletedHours(parts, ids) == 0
  {
    if ids != [] {
      NoneCompletedSumsToZero(parts, ids[1..]);
    }
  }

  /** The total, read as 0 when NULL, is the sum over the whole table. */
  lemma TotalIsSum(parts: Table<Participation>)
    requires parts.Valid()
    ensures OrZero(TotalHours(parts)) == CompletedHours(parts.rows, parts.Scan())
  {
    if CompletedParticipations(parts.rows) == {} {
      forall x | x in parts.Scan() ensures parts.rows[x].status != Completed {
        assert x !in CompletedParticipations(parts.rows);
      }
      NoneCompletedSumsToZero(parts.rows, parts.Scan());
    }
  }

  /**
   * Rewriting one existing participation moves the hour total by the
   * difference of what the old and the new row contribute.
   */
  lemma UpdateMovesTotal(parts: Table<Participation>, id: int, q: Participation)
    requires parts.Valid()
    requires id in parts.rows
    ensures Table(parts.rows[id := q], parts.lastId).Valid()
    ensures OrZero(TotalHours(Table(parts.rows[id := q], parts.lastId)))
         == OrZero(TotalHours(parts)) - Contribution(parts.rows[id]) + Contribution(q)
  {
    var after := Table(parts.rows[id := q], parts.lastId);
    IdsUpToAgree(after.rows, parts.rows, parts.lastId);
    assert after.Scan() == parts.Scan();
    TotalIsSum(parts);
    TotalIsSum(after);
    CompletedHoursUpdate(parts.rows, parts.Scan(), id, q);
  }

  /**
   * Approving a participation as completed with `h` hours, when it was not
   * completed before, adds `h` to the hour total (and makes it non-NULL).
   */
  lemma CompletionAddsHours(parts: Table<Participation>, id: int, q: Participation)
    requires parts.Valid()
    requires id in parts.rows && parts.rows[id].status != Completed
    requires q.status == Completed
    ensures Table(parts.rows[id := q], parts.lastId).Valid()
    ensures TotalHours(Table(parts.rows[id := q], parts.lastId))
         == Some(OrZero(TotalHours(parts)) + q.hoursCompleted)
  {
    UpdateMovesTotal(parts, id, q);
    assert id in CompletedParticipations(parts.rows[id := q]);
  }

  /** Appending a row with a fresh, larger id appends that id to the scan. */
  lemma ScanAfterInsert(parts: Table<Participation>, newId: int, p: Participation)
    requires parts.Valid()
    requires newId > parts.lastId
    ensures Table(parts.rows[newId := p], newId).Valid()
    ensures Table(parts.rows[newId := p], newId).Scan() == parts.Scan() + [newId]
  {
    var after := Table(parts.rows[newId := p], newId);
    var before := IdsUpTo(after.rows, newId - 1);
    assert after.Scan() == before + [newId] by {
      assert newId in after.rows;
    }
    calc {
      before;
    == { IdsUpToAgree(after.rows, parts.rows, newId - 1); }
      IdsUpTo(parts.rows, newId - 1);
    == { IdsUpToNothingAbove(parts.rows, parts.lastId, newId - 1); }
      IdsUpTo(parts.rows, parts.lastId);
    }
  }

  /** A new pending participation leaves the hour total as it was. */
  lemma ApplicationKeepsTotal(parts: Table<Participation>, newId: int, p: Participation)
    requires parts.Valid()
    requires newId > parts.lastId
    requires p.status == Pending
    ensures Table(parts.rows[newId := p], newId).Valid()
    ensures TotalHours(Table(parts.rows[newId := p], newId)) == TotalHours(parts)
  {
    var after := Table(parts.rows[newId := p], newId);
    assert CompletedParticipations(after.rows) == CompletedParticipations(parts.rows);
    ScanAfterInsert(parts, newId, p);
    CompletedHoursAppend(after.rows, parts.Scan(), newId);
    CompletedHoursAgree(after.rows, parts.rows, parts.Scan());
  }

  /** A new pending participation changes no figure of the overview. */
  lemma ApplicationKeepsOverview(
    users: map<int, User>, initiatives: map<int, Initiative>,
    parts: Table<Participation>, newId: int, p: Participation)
    requires parts.Valid()
    requires newId > parts.lastId
    requires p.status == Pending
    ensures Table(parts.rows[newId := p], newId).Valid()
    ensures GetOverview(users, initiatives, Table(parts.rows[newId := p], newId))
         == GetOverview(users, initiatives, parts)
  {
    var after := Table(parts.rows[newId := p], newId);
    assert CompletedParticipations(after.rows) == CompletedParticipations(parts.rows);
    ApplicationKeepsTotal(parts, newId, p);
  }

  /** GROUP BY category: each category that occurs, with the number of its initiatives. */
  function Categories(initiatives: map<int, Initiative>): set<string>
  {
    set id | id in initiatives :: initiatives[id].category
  }

  function InCategory(initiatives: map<int, Initiative>, c: string): set<int>
  {
    set id | id in initiatives && initiatives[id].category == c
  }

  /** One entry per category that occurs, never a group of 0. */
  function CategoryCounts(initiatives: map<int, Initiative>): (counts: map<string, nat>)
    ensures counts.Keys == Categories(initiatives)
    ensures forall c :: c in counts ==> counts[c] == |InCategory(initiatives, c)| && counts[c] >= 1
  {
    var counts := map c | c in Categories(initiatives) :: |InCategory(initiatives, c)|;
    assert forall c :: c in counts ==> counts[c] >= 1 by {
      forall c | c in counts ensures counts[c] >= 1 {
        var id :| id in initiatives && initiatives[id].category == c;
        assert id in InCategory(initiatives, c);
      }
    }
    counts
  }

  const RECENT_LIMIT: nat := 5

  predicate JoinsUser(users: map<int, User>, i: Initiative)
  {
    i.organizationId in users
  }

  /**
   * ORDER BY created_at DESC LIMIT 5 over the initiatives that join a user:
   * at most five, no repeats, newest first, and every joinable initiative
   * left out is no newer than any that was kept.
   */
  function RecentIds(users: map<int, User>, initiatives: Table<Initiative>): (ids: seq<int>)
    requires initiatives.Valid()
    ensures |ids| <= RECENT_LIMIT
    ensures Distinct(ids)
    ensures forall k :: 0 <= k < |ids| ==> ids[k] in initiatives.rows && JoinsUser(users, initiatives.rows[ids[k]])
    ensures forall a, b :: 0 <= a < b < |ids| ==>
      TextLe(initiatives.rows[ids[b]].createdAt, initiatives.rows[ids[a]].createdAt)
    ensures |ids| < RECENT_LIMIT ==>
      forall id :: id in initiatives.rows && JoinsUser(users, initiatives.rows[id]) ==> id in ids
  {
    var all := JoinedByCreation(users, initiatives);
    var ids := Limited(all, RECENT_LIMIT);
    forall k | 0 <= k < |ids|
      ensures ids[k] in initiatives.rows && JoinsUser(users, initiatives.rows[ids[k]])
    {
      assert ids[k] == all[k];
    }
    forall a, b | 0 <= a < b < |ids|
      ensures ids[a] != ids[b]
      ensures TextLe(initiatives.rows[ids[b]].createdAt, initiatives.rows[ids[a]].createdAt)
    {
      assert ids[a] == all[a] && ids[b] == all[b];
      assert TextLe(CreatedAt(initiatives.rows[all[b]]), CreatedAt(initiatives.rows[all[a]]));
    }
    ids
  }

  /** The initiatives that join a user, newest first. */
  function JoinedByCreation(users: map<int, User>, initiatives: Table<Initiative>): (all: seq<int>)
    requires initiatives.Valid()
    ensures forall id :: id in all <==> id in initiatives.rows && JoinsUser(users, initiatives.rows[id])
    ensures Distinct(all)
    ensures Descending(initiatives.rows, all, CreatedAt)
    ensures forall k :: 0 <= k < |all| ==> JoinsUser(users, initiatives.rows[all[k]])
  {
    SelectOrdered(initiatives, i => JoinsUser(users, i), CreatedAt)
  }

  /** Every joinable initiative the limit leaves out is no newer than any that was kept. */
  lemma RecentAreNewest(users: map<int, User>, initiatives: Table<Initiative>, id: int, k: int)
    requires initiatives.Valid()
    requires id in initiatives.rows && JoinsUser(users, initiatives.rows[id])
    requires id !in RecentIds(users, initiatives)
    requires 0 <= k < |RecentIds(users, initiatives)|
    ensures TextLe(initiatives.rows[id].createdAt, initiatives.rows[RecentIds(users, initiatives)[k]].createdAt)
  {
    var all := JoinedByCreation(users, initiatives);
    var ids := RecentIds(users, initiatives);
    BeyondLimitIsNoGreater(initiatives.rows, all, CreatedAt, |ids|, id, k);
  }

  datatype RecentInitiative = RecentInitiative(
    title: string,
    category: string,
    startDate: string,
    organization: string)

  /** The three parts of the statistics response. */
  datatype Statistics = Statistics(
    overview: Overview,
    categories: map<string, nat>,
    recent: seq<RecentInitiative>)

  function GetStatistics(
    users: map<int, User>, initiatives: Table<Initiative>, parts: Table<Participation>
  ): (s: Statistics)
    requires initiatives.Valid() && parts.Valid()
    ensures s.overview == GetOverview(users, initiatives.rows, parts)
    ensures s.categories == CategoryCounts(initiatives.rows)
    ensures var ids := RecentIds(users, initiatives);
      && |s.recent| == |ids|
      && forall k :: 0 <= k < |ids| ==>
        var i := initiatives.rows[ids[k]];
        s.recent[k] == RecentInitiative(i.title, i.category, i.startDate, users[i.organizationId].name)
  {
    var ids := RecentIds(users, initiatives);
    var recent := seq(|ids|, k requires 0 <= k < |ids| =>
      var i := initiatives.rows[ids[k]];
      RecentInitiative(i.title, i.category, i.startDate, users[i.organizationId].name));
    Statistics(GetOverview(users, initiatives.rows, parts), CategoryCounts(initiatives.rows), recent)
  }

  // ---------------------------------------------------------------------------
  // GET /users

  predicate TypeMatches(u: User, userType: Option<string>)
  {
    TextGiven(userType) ==> UserTypeName(u.userType) == userType.value
  }

  /** The ids of the listed users, ascending: all users, or those of the given type. */
  function UserIds(users: Table<User>, userType: Option<string>): (ids: seq<int>)
    requires users.Valid()
    ensures forall id :: id in ids <==> id in users.rows && TypeMatches(users.rows[id], userType)
    ensures StrictlyAscending(ids)
  {
    Select(users.rows, users.Scan(), u => TypeMatches(u, userType))
  }

  datatype UserRow = UserRow(id: int, user: User)

  function GetUsers(users: Table<User>, userType: Option<string>): (rows: seq<UserRow>)
    requires users.Valid()
    ensures var ids := UserIds(users, userType);
      && |rows| == |ids|
      && forall k :: 0 <= k < |rows| ==> ids[k] in users.rows && rows[k] == UserRow(ids[k], users.rows[ids[k]])
  {
    var ids := UserIds(users, userType);
    seq(|ids|, k requires 0 <= k < |ids| =>
      var id := ids[k];
      assert id in ids;
      UserRow(id, users.rows[id]))
  }

  /** Listing one user type gives as many users as the overview counts for it. */
  lemma UserListMatchesOverview(users: Table<User>, t: UserType)
    requires users.Valid()
    ensures |UserIds(users, Some(UserTypeName(t)))| == |UsersOfType(users.rows, t)|
  {
    var ids := UserIds(users, Some(UserTypeName(t)));
    forall u: User ensures TypeMatches(u, Some(UserTypeName(t))) <==> u.userType == t {
      assert UserTypeName(u.userType) == UserTypeName(t) ==> u.userType == t;
    }
    assert (set id | id in ids) == UsersOfType(users.rows, t);
    DistinctCardinality(ids);
  }

  /** A type filter naming no user type lists nobody. */
  lemma UnknownTypeListsNobody(users: Table<User>, text: string)
    requires users.Valid()
    requires text != "" && ParseUserType(text).None?
    ensures UserIds(users, Some(text)) == []
  {
    var ids := UserIds(users, Some(text));
    forall id | id in users.rows
      ensures !TypeMatches(users.rows[id], Some(text))
    {
    }
    assert (set id | id in ids) == {};
    DistinctCardinality(ids);
  }
}
