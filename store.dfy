/** The escrow handlers of backend/src/controllers/escrow.controller.js as
    methods of an in-memory store. The two collections the handlers touch
    are fields: the escrows by id and the projects by id. A project or
    escrow id that is missing or not a well-formed ObjectId arrives as
    `None`; a milestone id is not validated, and a malformed one is an id
    that no milestone has; the authenticated user arrives as an id; `now`
    is the clock reading of a handler that stamps a date. */
module EscrowStore {
  import opened Wrappers
  import opened EscrowModel
  import opened Ledger
  import JsText

  /** What a handler throws. */
  datatype Error =
    | BadRequest(message: string)  // ApiError with status 400
    | Forbidden(message: string)   // ApiError with status 403
    | NotFound(message: string)    // ApiError with status 404
    | SchemaRejected               // Mongoose's ValidationError from `Escrow.create`

  const ProjectIdRequired := "Valid project ID is required"
  const ProjectNotFound := "Project not found"
  const OnlyClientCreates := "Only project client can create escrow"
  const EscrowExists := "An escrow already exists for this project"
  const EscrowIdRequired := "Valid escrow ID is required"
  const EscrowNotFound := "Escrow not found"
  const NoEscrowForProject := "No escrow found for this project"
  const NoViewPermission := "You don't have permission to view this escrow"
  const OnlyClientFunds := "Only the client can fund milestones"
  const MilestoneNotFound := "Milestone not found"
  const OnlyPendingFunded := "Only pending milestones can be funded"
  const NoApprovePermission := "Unauthorized to approve milestone"
  const OnlyFundedReleased := "Only funded milestones can be released"
  const ReasonRequired := "Dispute reason is required"
  const NoDisputePermission := "Unauthorized to raise dispute"

  /** The body of the list handler's answer. */
  datatype UserEscrows = UserEscrows(escrows: seq<Escrow>, count: nat)

  // ------------------------------------------------------------ the query

  /** The Mongo filter the list handler assembles: an optional status, and
      the user as client, as freelancer, or (`$or`) as either. */
  datatype Query = Query(
    status: Option<string>,
    client: Option<Id>,
    freelancer: Option<Id>,
    eitherParty: Option<Id>)

  /** Whether `Escrow.find(q)` returns `e`. */
  predicate Matches(e: Escrow, q: Query) {
    && (q.status.Some? ==> StatusName(e.status) == q.status.value)
    && (q.client.Some? ==> e.client == q.client.value)
    && (q.freelancer.Some? ==> e.freelancer == q.freelancer.value)
    && (q.eitherParty.Some? ==> e.client == q.eitherParty.value || e.freelancer == q.eitherParty.value)
  }

  /** The filter of the list handler for query parameters `status` and
      `role` (the empty string is an absent parameter): it selects the
      escrows in which the user holds the requested role (`client`,
      `freelancer`, or either one for any other value), narrowed to the
      given status when there is one. */
  function UserQuery(user: Id, status: string, role: string): (q: Query)
    ensures forall e :: Matches(e, q) <==>
              && (status != "" ==> StatusName(e.status) == status)
              && (if role == "client" then e.client == user
                  else if role == "freelancer" then e.freelancer == user
                  else IsParticipant(e, user))
  {
    var empty := Query(None, None, None, None);
    var byStatus := if status != "" then empty.(status := Some(status)) else empty;
    if role == "client" then byStatus.(client := Some(user))
    else if role == "freelancer" then byStatus.(freelancer := Some(user))
    else byStatus.(eitherParty := Some(user))
  }

  /** A status query names one stored status: listing with the name of
      status `s` returns exactly the user's escrows (in the requested role)
      whose status is `s`. */
  lemma StatusQuerySelectsOneStatus(user: Id, s: EscrowStatus, role: string, e: Escrow)
    ensures Matches(e, UserQuery(user, StatusName(s), role)) <==>
              && e.status == s
              && (if role == "client" then e.client == user
                  else if role == "freelancer" then e.freelancer == user
                  else IsParticipant(e, user))
  {
    StatusNameInjective(e.status, s);
  }

  /** The escrows of the collection that match `q`. */
  function Selected(escrows: map<Id, Escrow>, q: Query): set<Escrow> {
    set k | k in escrows && Matches(escrows[k], q) :: escrows[k]
  }

  /** `.sort({ createdAt: -1 })`: newest first. */
  predicate NewestFirst(s: seq<Escrow>) {
    forall i, j | 0 <= i < j < |s| :: s[i].createdAt >= s[j].createdAt
  }

  /** Places `e` in a newest-first list so that it stays newest first. */
  function InsertNewestFirst(s: seq<Escrow>, e: Escrow): (r: seq<Escrow>)
    requires NewestFirst(s)
    ensures NewestFirst(r)
    ensures multiset(r) == multiset(s) + multiset{e}
  {
    if s == [] then [e]
    else if e.createdAt >= s[0].createdAt then [e] + s
    else
      var rest := InsertNewestFirst(s[1..], e);
      assert s == [s[0]] + s[1..];
      HeadStaysNewest(s, e, rest);
      [s[0]] + rest
  }

  /** When `e` is older than the head of `s`, the head is at least as new
      as everything the insertion into the tail of `s` yields. */
  lemma HeadStaysNewest(s: seq<Escrow>, e: Escrow, rest: seq<Escrow>)
    requires NewestFirst(s) && |s| > 0 && e.createdAt < s[0].createdAt
    requires NewestFirst(rest) && multiset(rest) == multiset(s[1..]) + multiset{e}
    ensures NewestFirst([s[0]] + rest)
  {
    forall j | 0 <= j < |rest| ensures rest[j].createdAt <= s[0].createdAt {
      assert rest[j] in multiset(rest);
      if rest[j] != e {
        NoNewerThanHead(s, rest[j]);
      }
    }
  }

  /** The head of a newest-first list is at least as new as anything after it. */
  lemma NoNewerThanHead(s: seq<Escrow>, x: Escrow)
    requires NewestFirst(s) && |s| > 0 && x in s[1..]
    ensures x.createdAt <= s[0].createdAt
  {
    var k :| 0 <= k < |s[1..]| && s[1..][k] == x;
    assert s[k + 1] == x;
  }

  /** Looking at one more key of the collection adds its escrow to the
      selection exactly when it matches, and it was not there before. */
  lemma SelectedStep(escrows: map<Id, Escrow>, unseen: set<Id>, k: Id, q: Query)
    requires forall j | j in escrows :: escrows[j].id == j
    requires k in unseen && unseen <= escrows.Keys
    ensures escrows[k] !in Selected(escrows - unseen, q)
    ensures Selected(escrows - (unseen - {k}), q)
            == if Matches(escrows[k], q) then Selected(escrows - unseen, q) + {escrows[k]}
               else Selected(escrows - unseen, q)
  {
    var seen, seenNow := escrows - unseen, escrows - (unseen - {k});
    var before, after := Selected(seen, q), Selected(seenNow, q);
    forall x | x in after
      ensures x in before || (x == escrows[k] && Matches(escrows[k], q))
    {
      var j :| j in seenNow && Matches(seenNow[j], q) && seenNow[j] == x;
      if j != k {
        assert j in seen;
      }
    }
    forall x | x in before ensures x in after {
      var j :| j in seen && Matches(seen[j], q) && seen[j] == x;
      assert j in seenNow;
    }
    if Matches(escrows[k], q) {
      assert k in seenNow;
      assert escrows[k] in after;
    }
  }

  /** The multiset of a set grows by one element when the set does. */
  lemma MultisetOfAddedElement<T>(a: set<T>, x: T)
    requires x !in a
    ensures multiset(a + {x}) == multiset(a) + multiset{x}
  {
  }

  // ---------------------------------------------------- the store invariant

  /** Some escrow of the collection belongs to project `project`. */
  predicate HasEscrowFor(escrows: map<Id, Escrow>, project: Id) {
    exists k | k in escrows :: escrows[k].project == project
  }

  /** Every stored escrow is filed under its own id, which lies below the
      next id to hand out, and keeps the record invariant; no two escrows
      belong to the same project. */
  ghost predicate StoreInvariant(escrows: map<Id, Escrow>, nextId: Id) {
    && (forall k | k in escrows :: escrows[k].id == k && k < nextId && EscrowInvariant(escrows[k]))
    && (forall k1, k2 | k1 in escrows && k2 in escrows && escrows[k1].project == escrows[k2].project :: k1 == k2)
  }

  /** `after` is a later version of the escrow `before`: the fields fixed at
      creation (id, project, parties, amount, currency, creation date) are
      the same, the milestones have only moved forward, and a dispute once
      recorded is still recorded. */
  predicate LaterVersion(before: Escrow, after: Escrow) {
    && after.id == before.id
    && after.project == before.project
    && after.client == before.client
    && after.freelancer == before.freelancer
    && after.amount == before.amount
    && after.currency == before.currency
    && after.createdAt == before.createdAt
    && Advances(before.milestones, after.milestones)
    && (before.disputeDetails.Some? ==> after.disputeDetails.Some?)
  }

  /** No escrow is removed by a handler, and each one only moves forward. */
  ghost predicate Evolves(before: map<Id, Escrow>, after: map<Id, Escrow>) {
    forall k | k in before :: k in after && LaterVersion(before[k], after[k])
  }

  /** Handlers compose: a store that has evolved twice has evolved from
      the first state, so no sequence of handler calls removes an escrow,
      changes a field fixed at creation or moves a milestone back. */
  lemma EvolvesTransitive(a: map<Id, Escrow>, b: map<Id, Escrow>, c: map<Id, Escrow>)
    requires Evolves(a, b) && Evolves(b, c)
    ensures Evolves(a, c)
  {
    forall k | k in a ensures k in c && LaterVersion(a[k], c[k]) {
      AdvancesTransitive(a[k].milestones, b[k].milestones, c[k].milestones);
    }
  }

  /** Writing back a later version of one escrow keeps the store invariant. */
  lemma ReplacePreservesStore(escrows: map<Id, Escrow>, nextId: Id, id: Id, e: Escrow)
    requires StoreInvariant(escrows, nextId)
    requires id in escrows && LaterVersion(escrows[id], e) && EscrowInvariant(e)
    ensures StoreInvariant(escrows[id := e], nextId)
    ensures Evolves(escrows, escrows[id := e])
  {
  }

  /** Adding an escrow under a fresh id, for a project that has none yet,
      keeps the store invariant. */
  lemma AddPreservesStore(escrows: map<Id, Escrow>, nextId: Id, e: Escrow, newNextId: Id)
    requires StoreInvariant(escrows, nextId)
    requires e.id == nextId < newNextId && EscrowInvariant(e) && !HasEscrowFor(escrows, e.project)
    ensures StoreInvariant(escrows[e.id := e], newNextId)
    ensures Evolves(escrows, escrows[e.id := e])
  {
    forall k | k in escrows ensures escrows[k].project != e.project {
    }
  }

  class Store {
    var escrows: map<Id, Escrow>
    var projects: map<Id, Project>
    var nextId: Id

    ghost predicate Valid()
      reads this
    {
      StoreInvariant(escrows, nextId)
    }

    /** An empty escrow collection beside the given projects. */
    constructor (projects: map<Id, Project>)
      ensures Valid()
      ensures escrows == map[] && this.projects == projects
    {
      escrows := map[];
      this.projects := projects;
      nextId := 0;
    }

    /** `Escrow.findOne({ project })`: the id of an escrow of that project,
        or `None` when the project has none. */
    method FindEscrowOfProject(project: Id) returns (found: Option<Id>)
      ensures found.None? <==> !HasEscrowFor(escrows, project)
      ensures found.Some? ==> found.value in escrows && escrows[found.value].project == project
    {
      var unseen := escrows.Keys;
      while unseen != {}
        invariant unseen <= escrows.Keys
        invariant forall k | k in escrows.Keys - unseen :: escrows[k].project != project
        decreases unseen
      {
        var k :| k in unseen;
        if escrows[k].project == project {
          return Some(k);
        }
        unseen := unseen - {k};
      }
      return None;
    }

    /** createEscrow. Checks, in this order: a project id (400), an existing
        project (404), the user is its client (403), no escrow for it yet
        (400), then Mongoose's validation of the new document. On success the
        escrow is stored under a fresh id, its amount the sum of the
        requested milestone amounts, every milestone pending, and the project
        is linked to it. */
    method CreateEscrow(projectParam: Option<Id>, inputs: seq<MilestoneInput>, user: Id, now: Timestamp)
      returns (r: Result<Escrow, Error>)
      requires Valid()
      modifies this
      ensures Valid()
      ensures Evolves(old(escrows), escrows)
      ensures r.Err? ==> escrows == old(escrows) && projects == old(projects) && nextId == old(nextId)
      ensures projectParam.None? ==> r == Err(BadRequest(ProjectIdRequired))
      ensures projectParam.Some? && projectParam.value !in old(projects) ==> r == Err(NotFound(ProjectNotFound))
      ensures projectParam.Some? && projectParam.value in old(projects) ==>
                var project := old(projects)[projectParam.value];
                if project.client != user then r == Err(Forbidden(OnlyClientCreates))
                else if HasEscrowFor(old(escrows), projectParam.value) then r == Err(BadRequest(EscrowExists))
                else if project.freelancer.None? || exists i | 0 <= i < |inputs| :: !InputAcceptable(inputs[i])
                then r == Err(SchemaRejected)
                else r == Ok(NewEscrow(old(nextId), projectParam.value, user, project.freelancer.value,
                                       project.budgetCurrency, inputs, now))
      ensures r.Ok? ==>
                && escrows == old(escrows)[r.value.id := r.value]
                && r.value.id !in old(escrows)
                && projects == old(projects)[r.value.project := old(projects)[r.value.project].(escrow := Some(r.value.id))]
                && nextId == old(nextId) + |inputs| + 1
      ensures r.Ok? ==>
                && r.value.amount == Total(InputAmounts(inputs))
                && r.value.status == EscrowStatus.Pending
                && forall i | 0 <= i < |r.value.milestones| :: r.value.milestones[i].status.Pending?
    {
      if projectParam.None? {
        return Err(BadRequest(ProjectIdRequired));
      }
      var projectId := projectParam.value;
      if projectId !in projects {
        return Err(NotFound(ProjectNotFound));
      }
      var project := projects[projectId];
      if project.client != user {
        return Err(Forbidden(OnlyClientCreates));
      }
      var existing := FindEscrowOfProject(projectId);
      if existing.Some? {
        return Err(BadRequest(EscrowExists));
      }
      var id := nextId;
      if project.freelancer.None? {
        return Err(SchemaRejected);
      }
      var escrow := NewEscrow(id, projectId, user, project.freelancer.value, project.budgetCurrency, inputs, now);
      NewEscrowValidIff(id, projectId, user, project.freelancer.value, project.budgetCurrency, inputs, now);
      if !ValidEscrow(escrow) {
        return Err(SchemaRejected);
      }
      NewEscrowInvariant(id, projectId, user, project.freelancer.value, project.budgetCurrency, inputs, now);
      AddPreservesStore(escrows, nextId, escrow, nextId + |inputs| + 1);
      escrows := escrows[id := escrow];
      nextId := nextId + |inputs| + 1;
      projects := projects[projectId := project.(escrow := Some(id))];
      r := Ok(escrow);
    }

    /** getEscrowById: an escrow id (400), an existing escrow (404), and the
        user one of its two parties (403). */
    method GetEscrowById(escrowParam: Option<Id>, user: Id) returns (r: Result<Escrow, Error>)
      ensures escrowParam.None? ==> r == Err(BadRequest(EscrowIdRequired))
      ensures escrowParam.Some? && escrowParam.value !in escrows ==> r == Err(NotFound(EscrowNotFound))
      ensures escrowParam.Some? && escrowParam.value in escrows && !IsParticipant(escrows[escrowParam.value], user)
              ==> r == Err(Forbidden(NoViewPermission))
      ensures r.Ok? <==> escrowParam.Some? && escrowParam.value in escrows && IsParticipant(escrows[escrowParam.value], user)
      ensures r.Ok? ==> r.value == escrows[escrowParam.value]
    {
      if escrowParam.None? {
        return Err(BadRequest(EscrowIdRequired));
      }
      var id := escrowParam.value;
      if id !in escrows {
        return Err(NotFound(EscrowNotFound));
      }
      var escrow := escrows[id];
      if !IsParticipant(escrow, user) {
        return Err(Forbidden(NoViewPermission));
      }
      r := Ok(escrow);
    }

    /** getEscrowByProject: a project id (400), an escrow of that project
        (404), and the user one of its two parties (403). */
    method GetEscrowByProject(projectParam: Option<Id>, user: Id) returns (r: Result<Escrow, Error>)
      requires Valid()
      ensures projectParam.None? ==> r == Err(BadRequest(ProjectIdRequired))
      ensures projectParam.Some? && !HasEscrowFor(escrows, projectParam.value) ==> r == Err(NotFound(NoEscrowForProject))
      ensures projectParam.Some? ==> forall k | k in escrows && escrows[k].project == projectParam.value ::
                r == if IsParticipant(escrows[k], user) then Ok(escrows[k]) else Err(Forbidden(NoViewPermission))
    {
      if projectParam.None? {
        return Err(BadRequest(ProjectIdRequired));
      }
      var found := FindEscrowOfProject(projectParam.value);
      if found.None? {
        return Err(NotFound(NoEscrowForProject));
      }
      var escrow := escrows[found.value];
      if !IsParticipant(escrow, user) {
        return Err(Forbidden(NoViewPermission));
      }
      r := Ok(escrow);
    }

    /** getUserEscrows: exactly the escrows in which the user holds the
        requested role, narrowed by status when one is given, each once,
        newest first, with their count. */
    method GetUserEscrows(user: Id, status: string, role: string) returns (r: UserEscrows)
      requires Valid()
      ensures r.count == |r.escrows|
      ensures multiset(r.escrows) == multiset(Selected(escrows, UserQuery(user, status, role)))
      ensures NewestFirst(r.escrows)
      ensures forall i | 0 <= i < |r.escrows| :: IsParticipant(r.escrows[i], user)
    {
      var query := UserQuery(user, status, role);
      var unseen := escrows.Keys;
      var found: seq<Escrow> := [];
      while unseen != {}
        invariant unseen <= escrows.Keys
        invariant NewestFirst(found)
        invariant multiset(found) == multiset(Selected(escrows - unseen, query))
        decreases unseen
      {
        var k :| k in unseen;
        SelectedStep(escrows, unseen, k, query);
        if Matches(escrows[k], query) {
          MultisetOfAddedElement(Selected(escrows - unseen, query), escrows[k]);
          found := InsertNewestFirst(found, escrows[k]);
        }
        unseen := unseen - {k};
      }
      assert escrows - unseen == escrows;
      forall i | 0 <= i < |found| ensures IsParticipant(found[i], user) {
        assert found[i] in multiset(found);
      }
      r := UserEscrows(found, |found|);
    }

    /** fundMilestone: an escrow id (400), an existing escrow (404), the user
        its client (403), the milestone present (404) and pending (400). On
        success only that milestone changes, to `funded`; the escrow's own
        status is left as it was. */
    method FundMilestone(escrowParam: Option<Id>, milestoneId: Id, user: Id) returns (r: Result<Escrow, Error>)
      requires Valid()
      modifies this
      ensures Valid()
      ensures Evolves(old(escrows), escrows)
      ensures projects == old(projects) && nextId == old(nextId)
      ensures r.Err? ==> escrows == old(escrows)
      ensures r.Ok? ==> escrows == old(escrows)[r.value.id := r.value]
      ensures escrowParam.None? ==> r == Err(BadRequest(EscrowIdRequired))
      ensures escrowParam.Some? && escrowParam.value !in old(escrows) ==> r == Err(NotFound(EscrowNotFound))
      ensures escrowParam.Some? && escrowParam.value in old(escrows) ==>
                var e := old(escrows)[escrowParam.value];
                var found := FindMilestone(e.milestones, milestoneId);
                r == if user != e.client then Err(Forbidden(OnlyClientFunds))
                     else if found.None? then Err(NotFound(MilestoneNotFound))
                     else if !e.milestones[found.value].status.Pending? then Err(BadRequest(OnlyPendingFunded))
                     else Ok(AfterFunding(e, found.value))
      ensures r.Ok? ==> r.value.status == old(escrows)[r.value.id].status
    {
      if escrowParam.None? {
        return Err(BadRequest(EscrowIdRequired));
      }
      var id := escrowParam.value;
      if id !in escrows {
        return Err(NotFound(EscrowNotFound));
      }
      var escrow := escrows[id];
      if escrow.client != user {
        return Err(Forbidden(OnlyClientFunds));
      }
      var found := FindMilestone(escrow.milestones, milestoneId);
      if found.None? {
        return Err(NotFound(MilestoneNotFound));
      }
      var i := found.value;
      if !escrow.milestones[i].status.Pending? {
        return Err(BadRequest(OnlyPendingFunded));
      }
      var milestone := escrow.milestones[i];
      milestone := milestone.(status := MilestoneStatus.Funded);
      escrow := escrow.(milestones := escrow.milestones[i := milestone]);
      FundingPreservesInvariant(escrows[id], i);
      ReplacePreservesStore(escrows, nextId, id, escrow);
      escrows := escrows[id := escrow];
      r := Ok(escrow);
    }

    /** releaseMilestone: an escrow id (400), an existing escrow (404), the
        user one of its parties (403), the milestone present (404) and funded
        (400). The user's approval flag is set (the client's when the user is
        the client, the freelancer's otherwise); once both are set the
        milestone is released and the escrow status is overwritten. */
    method ReleaseMilestone(escrowParam: Option<Id>, milestoneId: Id, user: Id, now: Timestamp)
      returns (r: Result<Escrow, Error>)
      requires Valid()
      modifies this
      ensures Valid()
      ensures Evolves(old(escrows), escrows)
      ensures projects == old(projects) && nextId == old(nextId)
      ensures r.Err? ==> escrows == old(escrows)
      ensures r.Ok? ==> escrows == old(escrows)[r.value.id := r.value]
      ensures escrowParam.None? ==> r == Err(BadRequest(EscrowIdRequired))
      ensures escrowParam.Some? && escrowParam.value !in old(escrows) ==> r == Err(NotFound(EscrowNotFound))
      ensures escrowParam.Some? && escrowParam.value in old(escrows) ==>
                var e := old(escrows)[escrowParam.value];
                var found := FindMilestone(e.milestones, milestoneId);
                r == if !IsParticipant(e, user) then Err(Forbidden(NoApprovePermission))
                     else if found.None? then Err(NotFound(MilestoneNotFound))
                     else if !e.milestones[found.value].status.Funded? then Err(BadRequest(OnlyFundedReleased))
                     else Ok(AfterApproval(e, found.value, user == e.client, now))
    {
      if escrowParam.None? {
        return Err(BadRequest(EscrowIdRequired));
      }
      var id := escrowParam.value;
      if id !in escrows {
        return Err(NotFound(EscrowNotFound));
      }
      var escrow := escrows[id];
      if !IsParticipant(escrow, user) {
        return Err(Forbidden(NoApprovePermission));
      }
      var found := FindMilestone(escrow.milestones, milestoneId);
      if found.None? {
        return Err(NotFound(MilestoneNotFound));
      }
      var i := found.value;
      if !escrow.milestones[i].status.Funded? {
        return Err(BadRequest(OnlyFundedReleased));
      }
      ghost var approved := Approve(escrow.milestones[i], user == escrow.client, now);
      var milestone := escrow.milestones[i];
      if user == escrow.client {
        milestone := milestone.(clientApproval := true);
      } else {
        milestone := milestone.(freelancerApproval := true);
      }
      if milestone.clientApproval && milestone.freelancerApproval {
        milestone := milestone.(status := MilestoneStatus.Released, completedAt := Some(now));
        assert milestone == approved;
        var milestones := escrow.milestones[i := milestone];
        var allReleased := AllReleased(milestones);
        if allReleased {
          escrow := escrow.(milestones := milestones, status := EscrowStatus.Released);
        } else {
          escrow := escrow.(milestones := milestones, status := EscrowStatus.PartiallyReleased);
        }
      } else {
        assert milestone == approved;
        escrow := escrow.(milestones := escrow.milestones[i := milestone]);
      }
      assert escrow == AfterApproval(escrows[id], i, user == escrows[id].client, now);
      ApprovalPreservesInvariant(escrows[id], i, user == escrows[id].client, now);
      ReplacePreservesStore(escrows, nextId, id, escrow);
      escrows := escrows[id := escrow];
      r := Ok(escrow);
    }

    /** raiseDispute: an escrow id (400), a reason that is not blank (400),
        an existing escrow (404), the user one of its parties (403). On
        success the escrow becomes `disputed` with a new pending dispute
        raised by the user; an earlier dispute is replaced and the milestones
        are left as they were. */
    method RaiseDispute(escrowParam: Option<Id>, reason: Option<string>, user: Id, now: Timestamp)
      returns (r: Result<Escrow, Error>)
      requires Valid()
      modifies this
      ensures Valid()
      ensures Evolves(old(escrows), escrows)
      ensures projects == old(projects) && nextId == old(nextId)
      ensures r.Err? ==> escrows == old(escrows)
      ensures r.Ok? ==> escrows == old(escrows)[r.value.id := r.value]
      ensures escrowParam.None? ==> r == Err(BadRequest(EscrowIdRequired))
      ensures escrowParam.Some? && (reason.None? || JsText.IsBlank(reason.value)) ==> r == Err(BadRequest(ReasonRequired))
      ensures escrowParam.Some? && reason.Some? && !JsText.IsBlank(reason.value) ==>
                if escrowParam.value !in old(escrows) then r == Err(NotFound(EscrowNotFound))
                else
                  var e := old(escrows)[escrowParam.value];
                  r == if !IsParticipant(e, user) then Err(Forbidden(NoDisputePermission))
                       else Ok(AfterDispute(e, user, reason.value, now))
    {
      if escrowParam.None? {
        return Err(BadRequest(EscrowIdRequired));
      }
      if reason.Some? {
        JsText.TrimIsEmptyIffBlank(reason.value);
      }
      if reason.None? || JsText.Trim(reason.value) == "" {
        return Err(BadRequest(ReasonRequired));
      }
      var id := escrowParam.value;
      if id !in escrows {
        return Err(NotFound(EscrowNotFound));
      }
      var escrow := escrows[id];
      if !IsParticipant(escrow, user) {
        return Err(Forbidden(NoDisputePermission));
      }
      escrow := escrow.(status := EscrowStatus.Disputed);
      escrow := escrow.(disputeDetails := Some(NewDispute(user, reason.value, now)));
      DisputePreservesInvariant(escrows[id], user, reason.value, now);
      ReplacePreservesStore(escrows, nextId, id, escrow);
      escrows := escrows[id := escrow];
      r := Ok(escrow);
    }
  }
}
