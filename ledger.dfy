/** The pure derivations of the escrow controller
    (backend/src/controllers/escrow.controller.js): the total of a create
    request (`reduce`), the milestones it creates (`map`), the milestone
    lookup (`milestones.id`), the all-released test (`every`), the
    participant test (`includes`), and the record each state-changing
    handler writes back, with the invariants those records keep. */
module Ledger {
  import opened Wrappers
  import opened EscrowModel
  import JsText

  /** One element of the `milestones` array in a create request's body,
      as the handler's `||` defaults see it. A description or due date
      that is falsy (absent, `null`, `""`, `0`, `false`) is `None`, and is
      replaced by its default; a truthy due date is `Some` of the instant
      Mongoose casts it to. A title is `None` when absent or `""`. */
  datatype MilestoneInput = MilestoneInput(
    title: Option<string>,
    description: Option<string>,
    amount: real,
    dueDate: Option<Timestamp>)

  /** The default due date lies thirty days (in milliseconds) after creation. */
  const DueDateOffset: nat := 30 * 24 * 60 * 60 * 1000

  // ---------------------------------------------------------------- totals

  /** `xs.reduce((sum, x) => sum + x, 0)`, folded from the left. With no
      negative term the total is non-negative and bounds every term. */
  function Total(xs: seq<real>): (t: real)
    ensures (forall i | 0 <= i < |xs| :: xs[i] >= 0.0) ==>
              t >= 0.0 && forall i | 0 <= i < |xs| :: xs[i] <= t
  {
    if xs == [] then 0.0 else Total(xs[..|xs| - 1]) + xs[|xs| - 1]
  }

  function InputAmounts(inputs: seq<MilestoneInput>): seq<real> {
    seq(|inputs|, i requires 0 <= i < |inputs| => inputs[i].amount)
  }

  function Amounts(ms: seq<Milestone>): seq<real> {
    seq(|ms|, i requires 0 <= i < |ms| => ms[i].amount)
  }

  // ------------------------------------------------------------- creation

  /** What Mongoose accepts of one requested milestone: a title that is not
      blank once trimmed, and an amount of at least zero. */
  predicate InputAcceptable(input: MilestoneInput) {
    && input.title.Some?
    && !JsText.IsBlank(input.title.value)
    && input.amount >= 0.0
  }

  /** One element of the create handler's `milestones.map(...)`, completed
      by the schema: title and description trimmed, the description and the
      due date defaulted, status `pending`, no approvals. */
  function BuildMilestone(input: MilestoneInput, id: Id, now: Timestamp): (m: Milestone)
    ensures m.id == id && m.amount == input.amount
    ensures m.status.Pending? && !m.clientApproval && !m.freelancerApproval && m.completedAt.None?
    ensures m.title == if input.title.Some? then JsText.Trim(input.title.value) else ""
    ensures m.description == if input.description.Some? then JsText.Trim(input.description.value) else ""
    ensures m.dueDate == if input.dueDate.Some? then input.dueDate.value else now + DueDateOffset
  {
    var title := match input.title case Some(t) => t case None => "";
    var description := match input.description case Some(d) => d case None => "";
    var dueDate := match input.dueDate case Some(d) => d case None => now + DueDateOffset;
    NewMilestone(id, JsText.Trim(title), JsText.Trim(description), input.amount, dueDate)
  }

  /** The milestones of a new escrow, one per requested milestone and in the
      same order, with fresh distinct ids, the requested amounts, all
      `pending` and unapproved. */
  function BuildMilestones(inputs: seq<MilestoneInput>, firstId: Id, now: Timestamp): (ms: seq<Milestone>)
    ensures |ms| == |inputs|
    ensures Amounts(ms) == InputAmounts(inputs)
    ensures UniqueMilestoneIds(ms)
    ensures forall i | 0 <= i < |ms| ::
              ms[i].id == firstId + i && ms[i].status.Pending? && ApprovalsAgree(ms[i])
    ensures forall i | 0 <= i < |ms| :: ms[i] == BuildMilestone(inputs[i], firstId + i, now)
  {
    var ms := seq(|inputs|, i requires 0 <= i < |inputs| => BuildMilestone(inputs[i], firstId + i, now));
    assert forall i | 0 <= i < |ms| :: ms[i].id == firstId + i;
    ms
  }

  /** `project.budget.currency || "INR"`: an escrow's currency is never
      empty, and it is the project's own whenever the project has one. */
  function CurrencyOr(currency: Option<string>): (c: string)
    ensures c != ""
    ensures c == DefaultCurrency || currency == Some(c)
    ensures currency.Some? && currency.value != "" ==> c == currency.value
  {
    if currency.Some? && currency.value != "" then currency.value else DefaultCurrency
  }

  /** The document the create handler passes to `Escrow.create`. Its amount
      is computed from the requested milestones alone (no total sent by the
      client is read); the creator is its client and the project's
      freelancer its freelancer; it starts `pending`, with no dispute. */
  function NewEscrow(id: Id, project: Id, client: Id, freelancer: Id, currency: Option<string>,
                     inputs: seq<MilestoneInput>, now: Timestamp): (e: Escrow)
    ensures e.id == id && e.project == project && e.createdAt == now
    ensures e.client == client && e.freelancer == freelancer
    ensures e.currency == CurrencyOr(currency) && e.currency != ""
    ensures e.milestones == BuildMilestones(inputs, id + 1, now)
    ensures e.amount == Total(InputAmounts(inputs))
    ensures e.amount == Total(Amounts(e.milestones))
    ensures e.status == EscrowStatus.Pending && e.disputeDetails.None?
    ensures |e.milestones| == |inputs|
    ensures forall i | 0 <= i < |inputs| ::
              e.milestones[i].status.Pending? && e.milestones[i].amount == inputs[i].amount
  {
    var milestones := BuildMilestones(inputs, id + 1, now);
    assert forall i | 0 <= i < |inputs| :: milestones[i].amount == Amounts(milestones)[i];
    Escrow(id, project, client, freelancer, Total(InputAmounts(inputs)), CurrencyOr(currency),
           EscrowStatus.Pending, milestones, None, now)
  }

  /** The one milestone of a create request that Mongoose's validation looks at. */
  lemma BuiltMilestoneValid(input: MilestoneInput, id: Id, now: Timestamp)
    ensures ValidMilestone(BuildMilestone(input, id, now)) <==> InputAcceptable(input)
  {
    var title := match input.title case Some(t) => t case None => "";
    var description := match input.description case Some(d) => d case None => "";
    JsText.TrimIsEmptyIffBlank(title);
  }

  /** The requested milestones Mongoose accepts are exactly the ones whose
      built milestone passes MilestoneSchema's validators. */
  lemma BuiltMilestonesValid(inputs: seq<MilestoneInput>, firstId: Id, now: Timestamp)
    ensures forall i | 0 <= i < |inputs| ::
              ValidMilestone(BuildMilestones(inputs, firstId, now)[i]) <==> InputAcceptable(inputs[i])
  {
    var ms := BuildMilestones(inputs, firstId, now);
    forall i | 0 <= i < |inputs|
      ensures ValidMilestone(ms[i]) <==> InputAcceptable(inputs[i])
    {
      assert ms[i] == BuildMilestone(inputs[i], firstId + i, now);
      BuiltMilestoneValid(inputs[i], firstId + i, now);
    }
  }

  /** `Escrow.create` accepts the document exactly when every requested
      milestone has a non-blank title and a non-negative amount; an empty
      milestone list and zero amounts are accepted. */
  lemma NewEscrowValidIff(id: Id, project: Id, client: Id, freelancer: Id, currency: Option<string>,
                          inputs: seq<MilestoneInput>, now: Timestamp)
    ensures ValidEscrow(NewEscrow(id, project, client, freelancer, currency, inputs, now))
            <==> forall i | 0 <= i < |inputs| :: InputAcceptable(inputs[i])
  {
    var e := NewEscrow(id, project, client, freelancer, currency, inputs, now);
    var ms := e.milestones;
    BuiltMilestonesValid(inputs, id + 1, now);
    var acceptable := forall i | 0 <= i < |inputs| :: InputAcceptable(inputs[i]);
    assert (forall i | 0 <= i < |ms| :: ValidMilestone(ms[i])) <==> acceptable;
    if acceptable {
      var amounts := InputAmounts(inputs);
      assert forall i | 0 <= i < |amounts| :: amounts[i] >= 0.0 by {
        forall i | 0 <= i < |amounts| ensures amounts[i] >= 0.0 {
          assert amounts[i] == inputs[i].amount;
        }
      }
      assert e.amount >= 0.0;
      assert ValidEscrow(e);
    }
  }

  /** A document `Escrow.create` accepts satisfies the record invariant. */
  lemma NewEscrowInvariant(id: Id, project: Id, client: Id, freelancer: Id, currency: Option<string>,
                           inputs: seq<MilestoneInput>, now: Timestamp)
    requires ValidEscrow(NewEscrow(id, project, client, freelancer, currency, inputs, now))
    ensures EscrowInvariant(NewEscrow(id, project, client, freelancer, currency, inputs, now))
  {
    var e := NewEscrow(id, project, client, freelancer, currency, inputs, now);
    assert !SomeReleased(e.milestones);
  }

  // ---------------------------------------------------------------- lookup

  /** `escrow.milestones.id(milestoneId)`: the position of the first
      milestone with that id, or `None` when there is none. */
  function FindMilestone(ms: seq<Milestone>, milestoneId: Id): (r: Option<nat>)
    ensures r.None? <==> forall i | 0 <= i < |ms| :: ms[i].id != milestoneId
    ensures r.Some? ==> r.value < |ms| && ms[r.value].id == milestoneId
    ensures r.Some? ==> forall j | 0 <= j < r.value :: ms[j].id != milestoneId
  {
    if ms == [] then None
    else if ms[0].id == milestoneId then Some(0)
    else match FindMilestone(ms[1..], milestoneId)
      case None => None
      case Some(i) => Some(i + 1)
  }

  /** `[escrow.client, escrow.freelancer].includes(user)`: the user is one
      of the escrow's two parties. */
  function IsParticipant(e: Escrow, user: Id): (r: bool)
    ensures r <==> user == e.client || user == e.freelancer
  {
    user in [e.client, e.freelancer]
  }

  // -------------------------------------------------------------- statuses

  /** `milestones.every(m => m.status === 'released')`; true of no milestones. */
  function AllReleased(ms: seq<Milestone>): (r: bool)
    ensures r <==> forall i | 0 <= i < |ms| :: ms[i].status.Released?
  {
    if ms == [] then true
    else
      assert forall i | 1 <= i < |ms| :: ms[i] == ms[1..][i - 1];
      ms[0].status.Released? && AllReleased(ms[1..])
  }

  predicate SomeReleased(ms: seq<Milestone>) {
    exists i | 0 <= i < |ms| :: ms[i].status.Released?
  }

  /** The escrow status the release handler writes once a milestone has
      been released. */
  function ReleaseStatus(ms: seq<Milestone>): (s: EscrowStatus)
    ensures s.Released? || s.PartiallyReleased?
    ensures s.Released? <==> forall i | 0 <= i < |ms| :: ms[i].status.Released?
  {
    if AllReleased(ms) then EscrowStatus.Released else EscrowStatus.PartiallyReleased
  }

  /** How far along `pending -> funded -> released` a milestone is. */
  function Rank(s: MilestoneStatus): nat {
    match s
    case Pending => 0
    case Funded => 1
    case Released => 2
    case Disputed => 3
  }

  /** The approval flags and completion date agree with the status: nothing
      is approved before funding, a funded milestone lacks one of the two
      approvals, a released one has both and a completion date. No handler
      ever marks a milestone `disputed`. */
  predicate ApprovalsAgree(m: Milestone) {
    match m.status
    case Pending => !m.clientApproval && !m.freelancerApproval && m.completedAt.None?
    case Funded => !(m.clientApproval && m.freelancerApproval) && m.completedAt.None?
    case Released => m.clientApproval && m.freelancerApproval && m.completedAt.Some?
    case Disputed => false
  }

  /** What an escrow's status says about its milestones. `funded` and
      `refunded` are never written by any handler; `disputed` is written
      together with the dispute record. */
  predicate StatusAgrees(e: Escrow) {
    match e.status
    case Pending => !SomeReleased(e.milestones)
    case PartiallyReleased => SomeReleased(e.milestones) && !AllReleased(e.milestones)
    case Released => SomeReleased(e.milestones) && AllReleased(e.milestones)
    case Disputed => e.disputeDetails.Some?
    case Funded => false
    case Refunded => false
  }

  /** The record invariant every stored escrow keeps: the schema's
      validators and distinct milestone ids, the total equal to the sum of
      the milestone amounts, and the agreement of approvals and statuses. */
  predicate EscrowInvariant(e: Escrow) {
    && ValidEscrow(e)
    && e.amount == Total(Amounts(e.milestones))
    && (forall i | 0 <= i < |e.milestones| :: ApprovalsAgree(e.milestones[i]))
    && StatusAgrees(e)
  }

  /** `after` is `before` moved forward: the same milestones in the same
      order with the same ids, titles, descriptions, amounts and due dates,
      no status going back, no approval withdrawn, and a released milestone
      left exactly as it was. */
  predicate Advances(before: seq<Milestone>, after: seq<Milestone>) {
    && |before| == |after|
    && forall i | 0 <= i < |before| ::
         && after[i].id == before[i].id
         && after[i].title == before[i].title
         && after[i].description == before[i].description
         && after[i].amount == before[i].amount
         && after[i].dueDate == before[i].dueDate
         && Rank(before[i].status) <= Rank(after[i].status)
         && (before[i].clientApproval ==> after[i].clientApproval)
         && (before[i].freelancerApproval ==> after[i].freelancerApproval)
         && (before[i].status.Released? ==> after[i] == before[i])
  }

  /** Moving milestones forward twice is moving them forward. */
  lemma AdvancesTransitive(a: seq<Milestone>, b: seq<Milestone>, c: seq<Milestone>)
    requires Advances(a, b) && Advances(b, c)
    ensures Advances(a, c)
  {
  }

  // --------------------------------------------------------------- funding

  /** The record the fund handler saves: milestone `i` becomes `funded`;
      the escrow's own status and every other milestone are untouched. */
  function AfterFunding(e: Escrow, i: nat): (r: Escrow)
    requires i < |e.milestones|
    ensures r.status == e.status
    ensures |r.milestones| == |e.milestones|
    ensures r.milestones[i].status.Funded?
    ensures r.milestones[i] == e.milestones[i].(status := MilestoneStatus.Funded)
    ensures forall j | 0 <= j < |e.milestones| && j != i :: r.milestones[j] == e.milestones[j]
    ensures e.milestones[i].status.Pending? ==> Advances(e.milestones, r.milestones)
    ensures r.(milestones := e.milestones) == e
  {
    e.(milestones := e.milestones[i := e.milestones[i].(status := MilestoneStatus.Funded)])
  }

  /** Funding a pending milestone keeps the record invariant. */
  lemma FundingPreservesInvariant(e: Escrow, i: nat)
    requires EscrowInvariant(e)
    requires i < |e.milestones| && e.milestones[i].status.Pending?
    ensures EscrowInvariant(AfterFunding(e, i))
  {
    var r := AfterFunding(e, i);
    assert Amounts(r.milestones) == Amounts(e.milestones);
    assert forall j | 0 <= j < |r.milestones| :: r.milestones[j].status.Released? ==> e.milestones[j].status.Released?;
    assert forall j | 0 <= j < |r.milestones| :: e.milestones[j].status.Released? ==> r.milestones[j].status.Released?;
    assert SomeReleased(r.milestones) == SomeReleased(e.milestones);
    assert AllReleased(r.milestones) == AllReleased(e.milestones);
  }

  // -------------------------------------------------------------- approval

  /** The approval step of the release handler on a funded milestone: the
      caller's flag is set; the milestone is released, stamped with `now`,
      exactly when both flags are then set. */
  function Approve(m: Milestone, byClient: bool, now: Timestamp): (r: Milestone)
    requires m.status.Funded?
    ensures r.clientApproval == (m.clientApproval || byClient)
    ensures r.freelancerApproval == (m.freelancerApproval || !byClient)
    ensures r.status.Released? <==> r.clientApproval && r.freelancerApproval
    ensures r.status.Funded? || r.status.Released?
    ensures r.completedAt == if r.status.Released? then Some(now) else m.completedAt
    ensures r.(status := m.status, clientApproval := m.clientApproval,
               freelancerApproval := m.freelancerApproval, completedAt := m.completedAt) == m
  {
    var approved := if byClient then m.(clientApproval := true) else m.(freelancerApproval := true);
    if approved.clientApproval && approved.freelancerApproval then
      approved.(status := MilestoneStatus.Released, completedAt := Some(now))
    else approved
  }

  /** The record the release handler saves: milestone `i` approved by the
      caller; once it is released, the escrow's status is overwritten,
      whatever it was (`disputed` included), with `released` if every
      milestone is now released and `partially-released` otherwise. */
  function AfterApproval(e: Escrow, i: nat, byClient: bool, now: Timestamp): (r: Escrow)
    requires i < |e.milestones| && e.milestones[i].status.Funded?
    ensures |r.milestones| == |e.milestones|
    ensures r.milestones[i] == Approve(e.milestones[i], byClient, now)
    ensures forall j | 0 <= j < |e.milestones| && j != i :: r.milestones[j] == e.milestones[j]
    ensures r.status == if !r.milestones[i].status.Released? then e.status
                        else if forall j | 0 <= j < |r.milestones| :: r.milestones[j].status.Released?
                        then EscrowStatus.Released
                        else EscrowStatus.PartiallyReleased
    ensures Advances(e.milestones, r.milestones)
    ensures r.(milestones := e.milestones, status := e.status) == e
  {
    var m := Approve(e.milestones[i], byClient, now);
    var ms := e.milestones[i := m];
    if m.status.Released? then e.(milestones := ms, status := ReleaseStatus(ms))
    else e.(milestones := ms)
  }

  /** An approval keeps the record invariant. */
  lemma ApprovalPreservesInvariant(e: Escrow, i: nat, byClient: bool, now: Timestamp)
    requires EscrowInvariant(e)
    requires i < |e.milestones| && e.milestones[i].status.Funded?
    ensures EscrowInvariant(AfterApproval(e, i, byClient, now))
  {
    var r := AfterApproval(e, i, byClient, now);
    assert Amounts(r.milestones) == Amounts(e.milestones);
    if r.milestones[i].status.Released? {
      assert SomeReleased(r.milestones);
    } else {
      assert forall j | 0 <= j < |r.milestones| :: r.milestones[j].status.Released? <==> e.milestones[j].status.Released?;
      assert SomeReleased(r.milestones) == SomeReleased(e.milestones);
      assert AllReleased(r.milestones) == AllReleased(e.milestones);
    }
  }

  /** Dual approval: from a funded milestone that neither party has
      approved, one approval (by either party) leaves it funded, and the
      other party's approval then releases it. */
  lemma ReleaseNeedsBothParties(m: Milestone, firstByClient: bool, t1: Timestamp, t2: Timestamp)
    requires m.status.Funded? && !m.clientApproval && !m.freelancerApproval
    ensures Approve(m, firstByClient, t1).status.Funded?
    ensures Approve(Approve(m, firstByClient, t1), !firstByClient, t2).status.Released?
    ensures Approve(Approve(m, firstByClient, t1), !firstByClient, t2).completedAt == Some(t2)
  {
  }

  /** Re-approval by the same party changes nothing: when an approval has
      left the milestone funded, the same party approving again yields the
      same record. */
  lemma ReapprovalChangesNothing(e: Escrow, i: nat, byClient: bool, t1: Timestamp, t2: Timestamp)
    requires i < |e.milestones| && e.milestones[i].status.Funded?
    requires AfterApproval(e, i, byClient, t1).milestones[i].status.Funded?
    ensures AfterApproval(AfterApproval(e, i, byClient, t1), i, byClient, t2) == AfterApproval(e, i, byClient, t1)
  {
    var r := AfterApproval(e, i, byClient, t1);
    assert r.milestones[i := Approve(r.milestones[i], byClient, t2)] == r.milestones;
  }

  /** A release does not respect a dispute: when an approval releases a
      milestone of a `disputed` escrow, the escrow leaves `disputed` (for
      `released` or `partially-released`) while its dispute record stays. */
  lemma ReleaseOverridesDispute(e: Escrow, i: nat, byClient: bool, now: Timestamp)
    requires i < |e.milestones| && e.milestones[i].status.Funded?
    requires e.status.Disputed? && e.disputeDetails.Some?
    requires Approve(e.milestones[i], byClient, now).status.Released?
    ensures AfterApproval(e, i, byClient, now).status in {EscrowStatus.Released, EscrowStatus.PartiallyReleased}
    ensures AfterApproval(e, i, byClient, now).disputeDetails == e.disputeDetails
  {
  }

  // --------------------------------------------------------------- dispute

  /** The record the dispute handler saves: status `disputed` and a new
      pending dispute raised by the caller, replacing any earlier one. */
  function AfterDispute(e: Escrow, raisedBy: Id, reason: string, now: Timestamp): (r: Escrow)
    ensures r.status.Disputed?
    ensures r.disputeDetails == Some(NewDispute(raisedBy, reason, now))
    ensures r.disputeDetails.value.status.Pending? && r.disputeDetails.value.resolvedAt.None?
    ensures r.(status := e.status, disputeDetails := e.disputeDetails) == e
  {
    e.(status := EscrowStatus.Disputed, disputeDetails := Some(NewDispute(raisedBy, reason, now)))
  }

  /** Raising a dispute with a non-empty reason keeps the record invariant,
      and leaves the milestones and every other field as they were. */
  lemma DisputePreservesInvariant(e: Escrow, raisedBy: Id, reason: string, now: Timestamp)
    requires EscrowInvariant(e) && reason != ""
    ensures EscrowInvariant(AfterDispute(e, raisedBy, reason, now))
    ensures AfterDispute(e, raisedBy, reason, now).milestones == e.milestones
    ensures AfterDispute(e, raisedBy, reason, now).status.Disputed?
  {
  }
}
