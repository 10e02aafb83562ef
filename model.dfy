/** The record shapes of the escrow collection: an escrow, its embedded
    milestones and its optional dispute, with the status enumerations,
    defaults and validators of the Mongoose schemas
    (backend/src/models/escrow.model.js). */
module EscrowModel {
  import opened Wrappers

  /** A MongoDB ObjectId, abstracted to a number. */
  type Id = nat

  /** A JavaScript Date, abstracted to milliseconds since the epoch. */
  type Timestamp = nat

  /** The `enum` of a milestone's `status`. */
  datatype MilestoneStatus = Pending | Funded | Released | Disputed

  /** The `enum` of a dispute's `status`. */
  datatype DisputeStatus = Pending | Resolved

  /** The `enum` of an escrow's `status`. */
  datatype EscrowStatus = Pending | Funded | PartiallyReleased | Released | Refunded | Disputed

  /** The string stored for each escrow status; queries compare against it. */
  function StatusName(s: EscrowStatus): string {
    match s
    case Pending => "pending"
    case Funded => "funded"
    case PartiallyReleased => "partially-released"
    case Released => "released"
    case Refunded => "refunded"
    case Disputed => "disputed"
  }

  /** A MilestoneSchema subdocument. `description` is optional in the schema;
      the one handler that creates milestones always stores a string, so the
      empty string stands for its absence. */
  datatype Milestone = Milestone(
    id: Id,
    title: string,
    description: string,
    amount: real,
    dueDate: Timestamp,
    status: MilestoneStatus,
    clientApproval: bool,
    freelancerApproval: bool,
    completedAt: Option<Timestamp>)

  /** A DisputeSchema subdocument. */
  datatype Dispute = Dispute(
    raisedBy: Id,
    reason: string,
    status: DisputeStatus,
    resolution: Option<string>,
    raisedAt: Timestamp,
    resolvedAt: Option<Timestamp>)

  /** An EscrowSchema document; `milestones` is owned and ordered, and there
      is at most one dispute. */
  datatype Escrow = Escrow(
    id: Id,
    project: Id,
    client: Id,
    freelancer: Id,
    amount: real,
    currency: string,
    status: EscrowStatus,
    milestones: seq<Milestone>,
    disputeDetails: Option<Dispute>,
    createdAt: Timestamp)

  /** The fields of a project document that the escrow handlers read or write. */
  datatype Project = Project(
    client: Id,
    freelancer: Option<Id>,
    budgetCurrency: Option<string>,
    escrow: Option<Id>)

  /** Default `currency` of an escrow. */
  const DefaultCurrency: string := "INR"

  /** A milestone as the schema defaults complete it: status `pending`, both
      approval flags false, no completion date. */
  function NewMilestone(id: Id, title: string, description: string, amount: real, dueDate: Timestamp): Milestone {
    Milestone(id, title, description, amount, dueDate, MilestoneStatus.Pending, false, false, None)
  }

  /** A dispute as the schema defaults complete it: status `pending`, no resolution. */
  function NewDispute(raisedBy: Id, reason: string, raisedAt: Timestamp): Dispute {
    Dispute(raisedBy, reason, DisputeStatus.Pending, None, raisedAt, None)
  }

  /** MilestoneSchema's validators: `title` is required (so not empty once
      the `trim` setter has run) and `amount` has `min: 0`. */
  predicate ValidMilestone(m: Milestone) {
    m.title != "" && m.amount >= 0.0
  }

  /** DisputeSchema's validators: `reason` is required, so not empty. */
  predicate ValidDispute(d: Dispute) {
    d.reason != ""
  }

  /** Subdocument ids are distinct within their escrow, which is what
      addressing a milestone by id relies on. */
  predicate UniqueMilestoneIds(ms: seq<Milestone>) {
    forall i, j | 0 <= i < j < |ms| :: ms[i].id != ms[j].id
  }

  /** EscrowSchema's validators, its subdocuments' included, together with
      distinct milestone ids (which Mongoose assigns, not validates). */
  predicate ValidEscrow(e: Escrow) {
    && e.amount >= 0.0
    && (forall i | 0 <= i < |e.milestones| :: ValidMilestone(e.milestones[i]))
    && UniqueMilestoneIds(e.milestones)
    && (e.disputeDetails.Some? ==> ValidDispute(e.disputeDetails.value))
  }

  /** The stored status strings are pairwise distinct, so a query on the
      status string selects exactly one enumeration value. */
  lemma StatusNameInjective(s: EscrowStatus, t: EscrowStatus)
    ensures StatusName(s) == StatusName(t) ==> s == t
  {
    if StatusName(s) == StatusName(t) {
      match s
      case PartiallyReleased => assert StatusName(s)[0] == 'p' && StatusName(s)[1] == 'a';
      case _ =>
    }
  }
}
