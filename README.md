# Escrow and milestone state machine

A Dafny model of the escrow core of the GigFusion backend: the Mongoose
schemas of an escrow, its embedded milestones and its dispute
(`backend/src/models/escrow.model.js`), and the seven request handlers that
create, read, list, fund, release and dispute escrows
(`backend/src/controllers/escrow.controller.js`).

Files:

- `wrappers.dfy` (`Wrappers`): `Option` and `Result`.
- `text.dfy` (`JsText`): JavaScript's `trim` and the whitespace set it strips.
- `model.dfy` (`EscrowModel`): the record shapes, status enumerations,
  defaults and schema validators.
- `ledger.dfy` (`Ledger`): the pure derivations of the controller (the total,
  the milestones a create request produces, the milestone lookup, the
  all-released test, the participant test) and the record each
  state-changing handler writes back, with the invariants those records keep.
- `store.dfy` (`EscrowStore`): a `Store` class holding the escrow collection
  (`map<Id, Escrow>`) and the project collection (`map<Id, Project>`), one
  method per handler. Each method returns the saved record or the error the
  handler throws: 400, 403 and 404 with the handler's message, or Mongoose's
  validation error.

The store invariant (`StoreInvariant`) is kept by every handler. It says:

- each escrow passes the schema's validators and has distinct milestone ids;
- its amount equals the sum of its milestone amounts;
- its approval flags agree with its milestone statuses;
- its status agrees with its milestones;
- no two escrows share a project.

`Evolves` says what a handler may do to the escrows already stored:

- none is removed;
- the fields fixed at creation stay the same;
- milestones only move forward;
- a recorded dispute stays recorded.

Behaviour the model keeps as the code has it:

- Funding a milestone leaves the escrow's status unchanged.
- A second escrow for a project is refused with 400.
- An empty milestone list and zero amounts are accepted. Only the schema's
  `min: 0` and the required title apply.
- Raising a dispute does not check for an active one; it replaces the old
  dispute record.
- Releasing a milestone overwrites the escrow status, `disputed` included.
- No handler ever writes the escrow statuses `funded` or `refunded`, or the
  milestone status `disputed`. `StatusAgrees` and `ApprovalsAgree` record this.

## Model

| member | source | states |
|---|---|---|
| `JsText.TrimStart` | backend/src/controllers/escrow.controller.js:251 | the result is no longer than the input and does not start with JavaScript whitespace |
| `JsText.TrimEnd` | backend/src/controllers/escrow.controller.js:251 | the result is no longer than the input and does not end with JavaScript whitespace |
| `JsText.Trim` | backend/src/controllers/escrow.controller.js:251 | `trim()` leaves no whitespace at either end and never lengthens the string |
| `JsText.TrimSplits` | backend/src/controllers/escrow.controller.js:251 | the input is an all-whitespace prefix, then the trimmed string, then an all-whitespace suffix |
| `JsText.TrimStartSplits` | backend/src/controllers/escrow.controller.js:251 | the input is the removed all-whitespace prefix followed by the kept suffix |
| `JsText.TrimEndSplits` | backend/src/controllers/escrow.controller.js:251 | the input is the kept prefix followed by the removed all-whitespace suffix |
| `JsText.TrimIsEmptyIffBlank` | backend/src/controllers/escrow.controller.js:251 | `reason.trim() === ''` holds exactly when every character of the reason is whitespace |
| `EscrowModel.StatusNameInjective` | backend/src/models/escrow.model.js:88-92 | the six stored status strings are pairwise distinct, so a status query selects one status |
| `Ledger.Total` | backend/src/controllers/escrow.controller.js:34 | the reduce total of non-negative amounts is non-negative and at least each amount |
| `Ledger.BuildMilestone` | backend/src/controllers/escrow.controller.js:42-48 | the requested amount, the trimmed title, the trimmed description or `""`, the requested due date or 30 days after creation, `pending` with no approvals and no completion date |
| `Ledger.BuildMilestones` | backend/src/controllers/escrow.controller.js:42-48 | one milestone per requested milestone, in order, each built from its request, with the requested amounts, distinct ids, each `pending` with no approvals and no completion date |
| `Ledger.CurrencyOr` | backend/src/controllers/escrow.controller.js:41 | the escrow's currency is never empty; it is the project's budget currency whenever that is a non-empty string, and `INR` otherwise |
| `Ledger.NewEscrow` | backend/src/controllers/escrow.controller.js:34-49 | the created escrow belongs to the project, the creator is its client and the project's freelancer its freelancer; it carries the currency default, the creation date and the built milestones; its amount is the sum of the requested milestone amounts and of its own milestone amounts; status `pending`, no dispute |
| `Ledger.BuiltMilestoneValid` | backend/src/models/escrow.model.js:4-17 | a created milestone passes the schema exactly when its title is present and not blank and its amount is at least zero |
| `Ledger.BuiltMilestonesValid` | backend/src/models/escrow.model.js:4-17 | each requested milestone is accepted by MilestoneSchema's validators exactly when it is acceptable |
| `Ledger.NewEscrowValidIff` | backend/src/models/escrow.model.js:79-83 | `Escrow.create` accepts the document exactly when every requested milestone is acceptable; an empty list is accepted |
| `Ledger.NewEscrowInvariant` | backend/src/models/escrow.model.js:22-34 | a freshly created, schema-valid escrow satisfies the record invariant (defaults: pending, no approvals) |
| `Ledger.FindMilestone` | backend/src/controllers/escrow.controller.js:168 | `None` exactly when no milestone has the id; otherwise the first position holding it |
| `Ledger.IsParticipant` | backend/src/controllers/escrow.controller.js:200 | the user is the escrow's client or its freelancer |
| `Ledger.AllReleased` | backend/src/controllers/escrow.controller.js:227 | true exactly when every milestone is `released` (vacuously for none) |
| `Ledger.ReleaseStatus` | backend/src/controllers/escrow.controller.js:227-232 | `released` exactly when every milestone is released, `partially-released` otherwise |
| `Ledger.AdvancesTransitive` | backend/src/models/escrow.model.js:22-26 | moving milestones forward twice is moving them forward |
| `Ledger.AfterFunding` | backend/src/controllers/escrow.controller.js:177-179 | only the chosen milestone's status changes, to `funded`, its approvals and completion date kept; the escrow status and all other fields stay; a pending milestone moves forward |
| `Ledger.FundingPreservesInvariant` | backend/src/controllers/escrow.controller.js:173-179 | funding a pending milestone keeps the record invariant |
| `Ledger.Approve` | backend/src/controllers/escrow.controller.js:214-225 | the caller's flag is set, the other kept; the milestone is released, stamped now, exactly when both flags are set, and stays funded otherwise |
| `Ledger.AfterApproval` | backend/src/controllers/escrow.controller.js:214-233 | only the chosen milestone changes; once it is released the status becomes `released` if all are, `partially-released` otherwise, whatever it was before; otherwise it is kept |
| `Ledger.ApprovalPreservesInvariant` | backend/src/controllers/escrow.controller.js:210-233 | approving a funded milestone keeps the record invariant |
| `Ledger.ReleaseNeedsBothParties` | backend/src/controllers/escrow.controller.js:215-224 | from an unapproved funded milestone one approval leaves it funded and the other party's approval then releases it |
| `Ledger.ReapprovalChangesNothing` | backend/src/controllers/escrow.controller.js:215-219 | approving again by the same party after an approval that left the milestone funded changes nothing |
| `Ledger.ReleaseOverridesDispute` | backend/src/controllers/escrow.controller.js:227-232 | a release in a disputed escrow replaces `disputed` with `released` or `partially-released` and keeps the dispute record |
| `Ledger.AfterDispute` | backend/src/controllers/escrow.controller.js:266-272 | the status becomes `disputed` and the dispute record is a new pending, unresolved one raised by the caller with the reason at `now`, replacing any earlier one; every other field stays |
| `Ledger.DisputePreservesInvariant` | backend/src/controllers/escrow.controller.js:266-272 | raising a dispute with a non-empty reason keeps the record invariant, sets `disputed` and leaves the milestones alone |
| `EscrowStore.UserQuery` | backend/src/controllers/escrow.controller.js:119-137 | the query matches an escrow exactly when the user holds the requested role in it (client, freelancer, or either for any other role) and, if a status is given, it has that status |
| `EscrowStore.StatusQuerySelectsOneStatus` | backend/src/controllers/escrow.controller.js:119-137 | a query on a status's stored name matches exactly the escrows with that status in which the user holds the requested role |
| `EscrowStore.InsertNewestFirst` | backend/src/controllers/escrow.controller.js:143 | inserting into a newest-first list keeps it newest first and adds exactly that escrow |
| `EscrowStore.ReplacePreservesStore` | backend/src/controllers/escrow.controller.js:179 | saving a later version of one escrow keeps the store invariant |
| `EscrowStore.EvolvesTransitive` | backend/src/controllers/escrow.controller.js:151-279 | successive handler calls compose: no escrow is removed, no creation-time field changes and no milestone moves back across any sequence of them |
| `EscrowStore.AddPreservesStore` | backend/src/controllers/escrow.controller.js:27-36 | adding an escrow under a fresh id, for a project without one, keeps the store invariant, so there is at most one escrow per project |
| `EscrowStore.Store.FindEscrowOfProject` | backend/src/controllers/escrow.controller.js:28 | `None` exactly when no escrow belongs to the project; otherwise an escrow of that project |
| `EscrowStore.Store.CreateEscrow` | backend/src/controllers/escrow.controller.js:9-59 | 400 without a project id, 404 for a missing project, 403 for a non-client, 400 for a duplicate, then schema rejection, in that order; on success a fresh escrow whose amount is the milestone sum and whose milestones are pending, and the project linked to it; nothing changes on error |
| `EscrowStore.Store.GetEscrowById` | backend/src/controllers/escrow.controller.js:62-86 | 400 without an id, 404 when absent, 403 for anyone but the two parties; the stored escrow otherwise |
| `EscrowStore.Store.GetEscrowByProject` | backend/src/controllers/escrow.controller.js:89-113 | 400 without an id, 404 when the project has no escrow, 403 for anyone but its two parties; its one escrow otherwise |
| `EscrowStore.Store.GetUserEscrows` | backend/src/controllers/escrow.controller.js:116-148 | exactly the matching escrows, each once, newest first, all involving the user, with `count` their number |
| `EscrowStore.Store.FundMilestone` | backend/src/controllers/escrow.controller.js:151-184 | 400, 404, 403 (not the client), 404 (no milestone), 400 (not pending) in that order; on success only that milestone becomes `funded` and the escrow status is untouched; the invariant is kept |
| `EscrowStore.Store.ReleaseMilestone` | backend/src/controllers/escrow.controller.js:187-240 | 400, 404, 403 (not a party), 404 (no milestone), 400 (not funded) in that order; on success the record is the approval step's result; the invariant is kept |
| `EscrowStore.Store.RaiseDispute` | backend/src/controllers/escrow.controller.js:243-279 | 400 without an id, 400 for a missing or blank reason before the lookup, 404, 403; on success `disputed` with a new pending dispute by the user replacing any earlier one, milestones unchanged |

## Left out

- Mongoose persistence is replaced by the two maps of `Store`: `findById`, `findOne`, `create`, `save`, `populate` and `findByIdAndUpdate`. Each handler is one atomic step. The `populate` decoration of the answers is not modelled.
- ObjectId syntax is not modelled. A project or escrow id parameter that is missing or malformed arrives as `None`. The milestone id is not validated; a malformed one is an id that no milestone has, answered with 404. New ObjectIds come from a counter, `nextId`.
- Dates are natural-number milliseconds supplied as `now`. The 30-day due-date default is a constant offset.
- A falsy description or due date in a create request (`null`, `""`, `0`, `false`) arrives as `None`, since the handler's `||` replaces it with its default; the request values themselves are not modelled.
- `updatedAt` and the milestones' own `createdAt`/`updatedAt` timestamps are not modelled.
- Amounts are exact `real` numbers. Float rounding of JavaScript `Number` is not modelled. Neither is `Number(...)` turning a non-numeric string into `NaN`, nor a truthy due date that Mongoose cannot cast to a Date (such as `"next week"`), which makes `Escrow.create` fail validation: `MilestoneInput` has no value for either.
- Requests whose body makes the handler throw a `TypeError` are not modelled: a missing `milestones` array, a non-string reason, a project without a `budget`. Neither is a populated party that no longer exists.
- Query parameters that the query parser turns into something other than a string are not modelled: a repeated parameter (an array) and a bracketed one such as `?status[$ne]=pending` (an object, which `Escrow.find` reads as a query operator). `UserQuery` takes strings only.
- The order among escrows with the same `createdAt` is left unspecified, as MongoDB leaves it.
- Concurrent requests on one escrow (races between load and `save`) are not modelled.
- The project model file is not part of this model. `Project` carries only the fields the create handler reads and writes.
- The route wiring and JWT middleware are not modelled. The handlers receive an authenticated user id. Also left out: the frontend pages and services, which only mirror or pre-check these rules.
