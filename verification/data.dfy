/** The display-row model of data/data.go: the normalised row every change and
    event becomes, the fixed status families, and the constructors that build
    and activate the row maps keyed by logical id. */
module Data {
  import opened Utils
  import opened Cfn

  /** Resource and stack statuses are string enums in the SDK; the polling
      loop compares a resource status against stack-status families, so both
      are modelled as their string values. */
  type Status = string

  /** An instant, in nanoseconds since Go's zero `time.Time`, so that the zero
      value of a row's timestamp is 0. */
  type Instant = int

  const ZeroInstant: Instant := 0

  /** Where a display row came from (`DisplayRowSource`). `NoSource` is the
      zero value, the empty string. */
  datatype RowSource = ChangeSource | EventSource | NoSource

  /** `cloudformation.Replacement`; `NoReplacement` is the empty string the
      service leaves on changes that do not replace anything. */
  datatype Replacement = ReplacementTrue | ReplacementFalse | Conditional | NoReplacement

  /** The normalised row the display renders. */
  datatype DisplayRow = DisplayRow(
    logicalId: string,
    resourceType: string,
    status: Status,
    timestamp: Instant,
    statusReason: string,
    replacement: Replacement,
    action: ChangeAction,
    source: RowSource,
    active: bool)

  /** Identifiers of the target stack and its change set. */
  datatype StackInfo = StackInfo(stackId: string, changeSetName: string, stackName: string)

  /** The fields of a change-set entry's `ResourceChange` that rows use. */
  datatype Change = Change(
    logicalId: string,
    resourceType: string,
    replacement: Replacement,
    action: ChangeAction)

  /** The fields of a stack event that the core reads. */
  datatype StackEvent = StackEvent(
    eventId: string,
    logicalId: string,
    resourceType: string,
    status: Status,
    timestamp: Instant,
    statusReason: string)

  /** The resource type of the stack itself within its own event stream. */
  const CloudformationStackResource: string := "AWS::CloudFormation::Stack"

  // Status values (the SDK's string constants).
  const CreateComplete: Status := "CREATE_COMPLETE"
  const CreateFailed: Status := "CREATE_FAILED"
  const CreateInProgress: Status := "CREATE_IN_PROGRESS"
  const DeleteComplete: Status := "DELETE_COMPLETE"
  const DeleteFailed: Status := "DELETE_FAILED"
  const DeleteInProgress: Status := "DELETE_IN_PROGRESS"
  const UpdateComplete: Status := "UPDATE_COMPLETE"
  const UpdateFailed: Status := "UPDATE_FAILED"
  const UpdateInProgress: Status := "UPDATE_IN_PROGRESS"
  const RollbackComplete: Status := "ROLLBACK_COMPLETE"
  const RollbackFailed: Status := "ROLLBACK_FAILED"
  const RollbackInProgress: Status := "ROLLBACK_IN_PROGRESS"
  const UpdateRollbackComplete: Status := "UPDATE_ROLLBACK_COMPLETE"
  const UpdateRollbackFailed: Status := "UPDATE_ROLLBACK_FAILED"
  const UpdateRollbackInProgress: Status := "UPDATE_ROLLBACK_IN_PROGRESS"
  const ReviewInProgress: Status := "REVIEW_IN_PROGRESS"

  const PositiveEventStatus: seq<Status> := [CreateComplete, DeleteComplete, UpdateComplete]
  const NegativeEventStatus: seq<Status> := [CreateFailed, DeleteFailed, UpdateFailed]
  const PendingEventStatus: seq<Status> := [CreateInProgress, DeleteInProgress, UpdateInProgress]

  const PositiveStackStatus: seq<Status> :=
    [CreateComplete, DeleteComplete, UpdateComplete, RollbackComplete]
  const NegativeStackStatus: seq<Status> :=
    [CreateFailed, DeleteFailed, UpdateRollbackComplete, UpdateRollbackFailed, RollbackFailed]
  const PendingStackStatus: seq<Status> :=
    [CreateInProgress, DeleteInProgress, UpdateInProgress, ReviewInProgress,
     UpdateRollbackInProgress, RollbackInProgress]

  /** No status belongs to both families. */
  ghost predicate FamiliesDisjoint(a: seq<Status>, b: seq<Status>)
  {
    forall s :: !(ContainsStatus(a, s) && ContainsStatus(b, s))
  }

  /** The positive, negative and pending resource-status families are
      pairwise disjoint, and so are the three stack-status families. */
  lemma StatusFamiliesDisjoint()
    ensures FamiliesDisjoint(PositiveEventStatus, NegativeEventStatus)
    ensures FamiliesDisjoint(PositiveEventStatus, PendingEventStatus)
    ensures FamiliesDisjoint(NegativeEventStatus, PendingEventStatus)
    ensures FamiliesDisjoint(PositiveStackStatus, NegativeStackStatus)
    ensures FamiliesDisjoint(PositiveStackStatus, PendingStackStatus)
    ensures FamiliesDisjoint(NegativeStackStatus, PendingStackStatus)
  {
  }

  // ---------------------------------------------------------------------
  // Constructors

  /** A change becomes a change-sourced row with the given activity flag;
      status, timestamp and reason stay at their zero values. */
  function CreateDisplayRowFromChange(change: Change, active: bool): (row: DisplayRow)
    ensures row.source == ChangeSource && row.active == active
    ensures row.logicalId == change.logicalId && row.resourceType == change.resourceType
    ensures row.replacement == change.replacement && row.action == change.action
    ensures row.status == "" && row.timestamp == ZeroInstant && row.statusReason == ""
  {
    DisplayRow(change.logicalId, change.resourceType, "", ZeroInstant, "",
               change.replacement, change.action, ChangeSource, active)
  }

  /** An event becomes an event-sourced row. As written, the row is left
      inactive and the event's status reason is not copied. */
  function CreateDisplayRowFromEvent(event: StackEvent): (row: DisplayRow)
    ensures row.source == EventSource && !row.active
    ensures row.logicalId == event.logicalId && row.resourceType == event.resourceType
    ensures row.status == event.status && row.timestamp == event.timestamp
    ensures row.statusReason == "" && row.replacement == NoReplacement && row.action == NoAction
  {
    DisplayRow(event.logicalId, event.resourceType, event.status, event.timestamp, "",
               NoReplacement, NoAction, EventSource, false)
  }

  /** Rows keyed by logical id, one assignment per change in slice order. */
  function ChangeMap(changes: seq<Change>, active: bool): (rows: map<string, DisplayRow>)
    ensures rows.Keys == set c | c in changes :: c.logicalId
    ensures forall id | id in rows ::
      rows[id].logicalId == id && rows[id].source == ChangeSource && rows[id].active == active
  {
    if |changes| == 0 then map[]
    else
      var last := changes[|changes| - 1];
      ChangeMap(changes[..|changes| - 1], active)[last.logicalId := CreateDisplayRowFromChange(last, active)]
  }

  /** When logical ids repeat, the last change in slice order wins. */
  lemma {:induction false} ChangeMapLastWins(changes: seq<Change>, active: bool, i: int)
    requires 0 <= i < |changes|
    requires forall j :: i < j < |changes| ==> changes[j].logicalId != changes[i].logicalId
    ensures ChangeMap(changes, active)[changes[i].logicalId] == CreateDisplayRowFromChange(changes[i], active)
    decreases |changes|
  {
    if i < |changes| - 1 {
      ChangeMapLastWins(changes[..|changes| - 1], active, i);
    }
  }

  /** Rows keyed by logical id, one assignment per event in slice order. */
  function EventMap(events: seq<StackEvent>): (rows: map<string, DisplayRow>)
    ensures rows.Keys == set e | e in events :: e.logicalId
    ensures forall id | id in rows :: rows[id].logicalId == id && rows[id].source == EventSource
  {
    if |events| == 0 then map[]
    else
      var last := events[|events| - 1];
      EventMap(events[..|events| - 1])[last.logicalId := CreateDisplayRowFromEvent(last)]
  }

  /** For each logical id the last event in slice order wins. */
  lemma {:induction false} EventMapLastWins(events: seq<StackEvent>, i: int)
    requires 0 <= i < |events|
    requires forall j :: i < j < |events| ==> events[j].logicalId != events[i].logicalId
    ensures EventMap(events)[events[i].logicalId] == CreateDisplayRowFromEvent(events[i])
    decreases |events|
  {
    if i < |events| - 1 {
      EventMapLastWins(events[..|events| - 1], i);
    }
  }

  /** Every field of the two rows except `active` agrees. */
  predicate SameExceptActive(a: DisplayRow, b: DisplayRow)
  {
    && a.logicalId == b.logicalId && a.resourceType == b.resourceType
    && a.status == b.status && a.timestamp == b.timestamp
    && a.statusReason == b.statusReason && a.replacement == b.replacement
    && a.action == b.action && a.source == b.source
  }

  /** A fresh map with the same keys in which every row is active and
      otherwise unchanged. The argument, a value, is not affected. */
  function ActivateDisplayRows(rows: map<string, DisplayRow>): (activated: map<string, DisplayRow>)
    ensures activated.Keys == rows.Keys
    ensures forall id | id in activated :: activated[id].active && SameExceptActive(activated[id], rows[id])
  {
    map id | id in rows :: rows[id].(active := true)
  }

  /** Activating twice is activating once. */
  lemma ActivateIdempotent(rows: map<string, DisplayRow>)
    ensures ActivateDisplayRows(ActivateDisplayRows(rows)) == ActivateDisplayRows(rows)
  {
  }

  /** Building the proposed snapshot and then activating it gives the same
      map as building it active in the first place. */
  lemma {:induction false} ActivateChangeMap(changes: seq<Change>)
    ensures ActivateDisplayRows(ChangeMap(changes, false)) == ChangeMap(changes, true)
    decreases |changes|
  {
    if |changes| > 0 {
      ActivateChangeMap(changes[..|changes| - 1]);
    }
  }
}
