# cirrus: change sets, confirmation and the event loop, in Dafny

cirrus is a command-line tool for deploying CloudFormation stacks. `cirrus up`
names a change set after the stack and the current Unix time. If an existing
stack is empty, it deletes it first, asking unless `--overwrite` is given. It then creates the change set
and shows the proposed changes as rows. Once the user confirms, it executes
the change set (or deletes the stack) and follows the stack's events:

- every new resource event replaces that resource's row;
- failed resource events are collected;
- the first terminal status carried by an event of type
  `AWS::CloudFormation::Stack` ends the operation. That is the deployed stack's
  own event, or a nested stack's. The result is success, or failure listing
  the errors collected up to that point.

This project models that core as pure Dafny functions over immutable data:

- `Data` (data/data.go): display rows, the status families, and the
  change and event maps.
- `Utils` (utils/utils.go): status membership and the per-page reversal.
- `Cfn` and `Colors`: the operation names, the change-set glyph table
  and the terminal prefixes.
- `Format` (ui/format.go): colouring, row rendering and the sorted
  rendering of the row map.
- `Callbacks` (ui/callbacks.go):
  - the event loop, as a fold over the pages of each poll;
  - the success/failure decision and the failure report;
  - the confirm and decline buttons.
- `Up` (cmd/up.go): the yes/no prompt, the change-set name, the operation
  choice and the empty-stack overwrite path. It comes in two versions, as
  written and as evidently intended (see Findings).
- `Text` (shared helpers): ASCII case mapping, `::` replacement, byte
  order on strings, and decimal rendering.

The event loop's state is `LoopState(rows, seen, errors)`. Folding one page
emits signals: `ShowErrorBar`, and `Finish(Success | Failure(errors))`. The
loop never exits in the source, so a later root event can emit a second
`Finish`. The model keeps that.

Folding the loop is proved equal to a reference definition, `ApplyAll`
of `Fresh`: the child events that are after `now` and not seen yet, in
fold order, each applied once.

## Model

| member | source | states |
|---|---|---|
| Utils.ContainsStatus | utils/utils.go:6-14 | true exactly when some element of the slice equals the value; an empty slice contains nothing |
| Utils.ContainsConcat | utils/utils.go:6-14 | membership in a concatenation is membership in either part, so it is independent of how a family is split |
| Utils.Reverse | ui/callbacks.go:99 | the page is visited back to front: element i of the result is element n-1-i of the page |
| Utils.ReverseInvolution | ui/callbacks.go:99 | reversing twice gives back the page |
| Cfn.ChangeSetAscii | cfn/cfn.go:17-22 | Add, Remove and Modify map to one-character glyphs; an action missing from the table yields the empty string, and only that one does |
| Cfn.ChangeSetAsciiInjective | cfn/cfn.go:17-22 | distinct actions get distinct glyphs, so the glyph identifies the action |
| Data.StatusFamiliesDisjoint | data/data.go:44-90 | the positive, negative and pending families are pairwise disjoint, for resource statuses and for stack statuses |
| Data.CreateDisplayRowFromChange | data/data.go:104-114 | a change row carries the change's id, type, replacement and action, with the requested active flag; status, time and reason stay at their zero values |
| Data.CreateDisplayRowFromEvent | data/data.go:127-136 | an event row carries the event's id, type, status and time; it is inactive, and its reason, replacement and action are zero |
| Data.ChangeMap | data/data.go:93-102 | the keys are exactly the logical ids of the changes, and every row is that id's change row |
| Data.ChangeMapLastWins | data/data.go:97-99 | the row for an id comes from the last change with that id |
| Data.EventMap | data/data.go:116-125 | the keys are exactly the logical ids of the events, and every row is an event row for its id |
| Data.EventMapLastWins | data/data.go:120-122 | the row for an id comes from the last event with that id |
| Data.ActivateDisplayRows | data/data.go:138-148 | the keys are the same, every row is active, and nothing else in any row changes |
| Data.ActivateIdempotent | data/data.go:138-148 | activating twice is the same as activating once |
| Data.ActivateChangeMap | data/data.go:93-114 | activating an inactive change map gives the change map built active |
| Text.ToUpper | ui/format.go:25 | each character is upper-cased in place, and no lower-case ASCII letter remains |
| Text.ReplaceDoubleColon | ui/format.go:63 | no `::` remains, and the result is no longer than the input |
| Text.ReplaceDoubleColonAtFirst | ui/format.go:63 | the first `::` becomes `.`: the text before it is kept, and the replacement continues after it |
| Text.ReplaceDoubleColonTypeName | ui/format.go:63 | a type name `Vendor::Service::Kind` becomes `Vendor.Service.Kind` |
| Text.ReplaceDoubleColonKeepsOneLine | ui/format.go:63 | the replacement never introduces a newline |
| Text.ReplaceDoubleColonIdentity | ui/format.go:63 | a type name without `::` is left unchanged |
| Text.ReplaceDoubleColonIdempotent | ui/format.go:63 | replacing twice is the same as replacing once |
| Text.ToLowerKeepsNoDoubleColon | ui/format.go:63-64 | lower-casing after the replacement cannot bring back a `::` |
| Text.LessTotal | ui/format.go:133 | the byte order that sorts the keys is total on distinct strings |
| Text.LessTransitive | ui/format.go:133 | the byte order that sorts the keys is transitive |
| Text.SortedUnique | ui/format.go:133 | two strictly sorted sequences with the same elements are equal, so the order of the rendered keys is fully determined by the key set |
| Text.DecimalRoundTrip | cmd/up.go:93 | the decimal rendering of a number reads back as that number |
| Format.OperationColor | ui/format.go:13-23 | yellow exactly for update, red exactly for delete, green exactly for create |
| Format.StackOperationColorizeTable | ui/format.go:13-26 | `StackOperationColorize`: create, update and delete render as a leading space, their colour tag, the upper-cased name and the closing tag |
| Format.ActionColor | ui/format.go:28-38 | yellow exactly for Modify, red exactly for Remove, green for Add and for the empty action |
| Format.ColorizeActionGlyphs | ui/format.go:28-41 | `ColorizeAction`: in glyph mode each action renders as its colour tag, its glyph from the table, and the closing tag |
| Format.ColorizeAddWord | ui/format.go:44 | in word mode Add renders as green ADD |
| Format.ColorizeModifyWord | ui/format.go:44 | in word mode Modify renders as yellow MODIFY |
| Format.ColorizeRemoveWord | ui/format.go:44 | in word mode Remove renders as red REMOVE |
| Format.ColorizeNoActionWord | ui/format.go:40-44 | an empty action renders the same in both modes |
| Format.StatusColor | ui/format.go:47-57 | red exactly for negative statuses, yellow exactly for pending ones, green for everything else; negative wins because it is tested last |
| Format.StatusColorByFamily | ui/format.go:47-57 | yellow exactly for the pending family, and every positive status is green |
| Format.ResourceTypeFormat | ui/format.go:62-67 | the type is shown dimmed, and the shown label has no `::` and no upper-case ASCII letter |
| Format.TitleBarLines | ui/format.go:69-75 | `TitleBar`: the title bar is three lines, ending with the stack name, the change-set name and the stack id, in that order |
| Format.ParseChangeRow | ui/format.go:85-112 | a change row ends with a newline |
| Format.ChangeRowIsOneLine | ui/format.go:85-112 | when the logical id and the type hold no newline, a change row's only newline is its final character |
| Format.ActiveChangeRowOmitsReplacement | ui/format.go:89-109 | an active change row does not depend on the replacement, and it ends without a replacement tag |
| Format.InactiveChangeRowReplaceTag | ui/format.go:101-111 | an inactive change row ends with the Replace tag exactly when the replacement is True, and with the Replace conditional tag exactly when it is Conditional |
| Format.InactiveChangeRowShowsAction | ui/format.go:91-111 | an inactive change row shows the action's glyph in brackets, the id cell, the action's upper-cased word, the type, then the replacement tag and a newline |
| Format.InactiveAddRowLayout | ui/format.go:91-98 | a proposed addition shows `[[green::b]+[-]] ` before the id and `[green::b]ADD[-] ` after it |
| Format.ParseEventRow | ui/format.go:114-122 | an event row ends with a newline |
| Format.EventRowIsOneLine | ui/format.go:114-122 | when the status, the logical id and the type hold no newline, an event row's only newline is its final character |
| Format.EventRowShowsStatusIdAndType | ui/format.go:114-122 | an event row depends only on the status, the logical id and the resource type |
| Format.EventRowShowsStatus | ui/format.go:114-122 | an event row shows, in brackets, the status upper-cased between its colour tag and the end tag, then the id cell, the type and a newline |
| Format.EventRowLeadsWithColor | ui/format.go:114-117 | an event row starts with a bracket and the status colour's tag |
| Format.NegativeEventRowIsRed | ui/format.go:47-60 | the displayed row of an event starts with `[[red::b]` exactly when its status is negative |
| Format.ParseDisplayRow | ui/format.go:77-83 | change-sourced rows render as change rows and every other row as an event row; each ends with a newline |
| Format.RenderRowsSnoc | ui/format.go:135-138 | rendering one more key appends exactly that key's row |
| Format.SortedKeys | ui/format.go:126-133 | the keys come out strictly sorted in byte order, each key of the map exactly once |
| Format.ParseDisplayRows | ui/format.go:125-140 | the text is the rows rendered in the unique strictly sorted order of the map's keys |
| Callbacks.Decide | ui/callbacks.go:107-111 | success exactly when no errors were collected; a failure carries every collected error |
| Callbacks.OutcomesAppend | ui/callbacks.go:93-128 | the outcomes of consecutive stretches of the loop are the outcomes of each, in order |
| Callbacks.StepEvent | ui/callbacks.go:99-121 | events not after `now` change nothing; a root event changes no state and emits its signals; a child event that is after `now` and unseen replaces its row, records its id and appends itself to the errors exactly when negative; a seen child changes nothing |
| Callbacks.FoldEvents | ui/callbacks.go:99-123 | collected errors are only appended to, and the seen ids only grow |
| Callbacks.Fresh | ui/callbacks.go:100-120 | the applied events are after `now`, not roots and not seen before, each with a distinct id; every qualifying event's id ends up seen or applied |
| Callbacks.FoldIsApplyAll | ui/callbacks.go:96-124 | the loop state after any event sequence equals the reference: the fresh events applied once each, in fold order |
| Callbacks.NothingFreshWhenAllSeen | ui/callbacks.go:113 | when every qualifying child id is already seen, nothing is applied |
| Callbacks.FoldIdempotent | ui/callbacks.go:113-120 | folding the same events a second time leaves the state unchanged |
| Callbacks.FoldAppend | ui/callbacks.go:93-124 | folding a concatenation is folding the first part, then the second from the resulting state, with the signals concatenated |
| Callbacks.PollIsOneFold | ui/callbacks.go:96-124 | `Poll` and `FoldPage`: one poll is one fold over the pages, each reversed, in page order |
| Callbacks.RunIsOneFold | ui/callbacks.go:93-128 | `Run`: any number of polls is one fold over all their pages in order |
| Callbacks.RunAppliesEachEventOnce | ui/callbacks.go:90-120 | across all polls, no event id is applied twice |
| Callbacks.DuplicatePageChangesNothing | ui/callbacks.go:96-124 | a page served again in the same poll leaves the state as one copy does |
| Callbacks.RowsComeFromChildEvents | ui/callbacks.go:100-121 | every row after the fold is either the initial row or the event row of a child event after `now` |
| Callbacks.EventMapProvenance | data/data.go:116-125 | every row of an event map is the event row of one of the events |
| Callbacks.PageRowFromLatestEvent | ui/callbacks.go:99-114 | within one page, a resource's row comes from its newest applicable event, because the page is newest first and is reversed |
| Callbacks.NoOutcomeWithoutTerminal | ui/callbacks.go:101-112 | without a terminal root event, no outcome is signalled |
| Callbacks.FirstTerminalDecides | ui/callbacks.go:101-118 | the first outcome is decided by exactly the errors collected before the first terminal root event |
| Callbacks.FoldUpToFirstTerminal | ui/callbacks.go:101-118 | folding up to and including the first terminal root event yields exactly one outcome, decided by the errors collected so far |
| Callbacks.TerminalRootFinishes | ui/callbacks.go:106-112 | a terminal root event after `now` always signals an outcome |
| Callbacks.LeastTerminal | ui/callbacks.go:101-112 | when some terminal root event exists, there is a first one |
| Callbacks.RootCompleteKeepsChangeRow | ui/callbacks.go:99-112 | a page holding only a CREATE_COMPLETE root event leaves the change row as it was and finishes with success |
| Callbacks.NegativeChildThenTerminalRoot | ui/callbacks.go:99-118 | a fresh failed child followed by a terminal root on the same page (newest first) finishes with failure listing that child |
| Callbacks.UpdateFailedThenRollbackFails | ui/callbacks.go:99-118 | UPDATE_FAILED on a resource then UPDATE_ROLLBACK_COMPLETE on the stack finishes with failure listing that event |
| Callbacks.NestedStackEventFinishes | ui/callbacks.go:101-112 | the root test looks only at the resource type: an event of any `AWS::CloudFormation::Stack` resource steps the same whatever its logical id, and a terminal one finishes the run |
| Callbacks.OutcomeBeforeOlderPageErrors | ui/callbacks.go:96-118 | in one poll, a terminal root event on the newest page is decided before a failed resource event on an older page is collected: the run reports success, and the failure is collected afterwards |
| Callbacks.StaleRowAcrossPages | ui/callbacks.go:96-99 | with a resource's newer event on the first page and its older one on the second, the row ends up from the older event |
| Callbacks.FailMessage | ui/callbacks.go:59-71 | the failure report is the header followed by one "id - reason" line per collected error, in order, separated but not terminated by newlines |
| Callbacks.CallFor | ui/callbacks.go:73-80 | delete issues the stack deletion, and exactly delete; create and update execute the change set |
| Callbacks.ExecuteOperation | ui/callbacks.go:73-85 | the call proceeds exactly when the remote call reports no error, and otherwise aborts with that error |
| Callbacks.ExecuteButton | ui/callbacks.go:29-52 | on success the loop starts with exactly the activated proposed rows (same keys, all active), nothing seen and no errors; a failed call aborts with the call's error |
| Callbacks.ExecuteButtonShowsProposedChanges | ui/callbacks.go:29-36 | confirming a change set starts the loop on exactly the change map built as active rows |
| Callbacks.DeclinedSubjectAsWritten | ui/callbacks.go:18-22 | as written, the subject is "change set" exactly for delete and "delete" exactly for create and update |
| Callbacks.DeclinedSubjectInverted | ui/callbacks.go:17-24 | `DeclineMessage`: the printed notice reads "User declined delete" for a create and "User declined change set" for a delete |
| Callbacks.DeclineSubjectsSwapped | ui/callbacks.go:17-24 | for every operation the intended notice differs from the printed one |
| Callbacks.DeclinedSubject | ui/callbacks.go:16-26 | as intended: the decline notice names "delete" exactly for delete and "change set" exactly for create and update |
| Up.AskYesNo | cmd/up.go:138-161 | an answer is produced exactly when some rune is y/Y or n/N; the first such rune decides it, and everything up to it is consumed; otherwise the read error is returned after all input is consumed |
| Up.AskYesNoIgnoresLaterInput | cmd/up.go:152-156 | input after the deciding rune is never read |
| Up.AskYesNoSkipsOthers | cmd/up.go:143-159 | runes other than y and n are skipped: the answer is the one given for the rest of the input |
| Up.ChangeSetNameReadsBack | cmd/up.go:93 | `ChangeSetName`: the change-set name is the stack name, a dash, and decimal digits that read back as the Unix time |
| Up.OperationFor | cmd/up.go:127-130 | update exactly when the stack exists, create exactly when it does not |
| Up.HandleOverwrite | cmd/up.go:163-187 | it asks exactly when overwrite is off; it requests deletion exactly when overwrite is on or the answer is yes; a read error or a deletion error is returned, and a decline returns no error |
| Up.UpAsWritten | cmd/up.go:92-130 | credential and existence errors abort, and so does an overwrite-path error on an existing empty stack; in every other case a change set is requested. It uses the existence read at the start, and it records a deletion exactly when the stack was existing, empty and its deletion requested |
| Up.UpdateAfterDeletion | cmd/up.go:174-178 | as written, deleting an empty stack is followed by a change set that updates it |
| Up.ProceedsAfterDecline | cmd/up.go:181-184 | as written, declining the deletion still goes on to request a change set |
| Up.DecideOverwrite | cmd/up.go:163-187 | proceed with the stack gone exactly when the deletion was requested and succeeded; stop exactly on a decline; abort exactly on an error, with that error |
| Up.Up | cmd/up.go:92-130 | as intended: credential and existence errors abort with their error, and so does an overwrite-path error, returning the read or deletion error `HandleOverwrite` passes back, but nothing else. A declined deletion stops with no change set, and only a decline does. After a successful deletion the change set creates the stack. Otherwise the operation follows the stack's existence |
| Up.UpAgreesWhenNothingDeleted | cmd/up.go:112-130 | when the code as written requests a change set without deleting anything, the intended version requests the same one |

## Left out

- Every AWS call the model reaches is a parameter. This covers credentials, stack existence and
  emptiness, execute, delete and the event paginator (`Remote`, `outcomeOf`, and the pages of each
  poll). cfn/cfn.go beyond the glyph table and the operation names is not part of this model.
- Up.UpAsWritten and Up.Up stop at the change-set request: the call `cfn.CreateChanges` and its
  error return (cmd/up.go:120-123) are not modelled, so a failure to create the change set is
  not among their error cases.
- Terminal UI behaviour is not modelled: the tview widgets, `resetForm`, `fillDisplayBox`,
  `app.Stop` and the focus handling. `addErrorBar` is the `ShowErrorBar` signal.
- The goroutine, the 500 ms sleep and the endless outer loop are not modelled. A run is a
  finite list of polls (`Run`), and any prefix of the real loop is one such run.
- `now` is a parameter. The source reads the clock only after the mutating call, so events
  stamped between that call and the clock read are never shown. The lemmas hold for any `now`.
- `RollbackStackStatus`, `utils.ReverseEvents`, `ContainsStackStatus` and `ContainsResourceStatus`
  are used by ui/callbacks.go and defined outside the modelled files. The rollback family is
  the parameter `rollback`, and the other three are modelled as `Reverse` and `ContainsStatus`.
- Printing is not modelled. The success, failure, decline and status messages are strings
  (`SuccessMessage`, `FailMessage`, `DeclineMessage`), and the `defer` ordering of the prints
  is not modelled. The "Please enter Y/N" re-prompt is not modelled either.
- Colors: `Tint` stands for `fmt.Sprintf` of the ANSI pattern. Black, Yellow, Purple, Teal, the
  DOCS and STATUS prefixes, `colors.Status` and `formatMessage` for Error, Docs and Success are
  not modelled: nothing in the modelled core prints through them.
- Case mapping is ASCII only. Go's `strings.ToUpper`, `strings.ToLower` and `unicode.ToLower`
  also map non-ASCII letters. For `y`/`n` and the AWS status and type names the ASCII mapping is
  exact.
- Sort order compares code points. `sort.Strings` compares UTF-8 bytes, which gives the same order.
- Timestamps are integers. `time.Time.After` is plain `>`, and the monotonic clock reading is
  not modelled.
- A nil SDK pointer field makes the source panic, and this is not modelled. Examples are a
  missing `LogicalResourceId`, `ResourceType`, `ResourceStatusReason` or `StackId`.
- The change actions are Add, Modify, Remove and the empty action. Other SDK actions (Import,
  Dynamic) cannot be represented, though the source would print them upper-cased. Replacement
  values are True, False, Conditional and empty. Only True and Conditional show a tag.
- `info.StackID = *changeSet.StackId` (cmd/up.go:125) is not modelled, and neither is
  `ui.DisplayChanges` (cmd/up.go:132). The request keeps an empty stack id.
- Up.ChangeSetNameReadsBack covers only nonnegative Unix times, and the int64 range of
  `Unix()` is not modelled. Negative times render with a leading '-' (`IntToDecimal`).
- Format.ColorizeStatus has no literal table. Its colour is stated by `StatusColor` and
  `StatusColorByFamily`, and its word by `ToUpper`.
- The loop treats every event of type `AWS::CloudFormation::Stack` as the stack's own, and this
  is modelled as written. A nested stack's terminal event therefore finishes the run
  (`NestedStackEventFinishes`). The stack name is never compared.
- Within one poll the newest page is folded first. A terminal root event on it is decided
  before failures on older pages are collected (`OutcomeBeforeOlderPageErrors`). "Every
  failure" in the report means those collected before the deciding event.
- Behaviour as written that a reader may not expect:
  - root events are never added to the seen set, so a repeated terminal root event signals
    again;
  - event rows drop the status reason and are inactive;
  - within a page, events are applied oldest first, but across pages the fold order is not
    chronological (see `StaleRowAcrossPages`).
- ui/display.go, cmd/down.go, main.go and the root package files are outside the modelled core.

## Findings

| source | as written | input that shows it | evidently intended | confidence | as-written member | corrected member |
|---|---|---|---|---|---|---|
| ui/callbacks.go:17-24 | the subject is "change set" only for delete and "delete" otherwise, so the notice is inverted | decline a create: it prints "User declined delete" | "delete" for a delete, "change set" for a create or update | medium, not executed | Callbacks.DeclinedSubjectInverted | Callbacks.DeclinedSubject |
| cmd/up.go:174-178 | `exists = false` assigns handleOverwrite's own parameter, so `Up` keeps `exists == true` | existing empty stack with overwrite on: the stack is deleted, then the change set is created as an update of it | after deletion, create the stack (change-set type and operation Create) | high, not executed | Up.UpdateAfterDeletion | Up.Up |
| cmd/up.go:181-184 | declining prints "Terminating" but returns nil, and `Up` goes on to create the change set | existing empty stack, overwrite off, answer 'n' | stop without creating a change set | medium, not executed | Up.ProceedsAfterDecline | Up.Up |
