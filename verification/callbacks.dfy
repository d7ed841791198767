/** The reconciliation core of ui/callbacks.go: one pass of the event loop
    as a pure fold over a page of stack events, the success/failure decision
    on the stack's own status, the failure report, and the dispatch of the
    mutating call when the user confirms. */
module Callbacks {
  import opened Wrappers
  import opened Utils
  import opened Text
  import opened Cfn
  import opened Data
  import Colors

  // ---------------------------------------------------------------------
  // State of one run of the event loop

  /** How a run ends. */
  datatype Outcome = Success | Failure(errors: seq<StackEvent>)

  /** What the loop body does besides updating its state: show the error bar
      (`addErrorBar`), or finish with an outcome (`succeed` / `fail`). The
      loop never leaves its `for`, so a run can emit several of these. */
  datatype Signal = ShowErrorBar | Finish(outcome: Outcome)

  /** The rows shown, the ids of the events already applied, and the
      negative child events collected, in the order they were applied. */
  datatype LoopState = LoopState(
    rows: map<string, DisplayRow>,
    seen: set<string>,
    errors: seq<StackEvent>)

  /** The state after some events, with the signals emitted on the way. */
  datatype Fold = Fold(state: LoopState, signals: seq<Signal>)

  /** An event whose resource type is `AWS::CloudFormation::Stack`: the
      deployed stack's own events, and also those of any nested stack the
      template declares. */
  predicate IsRoot(e: StackEvent)
  {
    e.resourceType == CloudformationStackResource
  }

  /** `event.Timestamp.After(now)`: strictly later. */
  predicate After(e: StackEvent, now: Instant)
  {
    e.timestamp > now
  }

  /** A root event after `now` whose status has left the pending family. */
  predicate IsTerminal(e: StackEvent, now: Instant)
  {
    After(e, now) && IsRoot(e) && !ContainsStatus(PendingStackStatus, e.status)
  }

  /** A child event after `now` that has not been applied yet. */
  predicate Applies(seen: set<string>, now: Instant, e: StackEvent)
  {
    After(e, now) && !IsRoot(e) && e.eventId !in seen
  }

  predicate IsNegative(e: StackEvent)
  {
    ContainsStatus(NegativeEventStatus, e.status)
  }

  /** Success exactly when no negative child event has been collected;
      otherwise failure carrying all of them. */
  function Decide(errors: seq<StackEvent>): (o: Outcome)
    ensures o == Success <==> errors == []
    ensures o.Failure? ==> o.errors == errors
  {
    if |errors| > 0 then Failure(errors) else Success
  }

  /** The outcomes among the signals, in order. */
  function Outcomes(signals: seq<Signal>): seq<Outcome>
  {
    if |signals| == 0 then []
    else
      var last := signals[|signals| - 1];
      Outcomes(signals[..|signals| - 1]) + (if last.Finish? then [last.outcome] else [])
  }

  lemma {:induction false} OutcomesAppend(a: seq<Signal>, b: seq<Signal>)
    ensures Outcomes(a + b) == Outcomes(a) + Outcomes(b)
    decreases |b|
  {
    if |b| == 0 {
      assert a + b == a;
    } else {
      assert (a + b)[..|a + b| - 1] == a + b[..|b| - 1];
      OutcomesAppend(a, b[..|b| - 1]);
    }
  }

  // ---------------------------------------------------------------------
  // One event

  /** The body of the inner loop for one event. Events not after `now` are
      ignored. A root event changes no state: it may show the error bar (on a
      rollback status) and, on a non-pending status, finishes the run; it is
      never recorded as seen. A new child event overwrites the row of its
      logical id, is recorded as seen and, when negative, collected. */
  function StepEvent(st: LoopState, now: Instant, rollback: seq<Status>, e: StackEvent): (r: Fold)
    ensures !After(e, now) ==> r == Fold(st, [])
    ensures After(e, now) && IsRoot(e) ==>
      && r.state == st
      && (ShowErrorBar in r.signals <==> ContainsStatus(rollback, e.status))
      && r.signals ==
           (if ContainsStatus(rollback, e.status) then [ShowErrorBar] else [])
           + (if IsTerminal(e, now) then [Finish(Decide(st.errors))] else [])
      && Outcomes(r.signals) == (if IsTerminal(e, now) then [Decide(st.errors)] else [])
    ensures Applies(st.seen, now, e) ==>
      && r.signals == []
      && r.state.rows == st.rows[e.logicalId := CreateDisplayRowFromEvent(e)]
      && r.state.seen == st.seen + {e.eventId}
      && r.state.errors == st.errors + (if IsNegative(e) then [e] else [])
    ensures After(e, now) && !IsRoot(e) && e.eventId in st.seen ==> r == Fold(st, [])
  {
    if !After(e, now) then Fold(st, [])
    else if IsRoot(e) then
      var bar := if ContainsStatus(rollback, e.status) then [ShowErrorBar] else [];
      var finish := if !ContainsStatus(PendingStackStatus, e.status) then [Finish(Decide(st.errors))] else [];
      assert Outcomes(bar) == [] && Outcomes(finish) == (if IsTerminal(e, now) then [Decide(st.errors)] else []);
      OutcomesAppend(bar, finish);
      Fold(st, bar + finish)
    else if e.eventId !in st.seen then
      var errors := if IsNegative(e) then st.errors + [e] else st.errors;
      Fold(LoopState(st.rows[e.logicalId := CreateDisplayRowFromEvent(e)], st.seen + {e.eventId}, errors), [])
    else Fold(st, [])
  }

  // ---------------------------------------------------------------------
  // A sequence of events, a page, a poll, a run

  /** The events in order, as the inner `for` visits them. Collected errors
      only grow, and the seen set only grows. */
  function FoldEvents(st: LoopState, now: Instant, rollback: seq<Status>, events: seq<StackEvent>): (r: Fold)
    ensures |st.errors| <= |r.state.errors| && r.state.errors[..|st.errors|] == st.errors
    ensures st.seen <= r.state.seen
    decreases |events|
  {
    if |events| == 0 then Fold(st, [])
    else
      var prev := FoldEvents(st, now, rollback, events[..|events| - 1]);
      var step := StepEvent(prev.state, now, rollback, events[|events| - 1]);
      assert step.state.errors[..|prev.state.errors|] == prev.state.errors;
      Fold(step.state, prev.signals + step.signals)
  }

  /** One page as fetched (newest first) is visited in reverse. */
  function FoldPage(st: LoopState, now: Instant, rollback: seq<Status>, page: seq<StackEvent>): Fold
  {
    FoldEvents(st, now, rollback, Reverse(page))
  }

  /** One poll: every page of the paginator, in the order fetched. */
  function Poll(st: LoopState, now: Instant, rollback: seq<Status>, pages: seq<seq<StackEvent>>): Fold
    decreases |pages|
  {
    if |pages| == 0 then Fold(st, [])
    else
      var prev := Poll(st, now, rollback, pages[..|pages| - 1]);
      var last := FoldPage(prev.state, now, rollback, pages[|pages| - 1]);
      Fold(last.state, prev.signals + last.signals)
  }

  /** A run: successive polls sharing one state. */
  function Run(st: LoopState, now: Instant, rollback: seq<Status>, polls: seq<seq<seq<StackEvent>>>): Fold
    decreases |polls|
  {
    if |polls| == 0 then Fold(st, [])
    else
      var prev := Run(st, now, rollback, polls[..|polls| - 1]);
      var last := Poll(prev.state, now, rollback, polls[|polls| - 1]);
      Fold(last.state, prev.signals + last.signals)
  }

  /** The order in which a poll visits events: each page reversed on its
      own, pages in fetch order. */
  function PollOrder(pages: seq<seq<StackEvent>>): seq<StackEvent>
  {
    if |pages| == 0 then [] else PollOrder(pages[..|pages| - 1]) + Reverse(pages[|pages| - 1])
  }

  /** The order in which a run visits events. */
  function RunOrder(polls: seq<seq<seq<StackEvent>>>): seq<StackEvent>
  {
    if |polls| == 0 then [] else RunOrder(polls[..|polls| - 1]) + PollOrder(polls[|polls| - 1])
  }

  // ---------------------------------------------------------------------
  // Reference description of a fold

  function Ids(events: seq<StackEvent>): set<string>
  {
    set e | e in events :: e.eventId
  }

  /** The events a fold applies, in order: child events after `now` whose id
      is neither in `seen` nor taken by an earlier applied event. */
  function Fresh(seen: set<string>, now: Instant, events: seq<StackEvent>): (f: seq<StackEvent>)
    ensures forall i :: 0 <= i < |f| ==>
      f[i] in events && After(f[i], now) && !IsRoot(f[i]) && f[i].eventId !in seen
    ensures forall i, j :: 0 <= i < j < |f| ==> f[i].eventId != f[j].eventId
    ensures forall e :: e in events && After(e, now) && !IsRoot(e) ==> e.eventId in seen + Ids(f)
    decreases |events|
  {
    if |events| == 0 then []
    else
      var p := Fresh(seen, now, events[..|events| - 1]);
      var e := events[|events| - 1];
      assert forall x :: x in events ==> x in events[..|events| - 1] || x == e;
      if Applies(seen + Ids(p), now, e) then
        assert forall i :: 0 <= i < |p| ==> p[i].eventId in Ids(p);
        p + [e]
      else p
  }

  /** The negative events among `events`, in order. */
  function Negatives(events: seq<StackEvent>): seq<StackEvent>
  {
    if |events| == 0 then []
    else
      var last := events[|events| - 1];
      Negatives(events[..|events| - 1]) + (if IsNegative(last) then [last] else [])
  }

  /** The state after applying the given events to `st`: each overwrites the
      row of its logical id, is recorded as seen, and is collected when
      negative. */
  function ApplyAll(st: LoopState, applied: seq<StackEvent>): LoopState
  {
    LoopState(st.rows + EventMap(applied), st.seen + Ids(applied), st.errors + Negatives(applied))
  }

  /** A fold is exactly the application of its fresh events: rows, seen set
      and collected errors are three independent projections of them. */
  lemma {:induction false} FoldIsApplyAll(st: LoopState, now: Instant, rollback: seq<Status>, events: seq<StackEvent>)
    ensures FoldEvents(st, now, rollback, events).state == ApplyAll(st, Fresh(st.seen, now, events))
    decreases |events|
  {
    if |events| == 0 {
      assert ApplyAll(st, []) == st;
    } else {
      var init := events[..|events| - 1];
      var e := events[|events| - 1];
      FoldIsApplyAll(st, now, rollback, init);
      var p := Fresh(st.seen, now, init);
      var prev := FoldEvents(st, now, rollback, init).state;
      assert prev == ApplyAll(st, p);
      var next := StepEvent(prev, now, rollback, e).state;
      assert FoldEvents(st, now, rollback, events).state == next;
      if Applies(st.seen + Ids(p), now, e) {
        assert Fresh(st.seen, now, events) == p + [e];
        ApplyOneMore(st, p, e);
      } else {
        assert Fresh(st.seen, now, events) == p;
        assert next == prev;
      }
    }
  }

  lemma ApplyNothing(st: LoopState)
    ensures ApplyAll(st, []) == st
  {
    assert st.rows + map[] == st.rows;
  }

  /** Applying one more event is one step of the loop on a new child event. */
  lemma ApplyOneMore(st: LoopState, applied: seq<StackEvent>, e: StackEvent)
    ensures var prev := ApplyAll(st, applied);
            ApplyAll(st, applied + [e]) == LoopState(
              prev.rows[e.logicalId := CreateDisplayRowFromEvent(e)],
              prev.seen + {e.eventId},
              prev.errors + (if IsNegative(e) then [e] else []))
  {
    var f := applied + [e];
    assert f[..|f| - 1] == applied;
    assert Ids(f) == Ids(applied) + {e.eventId} by {
      assert forall x :: x in f <==> x in applied || x == e;
    }
    assert EventMap(f) == EventMap(applied)[e.logicalId := CreateDisplayRowFromEvent(e)];
    assert Negatives(f) == Negatives(applied) + (if IsNegative(e) then [e] else []);
    UnionThenUpdate(st.rows, EventMap(applied), e.logicalId, CreateDisplayRowFromEvent(e));
  }

  lemma UnionThenUpdate<K, V>(a: map<K, V>, b: map<K, V>, k: K, v: V)
    ensures (a + b)[k := v] == a + b[k := v]
  {
  }

  /** When every candidate child event has been seen, nothing is fresh. */
  lemma {:induction false} NothingFreshWhenAllSeen(seen: set<string>, now: Instant, events: seq<StackEvent>)
    requires forall e :: e in events && After(e, now) && !IsRoot(e) ==> e.eventId in seen
    ensures Fresh(seen, now, events) == []
    decreases |events|
  {
    if |events| > 0 {
      NothingFreshWhenAllSeen(seen, now, events[..|events| - 1]);
    }
  }

  /** Folding the same events a second time changes no rows, no seen ids and
      no errors. */
  lemma FoldIdempotent(st: LoopState, now: Instant, rollback: seq<Status>, events: seq<StackEvent>)
    ensures FoldEvents(FoldEvents(st, now, rollback, events).state, now, rollback, events).state
         == FoldEvents(st, now, rollback, events).state
  {
    var applied := Fresh(st.seen, now, events);
    var once := FoldEvents(st, now, rollback, events).state;
    FoldIsApplyAll(st, now, rollback, events);
    assert once.seen == st.seen + Ids(applied);
    assert forall e :: e in events && After(e, now) && !IsRoot(e) ==> e.eventId in once.seen;
    NothingFreshWhenAllSeen(once.seen, now, events);
    FoldIsApplyAll(once, now, rollback, events);
    ApplyNothing(once);
  }

  /** Folding a concatenation is folding the parts one after the other. */
  lemma {:induction false} FoldAppend(st: LoopState, now: Instant, rollback: seq<Status>, a: seq<StackEvent>, b: seq<StackEvent>)
    ensures var first := FoldEvents(st, now, rollback, a);
            var second := FoldEvents(first.state, now, rollback, b);
            FoldEvents(st, now, rollback, a + b) == Fold(second.state, first.signals + second.signals)
    decreases |b|
  {
    if |b| == 0 {
      assert a + b == a;
    } else {
      var init, last := b[..|b| - 1], b[|b| - 1];
      assert a + b == (a + init) + [last];
      assert b == init + [last];
      var first := FoldEvents(st, now, rollback, a);
      var mid := FoldEvents(first.state, now, rollback, init);
      var step := StepEvent(mid.state, now, rollback, last);
      FoldAppend(st, now, rollback, a, init);
      FoldSnoc(st, now, rollback, a + init, last);
      FoldSnoc(first.state, now, rollback, init, last);
      AppendAssociative(first.signals, mid.signals, step.signals);
    }
  }

  lemma SplitAt<T>(s: seq<T>, k: int)
    requires 0 <= k <= |s|
    ensures s[..k] + s[k..] == s
  {
  }

  lemma AppendAssociative<T>(x: seq<T>, y: seq<T>, z: seq<T>)
    ensures (x + y) + z == x + (y + z)
  {
  }

  /** Folding one more event is one more step. */
  lemma FoldSnoc(st: LoopState, now: Instant, rollback: seq<Status>, events: seq<StackEvent>, e: StackEvent)
    ensures var prev := FoldEvents(st, now, rollback, events);
            var step := StepEvent(prev.state, now, rollback, e);
            FoldEvents(st, now, rollback, events + [e]) == Fold(step.state, prev.signals + step.signals)
  {
    assert (events + [e])[..|events|] == events;
  }

  /** A poll is one fold over its pages, each reversed on its own. */
  lemma {:induction false} PollIsOneFold(st: LoopState, now: Instant, rollback: seq<Status>, pages: seq<seq<StackEvent>>)
    ensures Poll(st, now, rollback, pages) == FoldEvents(st, now, rollback, PollOrder(pages))
    decreases |pages|
  {
    if |pages| > 0 {
      PollIsOneFold(st, now, rollback, pages[..|pages| - 1]);
      FoldAppend(st, now, rollback, PollOrder(pages[..|pages| - 1]), Reverse(pages[|pages| - 1]));
    }
  }

  /** A run is one fold over all its polls. */
  lemma {:induction false} RunIsOneFold(st: LoopState, now: Instant, rollback: seq<Status>, polls: seq<seq<seq<StackEvent>>>)
    ensures Run(st, now, rollback, polls) == FoldEvents(st, now, rollback, RunOrder(polls))
    decreases |polls|
  {
    if |polls| > 0 {
      RunIsOneFold(st, now, rollback, polls[..|polls| - 1]);
      var prev := Run(st, now, rollback, polls[..|polls| - 1]);
      PollIsOneFold(prev.state, now, rollback, polls[|polls| - 1]);
      FoldAppend(st, now, rollback, RunOrder(polls[..|polls| - 1]), PollOrder(polls[|polls| - 1]));
    }
  }

  /** Over a whole run, each child event id is applied at most once, however
      often overlapping pages return it, and the final state is exactly the
      application of those events. */
  lemma {:induction false} RunAppliesEachEventOnce(st: LoopState, now: Instant, rollback: seq<Status>, polls: seq<seq<seq<StackEvent>>>)
    ensures var applied := Fresh(st.seen, now, RunOrder(polls));
            && Run(st, now, rollback, polls).state == ApplyAll(st, applied)
            && (forall i, j :: 0 <= i < j < |applied| ==> applied[i].eventId != applied[j].eventId)
            && (forall i :: 0 <= i < |applied| ==> applied[i].eventId !in st.seen)
  {
    RunIsOneFold(st, now, rollback, polls);
    FoldIsApplyAll(st, now, rollback, RunOrder(polls));
  }

  /** Fetching the same page twice in one poll leaves the state as one fetch
      does. */
  lemma DuplicatePageChangesNothing(st: LoopState, now: Instant, rollback: seq<Status>, page: seq<StackEvent>)
    ensures Poll(st, now, rollback, [page, page]).state == Poll(st, now, rollback, [page]).state
  {
    assert [page, page][..1] == [page];
    assert [page][..0] == [];
    FoldIdempotent(st, now, rollback, Reverse(page));
  }

  /** Every row after a fold either was there before, unchanged, or comes
      from a child event after `now`; so a root event never becomes a row. */
  lemma RowsComeFromChildEvents(st: LoopState, now: Instant, rollback: seq<Status>, events: seq<StackEvent>)
    ensures var rows := FoldEvents(st, now, rollback, events).state.rows;
            forall id | id in rows ::
              (id in st.rows && rows[id] == st.rows[id])
              || (exists e :: e in events && After(e, now) && !IsRoot(e) && rows[id] == CreateDisplayRowFromEvent(e))
  {
    var applied := Fresh(st.seen, now, events);
    FoldIsApplyAll(st, now, rollback, events);
    var m := EventMap(applied);
    forall id | id in m
      ensures exists e :: e in events && After(e, now) && !IsRoot(e) && m[id] == CreateDisplayRowFromEvent(e)
    {
      EventMapProvenance(applied, id);
      var i :| 0 <= i < |applied| && m[id] == CreateDisplayRowFromEvent(applied[i]);
      assert applied[i] in events;
    }
  }

  /** Each row of an event map is built from one of the events. */
  lemma {:induction false} EventMapProvenance(events: seq<StackEvent>, id: string)
    requires id in EventMap(events)
    ensures exists i :: 0 <= i < |events| && EventMap(events)[id] == CreateDisplayRowFromEvent(events[i])
    decreases |events|
  {
    var last := events[|events| - 1];
    if id != last.logicalId {
      EventMapProvenance(events[..|events| - 1], id);
      var i :| 0 <= i < |events| - 1 && EventMap(events[..|events| - 1])[id] == CreateDisplayRowFromEvent(events[..|events| - 1][i]);
      assert events[..|events| - 1][i] == events[i];
    }
  }

  /** Within a page, events are visited oldest first, so a logical id's row
      comes from the last fresh event for it in reversed (oldest-first)
      order. */
  lemma {:induction false} PageRowFromLatestEvent(st: LoopState, now: Instant, rollback: seq<Status>, page: seq<StackEvent>, i: int)
    requires var applied := Fresh(st.seen, now, Reverse(page));
             0 <= i < |applied| && forall j :: i < j < |applied| ==> applied[j].logicalId != applied[i].logicalId
    ensures var applied := Fresh(st.seen, now, Reverse(page));
            var rows := FoldPage(st, now, rollback, page).state.rows;
            applied[i].logicalId in rows && rows[applied[i].logicalId] == CreateDisplayRowFromEvent(applied[i])
  {
    var applied := Fresh(st.seen, now, Reverse(page));
    FoldIsApplyAll(st, now, rollback, Reverse(page));
    EventMapLastWins(applied, i);
  }

  // ---------------------------------------------------------------------
  // The terminal decision over a fold

  /** Without a terminal root event, a fold finishes nothing. */
  lemma {:induction false} NoOutcomeWithoutTerminal(st: LoopState, now: Instant, rollback: seq<Status>, events: seq<StackEvent>)
    requires forall i :: 0 <= i < |events| ==> !IsTerminal(events[i], now)
    ensures Outcomes(FoldEvents(st, now, rollback, events).signals) == []
    decreases |events|
  {
    if |events| > 0 {
      var prev := FoldEvents(st, now, rollback, events[..|events| - 1]);
      NoOutcomeWithoutTerminal(st, now, rollback, events[..|events| - 1]);
      OutcomesAppend(prev.signals, StepEvent(prev.state, now, rollback, events[|events| - 1]).signals);
    }
  }

  /** `events[k]` is the first terminal root event. */
  predicate FirstTerminal(events: seq<StackEvent>, now: Instant, k: int)
  {
    && 0 <= k < |events| && IsTerminal(events[k], now)
    && forall i :: 0 <= i < k ==> !IsTerminal(events[i], now)
  }

  /** The first terminal root event decides the first outcome: failure
      exactly when a negative child event was collected before it (in this
      fold or earlier in the run), success otherwise. */
  lemma {:induction false} FirstTerminalDecides(st: LoopState, now: Instant, rollback: seq<Status>, events: seq<StackEvent>, k: int)
    requires FirstTerminal(events, now, k)
    ensures var outcomes := Outcomes(FoldEvents(st, now, rollback, events).signals);
            |outcomes| > 0
            && outcomes[0] == Decide(st.errors + Negatives(Fresh(st.seen, now, events[..k])))
  {
    var upTo := events[..k + 1];
    FoldUpToFirstTerminal(st, now, rollback, events, k);
    var head := FoldEvents(st, now, rollback, upTo);
    var rest := FoldEvents(head.state, now, rollback, events[k + 1..]);
    FoldAppend(st, now, rollback, upTo, events[k + 1..]);
    SplitAt(events, k + 1);
    OutcomesAppend(head.signals, rest.signals);
  }

  /** Up to and including the first terminal root event, exactly one outcome
      is emitted, decided by the errors collected before it. */
  lemma FoldUpToFirstTerminal(st: LoopState, now: Instant, rollback: seq<Status>, events: seq<StackEvent>, k: int)
    requires FirstTerminal(events, now, k)
    ensures Outcomes(FoldEvents(st, now, rollback, events[..k + 1]).signals)
         == [Decide(st.errors + Negatives(Fresh(st.seen, now, events[..k])))]
  {
    var before := events[..k];
    var upTo := events[..k + 1];
    assert upTo[..k] == before && upTo[k] == events[k];
    NoOutcomeWithoutTerminal(st, now, rollback, before);
    var prev := FoldEvents(st, now, rollback, before);
    FoldIsApplyAll(st, now, rollback, before);
    var step := StepEvent(prev.state, now, rollback, events[k]);
    assert FoldEvents(st, now, rollback, upTo).signals == prev.signals + step.signals;
    OutcomesAppend(prev.signals, step.signals);
  }

  /** A fold that meets a terminal root event after `now` finishes the run. */
  lemma TerminalRootFinishes(st: LoopState, now: Instant, rollback: seq<Status>, events: seq<StackEvent>, k: int)
    requires 0 <= k < |events| && IsTerminal(events[k], now)
    ensures |Outcomes(FoldEvents(st, now, rollback, events).signals)| > 0
  {
    var first :| first <= k && FirstTerminal(events, now, first) by {
      LeastTerminal(events, now, k);
    }
    FirstTerminalDecides(st, now, rollback, events, first);
  }

  lemma {:induction false} LeastTerminal(events: seq<StackEvent>, now: Instant, k: int)
    requires 0 <= k < |events| && IsTerminal(events[k], now)
    ensures exists first :: first <= k && FirstTerminal(events, now, first)
    decreases k
  {
    if exists j :: 0 <= j < k && IsTerminal(events[j], now) {
      var j :| 0 <= j < k && IsTerminal(events[j], now);
      LeastTerminal(events, now, j);
    } else {
      assert FirstTerminal(events, now, k);
    }
  }

  // ---------------------------------------------------------------------
  // Concrete runs

  /** The state a run starts from when the change set had one change. */
  function StartFromChange(c: Change): LoopState
  {
    LoopState(ActivateDisplayRows(ChangeMap([c], false)), {}, [])
  }

  /** Folding two events is stepping through them in turn. */
  lemma FoldTwo(st: LoopState, now: Instant, rollback: seq<Status>, a: StackEvent, b: StackEvent)
    ensures var first := StepEvent(st, now, rollback, a);
            var second := StepEvent(first.state, now, rollback, b);
            FoldEvents(st, now, rollback, [a, b]) == Fold(second.state, first.signals + second.signals)
  {
    var first := StepEvent(st, now, rollback, a);
    assert [a, b][..1] == [a];
    assert [a][..0] == [];
    assert FoldEvents(st, now, rollback, []) == Fold(st, []);
    assert [] + first.signals == first.signals;
  }

  lemma CreateCompleteIsTerminalStatus()
    ensures !ContainsStatus(PendingStackStatus, CreateComplete)
  {
  }

  lemma UpdateRollbackCompleteIsTerminalStatus()
    ensures !ContainsStatus(PendingStackStatus, UpdateRollbackComplete)
  {
  }

  lemma UpdateFailedIsNegative()
    ensures ContainsStatus(NegativeEventStatus, UpdateFailed)
  {
    assert NegativeEventStatus[2] == UpdateFailed;
  }

  /** Folding one event is stepping through it. */
  lemma FoldOne(st: LoopState, now: Instant, rollback: seq<Status>, a: StackEvent)
    ensures FoldEvents(st, now, rollback, [a]) == StepEvent(st, now, rollback, a)
  {
    assert [a][..0] == [];
    assert FoldEvents(st, now, rollback, []) == Fold(st, []);
    assert [] + StepEvent(st, now, rollback, a).signals == StepEvent(st, now, rollback, a).signals;
  }

  /** One change, then only the root's CREATE_COMPLETE: the run succeeds and
      the resource keeps its activated change-set row. */
  lemma {:induction false} RootCompleteKeepsChangeRow(c: Change, root: StackEvent, now: Instant, rollback: seq<Status>)
    requires IsRoot(root) && After(root, now) && root.status == CreateComplete
    ensures var r := FoldPage(StartFromChange(c), now, rollback, [root]);
            && Outcomes(r.signals) == [Success]
            && r.state == StartFromChange(c)
            && c.logicalId in r.state.rows
            && r.state.rows[c.logicalId] == CreateDisplayRowFromChange(c, true)
  {
    var st := StartFromChange(c);
    assert Reverse([root]) == [root];
    FoldOne(st, now, rollback, root);
    CreateCompleteIsTerminalStatus();
    assert IsTerminal(root, now);
    var step := StepEvent(st, now, rollback, root);
    assert step.state == st && Outcomes(step.signals) == [Decide(st.errors)];
    ActivateChangeMap([c]);
    ChangeMapLastWins([c], true, 0);
  }

  /** A page holding a root event above a child event is folded child
      first. */
  lemma FoldPageRootOverChild(st: LoopState, now: Instant, rollback: seq<Status>, root: StackEvent, child: StackEvent)
    ensures var first := StepEvent(st, now, rollback, child);
            var second := StepEvent(first.state, now, rollback, root);
            FoldPage(st, now, rollback, [root, child]) == Fold(second.state, first.signals + second.signals)
  {
    assert Reverse([root, child]) == [child, root];
    FoldTwo(st, now, rollback, child, root);
  }

  /** A new negative child event, then a terminal root event: the run fails
      and lists exactly that event, whose row replaces whatever the row map
      held for the resource. */
  lemma NegativeChildThenTerminalRoot(st: LoopState, child: StackEvent, root: StackEvent, now: Instant, rollback: seq<Status>)
    requires st.errors == [] && Applies(st.seen, now, child) && IsNegative(child)
    requires IsTerminal(root, now)
    ensures var r := FoldPage(st, now, rollback, [root, child]);
            && Outcomes(r.signals) == [Failure([child])]
            && child.logicalId in r.state.rows
            && r.state.rows[child.logicalId] == CreateDisplayRowFromEvent(child)
  {
    FoldPageRootOverChild(st, now, rollback, root, child);
    var first := StepEvent(st, now, rollback, child);
    AppendToEmpty(st.errors, child);
    assert first.signals == [] && first.state.errors == [child];
    var second := StepEvent(first.state, now, rollback, root);
    assert Outcomes(second.signals) == [Decide([child])];
    OutcomesAppend(first.signals, second.signals);
  }

  lemma AppendToEmpty<T>(s: seq<T>, x: T)
    requires s == []
    ensures s + [x] == [x]
  {
  }

  /** A resource reports UPDATE_FAILED, then the root reaches
      UPDATE_ROLLBACK_COMPLETE: the run fails listing that event. */
  lemma UpdateFailedThenRollbackFails(st: LoopState, child: StackEvent, root: StackEvent, now: Instant, rollback: seq<Status>)
    requires st.errors == [] && child.eventId !in st.seen
    requires !IsRoot(child) && After(child, now) && child.status == UpdateFailed
    requires IsRoot(root) && After(root, now) && root.status == UpdateRollbackComplete
    ensures var r := FoldPage(st, now, rollback, [root, child]);
            && Outcomes(r.signals) == [Failure([child])]
            && child.logicalId in r.state.rows
            && r.state.rows[child.logicalId] == CreateDisplayRowFromEvent(child)
  {
    UpdateFailedIsNegative();
    UpdateRollbackCompleteIsTerminalStatus();
    NegativeChildThenTerminalRoot(st, child, root, now, rollback);
  }

  /** Two one-event pages are visited in fetch order. */
  lemma PollTwoPages(st: LoopState, now: Instant, rollback: seq<Status>, a: StackEvent, b: StackEvent)
    ensures Poll(st, now, rollback, [[a], [b]]) == FoldEvents(st, now, rollback, [a, b])
  {
    var pages := [[a], [b]];
    assert Reverse([a]) == [a] && Reverse([b]) == [b];
    assert PollOrder([[a]]) == [a] by {
      assert [[a]][..0] == [];
      assert PollOrder([[a]]) == PollOrder([]) + Reverse([a]);
    }
    assert pages[..1] == [[a]];
    assert PollOrder(pages) == PollOrder([[a]]) + Reverse([b]);
    PollIsOneFold(st, now, rollback, pages);
  }

  /** Pages are reversed one at a time: when the newer event for a resource
      is on the first page and an older one on the second, the older one is
      applied last and its row is what the display keeps. */
  lemma StaleRowAcrossPages(st: LoopState, now: Instant, rollback: seq<Status>, newer: StackEvent, older: StackEvent)
    requires !IsRoot(newer) && !IsRoot(older) && newer.logicalId == older.logicalId
    requires now < older.timestamp < newer.timestamp
    requires newer.eventId !in st.seen && older.eventId !in st.seen && newer.eventId != older.eventId
    ensures var r := Poll(st, now, rollback, [[newer], [older]]);
            older.logicalId in r.state.rows && r.state.rows[older.logicalId] == CreateDisplayRowFromEvent(older)
  {
    PollTwoPages(st, now, rollback, newer, older);
    FoldTwo(st, now, rollback, newer, older);
    var first := StepEvent(st, now, rollback, newer);
    assert Applies(st.seen, now, newer);
    assert first.state.seen == st.seen + {newer.eventId};
    assert Applies(first.state.seen, now, older);
  }

  /** The root test looks at the resource type only. An event of a nested
      stack, a template resource of type `AWS::CloudFormation::Stack` with a
      logical id of its own, steps exactly as an event of the deployed stack
      would, and a terminal one finishes the run. */
  lemma NestedStackEventFinishes(st: LoopState, now: Instant, rollback: seq<Status>, e: StackEvent, id: string)
    requires IsRoot(e)
    ensures StepEvent(st, now, rollback, e.(logicalId := id)) == StepEvent(st, now, rollback, e)
    ensures IsTerminal(e, now) ==> Outcomes(StepEvent(st, now, rollback, e.(logicalId := id)).signals) == [Decide(st.errors)]
  {
  }

  /** Within one poll the newest page is folded first, so a terminal root
      event on it is decided before a failed resource event on an older page
      is collected: the run reports success, and the failure is collected
      only afterwards. */
  lemma OutcomeBeforeOlderPageErrors(st: LoopState, now: Instant, rollback: seq<Status>, root: StackEvent, child: StackEvent)
    requires st.errors == [] && IsTerminal(root, now)
    requires Applies(st.seen, now, child) && IsNegative(child)
    ensures var r := Poll(st, now, rollback, [[root], [child]]);
            Outcomes(r.signals) == [Success] && r.state.errors == [child]
  {
    PollTwoPages(st, now, rollback, root, child);
    FoldTwo(st, now, rollback, root, child);
    var first := StepEvent(st, now, rollback, root);
    assert first.state == st && Outcomes(first.signals) == [Success];
    var second := StepEvent(first.state, now, rollback, child);
    AppendToEmpty(st.errors, child);
    assert second.signals == [] && second.state.errors == [child];
    OutcomesAppend(first.signals, second.signals);
  }

  // ---------------------------------------------------------------------
  // Messages

  const SuccessMessage: string := Colors.SuccessPrefix + "Operation Succeeded"

  const FailureHeader: string :=
    Colors.ErrorPrefix + "Operation failed. The following errors prevented the stack from deploying successfully: \n\n"

  /** One line of the failure report: the logical id in magenta, a dash and
      the status reason. */
  function ErrorLine(e: StackEvent): string
  {
    Colors.Magenta(e.logicalId) + " - " + e.statusReason
  }

  function ErrorLines(errors: seq<StackEvent>): (lines: seq<string>)
    ensures |lines| == |errors|
    ensures forall i :: 0 <= i < |errors| ==> lines[i] == ErrorLine(errors[i])
  {
    if |errors| == 0 then [] else [ErrorLine(errors[0])] + ErrorLines(errors[1..])
  }

  /** The failure report `fail` prints: the header, then one line per
      collected error, separated (not terminated) by newlines. */
  method FailMessage(errors: seq<StackEvent>) returns (msg: string)
    ensures msg == FailureHeader + JoinLines(ErrorLines(errors))
  {
    var body := "";
    var lines := ErrorLines(errors);
    var i := 0;
    while i < |errors|
      invariant 0 <= i <= |errors|
      invariant body == (if i == 0 then "" else JoinLines(lines[..i]) + (if i < |errors| then "\n" else ""))
    {
      AppendLine(lines, i);
      body := body + ErrorLine(errors[i]);
      if i < |errors| - 1 {
        body := body + "\n";
      }
      i := i + 1;
    }
    if |errors| > 0 {
      assert lines[..|errors|] == lines;
    } else {
      assert lines == [];
    }
    msg := FailureHeader + body;
  }

  /** Appending line `i` after the lines before it and their separator joins
      one more line. */
  lemma AppendLine(lines: seq<string>, i: int)
    requires 0 <= i < |lines|
    ensures (if i == 0 then "" else JoinLines(lines[..i]) + "\n") + lines[i] == JoinLines(lines[..i + 1])
  {
    if i == 0 {
      assert lines[..1] == [lines[0]];
    } else {
      assert lines[..i + 1] == lines[..i] + [lines[i]];
      JoinLinesSnoc(lines[..i], lines[i]);
    }
  }


  // ---------------------------------------------------------------------
  // Confirming and declining

  /** The remote call that applies the operation. */
  datatype RemoteCall = DeleteStackCall | ExecuteChangeSetCall

  /** Delete calls the stack deletion; every other operation executes the
      change set. */
  function CallFor(op: StackOperation): (call: RemoteCall)
    ensures call == DeleteStackCall <==> op == Delete
  {
    if op == Delete then DeleteStackCall else ExecuteChangeSetCall
  }

  /** `executeOperation`: issue the call; a non-nil error aborts (the source
      panics), modelled as `Err`. `outcomeOf` gives the error each call
      returns. */
  function ExecuteOperation(op: StackOperation, outcomeOf: RemoteCall -> Option<string>): (r: Result<RemoteCall, string>)
    ensures r.Ok? <==> outcomeOf(CallFor(op)).None?
    ensures r.Ok? ==> r.value == CallFor(op)
    ensures r.Err? ==> Some(r.error) == outcomeOf(CallFor(op))
  {
    match outcomeOf(CallFor(op))
    case None => Ok(CallFor(op))
    case Some(err) => Err(err)
  }

  /** The confirm button: activate the proposed rows, issue the call, and on
      success start the loop with those rows, nothing seen and no errors. */
  function ExecuteButton(op: StackOperation, rows: map<string, DisplayRow>, outcomeOf: RemoteCall -> Option<string>): (r: Result<LoopState, string>)
    ensures r.Ok? <==> outcomeOf(CallFor(op)).None?
    ensures r.Ok? ==> r.value.rows.Keys == rows.Keys && r.value.seen == {} && r.value.errors == []
    ensures r.Ok? ==> forall id | id in r.value.rows :: r.value.rows[id].active
    ensures r.Ok? ==> r.value.rows == ActivateDisplayRows(rows)
    ensures r.Err? ==> Some(r.error) == outcomeOf(CallFor(op))
  {
    match ExecuteOperation(op, outcomeOf)
    case Ok(_) => Ok(LoopState(ActivateDisplayRows(rows), {}, []))
    case Err(e) => Err(e)
  }

  /** Confirming the proposed change set starts the loop on exactly the
      rows the change set would have produced as active rows. */
  lemma ExecuteButtonShowsProposedChanges(op: StackOperation, changes: seq<Change>, outcomeOf: RemoteCall -> Option<string>)
    requires outcomeOf(CallFor(op)).None?
    ensures var r := ExecuteButton(op, ChangeMap(changes, false), outcomeOf);
            r.Ok? && r.value == LoopState(ChangeMap(changes, true), {}, [])
  {
    ActivateChangeMap(changes);
  }

  /** The subject of the decline notice as written: "delete" for every
      operation except Delete, and "change set" for Delete. */
  function DeclinedSubjectAsWritten(op: StackOperation): (subject: string)
    ensures subject == "change set" <==> op == Delete
    ensures subject == "delete" <==> op != Delete
  {
    if op != Delete then "delete" else "change set"
  }

  /** The notice `declineButtonCallbackFn` prints; no remote call is made. */
  function DeclineMessage(op: StackOperation): string
  {
    Colors.ErrorPrefix + "User declined " + DeclinedSubjectAsWritten(op)
  }

  /** Declining a create prints "User declined delete", and declining a
      delete prints "User declined change set". */
  lemma DeclinedSubjectInverted()
    ensures DeclineMessage(Create) == Colors.ErrorPrefix + "User declined " + "delete"
    ensures DeclineMessage(Delete) == Colors.ErrorPrefix + "User declined " + "change set"
  {
  }

  /** The subject of the decline notice as evidently intended: "delete"
      exactly for Delete, "change set" otherwise. */
  function DeclinedSubject(op: StackOperation): (subject: string)
    ensures subject == "delete" <==> op == Delete
    ensures subject == "change set" <==> op != Delete
  {
    if op == Delete then "delete" else "change set"
  }

  /** The decline notice as evidently intended, naming what was declined. */
  function IntendedDeclineMessage(op: StackOperation): string
  {
    Colors.ErrorPrefix + "User declined " + DeclinedSubject(op)
  }

  /** The intended notice differs from the printed one for every operation:
      the two subjects are swapped. */
  lemma DeclineSubjectsSwapped(op: StackOperation)
    ensures DeclinedSubject(op) != DeclinedSubjectAsWritten(op)
    ensures IntendedDeclineMessage(op) != DeclineMessage(op)
  {
    var pre := Colors.ErrorPrefix + "User declined ";
    assert DeclineMessage(op) == pre + DeclinedSubjectAsWritten(op);
    assert IntendedDeclineMessage(op) == pre + DeclinedSubject(op);
    assert DeclinedSubjectAsWritten(op)[0] != DeclinedSubject(op)[0];
    assert DeclineMessage(op)[|pre|] == DeclinedSubjectAsWritten(op)[0];
    assert IntendedDeclineMessage(op)[|pre|] == DeclinedSubject(op)[0];
  }
}
