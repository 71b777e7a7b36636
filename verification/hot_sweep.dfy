/** The hot sweep: a restart-safe newest-side window over a history that keeps growing at the top. */
module HotSweep {
  import opened Common
  import opened TelegramPages

  const BATCH_LIMIT := 100
  const ACCESS_SKIP_RETRY_SECONDS := 300

  // ------------------------------------------------------------------ the peer row

  /** The hot columns of one peer; None is SQL NULL. */
  datatype Row = Row(cursor: Option<nat>, pageOffset: Option<nat>, windowMax: Option<nat>, hadNew: bool,
                     lastSync: Option<int>, emptyStreak: nat, nextRetry: Option<int>, nextDue: Option<int>,
                     accessLost: bool)

  const FRESH_ROW := Row(None, None, None, false, None, 0, None, None, false)

  /** The snapshot a slice works from. */
  datatype Window = Window(cursor: nat, pageOffset: nat, windowMax: nat, hadNew: bool, lastSync: Option<int>,
                           emptyStreak: nat)

  datatype Skip = NoSkip | AccessSkip | HistoryFloor | FloodWait

  datatype SweepResult = SweepResult(fetched: seq<int>, minId: Option<int>, maxId: Option<int>, skip: Skip,
                                     genuinelyNew: nat)

  function CommittedCursor(row: Row): nat {
    if row.cursor.Some? then row.cursor.value else 0
  }

  /** `_begin_hot_window`: reload the window in progress, or open one at the committed cursor. */
  function Begin(row: Row): (Row, Option<Window>) {
    if row.accessLost then (row, None)
    else if row.pageOffset.None? || row.windowMax.None? then
      var cursor := CommittedCursor(row);
      var reloaded :=
        if row.pageOffset.None? then row.(pageOffset := Some(0), windowMax := Some(cursor), hadNew := false) else row;
      (reloaded, Some(Window(cursor, 0, cursor, false, row.lastSync, row.emptyStreak)))
    else
      (row, Some(Window(CommittedCursor(row), row.pageOffset.value, row.windowMax.value, row.hadNew, row.lastSync,
                        row.emptyStreak)))
  }

  /** The compare half of compare-and-set: every column of the snapshot still reads the same. */
  predicate Matches(row: Row, w: Window) {
    && !row.accessLost && CommittedCursor(row) == w.cursor && row.pageOffset == Some(w.pageOffset)
    && row.windowMax == Some(w.windowMax) && row.hadNew == w.hadNew && row.lastSync == w.lastSync
    && row.emptyStreak == w.emptyStreak
  }

  predicate Drained(result: SweepResult) {
    result.skip.HistoryFloor? || |result.fetched| < BATCH_LIMIT
  }

  /** `_persist_hot_page_result`: the set half. `interval` is the cadence the policy yields for the new streak. */
  function Persist(row: Row, w: Window, result: SweepResult, stopped: bool, now: int, interval: nat -> int): Row {
    if !Matches(row, w) then row
    else
      var maxSeen := Max(w.windowMax, if result.maxId.Some? then result.maxId.value else 0);
      var hadNew := w.hadNew || result.genuinelyNew > 0;
      if result.skip.FloodWait? then row
      else if result.skip.AccessSkip? then row.(nextRetry := Some(now + ACCESS_SKIP_RETRY_SECONDS))
      else if Drained(result) && !stopped then
        var streak := if hadNew && maxSeen > CommittedCursor(row) then 0 else row.emptyStreak + 1;
        row.(cursor := Some(Max(0, maxSeen)), lastSync := Some(now), nextRetry := None,
             nextDue := Some(now + interval(streak)),
             emptyStreak := streak, pageOffset := None, windowMax := None, hadNew := false)
      else if result.minId.None? then row.(nextRetry := Some(now + ACCESS_SKIP_RETRY_SECONDS))
      else row.(pageOffset := Some(Max(0, result.minId.value)), windowMax := Some(Max(0, maxSeen)), hadNew := hadNew)
  }

  /** The row kept in the store, updated in place. */
  class PeerRow {
    var cursor: Option<nat>
    var pageOffset: Option<nat>
    var windowMax: Option<nat>
    var hadNew: bool
    var lastSync: Option<int>
    var emptyStreak: nat
    var nextRetry: Option<int>
    var nextDue: Option<int>
    var accessLost: bool

    function View(): Row
      reads this
    {
      Row(cursor, pageOffset, windowMax, hadNew, lastSync, emptyStreak, nextRetry, nextDue, accessLost)
    }

    constructor ()
      ensures View() == FRESH_ROW
    {
      cursor, pageOffset, windowMax, hadNew, lastSync := None, None, None, false, None;
      emptyStreak, nextRetry, nextDue, accessLost := 0, None, None, false;
    }

    method BeginWindow() returns (w: Option<Window>)
      modifies this
      ensures (View(), w) == Begin(old(View()))
    {
      if accessLost {
        return None;
      }
      var committed := if cursor.Some? then cursor.value else 0;
      if pageOffset.Some? && windowMax.Some? {
        return Some(Window(committed, pageOffset.value, windowMax.value, hadNew, lastSync, emptyStreak));
      }
      if pageOffset.None? {
        pageOffset, windowMax, hadNew := Some(0), Some(committed), false;
      }
      w := Some(Window(committed, 0, committed, false, lastSync, emptyStreak));
    }

    method SaveCompleted(hotCursor: nat, now: int, genuinelyNew: bool, interval: nat -> int)
      modifies this
      ensures var rose := genuinelyNew && hotCursor > CommittedCursor(old(View()));
              var streak := if rose then 0 else old(emptyStreak) + 1;
              View() == old(View()).(cursor := Some(hotCursor), lastSync := Some(now), nextRetry := None,
                                     nextDue := Some(now + interval(streak)), emptyStreak := streak,
                                     pageOffset := None, windowMax := None, hadNew := false)
    {
      var committed := if cursor.Some? then cursor.value else 0;
      emptyStreak := if genuinelyNew && hotCursor > committed then 0 else emptyStreak + 1;
      cursor, lastSync, nextRetry, nextDue := Some(hotCursor), Some(now), None, Some(now + interval(emptyStreak));
      pageOffset, windowMax, hadNew := None, None, false;
    }

    method PersistPageResult(w: Window, result: SweepResult, stopped: bool, now: int,
                             interval: nat -> int) returns (accepted: bool)
      modifies this
      ensures View() == Persist(old(View()), w, result, stopped, now, interval)
      ensures accepted <==> Matches(old(View()), w)
    {
      if !Matches(View(), w) {
        return false;
      }
      var maxSeen := Max(w.windowMax, if result.maxId.Some? then result.maxId.value else 0);
      var sawNew := w.hadNew || result.genuinelyNew > 0;
      if result.skip.FloodWait? {
        return true;
      }
      if result.skip.AccessSkip? {
        nextRetry := Some(now + ACCESS_SKIP_RETRY_SECONDS);
        return true;
      }
      if Drained(result) && !stopped {
        SaveCompleted(Max(0, maxSeen), now, sawNew, interval);
        return true;
      }
      if result.minId.None? {
        nextRetry := Some(now + ACCESS_SKIP_RETRY_SECONDS);
        return true;
      }
      pageOffset, windowMax, hadNew := Some(Max(0, result.minId.value)), Some(Max(0, maxSeen)), sawNew;
      accepted := true;
    }
  }

  // ---------------------------------------------------------------- the whole system

  /** A slice in flight: it holds a snapshot, then a fetched page, then the outcome of the page it stored. */
  datatype Phase = Begun | Searched(page: seq<int>) | Stored(result: SweepResult)

  datatype Slice = Slice(window: Window, phase: Phase)

  /** `top` is the largest id Telegram ever issued in this peer; `stored` are the messages fetched so far. */
  datatype System = System(history: set<int>, top: nat, stored: set<int>, row: Row, slices: seq<Slice>)

  datatype Step =
    | Arrive(id: nat)
    | Vanish(id: nat)
    | Open
    | Search(i: nat, page: seq<int>)
    | Skipped(i: nat, skip: Skip)
    | Store(i: nat, genuinelyNew: nat)
    | Commit(i: nat, stopped: bool, now: int, interval: nat -> int)
    | Drop(i: nat)
    | Access(lost: bool)

  function PageResult(page: seq<int>, genuinelyNew: nat): SweepResult {
    if page == [] then SweepResult([], None, None, HistoryFloor, 0)
    else SweepResult(page, Some(page[|page| - 1]), Some(page[0]), NoSkip, genuinelyNew)
  }

  function SkipResult(skip: Skip): SweepResult {
    SweepResult([], None, None, skip, 0)
  }

  /** New messages get larger ids; a search returns the newest page of the moment; the rest may happen at any time. */
  ghost predicate Enabled(s: System, step: Step) {
    match step
    case Arrive(id) => id > s.top
    case Vanish(_) => true
    case Open => true
    case Search(i, page) =>
      && i < |s.slices| && s.slices[i].phase.Begun?
      && IsNewestPage(s.history, page, s.slices[i].window.cursor, s.top, s.slices[i].window.pageOffset, BATCH_LIMIT)
    case Skipped(i, skip) => i < |s.slices| && !s.slices[i].phase.Stored? && skip in {AccessSkip, FloodWait}
    case Store(i, _) => i < |s.slices| && s.slices[i].phase.Searched?
    case Commit(i, _, _, _) => i < |s.slices| && s.slices[i].phase.Stored?
    case Drop(i) => i < |s.slices|
    case Access(_) => true
  }

  function Apply(s: System, step: Step): System
    requires Enabled(s, step)
  {
    match step
    case Arrive(id) => s.(history := s.history + {id}, top := id)
    case Vanish(id) => s.(history := s.history - {id})
    case Open =>
      var (row, w) := Begin(s.row);
      s.(row := row, slices := if w.Some? then s.slices + [Slice(w.value, Begun)] else s.slices)
    case Search(i, page) => s.(slices := s.slices[i := s.slices[i].(phase := Searched(page))])
    case Skipped(i, skip) => s.(slices := s.slices[i := s.slices[i].(phase := Stored(SkipResult(skip)))])
    case Store(i, genuinelyNew) =>
      var slice := s.slices[i];
      if Matches(s.row, slice.window) then
        s.(stored := s.stored + (set id | id in slice.phase.page),
           slices := s.slices[i := slice.(phase := Stored(PageResult(slice.phase.page, genuinelyNew)))])
      else s.(slices := RemoveAt(s.slices, i))
    case Commit(i, stopped, now, interval) =>
      s.(row := Persist(s.row, s.slices[i].window, s.slices[i].phase.result, stopped, now, interval),
         slices := RemoveAt(s.slices, i))
    case Drop(i) => s.(slices := RemoveAt(s.slices, i))
    case Access(lost) => s.(row := s.row.(accessLost := lost))
  }

  // --------------------------------------------------------------------- no gaps

  ghost predicate SoundWindow(cursor: nat, offset: nat, windowMax: nat, top: nat) {
    && cursor <= top
    && if offset == 0 then windowMax == cursor else cursor < offset <= windowMax <= top
  }

  /** Nothing at or below the cursor is missing, and mid-window nothing between offset and window top is. */
  ghost predicate NoGap(s: System) {
    && (forall id :: id in s.history && id <= CommittedCursor(s.row) ==> id in s.stored)
    && (s.row.pageOffset.Some? && s.row.windowMax.Some? && s.row.pageOffset.value > 0 ==>
          forall id :: id in s.history && s.row.pageOffset.value <= id <= s.row.windowMax.value ==> id in s.stored)
  }

  ghost predicate SoundRow(s: System) {
    && (s.row.pageOffset.Some? <==> s.row.windowMax.Some?)
    && (s.row.pageOffset.None? ==> !s.row.hadNew && CommittedCursor(s.row) <= s.top)
    && (s.row.pageOffset.Some? ==>
          SoundWindow(CommittedCursor(s.row), s.row.pageOffset.value, s.row.windowMax.value, s.top))
  }

  ghost predicate PageCovers(s: System, page: seq<int>, w: Window) {
    Covers(s.history, s.top, page, w.cursor, w.pageOffset, BATCH_LIMIT)
  }

  ghost predicate SoundSlice(s: System, slice: Slice) {
    var w := slice.window;
    && SoundWindow(w.cursor, w.pageOffset, w.windowMax, s.top)
    && match slice.phase
       case Begun => true
       case Searched(page) => PageCovers(s, page, w)
       case Stored(result) =>
         if result.skip in {AccessSkip, FloodWait} then result == SkipResult(result.skip)
         else && PageCovers(s, result.fetched, w)
              && result == PageResult(result.fetched, result.genuinelyNew)
              && forall id :: id in result.fetched ==> id in s.stored
  }

  ghost predicate Invariant(s: System) {
    && (forall id :: id in s.history ==> 0 < id <= s.top)
    && SoundRow(s) && NoGap(s)
    && forall i :: 0 <= i < |s.slices| ==> SoundSlice(s, s.slices[i])
  }

  ghost predicate Initial(s: System) {
    s.row == FRESH_ROW && s.slices == [] && forall id :: id in s.history ==> 0 < id <= s.top
  }

  lemma HistoryMoves(s: System, t: System)
    requires Invariant(s) && t == s.(history := t.history, top := t.top) && s.top <= t.top
    requires forall id :: id in t.history ==> (id in s.history || id > s.top) && 0 < id <= t.top
    ensures Invariant(t)
  {
    forall i | 0 <= i < |t.slices| ensures SoundSlice(t, t.slices[i]) {
      var slice := t.slices[i];
      assert SoundSlice(s, slice);
      match slice.phase
      case Begun =>
      case Searched(page) => CoversSurvives(s.history, s.top, t.history, t.top, page, slice.window.cursor,
                                            slice.window.pageOffset, BATCH_LIMIT);
      case Stored(result) =>
        if result.skip !in {AccessSkip, FloodWait} {
          CoversSurvives(s.history, s.top, t.history, t.top, result.fetched, slice.window.cursor,
                         slice.window.pageOffset, BATCH_LIMIT);
        }
    }
  }

  /** Moving the row over a covered, stored page opens no gap: neither when the window goes on nor when it completes. */
  lemma CommitLeavesNoGap(s: System, w: Window, result: SweepResult, stopped: bool, now: int, interval: nat -> int)
    requires Invariant(s) && SoundSlice(s, Slice(w, Stored(result)))
    ensures var t := s.(row := Persist(s.row, w, result, stopped, now, interval));
            SoundRow(t) && NoGap(t)
  {
    var t := s.(row := Persist(s.row, w, result, stopped, now, interval));
    if Matches(s.row, w) && result.skip !in {AccessSkip, FloodWait} {
      var page := result.fetched;
      if page != [] {
        assert page[0] in page && page[|page| - 1] in page;
        forall id | id in s.history && page[|page| - 1] <= id <= Max(w.windowMax, page[0]) ensures id in s.stored {
          if id !in page && (w.pageOffset == 0 || id < w.pageOffset) { assert false; }
        }
      }
      if Drained(result) && !stopped {
        forall id | id in s.history && id <= CommittedCursor(t.row) ensures id in s.stored {
        }
      }
    }
  }

  lemma StepKeepsInvariant(s: System, step: Step)
    requires Invariant(s) && Enabled(s, step)
    ensures Invariant(Apply(s, step))
  {
    hide Invariant, Apply;
    match step
    case Arrive(id) => ArrivalKeepsInvariant(s, step);
    case Vanish(id) => ArrivalKeepsInvariant(s, step);
    case Open => OpenKeepsInvariant(s);
    case Search(i, page) => SearchKeepsInvariant(s, step);
    case Skipped(i, skip) => SearchKeepsInvariant(s, step);
    case Store(i, genuinelyNew) => StoreKeepsInvariant(s, i, genuinelyNew);
    case Commit(i, stopped, now, interval) => CommitKeepsInvariant(s, step);
    case Drop(i) => EndKeepsInvariant(s, step);
    case Access(lost) => EndKeepsInvariant(s, step);
  }

  lemma ArrivalKeepsInvariant(s: System, step: Step)
    requires Invariant(s) && (step.Arrive? || step.Vanish?) && Enabled(s, step)
    ensures Invariant(Apply(s, step))
  {
    HistoryMoves(s, Apply(s, step));
  }

  lemma OpenKeepsInvariant(s: System)
    requires Invariant(s) && Enabled(s, Open)
    ensures Invariant(Apply(s, Open))
  {
  }

  /** Slices are sound whatever the row says, while the history stands still. */
  lemma SlicesStaySound(s: System, t: System, newcomer: Slice)
    requires Invariant(s) && SoundSlice(t, newcomer) && t.history == s.history && t.top == s.top && t.stored == s.stored
    requires forall k :: 0 <= k < |t.slices| ==> t.slices[k] == newcomer || t.slices[k] in s.slices
    ensures forall k :: 0 <= k < |t.slices| ==> SoundSlice(t, t.slices[k])
  {
    forall k | 0 <= k < |t.slices| ensures SoundSlice(t, t.slices[k]) {
      if t.slices[k] != newcomer {
        var j :| 0 <= j < |s.slices| && s.slices[j] == t.slices[k];
        assert SoundSlice(s, s.slices[j]);
      }
    }
  }

  lemma SearchKeepsInvariant(s: System, step: Step)
    requires Invariant(s) && (step.Search? || step.Skipped?) && Enabled(s, step)
    ensures Invariant(Apply(s, step))
  {
    var t, i := Apply(s, step), step.i;
    var w := s.slices[i].window;
    assert SoundSlice(s, s.slices[i]);
    if step.Search? { SearchCovers(s.history, s.top, step.page, w.cursor, w.pageOffset, BATCH_LIMIT); }
    SlicesStaySound(s, t, t.slices[i]);
  }

  lemma CommitKeepsInvariant(s: System, step: Step)
    requires Invariant(s) && step.Commit? && Enabled(s, step)
    ensures Invariant(Apply(s, step))
  {
    var t, slice := Apply(s, step), s.slices[step.i];
    assert SoundSlice(s, slice) && slice == Slice(slice.window, Stored(slice.phase.result));
    CommitLeavesNoGap(s, slice.window, slice.phase.result, step.stopped, step.now, step.interval);
    hide Persist, NoGap, SoundRow;
    assert SoundSlice(t, slice);
    SlicesStaySound(s, t, slice);
  }

  lemma EndKeepsInvariant(s: System, step: Step)
    requires Invariant(s) && (step.Drop? || step.Access?) && Enabled(s, step)
    ensures Invariant(Apply(s, step))
  {
  }

  lemma StoreKeepsInvariant(s: System, i: nat, genuinelyNew: nat)
    requires Invariant(s) && Enabled(s, Store(i, genuinelyNew))
    ensures Invariant(Apply(s, Store(i, genuinelyNew)))
  {
  }

  // ------------------------------------------------------------------------ runs

  ghost predicate IsRun(states: seq<System>, steps: seq<Step>) {
    && |states| == |steps| + 1
    && Initial(states[0])
    && forall i :: 0 <= i < |steps| ==> Enabled(states[i], steps[i]) && states[i + 1] == Apply(states[i], steps[i])
  }

  /** In every reachable state nothing at or below the cursor, or inside the open window, has been missed. */
  lemma {:induction false} HotSweepHasNoGaps(states: seq<System>, steps: seq<Step>, n: nat)
    requires IsRun(states, steps) && n < |states|
    ensures Invariant(states[n])
    ensures var s := states[n];
            && (forall id :: id in s.history && id <= CommittedCursor(s.row) ==> id in s.stored)
            && (s.row.pageOffset.Some? && s.row.pageOffset.value > 0 ==>
                  forall id :: id in s.history && s.row.pageOffset.value <= id <= s.row.windowMax.value ==>
                    id in s.stored)
  {
    if n > 0 {
      HotSweepHasNoGaps(states, steps, n - 1);
      StepKeepsInvariant(states[n - 1], steps[n - 1]);
    }
  }

  /** The work revision the scheduler compares: an unopened window reads like one opened at offset 0. */
  datatype Revision = Revision(cursor: nat, pageOffset: nat, windowMax: nat, hadNew: bool, emptyStreak: nat)

  function RevisionOf(row: Row): Revision {
    Revision(CommittedCursor(row),
             if row.pageOffset.Some? then row.pageOffset.value else 0,
             if row.windowMax.Some? then row.windowMax.value else CommittedCursor(row),
             row.hadNew, row.emptyStreak)
  }

  /** Completed windows raise (cursor, streak); pages of one window lower the offset, counted from "no page yet". */
  ghost predicate Earlier(a: Revision, b: Revision) {
    || a.cursor < b.cursor
    || (a.cursor == b.cursor && a.emptyStreak < b.emptyStreak)
    || (a.cursor == b.cursor && a.emptyStreak == b.emptyStreak && b.pageOffset > 0
        && (a.pageOffset == 0 || b.pageOffset < a.pageOffset))
  }

  lemma StepRaisesRevision(s: System, step: Step)
    requires Invariant(s) && Enabled(s, step)
    ensures var a, b := RevisionOf(s.row), RevisionOf(Apply(s, step).row);
            a == b || Earlier(a, b)
  {
    if step.Commit? {
      var slice := s.slices[step.i];
      assert SoundSlice(s, slice);
      var result := slice.phase.result;
      if result.fetched != [] { assert result.fetched[|result.fetched| - 1] in result.fetched; }
    }
  }

  /** Opening a window is invisible to the revision. */
  lemma OpeningKeepsRevision(s: System)
    requires Invariant(s)
    ensures RevisionOf(Begin(s.row).0) == RevisionOf(s.row)
  {
  }

  lemma {:induction false} RevisionsOnlyRise(states: seq<System>, steps: seq<Step>, i: nat, j: nat)
    requires IsRun(states, steps) && i <= j < |states|
    ensures var a, b := RevisionOf(states[i].row), RevisionOf(states[j].row);
            a == b || Earlier(a, b)
    decreases j
  {
    if i < j {
      RevisionsOnlyRise(states, steps, i, j - 1);
      HotSweepHasNoGaps(states, steps, j - 1);
      StepRaisesRevision(states[j - 1], steps[j - 1]);
    }
  }

  /** No ABA: if a revision is seen again, it was there all the time in between. */
  lemma RevisionNeverReturns(states: seq<System>, steps: seq<Step>, i: nat, k: nat, j: nat)
    requires IsRun(states, steps) && i <= k <= j < |states|
    requires RevisionOf(states[i].row) == RevisionOf(states[j].row)
    ensures RevisionOf(states[k].row) == RevisionOf(states[i].row)
  {
    RevisionsOnlyRise(states, steps, i, k);
    RevisionsOnlyRise(states, steps, k, j);
  }

  /** A slice is accepted only if no other page has been committed since its snapshot was taken. */
  lemma AcceptedMeansUnchanged(states: seq<System>, steps: seq<Step>, i: nat, k: nat, j: nat, w: Window)
    requires IsRun(states, steps) && i <= k <= j < |states|
    requires Matches(states[i].row, w) && Matches(states[j].row, w)
    ensures RevisionOf(states[k].row) == RevisionOf(states[i].row)
  {
    RevisionNeverReturns(states, steps, i, k, j);
  }

  // ------------------------------------------------------------- windows complete

  /** A window in progress is reloaded as it is, and a slice is accepted exactly while reloading gives its snapshot. */
  lemma MatchesExactlyWhenReloaded(row: Row, w: Window)
    ensures Matches(row, w) <==> row.pageOffset.Some? && row.windowMax.Some? && Begin(row) == (row, Some(w))
  {
  }

  /** Every peer that can be reached gets a window, and the slice that opened it is accepted. */
  lemma OpenedWindowMatches(s: System)
    requires Invariant(s)
    ensures Begin(s.row).1.Some? <==> !s.row.accessLost
    ensures Begin(s.row).1.Some? ==> Matches(Begin(s.row).0, Begin(s.row).1.value)
  {
  }

  /** The slice of a step is about to commit a page that was stored, and still stands for the row. */
  ghost predicate CommitsPage(s: System, step: Step) {
    && step.Commit? && Enabled(s, step) && Matches(s.row, s.slices[step.i].window)
    && s.slices[step.i].phase.result.skip !in {AccessSkip, FloodWait}
  }

  ghost predicate Skips(s: System, step: Step) {
    && step.Commit? && Enabled(s, step) && Matches(s.row, s.slices[step.i].window)
    && s.slices[step.i].phase.result.skip == AccessSkip
  }

  ghost function PageOf(s: System, step: Step): SweepResult
    requires CommitsPage(s, step)
  {
    s.slices[step.i].phase.result
  }

  /** A page shorter than the limit is the last one of its window, unless the daemon is being stopped. */
  ghost predicate Completes(s: System, step: Step) {
    CommitsPage(s, step) && |PageOf(s, step).fetched| < BATCH_LIMIT && !step.stopped
  }

  /** A page that leaves its window open: it is full, or the daemon is being stopped. */
  ghost predicate Continues(s: System, step: Step) {
    CommitsPage(s, step) && !Completes(s, step) && PageOf(s, step).fetched != []
  }

  /** The newest id a page shows, and at least `floor`. */
  ghost function NewestOf(page: seq<int>, floor: int): int {
    if page == [] then floor else Max(floor, page[0])
  }

  /** The last page closes the window at the newest id the window has seen. The streak starts anew exactly when some
      page of the window had something new and the cursor rises. */
  lemma LastPageCompletes(s: System, step: Step)
    requires Invariant(s) && Completes(s, step)
    ensures var was, row, page := s.row, Apply(s, step).row, PageOf(s, step);
            var newest := NewestOf(page.fetched, was.windowMax.value);
            var yielded := (was.hadNew || page.genuinelyNew > 0) && newest > CommittedCursor(was);
            && row.cursor == Some(newest) && row.lastSync == Some(step.now)
            && row.pageOffset == None && row.windowMax == None && !row.hadNew
            && row.emptyStreak == (if yielded then 0 else was.emptyStreak + 1)
            && row.nextRetry == None && row.nextDue == Some(step.now + step.interval(row.emptyStreak))
            && row.accessLost == was.accessLost
  {
    SlicePage(s, step);
  }

  lemma SlicePage(s: System, step: Step)
    requires Invariant(s) && CommitsPage(s, step)
    ensures var result := PageOf(s, step);
            && result == PageResult(result.fetched, result.genuinelyNew)
            && forall k :: 0 <= k < |result.fetched| ==>
                 CommittedCursor(s.row) < result.fetched[k] <= s.top
                 && (s.row.pageOffset.value > 0 ==> result.fetched[k] < s.row.pageOffset.value)
  {
    var slice := s.slices[step.i];
    assert SoundSlice(s, slice);
    var page := slice.phase.result.fetched;
    assert forall k :: 0 <= k < |page| ==> page[k] in page;
  }

  /** Any other page moves the offset down to its oldest id and adds to what the window has seen; the rest stays. */
  lemma PageContinuesWindow(s: System, step: Step)
    requires Invariant(s) && Continues(s, step)
    ensures var was, row, page := s.row, Apply(s, step).row, PageOf(s, step);
            && row.pageOffset == Some(page.fetched[|page.fetched| - 1])
            && row.windowMax == Some(NewestOf(page.fetched, was.windowMax.value))
            && (row.hadNew <==> was.hadNew || page.genuinelyNew > 0)
            && row == was.(pageOffset := row.pageOffset, windowMax := row.windowMax, hadNew := row.hadNew)
  {
    SlicePage(s, step);
    var page := PageOf(s, step).fetched;
    assert page[0] >= page[|page| - 1];
  }

  /** Whatever else happens moves neither the cursor nor a window in progress. */
  lemma OnlyPagesMoveWindows(s: System, step: Step)
    requires Invariant(s) && Enabled(s, step) && !Completes(s, step) && !Continues(s, step)
    ensures var was, row := s.row, Apply(s, step).row;
            && row.cursor == was.cursor && row.lastSync == was.lastSync && row.emptyStreak == was.emptyStreak
            && row.nextDue == was.nextDue
            && (was.pageOffset.Some? ==>
                  row.pageOffset == was.pageOffset && row.windowMax == was.windowMax && row.hadNew == was.hadNew)
            && (was.pageOffset.None? && row.pageOffset.Some? ==>
                  row.pageOffset == Some(0) && row.windowMax == Some(CommittedCursor(was)) && !row.hadNew)
            && (row.nextRetry != was.nextRetry ==>
                  step.Commit? && row.nextRetry == Some(step.now + ACCESS_SKIP_RETRY_SECONDS))
            && (CommitsPage(s, step) || Skips(s, step) ==> row.nextRetry.Some?)
            && (step.Commit? && !CommitsPage(s, step) && !Skips(s, step) ==> row == was)
  {
    if step.Commit? {
      var slice := s.slices[step.i];
      assert SoundSlice(s, slice);
    }
  }

  /** The pages of the window in progress, oldest first: committed since the last completion. */
  ghost function WindowPages(states: seq<System>, steps: seq<Step>, n: nat): seq<SweepResult>
    requires n <= |steps| < |states|
  {
    if n == 0 then []
    else if Completes(states[n - 1], steps[n - 1]) then []
    else if Continues(states[n - 1], steps[n - 1]) then
      WindowPages(states, steps, n - 1) + [PageOf(states[n - 1], steps[n - 1])]
    else WindowPages(states, steps, n - 1)
  }

  ghost predicate SomethingNew(pages: seq<SweepResult>) {
    exists k :: 0 <= k < |pages| && pages[k].genuinelyNew > 0
  }

  ghost function NewestSeen(pages: seq<SweepResult>, floor: int): int {
    if pages == [] then floor
    else NewestOf(pages[|pages| - 1].fetched, NewestSeen(pages[..|pages| - 1], floor))
  }

  /** The columns of an open window add up its pages: newest id, anything new, and where to go on. */
  ghost predicate AddsUp(row: Row, pages: seq<SweepResult>) {
    && (row.pageOffset.None? ==> pages == [])
    && (row.pageOffset.Some? ==>
          && row.windowMax == Some(Max(0, NewestSeen(pages, CommittedCursor(row))))
          && (row.hadNew <==> SomethingNew(pages))
          && (pages == [] ==> row.pageOffset == Some(0))
          && (pages != [] ==>
                && pages[|pages| - 1].fetched != []
                && var last := pages[|pages| - 1].fetched; row.pageOffset == Some(Max(0, last[|last| - 1]))))
  }

  lemma {:induction false} WindowAddsUp(states: seq<System>, steps: seq<Step>, n: nat)
    requires IsRun(states, steps) && n < |states|
    ensures AddsUp(states[n].row, WindowPages(states, steps, n))
  {
    if n > 0 {
      hide Apply, Completes, Continues;
      WindowAddsUp(states, steps, n - 1);
      HotSweepHasNoGaps(states, steps, n - 1);
      StepAddsUp(states[n - 1], steps[n - 1], WindowPages(states, steps, n - 1));
    }
  }

  lemma StepAddsUp(s: System, step: Step, pages: seq<SweepResult>)
    requires Invariant(s) && Enabled(s, step) && AddsUp(s.row, pages)
    ensures AddsUp(Apply(s, step).row,
                   if Completes(s, step) then []
                   else if Continues(s, step) then pages + [PageOf(s, step)] else pages)
  {
    hide Apply;
    if Completes(s, step) {
      LastPageCompletes(s, step);
    } else if Continues(s, step) {
      PageContinuesWindow(s, step);
      SlicePage(s, step);
      var more := pages + [PageOf(s, step)];
      assert more[..|pages|] == pages;
      OneMorePage(pages, PageOf(s, step));
    } else {
      OnlyPagesMoveWindows(s, step);
    }
  }

  lemma OneMorePage(pages: seq<SweepResult>, page: SweepResult)
    ensures SomethingNew(pages + [page]) <==> SomethingNew(pages) || page.genuinelyNew > 0
  {
    var more := pages + [page];
    if SomethingNew(pages) {
      var k :| 0 <= k < |pages| && pages[k].genuinelyNew > 0;
      assert more[k].genuinelyNew > 0;
    }
    if page.genuinelyNew > 0 { assert more[|pages|].genuinelyNew > 0; }
  }

  /** A completed window commits the newest id of all its pages, and counts as empty unless one of them had something
      new and the cursor rose. */
  lemma CompletionSumsUpItsWindow(states: seq<System>, steps: seq<Step>, n: nat)
    requires IsRun(states, steps) && n < |steps| && Completes(states[n], steps[n])
    ensures var before, after := states[n].row, states[n + 1].row;
            var pages := WindowPages(states, steps, n) + [PageOf(states[n], steps[n])];
            var newest := Max(0, NewestSeen(pages, CommittedCursor(before)));
            var yielded := SomethingNew(pages) && newest > CommittedCursor(before);
            && after.cursor == Some(newest)
            && after.emptyStreak == (if yielded then 0 else before.emptyStreak + 1)
            && after.nextDue == Some(steps[n].now + steps[n].interval(after.emptyStreak))
  {
    hide Apply;
    WindowAddsUp(states, steps, n);
    HotSweepHasNoGaps(states, steps, n);
    LastPageCompletes(states[n], steps[n]);
    var pages, page := WindowPages(states, steps, n), PageOf(states[n], steps[n]);
    assert (pages + [page])[..|pages|] == pages;
    OneMorePage(pages, page);
  }

  /** Ids between the committed cursor and where the window stands; `top` bounds a window without a page. */
  ghost function Rank(row: Row, top: nat): int {
    (if row.pageOffset.Some? && row.pageOffset.value > 0 then row.pageOffset.value else top + 1) - CommittedCursor(row)
  }

  /** Pages committed between two states of a run. */
  ghost function PagesBetween(states: seq<System>, steps: seq<Step>, i: nat, j: nat): nat
    requires i <= j <= |steps| < |states|
    decreases j
  {
    if i == j then 0
    else PagesBetween(states, steps, i, j - 1) + (if Continues(states[j - 1], steps[j - 1]) then 1 else 0)
  }

  lemma StepLowersRank(s: System, step: Step, top: nat)
    requires Invariant(s) && Enabled(s, step) && !Completes(s, step) && s.top <= top
    ensures Rank(Apply(s, step).row, top) >= 1
    ensures if Continues(s, step) then Rank(Apply(s, step).row, top) < Rank(s.row, top)
            else Rank(Apply(s, step).row, top) == Rank(s.row, top)
  {
    hide Apply;
    if Continues(s, step) {
      PageContinuesWindow(s, step);
      SlicePage(s, step);
    } else {
      OnlyPagesMoveWindows(s, step);
    }
  }

  lemma StepKeepsTop(s: System, step: Step)
    requires Enabled(s, step)
    ensures s.top <= Apply(s, step).top
  {
  }

  lemma {:induction false} TopOnlyRises(states: seq<System>, steps: seq<Step>, i: nat, j: nat)
    requires IsRun(states, steps) && i <= j < |states|
    ensures states[i].top <= states[j].top
    decreases j
  {
    if i < j {
      TopOnlyRises(states, steps, i, j - 1);
      StepKeepsTop(states[j - 1], steps[j - 1]);
    }
  }

  /** Every committed page that does not complete its window lowers the rank, and nothing raises it: without a
      completion, no more pages are committed than there are ids above the cursor. */
  lemma {:induction false} PagesLowerRank(states: seq<System>, steps: seq<Step>, i: nat, j: nat, top: nat)
    requires IsRun(states, steps) && i <= j < |states| && states[j].top <= top
    requires forall k :: i <= k < j ==> !Completes(states[k], steps[k])
    ensures PagesBetween(states, steps, i, j) + Rank(states[j].row, top) <= Rank(states[i].row, top)
    decreases j
  {
    if i < j {
      hide Apply, Completes, Continues, Rank;
      TopOnlyRises(states, steps, j - 1, j);
      PagesLowerRank(states, steps, i, j - 1, top);
      HotSweepHasNoGaps(states, steps, j - 1);
      StepLowersRank(states[j - 1], steps[j - 1], top);
    }
  }

  /** After more pages than there are ids above the cursor, some window was completed: a committed page that is not
      the last one of its window is full, or met a daemon being stopped. */
  lemma WindowsComplete(states: seq<System>, steps: seq<Step>, i: nat, j: nat)
    requires IsRun(states, steps) && i <= j < |states|
    requires PagesBetween(states, steps, i, j) > states[j].top - CommittedCursor(states[i].row)
    ensures exists k :: i <= k < j && Completes(states[k], steps[k])
  {
    if forall k :: i <= k < j ==> !Completes(states[k], steps[k]) {
      hide Completes, Continues;
      PagesLowerRank(states, steps, i, j, states[j].top);
      HotSweepHasNoGaps(states, steps, i);
      HotSweepHasNoGaps(states, steps, j);
      TopOnlyRises(states, steps, i, j);
      RankIsPositive(states[j]);
    }
  }

  lemma RankIsPositive(s: System)
    requires Invariant(s)
    ensures Rank(s.row, s.top) >= 1
  {
  }

  /** A committed page is always seen by the scheduler: the revision rises strictly. */
  lemma PageRaisesRevision(s: System, step: Step)
    requires Invariant(s) && (Completes(s, step) || Continues(s, step))
    ensures Earlier(RevisionOf(s.row), RevisionOf(Apply(s, step).row))
  {
    hide Apply;
    SlicePage(s, step);
    if Completes(s, step) { LastPageCompletes(s, step); } else { PageContinuesWindow(s, step); }
  }

  // ---------------------------------------------------------------------- cadence

  /** base * 2^n. */
  function Scaled(base: real, n: nat): real {
    if n == 0 then base else 2.0 * Scaled(base, n - 1)
  }

  function RealMin(a: real, b: real): real {
    if a <= b then a else b
  }

  /** Doubling with a cap, without ever forming the power: it equals the capped power for every sensible base. */
  method CappedEmptyInterval(base: real, max: real, streak: nat) returns (interval: real)
    ensures base >= 0.0 || base < max ==> interval == RealMin(max, Scaled(base, streak))
    ensures base < 0.0 && max <= base ==> interval == max
  {
    interval := RealMin(base, max);
    for k := 0 to streak
      invariant base >= 0.0 || base < max ==> interval == RealMin(max, Scaled(base, k))
      invariant base < 0.0 && max <= base ==> interval == max
    {
      ScalingKeepsSign(base, k);
      if interval >= max {
        if base >= 0.0 { CapIsReached(base, max, k, streak); }
        break;
      }
      interval := RealMin(interval * 2.0, max);
    }
  }

  lemma {:induction false} ScalingKeepsSign(base: real, k: nat)
    ensures base < 0.0 ==> Scaled(base, k) <= base
    ensures base >= 0.0 ==> Scaled(base, k) >= 0.0
  {
    if k > 0 { ScalingKeepsSign(base, k - 1); }
  }

  lemma {:induction false} CapIsReached(base: real, max: real, k: nat, n: nat)
    requires base >= 0.0 && k <= n && Scaled(base, k) >= max
    ensures Scaled(base, n) >= max
  {
    if k < n {
      CapIsReached(base, max, k, n - 1);
      ScalingKeepsSign(base, n - 1);
    }
  }
}
