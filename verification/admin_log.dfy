/** The admin log of an export: a page loop without a frozen boundary, over a log that grows and expires. */
module AdminLog {
  import opened Common
  import opened TelegramPages
  import opened CheckpointStore
  import opened ExportClient
  import D = ExportDaemon

  /** Events have 64-bit ids, unlike messages. */
  const MAX_EVENT_ID := 0x7fff_ffff_ffff_ffff

  // ------------------------------------------------------------------ the daemon

  /** A reply the client may rely on; its continuation is the last event it delivers. */
  ghost predicate ConformingPage(log: D.History, page: D.HistoryPage, lower: int, before: int) {
    && D.ConformingPage(log, page, lower, MAX_EVENT_ID, before)
    && (!page.done ==> page.items != [] && page.next == page.items[|page.items| - 1].id)
  }

  /** Without empty slots the last readable event is the oldest one above the lower boundary. */
  lemma LastReadableIsOldest(raw: seq<D.RawItem>, ids: seq<int>, lower: int)
    requires |raw| == |ids| && Descending(ids) && ids != [] && ids[0] > lower
    requires forall i :: 0 <= i < |raw| ==> raw[i].slot.Message?
    ensures var readable := D.Readable(raw, ids, lower);
            readable != [] && readable[|readable| - 1].id == D.OldestAbove(ids, lower)
  {
    hide D.Kept, D.OldestAbove, D.Readable;
    var kept, oldest := D.Kept(raw, ids, lower, 0), D.OldestAbove(ids, lower);
    var k :| 0 <= k < |ids| && ids[k] == oldest;
    assert k in kept;
    var at :| 0 <= at < |kept| && kept[at] == k;
    var last := kept[|kept| - 1];
    assert k <= last;
    assert ids[last] <= ids[k] && ids[last] in ids;
  }

  lemma {:induction false} NothingKept(raw: seq<D.RawItem>, ids: seq<int>, lower: int, start: nat)
    requires |raw| == |ids| && start <= |raw| && forall k :: 0 <= k < |ids| ==> ids[k] <= lower
    ensures D.Kept(raw, ids, lower, start) == []
    decreases |raw| - start
  {
    if start < |raw| { NothingKept(raw, ids, lower, start + 1); }
  }

  /** The reply is the history page of the same response: there are no empty slots to move past. */
  lemma PageIsHistoryPage(raw: seq<D.RawItem>, ids: seq<int>, n: nat, before: int, lower: int)
    requires |raw| == |ids| && Descending(ids) && forall i :: 0 <= i < |raw| ==> raw[i].slot.Message?
    requires n <= |D.Readable(raw, ids, lower)| && (n == 0 ==> D.Readable(raw, ids, lower) == [])
    ensures var items := D.Readable(raw, ids, lower)[..n];
            D.PageOf(raw, ids, n, before, lower)
            == D.HistoryPage(items, if items == [] then before else items[n - 1].id, ids == [] || ids[0] <= lower)
    ensures ids != [] && ids[0] > lower ==> n > 0
  {
    hide D.Kept, D.OldestAbove, D.Readable;
    if ids != [] && ids[0] > lower {
      LastReadableIsOldest(raw, ids, lower);
    } else {
      assert forall k :: 0 <= k < |ids| ==> ids[k] <= lower by {
        forall k | 0 <= k < |ids| ensures ids[k] <= lower { assert k > 0 ==> ids[0] > ids[k]; }
      }
      NothingKept(raw, ids, lower, 0);
    }
  }

  // ------------------------------------------------------------------ the client

  /** One event as received, after its actor and users were resolved. */
  datatype WireEvent = WireEvent(id: Option<int>, payload: Payload)

  /** A failed request that stops the export, a malformed reply, a log reported as unavailable, or a page of events. */
  datatype AdminReply =
    | Lost
    | Malformed
    | Unavailable
    | Events(items: seq<WireEvent>, next: Option<int>, done: Option<bool>)

  type AdminDaemon = (nat, nat) -> AdminReply

  ghost predicate Recorded(records: Records, dialog: int, id: int) {
    RecordKey(AdminKind, dialog, id) in records
  }

  function AdminCursorOf(state: State): int {
    match Read(state, AdminCursor)
    case Number(n) => n
    case _ => 0
  }

  predicate AdminIsDone(state: State) {
    Read(state, AdminDone) != Null
  }

  /** Whatever the daemon answers: what is saved above the minimum lies at or above the cursor. */
  ghost predicate AdminBounded(records: Records, state: State, dialog: int, minimum: nat) {
    var cursor := AdminCursorOf(state);
    && 0 <= cursor
    && forall id :: id > minimum && Recorded(records, dialog, id) ==> 0 < cursor <= id
  }

  ghost predicate OnlyAddsEvents(before: Records, after: Records, dialog: int, minimum: nat) {
    && (forall key :: key in before ==> key in after && after[key] == before[key])
    && (forall key :: key in after && key !in before ==>
        key.kind == AdminKind && key.peer == dialog && key.id > minimum)
  }

  ghost predicate SameRestOfState(before: State, after: State) {
    forall key :: key != AdminCursor && key != AdminDone ==> Read(before, key) == Read(after, key)
  }

  // ------------------------------------------------- a log that grows and expires

  /** The log at each request: events are immutable, new ones are newer than all before, old ones may expire. */
  datatype Timeline = Timeline(logs: nat -> D.History, newest: nat -> int, ever: D.History)

  ghost predicate LogAt(t: Timeline, n: nat) {
    forall id :: id in t.logs(n) ==>
      0 < id <= t.newest(n) && id <= MAX_EVENT_ID && id in t.ever && t.ever[id].Message? && t.logs(n)[id] == t.ever[id]
  }

  ghost predicate NoLateArrivals(t: Timeline, n: nat, m: nat) {
    t.newest(n) <= t.newest(m) && forall id :: id in t.logs(m) && id <= t.newest(n) ==> id in t.logs(n)
  }

  ghost predicate GrowsOnTop(t: Timeline) {
    && (forall n: nat :: LogAt(t, n))
    && forall n: nat, m: nat :: n <= m ==> NoLateArrivals(t, n, m)
  }

  /** How the flag was set: not yet, by a page that said nothing is left, or by a reply without a page. */
  datatype Ending = Open | ByPage | ByUnavailable

  /** What a walk counts from, the log at its first commit, and how it ended. */
  datatype Walk = Walk(initial: D.History, ending: Ending)

  const NO_WALK := Walk(map[], Open)

  /** Every event the log still has, between the cursor and the newest saved one, is saved. */
  ghost predicate Gapless(records: Records, state: State, log: D.History, dialog: int, minimum: nat) {
    forall id, saved :: D.IsMessage(log, id) && minimum < id <= saved && Recorded(records, dialog, saved)
                        && AdminCursorOf(state) <= id
                        ==> Recorded(records, dialog, id)
  }

  /** No event of the beginning log that has not expired lies between the minimum and the cursor. */
  ghost predicate NothingBelow(state: State, initial: D.History, now: D.History, minimum: nat) {
    forall id :: D.IsMessage(initial, id) && D.IsMessage(now, id) && id > minimum ==> 0 < AdminCursorOf(state) <= id
  }

  ghost predicate Truthful(records: Records, t: Timeline, n: nat, dialog: int, minimum: nat) {
    forall id :: id > minimum && Recorded(records, dialog, id) ==>
      id <= t.newest(n) && D.IsMessage(t.ever, id) && records[RecordKey(AdminKind, dialog, id)] == t.ever[id].payload
  }

  /** Nothing of the log the walk began with is newer than what it saved first. */
  ghost predicate StartsAtTop(records: Records, state: State, initial: D.History, dialog: int, minimum: nat) {
    AdminCursorOf(state) > 0 ==>
      forall id :: D.IsMessage(initial, id) && id > minimum ==>
        exists saved :: Recorded(records, dialog, saved) && id <= saved
  }

  /** The walk has committed something. */
  predicate Walking(state: State) {
    AdminCursorOf(state) > 0 || AdminIsDone(state)
  }

  ghost predicate BeganBy(state: State, initial: D.History, t: Timeline, n: nat) {
    Walking(state) ==> forall id :: D.IsMessage(initial, id) ==> id <= t.newest(n)
  }

  /** The resume invariant at the n-th request. */
  ghost predicate AdminResumable(records: Records, state: State, t: Timeline, n: nat, w: Walk, dialog: int,
                                 minimum: nat) {
    && AdminBounded(records, state, dialog, minimum)
    && Gapless(records, state, t.logs(n), dialog, minimum)
    && Truthful(records, t, n, dialog, minimum)
    && StartsAtTop(records, state, w.initial, dialog, minimum)
    && BeganBy(state, w.initial, t, n)
    && (AdminIsDone(state) <==> !w.ending.Open?)
    && (w.ending.ByPage? ==> NothingBelow(state, w.initial, t.logs(n), minimum))
  }

  /** Arrivals and expiry while nothing is fetched keep the invariant. */
  lemma TimePasses(records: Records, state: State, t: Timeline, n: nat, m: nat, w: Walk, dialog: int, minimum: nat)
    requires GrowsOnTop(t) && n <= m && AdminResumable(records, state, t, n, w, dialog, minimum)
    ensures AdminResumable(records, state, t, m, w, dialog, minimum)
  {
    assert NoLateArrivals(t, n, m) && LogAt(t, n) && LogAt(t, m);
    forall id, saved | D.IsMessage(t.logs(m), id) && minimum < id <= saved && Recorded(records, dialog, saved)
                       && AdminCursorOf(state) <= id
      ensures Recorded(records, dialog, id)
    {
      assert saved <= t.newest(n);
      assert D.IsMessage(t.logs(n), id);
    }
    if w.ending.ByPage? {
      forall id | D.IsMessage(w.initial, id) && D.IsMessage(t.logs(m), id) && id > minimum
        ensures 0 < AdminCursorOf(state) <= id
      {
        assert D.IsMessage(t.logs(n), id);
      }
    }
  }

  /** Every event of the beginning log that has not expired is saved as it was. */
  ghost predicate Complete(records: Records, initial: D.History, now: D.History, dialog: int, minimum: nat) {
    forall id :: D.IsMessage(initial, id) && D.IsMessage(now, id) && id > minimum ==>
      Recorded(records, dialog, id) && records[RecordKey(AdminKind, dialog, id)] == now[id].payload
  }

  lemma SavedAboveCursor(records: Records, state: State, t: Timeline, n: nat, w: Walk, dialog: int, minimum: nat,
                         id: int)
    requires GrowsOnTop(t) && AdminResumable(records, state, t, n, w, dialog, minimum)
    requires id > minimum && D.IsMessage(w.initial, id) && D.IsMessage(t.logs(n), id) && 0 < AdminCursorOf(state) <= id
    ensures Recorded(records, dialog, id) && records[RecordKey(AdminKind, dialog, id)] == t.logs(n)[id].payload
  {
    var saved :| Recorded(records, dialog, saved) && id <= saved;
    assert LogAt(t, n);
  }

  /** With the log marked done, the saved events are complete if and only if a page said so, or nothing was left
      below. */
  lemma CompleteExactlyWhen(records: Records, state: State, t: Timeline, n: nat, w: Walk, dialog: int, minimum: nat)
    requires GrowsOnTop(t) && AdminResumable(records, state, t, n, w, dialog, minimum) && AdminIsDone(state)
    ensures Complete(records, w.initial, t.logs(n), dialog, minimum)
            <==> w.ending.ByPage? || NothingBelow(state, w.initial, t.logs(n), minimum)
    ensures w.ending.ByPage? || w.ending.ByUnavailable?
  {
    if w.ending.ByPage? || NothingBelow(state, w.initial, t.logs(n), minimum) {
      forall id | D.IsMessage(w.initial, id) && D.IsMessage(t.logs(n), id) && id > minimum
        ensures Recorded(records, dialog, id) && records[RecordKey(AdminKind, dialog, id)] == t.logs(n)[id].payload
      {
        SavedAboveCursor(records, state, t, n, w, dialog, minimum, id);
      }
    }
  }

  /** Any request may fail or find the log unavailable; a page is a faithful one of the log as it is at that request. */
  ghost predicate FaithfulReply(reply: AdminReply, log: D.History, minimum: nat, before: nat) {
    || reply.Lost? || reply.Unavailable?
    || exists page :: ConformingPage(log, page, minimum, before) && reply == ToEvents(page)
  }

  function ToEvents(page: D.HistoryPage): AdminReply {
    Events(seq(|page.items|,
               i requires 0 <= i < |page.items| => WireEvent(Some(page.items[i].id), page.items[i].payload)),
           Some(page.next), Some(page.done))
  }

  ghost predicate FaithfulDaemon(daemon: AdminDaemon, t: Timeline, minimum: nat) {
    forall n, before :: FaithfulReply(daemon(n, before), t.logs(n), minimum, before)
  }

  lemma FaithfulAt(daemon: AdminDaemon, t: Timeline, minimum: nat, n: nat, before: nat)
    requires FaithfulDaemon(daemon, t, minimum)
    ensures FaithfulReply(daemon(n, before), t.logs(n), minimum, before)
  {
  }

  lemma FaithfulIsReadable(reply: AdminReply, log: D.History, minimum: nat, before: nat)
    requires FaithfulReply(reply, log, minimum, before)
    ensures !reply.Malformed?
    ensures reply.Events? ==> reply.done.Some?
  {
  }

  predicate AcceptableEvent(event: WireEvent, before: nat, minimum: nat) {
    OrderedId(event.id, before, None).Ok? && event.id.value > minimum
  }

  lemma SaveStaysBounded(records: Records, state: State, dialog: int, minimum: nat, event: WireEvent)
    requires AdminBounded(records, state, dialog, minimum) && AcceptableEvent(event, AdminCursorOf(state), minimum)
    ensures var id := event.id.value;
            && AdminBounded(records[RecordKey(AdminKind, dialog, id) := event.payload],
                            state[AdminCursor := Number(id)], dialog, minimum)
            && OnlyAddsEvents(records, records[RecordKey(AdminKind, dialog, id) := event.payload], dialog, minimum)
  {
    var id := event.id.value;
    var after := records[RecordKey(AdminKind, dialog, id) := event.payload];
    assert !Recorded(records, dialog, id);
    forall other | other > minimum && Recorded(after, dialog, other) ensures id <= other {
      assert other == id || Recorded(records, dialog, other);
    }
  }

  /** What is known between two events of one page: the cursor is the event before, or where the page began. */
  ghost predicate AtEvent(page: D.HistoryPage, state: State, before: nat, i: nat) {
    && i <= |page.items| && !AdminIsDone(state)
    && AdminCursorOf(state) == if i == 0 then before else page.items[i - 1].id
  }

  lemma FaithfulEventAccepted(page: D.HistoryPage, log: D.History, state: State, before: nat, minimum: nat, i: nat)
    requires ConformingPage(log, page, minimum, before) && AtEvent(page, state, before, i) && i < |page.items|
    ensures 0 <= AdminCursorOf(state)
    ensures AcceptableEvent(ToEvents(page).items[i], AdminCursorOf(state), minimum)
    ensures D.IsMessage(log, page.items[i].id) && page.items[i].payload == log[page.items[i].id].payload
  {
  }

  /** Between the cursor and the next event of the page the log has no other event. */
  lemma NothingBetween(page: D.HistoryPage, log: D.History, state: State, before: nat, minimum: nat, i: nat, id: int)
    requires ConformingPage(log, page, minimum, before) && AtEvent(page, state, before, i) && i < |page.items|
    requires D.IsMessage(log, id) && minimum < id <= MAX_EVENT_ID && page.items[i].id <= id
    requires AdminCursorOf(state) == 0 || id < AdminCursorOf(state)
    ensures id == page.items[i].id
  {
  }

  /** The log the walk counts from: fixed by the first commit, or by a reply that finds nothing. */
  ghost function InitialAfter(state: State, initial: D.History, log: D.History): D.History {
    if Walking(state) then initial else log
  }

  /** The walk after a commit: it counts from the log of its first commit. */
  ghost function WalkAfter(state: State, w: Walk, log: D.History, ending: Ending): Walk {
    Walk(InitialAfter(state, w.initial, log), ending)
  }

  /** Committing the next event of a faithful page keeps the invariant. */
  lemma EventStaysResumable(records: Records, state: State, t: Timeline, n: nat, w: Walk, dialog: int, minimum: nat,
                            page: D.HistoryPage, before: nat, i: nat)
    requires GrowsOnTop(t) && AdminResumable(records, state, t, n, w, dialog, minimum)
    requires ConformingPage(t.logs(n), page, minimum, before) && AtEvent(page, state, before, i) && i < |page.items|
    ensures AcceptableEvent(ToEvents(page).items[i], AdminCursorOf(state), minimum)
    ensures var id, payload := page.items[i].id, page.items[i].payload;
            var records', state' := records[RecordKey(AdminKind, dialog, id) := payload],
                  state[AdminCursor := Number(id)];
            && AdminResumable(records', state', t, n, WalkAfter(state, w, t.logs(n), Open), dialog, minimum)
            && AtEvent(page, state', before, i + 1)
            && id <= t.newest(n)
  {
    var log := t.logs(n);
    var id, payload := page.items[i].id, page.items[i].payload;
    var records', state' := records[RecordKey(AdminKind, dialog, id) := payload], state[AdminCursor := Number(id)];
    assert LogAt(t, n);
    FaithfulEventAccepted(page, log, state, before, minimum, i);
    SaveStaysBounded(records, state, dialog, minimum, ToEvents(page).items[i]);
    forall other ensures Recorded(records', dialog, other) <==> Recorded(records, dialog, other) || other == id {}
    forall e | D.IsMessage(log, e) && minimum < e && id <= e && (AdminCursorOf(state) == 0 || e < AdminCursorOf(state))
      ensures e == id
    {
      NothingBetween(page, log, state, before, minimum, i, e);
    }
    EventKeepsGapless(records, state, t, n, dialog, minimum, id, payload);
    EventKeepsTop(records, state, log, w.initial, dialog, minimum, id, payload);
  }

  /** The event is the newest one below the cursor. */
  ghost predicate NoneInFrontOf(log: D.History, id: int, cursor: int, minimum: nat) {
    forall e :: D.IsMessage(log, e) && minimum < e && id <= e && (cursor == 0 || e < cursor) ==> e == id
  }

  lemma EventKeepsGapless(records: Records, state: State, t: Timeline, n: nat, dialog: int, minimum: nat, id: int,
                          payload: Payload)
    requires AdminBounded(records, state, dialog, minimum)
    requires Gapless(records, state, t.logs(n), dialog, minimum)
    requires id > minimum && (AdminCursorOf(state) == 0 || id < AdminCursorOf(state))
    requires NoneInFrontOf(t.logs(n), id, AdminCursorOf(state), minimum)
    ensures Gapless(records[RecordKey(AdminKind, dialog, id) := payload], state[AdminCursor := Number(id)],
                    t.logs(n), dialog, minimum)
  {
    var records' := records[RecordKey(AdminKind, dialog, id) := payload];
    forall other ensures Recorded(records', dialog, other) <==> Recorded(records, dialog, other) || other == id {}
    forall e, saved | D.IsMessage(t.logs(n), e) && minimum < e <= saved && Recorded(records', dialog, saved) && id <= e
      ensures Recorded(records', dialog, e)
    {
      if AdminCursorOf(state) == 0 || e < AdminCursorOf(state) { assert e == id; }
    }
  }

  lemma EventKeepsTop(records: Records, state: State, log: D.History, initial: D.History, dialog: int,
                      minimum: nat, id: int, payload: Payload)
    requires StartsAtTop(records, state, initial, dialog, minimum) && !AdminIsDone(state) && 0 <= AdminCursorOf(state)
    requires NoneInFrontOf(log, id, AdminCursorOf(state), minimum)
    ensures StartsAtTop(records[RecordKey(AdminKind, dialog, id) := payload], state[AdminCursor := Number(id)],
                        InitialAfter(state, initial, log), dialog, minimum)
  {
    var records' := records[RecordKey(AdminKind, dialog, id) := payload];
    forall e | D.IsMessage(InitialAfter(state, initial, log), e) && e > minimum
      ensures exists saved :: Recorded(records', dialog, saved) && e <= saved
    {
      if AdminCursorOf(state) == 0 {
        assert e <= id && Recorded(records', dialog, id);
      } else {
        var saved :| Recorded(records, dialog, saved) && e <= saved;
        assert Recorded(records', dialog, saved);
      }
    }
  }

  lemma DoneIsEmpty(page: D.HistoryPage, log: D.History, minimum: nat, before: nat)
    requires ConformingPage(log, page, minimum, before) && page.done
    ensures page.items == []
  {
    assert |page.items| == 0 || D.IsMessage(log, page.items[0].id);
  }

  /** A faithful page that is done leaves nothing below the cursor, so the log may be marked done. */
  lemma DoneStaysResumable(records: Records, state: State, t: Timeline, n: nat, w: Walk, dialog: int, minimum: nat,
                           page: D.HistoryPage)
    requires GrowsOnTop(t) && AdminResumable(records, state, t, n, w, dialog, minimum) && !AdminIsDone(state)
    requires ConformingPage(t.logs(n), page, minimum, AdminCursorOf(state)) && page.done
    ensures page.items == []
    ensures AdminResumable(records, state[AdminDone := Flag], t, n, WalkAfter(state, w, t.logs(n), ByPage), dialog,
                           minimum)
  {
    var log := t.logs(n);
    assert LogAt(t, n);
    DoneIsEmpty(page, log, minimum, AdminCursorOf(state));
    forall id | D.IsMessage(log, id) && id > minimum ensures 0 < AdminCursorOf(state) <= id {
      assert !InWindow(id, minimum, MAX_EVENT_ID, AdminCursorOf(state));
    }
  }

  /** A log that is reported as unavailable is marked done where the walk stands. */
  lemma UnavailableStaysResumable(records: Records, state: State, t: Timeline, n: nat, w: Walk, dialog: int,
                                  minimum: nat)
    requires GrowsOnTop(t) && AdminResumable(records, state, t, n, w, dialog, minimum) && !AdminIsDone(state)
    ensures AdminResumable(records, state[AdminDone := Flag], t, n, WalkAfter(state, w, t.logs(n), ByUnavailable),
                           dialog, minimum)
  {
    assert LogAt(t, n);
  }

  lemma SameCursorKeeps(records: Records, before: State, after: State, t: Timeline, n: nat, w: Walk,
                        dialog: int, minimum: nat)
    requires AdminResumable(records, before, t, n, w, dialog, minimum)
    requires AdminCursorOf(before) == AdminCursorOf(after) && AdminIsDone(before) == AdminIsDone(after)
    ensures AdminResumable(records, after, t, n, w, dialog, minimum)
  {
  }

  ghost predicate Good(records: Records, state: State, t: Timeline, n: nat, w: Walk, dialog: int,
                       minimum: nat, reply: AdminReply, before: nat)
  {
    && GrowsOnTop(t) && AdminResumable(records, state, t, n, w, dialog, minimum)
    && FaithfulReply(reply, t.logs(n), minimum, before)
  }

  /** How far a walk may still have to go down: from its cursor, or from above the newest event. */
  ghost function Reach(state: State, t: Timeline, n: nat): int {
    if AdminCursorOf(state) > 0 then AdminCursorOf(state) else Max(0, t.newest(n)) + 1
  }

  /** A page of events that is the log's own, as far as it was taken. */
  ghost predicate TakenFrom(log: D.History, reply: AdminReply, state: State, minimum: nat, before: nat, taken: nat) {
    exists page :: ConformingPage(log, page, minimum, before) && reply == ToEvents(page)
                   && AtEvent(page, state, before, taken)
  }

  /** Saves the events of a page one commit at a time. */
  method SaveEvents(cp: Checkpoint, dialog: int, reply: AdminReply, before: nat, minimum: nat, budget: nat,
                    ghost t: Timeline, ghost n: nat, ghost w: Walk)
    returns (saved: nat, last: nat, stop: Option<Outcome>, ghost walk: Walk)
    requires reply.Events?
    requires AdminBounded(cp.records, cp.state, dialog, minimum)
    requires before == AdminCursorOf(cp.state) && !AdminIsDone(cp.state)
    modifies cp
    ensures AdminBounded(cp.records, cp.state, dialog, minimum) && last == AdminCursorOf(cp.state)
            && !AdminIsDone(cp.state)
    ensures OnlyAddsEvents(old(cp.records), cp.records, dialog, minimum) && SameRestOfState(old(cp.state), cp.state)
    ensures saved <= |reply.items| && saved <= budget
    ensures if saved == 0 then last == before else 0 < last && (before == 0 || last < before)
    ensures stop.None? <==> saved == |reply.items|
    ensures stop.Some? ==> stop.value in {Crashed, Refused}
    ensures stop == Some(Crashed) ==> saved == budget
    ensures walk == Walk(if before == 0 && saved > 0 then t.logs(n) else w.initial, w.ending)
    ensures saved > 0 && before > 0 ==> last + saved <= before
    ensures saved > 0 && old(Good(cp.records, cp.state, t, n, w, dialog, minimum, reply, before)) ==>
              last + saved <= old(Reach(cp.state, t, n))
    ensures old(Good(cp.records, cp.state, t, n, w, dialog, minimum, reply, before)) ==>
              && AdminResumable(cp.records, cp.state, t, n, walk, dialog, minimum) && stop != Some(Refused)
              && TakenFrom(t.logs(n), reply, cp.state, minimum, before, saved)
  {
    hide AdminResumable, AdminBounded, ConformingPage, OnlyAddsEvents, D.ConformingPage, GrowsOnTop, ToEvents,
         AcceptableEvent, FaithfulReply, Recorded;
    saved, last, walk := 0, before, w;
    ghost var good := Good(cp.records, cp.state, t, n, w, dialog, minimum, reply, before);
    ghost var reach := Reach(cp.state, t, n);
    ghost var page := D.HistoryPage([], 0, true);
    if good {
      page := PageOfReply(reply, t.logs(n), minimum, before);
      OpenUntilDone(cp.records, cp.state, t, n, w, dialog, minimum);
    }
    assert good ==> |page.items| == |reply.items| by { EventCount(page); }
    assert OnlyAddsEvents(cp.records, cp.records, dialog, minimum) by { NothingAdded(cp.records, dialog, minimum); }
    while saved < |reply.items|
      invariant saved <= |reply.items| && saved <= budget
      invariant AdminBounded(cp.records, cp.state, dialog, minimum) && last == AdminCursorOf(cp.state)
                && !AdminIsDone(cp.state)
      invariant OnlyAddsEvents(old(cp.records), cp.records, dialog, minimum) && SameRestOfState(old(cp.state), cp.state)
      invariant if saved == 0 then last == before else 0 < last && (before == 0 || last < before)
      invariant walk == Walk(if before == 0 && saved > 0 then t.logs(n) else w.initial, w.ending)
      invariant saved > 0 && (good || before > 0) ==> last + saved <= reach
      invariant good ==> AdminResumable(cp.records, cp.state, t, n, walk, dialog, minimum)
                         && AtEvent(page, cp.state, before, saved)
    {
      var event := reply.items[saved];
      if good {
        EventStaysResumable(cp.records, cp.state, t, n, walk, dialog, minimum, page, before, saved);
        EventAt(page, saved);
      }
      if !AcceptableEvent(event, last, minimum) {
        return saved, last, Some(Refused), walk;
      }
      if saved == budget {
        return saved, last, Some(Crashed), walk;
      }
      AcceptedId(event, last, minimum);
      SaveStaysBounded(cp.records, cp.state, dialog, minimum, event);
      AddsOnTop(old(cp.records), cp.records, RecordKey(AdminKind, dialog, event.id.value), event.payload, dialog,
                minimum);
      walk := WalkAfter(cp.state, walk, t.logs(n), w.ending);
      cp.Save(AdminKind, dialog, event.id.value, event.payload, AdminCursor);
      last := event.id.value;
      saved := saved + 1;
    }
    stop := None;
  }

  lemma PageOfReply(reply: AdminReply, log: D.History, minimum: nat, before: nat) returns (page: D.HistoryPage)
    requires FaithfulReply(reply, log, minimum, before) && reply.Events?
    ensures ConformingPage(log, page, minimum, before) && reply == ToEvents(page)
  {
    page :| ConformingPage(log, page, minimum, before) && reply == ToEvents(page);
  }

  lemma AcceptedId(event: WireEvent, before: nat, minimum: nat)
    requires AcceptableEvent(event, before, minimum)
    ensures event.id.Some? && 0 < event.id.value && (before == 0 || event.id.value < before)
  {
  }

  lemma OpenUntilDone(records: Records, state: State, t: Timeline, n: nat, w: Walk, dialog: int, minimum: nat)
    requires AdminResumable(records, state, t, n, w, dialog, minimum)
    ensures AdminIsDone(state) <==> !w.ending.Open?
  {
  }

  lemma EventCount(page: D.HistoryPage)
    ensures |ToEvents(page).items| == |page.items|
  {
  }

  lemma EventAt(page: D.HistoryPage, i: nat)
    requires i < |page.items|
    ensures ToEvents(page).items[i] == WireEvent(Some(page.items[i].id), page.items[i].payload)
  {
  }

  lemma NothingAdded(records: Records, dialog: int, minimum: nat)
    ensures OnlyAddsEvents(records, records, dialog, minimum)
  {
  }

  lemma AddsOnTop(first: Records, records: Records, key: RecordKey, payload: Payload, dialog: int, minimum: nat)
    requires OnlyAddsEvents(first, records, dialog, minimum)
    requires OnlyAddsEvents(records, records[key := payload], dialog, minimum)
    ensures OnlyAddsEvents(first, records[key := payload], dialog, minimum)
  {
  }

  /** The end of the loop body: marks the log done, or moves the cursor. */
  method EndEvents(cp: Checkpoint, dialog: int, reply: AdminReply, before: nat, last: nat, minimum: nat, room: nat,
                   ghost t: Timeline, ghost n: nat, ghost w: Walk)
    returns (stop: Option<Outcome>, next: nat, ghost walk: Walk)
    requires reply.Events? && reply.done.Some? && AdminBounded(cp.records, cp.state, dialog, minimum)
    requires last == AdminCursorOf(cp.state) && !AdminIsDone(cp.state)
    requires last == 0 ==> before == 0
    modifies cp
    ensures cp.records == old(cp.records) && SameRestOfState(old(cp.state), cp.state)
    ensures AdminBounded(cp.records, cp.state, dialog, minimum)
    ensures stop.None? ==> room > 0 && 0 < next == AdminCursorOf(cp.state) && (before != 0 ==> next < before)
                           && (last > 0 ==> next <= last)
    ensures stop.Some? ==> stop.value in {Finished, Crashed, Refused}
    ensures stop == Some(Crashed) ==> room == 0
    ensures stop == Some(Finished) ==> room > 0
    ensures stop == Some(Finished) <==> AdminIsDone(cp.state)
    ensures walk == Walk(if last == 0 && Walking(cp.state) then t.logs(n) else w.initial,
                         if stop == Some(Finished) then ByPage else w.ending)
    ensures stop in {Some(Crashed), Some(Refused)} ==> cp.state == old(cp.state)
    ensures stop == Some(Finished) ==> reply.done.value && cp.state == old(cp.state)[AdminDone := Flag]
    ensures GrowsOnTop(t) && old(AdminResumable(cp.records, cp.state, t, n, w, dialog, minimum))
            && old(TakenFrom(t.logs(n), reply, cp.state, minimum, before, |reply.items|))
            ==> AdminResumable(cp.records, cp.state, t, n, walk, dialog, minimum) && stop != Some(Refused)
                && (stop.None? ==> last > 0)
  {
    hide AdminResumable, ConformingPage, GrowsOnTop, ToEvents;
    next, walk := before, w;
    ghost var good := GrowsOnTop(t) && AdminResumable(cp.records, cp.state, t, n, w, dialog, minimum)
                      && TakenFrom(t.logs(n), reply, cp.state, minimum, before, |reply.items|);
    if good {
      ghost var page :| ConformingPage(t.logs(n), page, minimum, before) && reply == ToEvents(page)
                        && AtEvent(page, cp.state, before, |reply.items|);
      EventCount(page);
      PageEndsWell(cp.records, cp.state, t, n, w, dialog, minimum, page, before);
    }
    if reply.done.value {
      if room == 0 {
        return Some(Crashed), next, walk;
      }
      walk := WalkAfter(cp.state, w, t.logs(n), ByPage);
      cp.Mark(AdminDone, Flag);
      return Some(Finished), next, walk;
    }
    var advanced := Advance(reply.next, before, last, None);
    if advanced.Err? {
      return Some(Refused), next, walk;
    }
    if room == 0 {
      return Some(Crashed), next, walk;
    }
    next := advanced.value;
    walk := WalkAfter(cp.state, w, t.logs(n), w.ending);
    cp.Mark(AdminCursor, Number(next));
    stop := None;
  }

  /** After the last event of a faithful page: done means nothing is left, and the continuation is the last event. */
  lemma PageEndsWell(records: Records, state: State, t: Timeline, n: nat, w: Walk, dialog: int, minimum: nat,
                     page: D.HistoryPage, before: nat)
    requires GrowsOnTop(t) && AdminResumable(records, state, t, n, w, dialog, minimum)
    requires ConformingPage(t.logs(n), page, minimum, before) && AtEvent(page, state, before, |page.items|)
    ensures ToEvents(page).done == Some(page.done) && |ToEvents(page).items| == |page.items|
    ensures page.done ==>
              AdminResumable(records, state[AdminDone := Flag], t, n, WalkAfter(state, w, t.logs(n), ByPage), dialog,
                             minimum)
    ensures !page.done ==>
              && ToEvents(page).next == Some(AdminCursorOf(state)) && AdminCursorOf(state) > 0
              && (before != 0 ==> AdminCursorOf(state) < before)
              && AdminResumable(records, state[AdminCursor := Number(AdminCursorOf(state))], t, n, w, dialog, minimum)
  {
    hide AdminResumable, GrowsOnTop;
    if page.done {
      DoneIsEmpty(page, t.logs(n), minimum, before);
      DoneStaysResumable(records, state, t, n, w, dialog, minimum, page);
    } else {
      assert D.IsMessage(t.logs(n), page.items[|page.items| - 1].id);
      SameCursorKeeps(records, state, state[AdminCursor := Number(AdminCursorOf(state))], t, n, w, dialog, minimum);
    }
  }

  /** The loop body: commits one reply's events and then the cursor or the completion flag. */
  method TakeEvents(cp: Checkpoint, dialog: int, reply: AdminReply, before: nat, minimum: nat, budget: nat,
                    ghost t: Timeline, ghost n: nat, ghost w: Walk)
    returns (stop: Option<Outcome>, next: nat, commits: nat, ghost walk: Walk)
    requires reply.Events? && AdminBounded(cp.records, cp.state, dialog, minimum)
    requires before == AdminCursorOf(cp.state) && !AdminIsDone(cp.state)
    modifies cp
    ensures AdminBounded(cp.records, cp.state, dialog, minimum)
    ensures OnlyAddsEvents(old(cp.records), cp.records, dialog, minimum) && SameRestOfState(old(cp.state), cp.state)
    ensures stop.None? ==> 0 < next == AdminCursorOf(cp.state) && (before != 0 ==> next < before)
    ensures stop.Some? ==> stop.value in {Finished, Crashed, Refused}
    ensures commits <= budget && (stop == Some(Crashed) ==> commits == budget)
    ensures stop == Some(Finished) <==> AdminIsDone(cp.state)
    ensures stop == Some(Finished) ==> reply.done == Some(true)
    ensures reply.done.None? ==> stop == Some(Refused) && cp.records == old(cp.records) && cp.state == old(cp.state)
    ensures walk == Walk(if before == 0 && Walking(cp.state) then t.logs(n) else w.initial,
                         if stop == Some(Finished) then ByPage else w.ending)
    ensures before > 0 ==> Walking(cp.state)
    ensures before > 0 || old(Good(cp.records, cp.state, t, n, w, dialog, minimum, reply, before)) ==>
              && commits <= 2 * old(Reach(cp.state, t, n))
              && (stop.None? ==>
                    && next < old(Reach(cp.state, t, n))
                    && commits + 2 * next <= 2 * old(Reach(cp.state, t, n)))
    ensures old(Good(cp.records, cp.state, t, n, w, dialog, minimum, reply, before)) ==>
              AdminResumable(cp.records, cp.state, t, n, walk, dialog, minimum) && stop != Some(Refused)
  {
    hide AdminResumable, AdminBounded, OnlyAddsEvents, GrowsOnTop, ConformingPage, ToEvents, AtEvent;
    ghost var good := Good(cp.records, cp.state, t, n, w, dialog, minimum, reply, before);
    if reply.done.None? {
      if good { FaithfulIsReadable(reply, t.logs(n), minimum, before); }
      NothingAdded(cp.records, dialog, minimum);
      return Some(Refused), before, 0, w;
    }
    var saved, last, cut;
    saved, last, cut, walk := SaveEvents(cp, dialog, reply, before, minimum, budget, t, n, w);
    if cut.Some? {
      return cut, before, saved, walk;
    }
    ghost var first := walk;
    stop, next, walk := EndEvents(cp, dialog, reply, before, last, minimum, budget - saved, t, n, first);
    commits := if stop.None? || stop.value.Finished? then saved + 1 else saved;
  }

  lemma BoundedCursor(records: Records, state: State, dialog: int, minimum: nat)
    requires AdminBounded(records, state, dialog, minimum)
    ensures AdminCursorOf(state) >= 0
    ensures AdminBounded(records, state[AdminDone := Flag], dialog, minimum)
  {
  }

  lemma AddsThenAdds(first: Records, mid: Records, after: Records, s0: State, s1: State, s2: State, dialog: int,
                     minimum: nat)
    requires OnlyAddsEvents(first, mid, dialog, minimum) && OnlyAddsEvents(mid, after, dialog, minimum)
    requires SameRestOfState(s0, s1) && SameRestOfState(s1, s2)
    ensures OnlyAddsEvents(first, after, dialog, minimum) && SameRestOfState(s0, s2)
  {
  }

  lemma SameState(state: State)
    ensures SameRestOfState(state, state)
  {
  }

  lemma MarkKeepsRest(before: State, state: State)
    requires SameRestOfState(before, state)
    ensures SameRestOfState(before, state[AdminDone := Flag])
  {
  }

  /** What one reply does: a failure changes nothing, an unavailable log is done at once, events are taken. */
  method HandleReply(cp: Checkpoint, dialog: int, reply: AdminReply, before: nat, minimum: nat, budget: nat,
                     ghost t: Timeline, ghost n: nat, ghost w: Walk)
    returns (stop: Option<Outcome>, next: nat, commits: nat, ghost walk: Walk)
    requires AdminBounded(cp.records, cp.state, dialog, minimum)
    requires before == AdminCursorOf(cp.state) && !AdminIsDone(cp.state)
    modifies cp
    ensures AdminBounded(cp.records, cp.state, dialog, minimum)
    ensures OnlyAddsEvents(old(cp.records), cp.records, dialog, minimum) && SameRestOfState(old(cp.state), cp.state)
    ensures stop.None? ==> 0 < next == AdminCursorOf(cp.state) && (before != 0 ==> next < before)
    ensures commits <= budget && (stop == Some(Crashed) ==> commits == budget)
    ensures stop == Some(Finished) <==> AdminIsDone(cp.state)
    ensures reply.Lost? <==> stop == Some(RequestFailed)
    ensures reply.Malformed? || (reply.Events? && reply.done.None?) ==> stop == Some(Refused)
    ensures reply.Lost? || reply.Malformed? || (reply.Events? && reply.done.None?) ==>
              cp.records == old(cp.records) && cp.state == old(cp.state)
    ensures reply.Unavailable? ==> cp.records == old(cp.records)
    ensures reply.Unavailable? && budget > 0 ==>
              stop == Some(Finished) && cp.state == old(cp.state)[AdminDone := Flag]
    ensures reply.Unavailable? && budget == 0 ==> stop == Some(Crashed) && cp.state == old(cp.state)
    ensures stop == Some(Finished) ==> reply.Unavailable? || (reply.Events? && reply.done == Some(true))
    ensures walk == Walk(if !old(Walking(cp.state)) && Walking(cp.state) then t.logs(n) else w.initial,
                         if stop != Some(Finished) then w.ending
                         else if reply.Unavailable? then ByUnavailable else ByPage)
    ensures old(Walking(cp.state)) ==> Walking(cp.state)
    ensures before > 0 || old(Good(cp.records, cp.state, t, n, w, dialog, minimum, reply, before)) ==>
              && commits <= 2 * old(Reach(cp.state, t, n))
              && (stop.None? ==>
                    && next < old(Reach(cp.state, t, n))
                    && commits + 2 * next <= 2 * old(Reach(cp.state, t, n)))
    ensures old(Good(cp.records, cp.state, t, n, w, dialog, minimum, reply, before)) ==>
              AdminResumable(cp.records, cp.state, t, n, walk, dialog, minimum) && stop != Some(Refused)
  {
    hide AdminResumable, AdminBounded, OnlyAddsEvents, SameRestOfState, GrowsOnTop, FaithfulReply;
    stop, next, commits, walk := None, before, 0, w;
    NothingAdded(cp.records, dialog, minimum);
    SameState(cp.state);
    ghost var good := Good(cp.records, cp.state, t, n, w, dialog, minimum, reply, before);
    if good {
      FaithfulIsReadable(reply, t.logs(n), minimum, before);
    }
    if reply.Lost? {
      stop := Some(RequestFailed);
    } else if reply.Malformed? {
      stop := Some(Refused);
    } else if reply.Unavailable? {
      if budget == 0 {
        stop := Some(Crashed);
        return;
      }
      BoundedCursor(cp.records, cp.state, dialog, minimum);
      MarkKeepsRest(cp.state, cp.state);
      if good { UnavailableStaysResumable(cp.records, cp.state, t, n, w, dialog, minimum); }
      walk := WalkAfter(cp.state, w, t.logs(n), ByUnavailable);
      cp.Mark(AdminDone, Flag);
      stop, commits := Some(Finished), 1;
    } else {
      stop, next, commits, walk := TakeEvents(cp, dialog, reply, before, minimum, budget, t, n, w);
    }
  }

  // ------------------------------------------------------------ whole attempts

  /** The walk counts from the log of the request that committed first, or from what an earlier attempt began with. */
  ghost predicate BeganAt(t: Timeline, start: nat, requests: nat, initial: D.History, began: D.History,
                          first: State, now: State) {
    if Walking(first) then Walking(now) && began == initial
    else Walking(now) ==> exists k: nat :: start <= k < start + requests && began == t.logs(k)
  }

  lemma StillBegan(t: Timeline, start: nat, requests: nat, initial: D.History, began: D.History, first: State,
                   now: State, next: D.History, later: State)
    requires BeganAt(t, start, requests, initial, began, first, now)
    requires if Walking(now) then Walking(later) && next == began
             else Walking(later) ==> next == t.logs(start + requests)
    ensures BeganAt(t, start, requests + 1, initial, next, first, later)
  {
  }

  predicate SaysDone(reply: AdminReply) {
    reply.Events? && reply.done == Some(true)
  }

  /** How a walk ended is how one of its requests was answered: a done page, or an unavailable log. */
  ghost predicate EndedBy(daemon: AdminDaemon, start: nat, requests: nat, first: Ending, last: Ending) {
    && (last.Open? ==> first.Open?)
    && (!first.Open? ==> last == first)
    && (first.Open? && last.ByPage? ==>
        exists k: nat, b: nat :: start <= k < start + requests && SaysDone(daemon(k, b)))
    && (first.Open? && last.ByUnavailable? ==>
        exists k: nat, b: nat :: start <= k < start + requests && daemon(k, b).Unavailable?)
  }

  lemma EndedAtStart(daemon: AdminDaemon, start: nat, ending: Ending)
    ensures EndedBy(daemon, start, 0, ending, ending)
  {
  }

  lemma StillOpen(daemon: AdminDaemon, start: nat, requests: nat, before: nat, last: Ending)
    requires last.ByPage? ==> SaysDone(daemon(start + requests, before))
    requires last.ByUnavailable? ==> daemon(start + requests, before).Unavailable?
    ensures EndedBy(daemon, start, requests + 1, Open, last)
  {
  }

  lemma EndedTwice(daemon: AdminDaemon, start: nat, sent: nat, more: nat, first: Ending, mid: Ending, last: Ending)
    requires EndedBy(daemon, start, sent, first, mid) && EndedBy(daemon, start + sent, more, mid, last)
    ensures EndedBy(daemon, start, sent + more, first, last)
  {
  }

  ghost predicate NeverLost(daemon: AdminDaemon) {
    forall n, before :: !daemon(n, before).Lost?
  }

  ghost predicate NeverUnavailable(daemon: AdminDaemon) {
    forall n, before :: !daemon(n, before).Unavailable?
  }

  /** Where the walk began and how it ended, over the requests since `start`. */
  ghost predicate Traced(t: Timeline, daemon: AdminDaemon, start: nat, requests: nat, w: Walk, walk: Walk,
                         first: State, now: State) {
    && BeganAt(t, start, requests, w.initial, walk.initial, first, now)
    && EndedBy(daemon, start, requests, w.ending, walk.ending)
  }

  lemma TracedAtStart(t: Timeline, daemon: AdminDaemon, start: nat, w: Walk, state: State)
    ensures Traced(t, daemon, start, 0, w, w, state, state)
  {
  }

  lemma StillTraced(t: Timeline, daemon: AdminDaemon, start: nat, requests: nat, w: Walk, since: Walk, first: State,
                    was: State, before: nat, walk: Walk, now: State)
    requires Traced(t, daemon, start, requests, w, since, first, was) && since.ending.Open?
    requires Walking(was) ==> Walking(now)
    requires walk.initial == if !Walking(was) && Walking(now) then t.logs(start + requests) else since.initial
    requires walk.ending.ByPage? ==> SaysDone(daemon(start + requests, before))
    requires walk.ending.ByUnavailable? ==> daemon(start + requests, before).Unavailable?
    ensures Traced(t, daemon, start, requests + 1, w, walk, first, now)
  {
    StillBegan(t, start, requests, w.initial, since.initial, first, was, walk.initial, now);
    assert w.ending.Open?;
    StillOpen(daemon, start, requests, before, walk.ending);
  }

  /** The admin part of the checkpoint at request `n` of a log and a daemon that keep to their contracts. */
  ghost predicate OnTrack(cp: Checkpoint, t: Timeline, daemon: AdminDaemon, n: nat, w: Walk, dialog: int, minimum: nat)
    reads cp
  {
    && GrowsOnTop(t) && FaithfulDaemon(daemon, t, minimum)
    && AdminResumable(cp.records, cp.state, t, n, w, dialog, minimum)
  }

  /** One turn of the loop: a request at the cursor, and what its reply does. */
  method AskOnce(cp: Checkpoint, dialog: int, minimum: nat, daemon: AdminDaemon, start: nat, requests: nat,
                 before: nat, budget: nat, ghost t: Timeline, ghost w: Walk, ghost since: Walk, ghost first: State)
    returns (stop: Option<Outcome>, next: nat, commits: nat, ghost walk: Walk)
    requires AdminBounded(cp.records, cp.state, dialog, minimum)
    requires before == AdminCursorOf(cp.state) && !AdminIsDone(cp.state) && since.ending.Open?
    requires Traced(t, daemon, start, requests, w, since, first, cp.state)
    modifies cp
    ensures AdminBounded(cp.records, cp.state, dialog, minimum)
    ensures OnlyAddsEvents(old(cp.records), cp.records, dialog, minimum) && SameRestOfState(old(cp.state), cp.state)
    ensures stop.None? ==> 0 < next == AdminCursorOf(cp.state) && (before != 0 ==> next < before)
    ensures commits <= budget && (stop == Some(Crashed) ==> commits == budget)
    ensures stop == Some(Finished) <==> AdminIsDone(cp.state)
    ensures AdminIsDone(cp.state) <==> !walk.ending.Open?
    ensures stop == Some(RequestFailed) <==> daemon(start + requests, before).Lost?
    ensures Traced(t, daemon, start, requests + 1, w, walk, first, cp.state)
    ensures old(OnTrack(cp, t, daemon, start + requests, since, dialog, minimum)) ==>
              && OnTrack(cp, t, daemon, start + requests + 1, walk, dialog, minimum) && stop != Some(Refused)
              && commits <= 2 * old(Reach(cp.state, t, start + requests))
              && (stop.None? ==> next < old(Reach(cp.state, t, start + requests))
                                 && commits + 2 * next <= 2 * old(Reach(cp.state, t, start + requests)))
  {
    hide AdminResumable, AdminBounded, OnlyAddsEvents, SameRestOfState, GrowsOnTop, FaithfulReply, FaithfulDaemon;
    hide SaysDone, Traced, Walking, Reach;
    ghost var n := start + requests;
    ghost var good := OnTrack(cp, t, daemon, n, since, dialog, minimum);
    var reply := daemon(start + requests, before);
    if good { FaithfulAt(daemon, t, minimum, n, before); }
    ghost var was := cp.state;
    stop, next, commits, walk := HandleReply(cp, dialog, reply, before, minimum, budget, t, n, since);
    EndingIsSaid(reply, walk.ending);
    StillTraced(t, daemon, start, requests, w, since, first, was, before, walk, cp.state);
    if good { TimePasses(cp.records, cp.state, t, n, n + 1, walk, dialog, minimum); }
  }

  lemma EndingIsSaid(reply: AdminReply, ending: Ending)
    requires ending.ByPage? ==> reply.Events? && reply.done == Some(true)
    ensures ending.ByPage? ==> SaysDone(reply)
  {
  }

  /** One attempt at the admin log: it resumes at the durable cursor and may crash after `budget` commits. */
  method ExportAdminLog(cp: Checkpoint, dialog: int, minimum: nat, daemon: AdminDaemon, start: nat, budget: nat,
                        ghost t: Timeline, ghost w: Walk)
    returns (outcome: Outcome, requests: nat, commits: nat, ghost walk: Walk)
    requires AdminBounded(cp.records, cp.state, dialog, minimum)
    requires AdminIsDone(cp.state) <==> !w.ending.Open?
    modifies cp
    ensures AdminBounded(cp.records, cp.state, dialog, minimum)
    ensures OnlyAddsEvents(old(cp.records), cp.records, dialog, minimum) && SameRestOfState(old(cp.state), cp.state)
    ensures commits <= budget && (outcome.Crashed? ==> commits == budget)
    ensures outcome.Finished? <==> AdminIsDone(cp.state)
    ensures AdminIsDone(cp.state) <==> !walk.ending.Open?
    ensures old(AdminIsDone(cp.state)) ==>
              requests == 0 && commits == 0 && cp.records == old(cp.records) && cp.state == old(cp.state) && walk == w
    ensures Traced(t, daemon, start, requests, w, walk, old(cp.state), cp.state)
    ensures old(OnTrack(cp, t, daemon, start, w, dialog, minimum))
            ==> && OnTrack(cp, t, daemon, start + requests, walk, dialog, minimum) && !outcome.Refused?
                && requests <= old(Reach(cp.state, t, start)) && commits <= 2 * old(Reach(cp.state, t, start))
                && (NeverLost(daemon) && budget > 2 * old(Reach(cp.state, t, start)) ==> outcome.Finished?)
  {
    hide AdminBounded, OnlyAddsEvents, SameRestOfState, FaithfulDaemon, Traced, OnTrack;
    requests, commits, walk := 0, 0, w;
    NothingAdded(cp.records, dialog, minimum);
    assert SameRestOfState(cp.state, cp.state) by { SameState(cp.state); }
    TracedAtStart(t, daemon, start, w, cp.state);
    BoundedCursor(cp.records, cp.state, dialog, minimum);
    if AdminIsDone(cp.state) {
      return Finished, requests, commits, walk;
    }
    var before: nat := AdminCursorOf(cp.state);
    ghost var good := OnTrack(cp, t, daemon, start, w, dialog, minimum);
    ghost var reach := Reach(cp.state, t, start);
    while true
      invariant before == AdminCursorOf(cp.state) && !AdminIsDone(cp.state) && walk.ending.Open?
      invariant AdminBounded(cp.records, cp.state, dialog, minimum)
      invariant OnlyAddsEvents(old(cp.records), cp.records, dialog, minimum) && SameRestOfState(old(cp.state), cp.state)
      invariant commits <= budget
      invariant Traced(t, daemon, start, requests, w, walk, old(cp.state), cp.state)
      invariant before == 0 ==> requests == 0 && commits == 0 && reach == Reach(cp.state, t, start + requests)
      invariant before > 0 && good ==> requests + before <= reach && commits + 2 * before <= 2 * reach
      invariant good ==> OnTrack(cp, t, daemon, start + requests, walk, dialog, minimum)
      decreases if before == 0 then 1 else 0, before
    {
      ghost var mid, was, since := cp.records, cp.state, walk;
      var stop, next, more;
      stop, next, more, walk := AskOnce(cp, dialog, minimum, daemon, start, requests, before, budget - commits,
                                        t, w, since, old(cp.state));
      AddsThenAdds(old(cp.records), mid, cp.records, old(cp.state), was, cp.state, dialog, minimum);
      requests := requests + 1;
      commits := commits + more;
      if stop.Some? {
        return stop.value, requests, commits, walk;
      }
      before := next;
    }
  }

  /** Before the first commit nothing has been promised yet. */
  lemma FreshIsResumable(records: Records, state: State, t: Timeline, n: nat, initial: D.History, dialog: int,
                         minimum: nat)
    requires AdminCursorOf(state) == 0 && !AdminIsDone(state)
    requires forall id :: id > minimum ==> !Recorded(records, dialog, id)
    ensures AdminResumable(records, state, t, n, Walk(initial, Open), dialog, minimum)
  {
  }

  /** Repeating an interrupted export; attempt `i` crashes after `budgets[i]` commits at the latest. */
  method ResumeAdminLog(cp: Checkpoint, dialog: int, minimum: nat, daemon: AdminDaemon, budgets: seq<nat>,
                        ghost t: Timeline)
    returns (finished: bool, requests: nat, ghost walk: Walk)
    requires AdminCursorOf(cp.state) == 0 && !AdminIsDone(cp.state)
    requires forall id :: id > minimum ==> !Recorded(cp.records, dialog, id)
    modifies cp
    ensures OnlyAddsEvents(old(cp.records), cp.records, dialog, minimum)
    ensures finished ==> BeganAt(t, 0, requests, map[], walk.initial, map[], cp.state) && Walking(cp.state)
    ensures EndedBy(daemon, 0, requests, Open, walk.ending)
    ensures finished && GrowsOnTop(t) && FaithfulDaemon(daemon, t, minimum) ==>
              && (Complete(cp.records, walk.initial, t.logs(requests), dialog, minimum)
                  <==> walk.ending.ByPage? || NothingBelow(cp.state, walk.initial, t.logs(requests), minimum))
              && (NeverUnavailable(daemon) ==> Complete(cp.records, walk.initial, t.logs(requests), dialog, minimum))
  {
    hide AdminResumable, AdminBounded, OnlyAddsEvents, GrowsOnTop, FaithfulDaemon, SameRestOfState, BeganAt, EndedBy,
         Complete, NothingBelow;
    requests, finished, walk := 0, false, NO_WALK;
    FreshIsResumable(cp.records, cp.state, t, 0, walk.initial, dialog, minimum);
    ResumableIsBounded(cp.records, cp.state, t, 0, walk, dialog, minimum);
    NothingAdded(cp.records, dialog, minimum);
    ghost var good := GrowsOnTop(t) && FaithfulDaemon(daemon, t, minimum);
    BeganBefore(t, walk.initial, cp.state);
    EndedAtStart(daemon, 0, Open);
    for i := 0 to |budgets|
      invariant AdminBounded(cp.records, cp.state, dialog, minimum)
      invariant AdminIsDone(cp.state) <==> !walk.ending.Open?
      invariant OnlyAddsEvents(old(cp.records), cp.records, dialog, minimum)
      invariant BeganAt(t, 0, requests, map[], walk.initial, map[], cp.state)
      invariant EndedBy(daemon, 0, requests, Open, walk.ending)
      invariant good ==> AdminResumable(cp.records, cp.state, t, requests, walk, dialog, minimum)
    {
      ghost var mid, was, since, sent := cp.records, cp.state, walk, requests;
      var outcome, more, commits;
      outcome, more, commits, walk := ExportAdminLog(cp, dialog, minimum, daemon, requests, budgets[i], t, walk);
      AddsTwice(old(cp.records), mid, cp.records, dialog, minimum);
      requests := requests + more;
      BeganTwice(t, sent, more, since.initial, walk.initial, was, cp.state);
      EndedTwice(daemon, 0, sent, more, Open, since.ending, walk.ending);
      if outcome.Finished? {
        finished := true;
        if good { CompleteExactlyWhen(cp.records, cp.state, t, requests, walk, dialog, minimum); }
        if NeverUnavailable(daemon) { NeverEndsUnavailable(daemon, 0, requests, walk.ending); }
        return;
      }
    }
  }

  lemma NeverEndsUnavailable(daemon: AdminDaemon, start: nat, requests: nat, ending: Ending)
    requires EndedBy(daemon, start, requests, Open, ending) && NeverUnavailable(daemon)
    ensures !ending.ByUnavailable?
  {
  }

  lemma BeganBefore(t: Timeline, began: D.History, state: State)
    requires !Walking(state)
    ensures BeganAt(t, 0, 0, map[], began, map[], state)
  {
  }

  /** The log an earlier attempt began with stays the one the walk counts from. */
  lemma BeganTwice(t: Timeline, sent: nat, more: nat, since: D.History, began: D.History, was: State, now: State)
    requires BeganAt(t, 0, sent, map[], since, map[], was) && BeganAt(t, sent, more, since, began, was, now)
    ensures BeganAt(t, 0, sent + more, map[], began, map[], now)
  {
  }

  lemma ResumableIsBounded(records: Records, state: State, t: Timeline, n: nat, w: Walk, dialog: int, minimum: nat)
    requires AdminResumable(records, state, t, n, w, dialog, minimum)
    ensures AdminBounded(records, state, dialog, minimum)
    ensures AdminIsDone(state) <==> !w.ending.Open?
  {
  }

  lemma AddsTwice(first: Records, mid: Records, after: Records, dialog: int, minimum: nat)
    requires OnlyAddsEvents(first, mid, dialog, minimum) && OnlyAddsEvents(mid, after, dialog, minimum)
    ensures OnlyAddsEvents(first, after, dialog, minimum)
  {
  }

  // ---------------------------------------------------------- the daemon's reply

  /** What a request to Telegram yields: events, an error of the call, or a gate that lets no more calls through. */
  datatype Answer = Response(raw: seq<D.RawItem>) | RpcFailed | Closed

  predicate IsCursor(value: int) {
    0 <= value <= MAX_EVENT_ID
  }

  /** One admin log request. Only an invalid response or a closed gate is an error for the client: every other
      failure is the reply `unavailable`, which ends the walk. */
  method ServeAdminLog(channel: bool, answer: Answer, before: int, lower: int)
    returns (r: AdminReply, ghost page: D.HistoryPage)
    requires answer.Response? ==> forall i :: 0 <= i < |answer.raw| ==> answer.raw[i].slot.Message?
    ensures r.Unavailable? <==>
              || !channel || !(0 <= before < 0x8000_0000_0000_0000) || !(0 <= lower < 0x8000_0000_0000_0000)
              || answer.RpcFailed?
              || (answer.Response? && D.SoundIds(answer.raw, MAX_EVENT_ID, before, MAX_EVENT_ID)
                  && D.NewestTooLarge(answer.raw, lower))
    ensures r.Lost? <==>
              && channel && 0 <= before < 0x8000_0000_0000_0000 && 0 <= lower < 0x8000_0000_0000_0000
              && (answer.Closed?
                  || (answer.Response? && !D.SoundIds(answer.raw, MAX_EVENT_ID, before, MAX_EVENT_ID)))
    ensures !r.Malformed?
    ensures r.Events? ==>
              && answer.Response? && r == ToEvents(page)
              && D.AsManyAsFit(answer.raw, lower, page.items) && D.ContinuesBelow(answer.raw, lower, before, page)
              && page.next == (if page.items == [] then before else page.items[|page.items| - 1].id)
    ensures answer.Response? ==> forall log, limit: nat ::
              IsCursor(before) && IsCursor(lower) && limit > 0
              && D.TelegramResponse(log, answer.raw, lower, MAX_EVENT_ID, before, limit)
              ==> !r.Lost? && FaithfulReply(r, log, lower, before)
  {
    hide D.TelegramResponse, D.ConformingPage, ConformingPage, D.PageOf, D.Total, D.Kept, D.OldestAbove, D.Readable,
         D.HistoryIds, D.SoundIds, D.NewestTooLarge, D.AsManyAsFit, D.ContinuesBelow, FaithfulReply;
    page := D.HistoryPage([], before, true);
    forall log | IsCursor(before) && IsCursor(lower) ensures FaithfulReply(Unavailable, log, lower, before) {
      UnavailableIsFaithful(log, lower, before);
    }
    if !channel || !IsCursor(before) || !IsCursor(lower) || answer.RpcFailed? {
      return Unavailable, page;
    }
    if answer.Closed? {
      return Lost, page;
    }
    var raw := answer.raw;
    forall log, limit: nat | D.TelegramResponse(log, raw, lower, MAX_EVENT_ID, before, limit)
      ensures D.HistoryIds(raw, MAX_EVENT_ID, before, MAX_EVENT_ID).Ok?
    {
      ContractPassesChecks(log, raw, lower, before, limit);
    }
    var checked := D.HistoryIds(raw, MAX_EVENT_ID, before, MAX_EVENT_ID);
    if checked.Err? {
      return Lost, page;
    }
    var served := EventPage(raw, checked.value, before, lower);
    if served.Err? {
      return Unavailable, page;
    }
    page := served.value;
    r := ToEvents(served.value);
  }

  /** The events of a response with sound ids, as many as fit. */
  method EventPage(raw: seq<D.RawItem>, ids: seq<int>, before: nat, lower: nat) returns (r: Result<D.HistoryPage>)
    requires |raw| == |ids| && Descending(ids)
    requires forall i :: 0 <= i < |raw| ==> raw[i].id == Some(ids[i]) && raw[i].slot.Message?
    ensures r.Err? <==> D.NewestTooLarge(raw, lower)
    ensures r.Ok? ==>
              var page := r.value;
              && D.AsManyAsFit(raw, lower, page.items) && D.ContinuesBelow(raw, lower, before, page)
              && page.next == (if page.items == [] then before else page.items[|page.items| - 1].id)
    ensures r.Ok? ==> forall log, limit: nat ::
              limit > 0 && D.TelegramResponse(log, raw, lower, MAX_EVENT_ID, before, limit)
              ==> FaithfulReply(ToEvents(r.value), log, lower, before)
  {
    hide D.TelegramResponse, D.ConformingPage, ConformingPage, D.PageOf, D.Total, D.Kept, D.OldestAbove, D.Readable,
         D.NewestTooLarge, D.AsManyAsFit, D.ContinuesBelow, FaithfulReply;
    var readable := D.Readable(raw, ids, lower);
    D.FirstExceeds(raw, ids, lower);
    var bounded := D.BoundedPage(readable);
    if bounded.Err? {
      return Err(bounded.message);
    }
    var items := bounded.value;
    assert items == [] ==> readable == [] by {
      if items == [] && readable != [] { D.SingleTotal(readable); }
    }
    assert items == readable[..|items|];
    var next := if items == [] then before else items[|items| - 1].id;
    r := Ok(D.HistoryPage(items, next, ids == [] || ids[0] <= lower));
    D.LongestFitIsFull(raw, ids, lower, items);
    EventPageIsServed(raw, ids, |items|, r.value, before, lower);
  }

  /** A page that continues at its last event is the reply of the daemon. */
  lemma EventPageIsServed(raw: seq<D.RawItem>, ids: seq<int>, n: nat, page: D.HistoryPage, before: nat, lower: nat)
    requires |raw| == |ids| && Descending(ids)
    requires forall i :: 0 <= i < |raw| ==> raw[i].id == Some(ids[i]) && raw[i].slot.Message?
    requires n <= |D.Readable(raw, ids, lower)| && (n == 0 ==> D.Readable(raw, ids, lower) == [])
    requires page == var items := D.Readable(raw, ids, lower)[..n];
                     D.HistoryPage(items, if items == [] then before else items[n - 1].id, ids == [] || ids[0] <= lower)
    ensures D.ContinuesBelow(raw, lower, before, page)
    ensures forall log, limit: nat ::
              limit > 0 && D.TelegramResponse(log, raw, lower, MAX_EVENT_ID, before, limit)
              ==> FaithfulReply(ToEvents(page), log, lower, before)
  {
    hide D.TelegramResponse, D.PageOf, D.Kept, D.OldestAbove, D.Readable, D.ContinuesBelow, FaithfulReply, Descending,
         ToEvents;
    PageIsHistoryPage(raw, ids, n, before, lower);
    D.PageContinues(raw, ids, n, before, lower);
    forall log, limit: nat | limit > 0 && D.TelegramResponse(log, raw, lower, MAX_EVENT_ID, before, limit)
      ensures FaithfulReply(ToEvents(page), log, lower, before)
    {
      ReplyIsFaithful(log, raw, ids, n, before, lower, limit);
    }
  }

  lemma UnavailableIsFaithful(log: D.History, minimum: nat, before: nat)
    ensures FaithfulReply(Unavailable, log, minimum, before)
  {
  }

  /** Against Telegram's page contract no id check fires. */
  lemma ContractPassesChecks(log: D.History, raw: seq<D.RawItem>, lower: int, before: int, limit: nat)
    requires 0 <= lower && D.TelegramResponse(log, raw, lower, MAX_EVENT_ID, before, limit)
    ensures D.HistoryIds(raw, MAX_EVENT_ID, before, MAX_EVENT_ID).Ok?
  {
  }

  lemma ReplyIsFaithful(log: D.History, raw: seq<D.RawItem>, ids: seq<int>, n: nat, before: nat, lower: nat, limit: nat)
    requires limit > 0 && D.TelegramResponse(log, raw, lower, MAX_EVENT_ID, before, limit)
    requires |raw| == |ids| && Descending(ids)
    requires forall i :: 0 <= i < |raw| ==> raw[i].id == Some(ids[i]) && raw[i].slot.Message?
    requires n <= |D.Readable(raw, ids, lower)| && (n == 0 ==> D.Readable(raw, ids, lower) == [])
    ensures FaithfulReply(ToEvents(D.PageOf(raw, ids, n, before, lower)), log, lower, before)
  {
    hide D.TelegramResponse, D.ConformingPage, D.PageOf, D.Kept, D.OldestAbove, D.Readable, ToEvents;
    ResponseConforms(log, raw, ids, n, before, lower, limit);
    assert ConformingPage(log, D.PageOf(raw, ids, n, before, lower), lower, before) by {
      PageIsHistoryPage(raw, ids, n, before, lower);
    }
  }

  lemma ResponseConforms(log: D.History, raw: seq<D.RawItem>, ids: seq<int>, n: nat, before: nat, lower: nat,
                         limit: nat)
    requires limit > 0 && D.TelegramResponse(log, raw, lower, MAX_EVENT_ID, before, limit)
    requires |raw| == |ids| && Descending(ids) && forall i :: 0 <= i < |raw| ==> raw[i].id == Some(ids[i])
    requires n <= |D.Readable(raw, ids, lower)| && (n == 0 ==> D.Readable(raw, ids, lower) == [])
    ensures D.ConformingPage(log, D.PageOf(raw, ids, n, before, lower), lower, MAX_EVENT_ID, before)
  {
    hide D.TelegramResponse, D.ConformingPage, D.PageOf, D.Kept, D.OldestAbove, D.Readable;
    assert D.RawIds(raw) == ids;
    D.TrimmedPageConforms(log, log, raw, n, lower, MAX_EVENT_ID, before, limit);
  }

  // ------------------------------------------------------- what is lost for good

  const LOST_LOG: D.History := map[3 := D.Message("a", 1), 5 := D.Message("b", 1)]

  /** A log of the events 3 and 5 that never changes. */
  ghost function LostTimeline(): Timeline {
    Timeline(n => LOST_LOG, n => 5, LOST_LOG)
  }

  /** After event 5 was saved everything is in order, and a daemon may find the log unavailable at the next request. */
  lemma UnavailableIsAdmitted(records: Records, state: State)
    requires records == map[RecordKey(AdminKind, -1, 5) := "b"] && state == map[AdminCursor := Number(5)]
    ensures GrowsOnTop(LostTimeline()) && AdminResumable(records, state, LostTimeline(), 1, Walk(LOST_LOG, Open), -1, 0)
    ensures FaithfulReply(Unavailable, LOST_LOG, 0, 5)
    ensures AdminBounded(records, state, -1, 0) && !Complete(records, LOST_LOG, LOST_LOG, -1, 0)
  {
    assert Recorded(records, -1, 5);
    assert D.IsMessage(LOST_LOG, 3) && !Recorded(records, -1, 3);
  }

  /** Event 5 is saved, the next request finds the log unavailable: whatever a resume is answered, event 3 is not
      saved. */
  method UnavailableLosesAnEvent(resume: AdminDaemon, budget: nat) returns (cp: Checkpoint)
    ensures fresh(cp) && AdminIsDone(cp.state) && Recorded(cp.records, -1, 5) && !Recorded(cp.records, -1, 3)
  {
    hide AdminResumable, BeganAt, EndedBy, Complete;
    cp := new Checkpoint();
    cp.Save(AdminKind, -1, 5, "b", AdminCursor);
    UnavailableIsAdmitted(cp.records, cp.state);
    var stop, before, commits, outcome, requests;
    ghost var walk := Walk(LOST_LOG, Open);
    stop, before, commits, walk := HandleReply(cp, -1, Unavailable, 5, 0, 1, LostTimeline(), 1, walk);
    outcome, requests, commits, walk := ExportAdminLog(cp, -1, 0, resume, 2, budget, LostTimeline(), walk);
  }

  /** Nor by an update that takes event 5 from its base. */
  method UpdateDoesNotRecoverIt(update: AdminDaemon, budget: nat, current: Fingerprint) returns (cp: Checkpoint)
    ensures fresh(cp) && Recorded(cp.records, -1, 5) && !Recorded(cp.records, -1, 3)
  {
    hide AdminResumable, BeganAt, EndedBy, Complete;
    cp := new Checkpoint();
    cp.Mark(BaseFingerprint, Print(current));
    var base := [AdminEvent(-1, 5, "b")];
    var ok := cp.ImportBase(base, [], map[], current);
    assert base[..0] == [];
    assert cp.records == map[RecordKey(AdminKind, -1, 5) := "b"];
    var outcome, requests, commits;
    ghost var walk;
    outcome, requests, commits, walk := ExportAdminLog(cp, -1, 5, update, 0, budget, LostTimeline(), NO_WALK);
  }
}
