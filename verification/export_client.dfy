/** The client's side of a chat export: a page loop whose every commit may be the last one before a crash. */
module ExportClient {
  import opened Common
  import opened TelegramPages
  import opened CheckpointStore
  import D = ExportDaemon

  /** One item as received: the id may not be an integer, the rest may not describe a message of this group. */
  datatype WireItem = WireItem(id: Option<int>, dialog: int, wellFormed: bool, payload: Payload)

  /** What one request yields, after deferred replies have been waited out. */
  datatype Reply = Failed | Page(items: seq<WireItem>, next: Option<int>, done: Option<bool>)

  /** The daemon's answer to the n-th request of the export, given its cursor. */
  type Daemon = (nat, nat) -> Reply

  /** How an attempt ends: complete, interrupted between two commits, a failed request, or a refused page. */
  datatype Outcome = Finished | Crashed | RequestFailed | Refused

  // ------------------------------------------------------------------ guards

  /** Message histories have a frozen upper boundary, the admin log has none. */
  predicate Within(id: int, upper: Option<nat>) {
    upper.Some? ==> id <= upper.value
  }

  /** The id of an item that continues the walk below `before`, or an error. */
  function OrderedId(id: Option<int>, before: nat, upper: Option<nat>): (r: Result<nat>)
    ensures r.Ok? <==> id.Some? && 0 < id.value && (before == 0 || id.value < before) && Within(id.value, upper)
    ensures r.Ok? ==> id == Some(r.value)
  {
    if id.None? || id.value < 0 then Err("malformed")
    else if id.value == 0 || (before != 0 && id.value >= before) then Err("out of order")
    else if !Within(id.value, upper) then Err("out of range")
    else Ok(id.value)
  }

  /** The cursor after a page: strictly below the old one, not below what was delivered, inside the frozen range. */
  function Advance(next: Option<int>, incoming: nat, last: nat, upper: Option<nat>): (r: Result<nat>)
    ensures r.Ok? <==> && next.Some? && 0 < next.value && Within(next.value, upper)
                       && (incoming != 0 ==> next.value < incoming)
                       && (last != 0 ==> next.value <= last)
    ensures r.Ok? ==> next == Some(r.value)
  {
    if next.None? || next.value < 0 then Err("malformed")
    else if next.value == 0 || (incoming != 0 && next.value >= incoming) then Err("stalled")
    else if last != 0 && next.value > last then Err("skipped")
    else if !Within(next.value, upper) then Err("out of range")
    else Ok(next.value)
  }

  predicate Acceptable(item: WireItem, peer: int, before: nat, minimum: nat, upper: nat) {
    && OrderedId(item.id, before, Some(upper)).Ok?
    && item.id.value > minimum
    && item.dialog == peer && item.wellFormed
  }

  // ------------------------------------------------------------ what is saved

  ghost predicate Saved(records: Records, peer: int, id: int) {
    RecordKey(MessageKind, peer, id) in records
  }

  /** A history while it is exported: the messages of `kept` are there throughout, those of `ever` at some time. */
  datatype Era = Era(kept: D.History, ever: D.History)

  /** What the history may look like at one moment of the era. */
  ghost predicate During(e: Era, h: D.History) {
    && (forall id :: D.IsMessage(e.kept, id) ==> D.IsMessage(h, id))
    && (forall id :: D.IsMessage(h, id) ==> D.IsMessage(e.ever, id) && h[id].payload == e.ever[id].payload)
  }

  /** Between the two ids (inclusive) every message that stayed is saved, and nothing that never was one. */
  ghost predicate SavedWithin(records: Records, e: Era, peer: int, low: int, high: int) {
    forall id :: low <= id <= high ==>
      && (D.IsMessage(e.kept, id) ==> Saved(records, peer, id))
      && (Saved(records, peer, id) ==>
            D.IsMessage(e.ever, id) && records[RecordKey(MessageKind, peer, id)] == e.ever[id].payload)
  }

  /** In a history that does not change, exactly its messages are saved. */
  lemma StillIsExact(records: Records, h: D.History, peer: int, low: int, high: int)
    requires SavedWithin(records, Era(h, h), peer, low, high)
    ensures forall id :: low <= id <= high ==> (Saved(records, peer, id) <==> D.IsMessage(h, id))
  {
  }

  ghost predicate NoneSaved(records: Records, peer: int, low: int, high: int) {
    forall id :: low <= id <= high ==> !Saved(records, peer, id)
  }

  /** Every id from here up to the frozen boundary has been dealt with. */
  function Frontier(cursor: int, upper: int): int {
    if cursor == 0 then upper + 1 else cursor
  }

  /** The resume invariant; it holds between any two commits, so it is what a crash leaves behind. */
  ghost predicate Resumable(records: Records, state: State, e: Era, peer: int, minimum: nat, upper: nat) {
    var cursor := CursorOf(state, peer);
    var frontier := Frontier(cursor, upper);
    && (cursor == 0 || minimum < cursor <= upper)
    && (forall id :: id > upper ==> !Saved(records, peer, id))
    && (if IsDone(state, peer) then SavedWithin(records, e, peer, minimum + 1, upper)
        else SavedWithin(records, e, peer, frontier, upper) && NoneSaved(records, peer, minimum + 1, frontier - 1))
  }

  /** What holds whatever the daemon answers: fresh ids lie between the cursor and the frozen boundary. */
  ghost predicate Bounded(records: Records, state: State, peer: int, minimum: nat, upper: nat) {
    var cursor := CursorOf(state, peer);
    && 0 <= cursor <= upper
    && forall id :: id > minimum && Saved(records, peer, id) ==> Frontier(cursor, upper) <= id <= upper
  }

  /** Nothing that was saved is lost or overwritten; new rows are this peer's messages above the minimum. */
  ghost predicate OnlyAdds(before: Records, after: Records, peer: int, minimum: nat) {
    && (forall key :: key in before ==> key in after && after[key] == before[key])
    && (forall key :: key in after && key !in before ==>
        key.kind == MessageKind && key.peer == peer && key.id > minimum)
  }

  ghost predicate SameOtherState(before: State, after: State, peer: int) {
    forall key :: key != Cursor(peer) && key != Done(peer) ==> Read(before, key) == Read(after, key)
  }

  // ------------------------------------------------------------- saving a page

  /** The items extend the walk: ids strictly descending, below `before`, inside (minimum, upper]. */
  ghost predicate WalksDown(items: seq<WireItem>, before: nat, minimum: nat, upper: nat) {
    && (forall i :: 0 <= i < |items| ==>
          items[i].id.Some? && minimum < items[i].id.value && InWindow(items[i].id.value, 0, upper, before))
    && (forall i, j :: 0 <= i < j < |items| ==> items[i].id.value > items[j].id.value)
  }

  ghost function Put(records: Records, peer: int, items: seq<WireItem>): Records
    requires forall i :: 0 <= i < |items| ==> items[i].id.Some?
  {
    if items == [] then records
    else
      var last := items[|items| - 1];
      Put(records, peer, items[..|items| - 1])[RecordKey(MessageKind, peer, last.id.value) := last.payload]
  }

  function LastId(items: seq<WireItem>, before: nat): int
    requires forall i :: 0 <= i < |items| ==> items[i].id.Some?
  {
    if items == [] then before else items[|items| - 1].id.value
  }

  lemma NothingPut(records: Records, peer: int, before: nat)
    ensures Put(records, peer, []) == records && LastId([], before) == before
  {
  }

  /** One more acceptable item extends the walk and is one more row. */
  lemma WalkExtends(records: Records, peer: int, items: seq<WireItem>, n: nat, before: nat, minimum: nat, upper: nat)
    requires n < |items| && WalksDown(items[..n], before, minimum, upper)
    requires LastId(items[..n], before) >= 0
    requires Acceptable(items[n], peer, LastId(items[..n], before), minimum, upper)
    ensures WalksDown(items[..n + 1], before, minimum, upper)
    ensures Put(records, peer, items[..n + 1])
         == Put(records, peer, items[..n])[RecordKey(MessageKind, peer, items[n].id.value) := items[n].payload]
    ensures LastId(items[..n + 1], before) == items[n].id.value > 0
  {
    assert items[..n + 1][..n] == items[..n];
  }

  /** Saves items one commit at a time, stopping at a crash (`budget` commits) or at the first bad item. */
  method SavePage(cp: Checkpoint, peer: int, items: seq<WireItem>, before: nat, minimum: nat, upper: nat, budget: nat)
    returns (saved: nat, last: nat, stop: Option<Outcome>)
    modifies cp
    ensures saved <= |items| && saved <= budget
    ensures WalksDown(items[..saved], before, minimum, upper)
    ensures cp.records == Put(old(cp.records), peer, items[..saved])
    ensures last == LastId(items[..saved], before)
    ensures cp.state == if saved == 0 then old(cp.state) else old(cp.state)[Cursor(peer) := Number(last)]
    ensures stop.None? <==> saved == |items|
    ensures stop.Some? ==> stop.value in {Crashed, Refused}
    ensures stop == Some(Crashed) ==> saved == budget
    ensures stop == Some(Refused) ==> saved < |items| && !Acceptable(items[saved], peer, last, minimum, upper)
  {
    hide Put, LastId, Acceptable;
    saved, last := 0, before;
    NothingPut(cp.records, peer, before);
    while saved < |items|
      invariant saved <= |items| && saved <= budget
      invariant WalksDown(items[..saved], before, minimum, upper)
      invariant cp.records == Put(old(cp.records), peer, items[..saved])
      invariant last == LastId(items[..saved], before)
      invariant cp.state == if saved == 0 then old(cp.state) else old(cp.state)[Cursor(peer) := Number(last)]
    {
      var item := items[saved];
      if !Acceptable(item, peer, last, minimum, upper) {
        return saved, last, Some(Refused);
      }
      if saved == budget {
        return saved, last, Some(Crashed);
      }
      WalkExtends(old(cp.records), peer, items, saved, before, minimum, upper);
      cp.Save(MessageKind, peer, item.id.value, item.payload, Cursor(peer));
      last := item.id.value;
      saved := saved + 1;
    }
    stop := None;
  }

  ghost predicate Listed(items: seq<WireItem>, id: int) {
    exists i :: 0 <= i < |items| && items[i].id == Some(id)
  }

  lemma {:induction false} PutKeys(records: Records, peer: int, items: seq<WireItem>, key: RecordKey)
    requires forall i :: 0 <= i < |items| ==> items[i].id.Some?
    ensures key in Put(records, peer, items) <==>
              key in records || (key.kind == MessageKind && key.peer == peer && Listed(items, key.id))
    ensures key in records && !(key.kind == MessageKind && key.peer == peer && Listed(items, key.id)) ==>
              Put(records, peer, items)[key] == records[key]
  {
    if items != [] {
      var n := |items| - 1;
      PutKeys(records, peer, items[..n], key);
      if Listed(items[..n], key.id) {
        var i :| 0 <= i < n && items[..n][i].id == Some(key.id);
        assert items[i].id == Some(key.id);
      }
      if Listed(items, key.id) && items[n].id != Some(key.id) {
        var i :| 0 <= i < |items| && items[i].id == Some(key.id);
        assert items[..n][i].id == Some(key.id);
      }
    }
  }

  lemma {:induction false} PutValues(records: Records, peer: int, items: seq<WireItem>, before: nat, minimum: nat,
                                     upper: nat, i: nat)
    requires WalksDown(items, before, minimum, upper) && i < |items|
    ensures RecordKey(MessageKind, peer, items[i].id.value) in Put(records, peer, items)
    ensures Put(records, peer, items)[RecordKey(MessageKind, peer, items[i].id.value)] == items[i].payload
  {
    var n := |items| - 1;
    if i < n {
      PutValues(records, peer, items[..n], before, minimum, upper, i);
      assert items[i].id.value > items[n].id.value;
    }
  }

  // -------------------------------------------- whatever the daemon answers

  /** Committing a descending run and its cursor keeps fresh ids between cursor and boundary, and only adds rows. */
  lemma WalkStaysBounded(records: Records, state: State, peer: int, minimum: nat, upper: nat,
                         items: seq<WireItem>, cursor: nat)
    requires Bounded(records, state, peer, minimum, upper)
    requires WalksDown(items, CursorOf(state, peer), minimum, upper)
    requires 0 < cursor <= upper && cursor <= Frontier(CursorOf(state, peer), upper)
    requires forall i :: 0 <= i < |items| ==> cursor <= items[i].id.value
    ensures Bounded(Put(records, peer, items), state[Cursor(peer) := Number(cursor)], peer, minimum, upper)
    ensures OnlyAdds(records, Put(records, peer, items), peer, minimum)
  {
    var after := Put(records, peer, items);
    forall id | id > minimum && Saved(after, peer, id) ensures cursor <= id <= upper {
      PutKeys(records, peer, items, RecordKey(MessageKind, peer, id));
      if Listed(items, id) {
        var i :| 0 <= i < |items| && items[i].id == Some(id);
        assert cursor <= items[i].id.value <= upper;
      } else {
        assert Saved(records, peer, id);
      }
    }
    forall key | key in records ensures key in after && after[key] == records[key] {
      PutKeys(records, peer, items, key);
      assert key == RecordKey(MessageKind, peer, key.id) && Saved(records, peer, key.id) ==> !Listed(items, key.id);
    }
    forall key | key in after && key !in records
      ensures key.kind == MessageKind && key.peer == peer && key.id > minimum
    {
      PutKeys(records, peer, items, key);
    }
  }

  lemma LastIsLowest(items: seq<WireItem>, before: nat, minimum: nat, upper: nat)
    requires WalksDown(items, before, minimum, upper)
    ensures items != [] ==> minimum < LastId(items, before) <= upper && (before != 0 ==> LastId(items, before) < before)
    ensures forall i :: 0 <= i < |items| ==> LastId(items, before) <= items[i].id.value
  {
  }

  // ------------------------------------------------ against a good daemon

  function ToWire(page: D.HistoryPage, peer: int): (reply: Reply)
    ensures reply.Page? && |reply.items| == |page.items|
  {
    Page(seq(|page.items|, i requires 0 <= i < |page.items| =>
           WireItem(Some(page.items[i].id), peer, true, page.items[i].payload)),
         Some(page.next), Some(page.done))
  }

  ghost predicate ConformingReply(reply: Reply, e: Era, peer: int, minimum: nat, upper: nat, before: nat) {
    reply.Failed? || exists h, page :: During(e, h) && D.ConformingPage(h, page, minimum, upper, before)
                                       && reply == ToWire(page, peer)
  }

  /** Telegram message ids fit 31 bits; a request with larger ones is an error. */
  predicate InRange(upper: nat, before: nat, lower: nat) {
    upper <= D.MAX_MESSAGE_ID && before <= D.MAX_MESSAGE_ID && lower <= D.MAX_MESSAGE_ID
  }

  /** The daemon's answer as the client sees it: an error reply, or the page. */
  method AnswerHistory(raw: seq<D.RawItem>, peer: int, upper: nat, before: nat, lower: nat)
    returns (reply: Reply, ghost page: D.HistoryPage)
    ensures reply.Failed? <==>
              || upper > 0x7fff_ffff || before > 0x7fff_ffff || lower > 0x7fff_ffff
              || (upper > lower
                  && (!D.SoundIds(raw, upper, before, D.MAX_MESSAGE_ID) || D.NewestTooLarge(raw, lower)))
    ensures !reply.Failed? ==>
              && reply == ToWire(page, peer)
              && if upper <= lower then page == D.HistoryPage([], before, true)
                 else D.AsManyAsFit(raw, lower, page.items) && D.ContinuesBelow(raw, lower, before, page)
    ensures forall e, h, live, limit: nat :: During(e, h) && limit > 0 && D.AgreeUpTo(h, live, upper)
              && D.TelegramResponse(live, raw, lower, upper, before, limit)
              ==> ConformingReply(reply, e, peer, lower, upper, before)
  {
    hide D.TelegramResponse, D.ConformingPage, During, ConformingReply, D.SoundIds, D.NewestTooLarge, D.AsManyAsFit,
         D.ContinuesBelow;
    page := D.HistoryPage([], before, true);
    if !InRange(upper, before, lower) {
      FailureAlwaysConforms(peer, lower, upper, before);
      return Failed, page;
    }
    var served := D.ServeHistory(raw, upper, before, lower);
    page := if served.Ok? then served.value else page;
    reply := if served.Ok? then ToWire(served.value, peer) else Failed;
    forall e, h, live, limit: nat | During(e, h) && limit > 0 && D.AgreeUpTo(h, live, upper)
        && D.TelegramResponse(live, raw, lower, upper, before, limit)
      ensures ConformingReply(reply, e, peer, lower, upper, before)
    {
      if served.Ok? {
        if upper <= lower { NothingToServe(h, lower, upper, before); }
        PageConforms(e, h, served.value, peer, lower, upper, before);
      } else {
        FailureConforms(e, peer, lower, upper, before);
      }
    }
  }

  lemma NothingToServe(h: D.History, lower: nat, upper: nat, before: nat)
    requires upper <= lower
    ensures D.ConformingPage(h, D.HistoryPage([], before, true), lower, upper, before)
  {
  }

  lemma PageConforms(e: Era, h: D.History, page: D.HistoryPage, peer: int, lower: nat, upper: nat, before: nat)
    requires During(e, h) && D.ConformingPage(h, page, lower, upper, before)
    ensures ConformingReply(ToWire(page, peer), e, peer, lower, upper, before)
  {
  }

  lemma FailureAlwaysConforms(peer: int, lower: nat, upper: nat, before: nat)
    ensures forall e :: ConformingReply(Failed, e, peer, lower, upper, before)
  {
  }

  lemma FailureConforms(e: Era, peer: int, lower: nat, upper: nat, before: nat)
    ensures ConformingReply(Failed, e, peer, lower, upper, before)
  {
  }

  /** Every reply, at any time and for any cursor, is a failure or a faithful page of the history of that moment. */
  ghost predicate ConformingDaemon(daemon: Daemon, e: Era, peer: int, minimum: nat, upper: nat) {
    forall n, before :: ConformingReply(daemon(n, before), e, peer, minimum, upper, before)
  }

  /** No guard of the client fires on a faithful page. */
  lemma FaithfulItemAccepted(page: D.HistoryPage, h: D.History, peer: int, minimum: nat, upper: nat, before: nat,
                             n: nat)
    requires D.ConformingPage(h, page, minimum, upper, before) && n < |page.items|
    requires WalksDown(ToWire(page, peer).items[..n], before, minimum, upper)
    ensures Acceptable(ToWire(page, peer).items[n], peer, LastId(ToWire(page, peer).items[..n], before), minimum, upper)
  {
  }

  lemma FaithfulCursorAccepted(page: D.HistoryPage, h: D.History, peer: int, minimum: nat, upper: nat, before: nat)
    requires D.ConformingPage(h, page, minimum, upper, before) && !page.done
    ensures Advance(Some(page.next), before, LastId(ToWire(page, peer).items, before), Some(upper)).Ok?
  {
  }

  /** Committing the page down to some cursor extends the exactly-saved range down to that cursor. */
  lemma WalkStaysResumable(records: Records, state: State, e: Era, peer: int, minimum: nat, upper: nat,
                           items: seq<WireItem>, cursor: nat)
    requires Resumable(records, state, e, peer, minimum, upper) && !IsDone(state, peer)
    requires 0 <= CursorOf(state, peer)
    requires WalksDown(items, CursorOf(state, peer), minimum, upper)
    requires minimum < cursor < Frontier(CursorOf(state, peer), upper)
    requires forall i :: 0 <= i < |items| ==>
               cursor <= items[i].id.value && D.IsMessage(e.ever, items[i].id.value)
               && items[i].payload == e.ever[items[i].id.value].payload
    requires forall id :: cursor <= id < Frontier(CursorOf(state, peer), upper) && D.IsMessage(e.kept, id) ==>
               Listed(items, id)
    ensures Resumable(Put(records, peer, items), state[Cursor(peer) := Number(cursor)], e, peer, minimum, upper)
  {
    var before := CursorOf(state, peer);
    var frontier := Frontier(before, upper);
    var after := Put(records, peer, items);
    forall id ensures Saved(after, peer, id) <==> Saved(records, peer, id) || Listed(items, id) {
      PutKeys(records, peer, items, RecordKey(MessageKind, peer, id));
    }
    forall id | cursor <= id <= upper
      ensures D.IsMessage(e.kept, id) ==> Saved(after, peer, id)
      ensures Saved(after, peer, id) ==>
                D.IsMessage(e.ever, id) && after[RecordKey(MessageKind, peer, id)] == e.ever[id].payload
    {
      PutKeys(records, peer, items, RecordKey(MessageKind, peer, id));
      if Listed(items, id) {
        var i :| 0 <= i < |items| && items[i].id == Some(id);
        PutValues(records, peer, items, before, minimum, upper, i);
      }
    }
  }

  /** A crash after any number of a page's commits leaves a resumable checkpoint. */
  lemma CrashMidPageIsResumable(records: Records, state: State, e: Era, h: D.History, peer: int, minimum: nat,
                                upper: nat, page: D.HistoryPage, n: nat)
    requires During(e, h)
    requires Resumable(records, state, e, peer, minimum, upper) && !IsDone(state, peer) && 0 <= CursorOf(state, peer)
    requires D.ConformingPage(h, page, minimum, upper, CursorOf(state, peer))
    requires 0 < n <= |page.items|
    requires WalksDown(ToWire(page, peer).items[..n], CursorOf(state, peer), minimum, upper)
    ensures var items := ToWire(page, peer).items[..n];
            Resumable(Put(records, peer, items), state[Cursor(peer) := Number(page.items[n - 1].id)], e, peer,
                      minimum, upper)
  {
    var before := CursorOf(state, peer);
    var items := ToWire(page, peer).items[..n];
    var last := page.items[n - 1].id;
    assert !page.done;
    assert D.Delivered(page.items, last);
    forall id | last <= id < Frontier(before, upper) && D.IsMessage(e.kept, id) ensures Listed(items, id) {
      assert InWindow(id, minimum, upper, before);
      var i :| 0 <= i < |page.items| && page.items[i].id == id;
      assert i < n;
      assert items[i].id == Some(id);
    }
    WalkStaysResumable(records, state, e, peer, minimum, upper, items, last);
  }

  /** Moving the cursor over a whole page, with its trimmed tail and its empty slots, loses no message. */
  lemma AdvanceIsResumable(records: Records, state: State, e: Era, h: D.History, peer: int, minimum: nat, upper: nat,
                           page: D.HistoryPage)
    requires During(e, h)
    requires Resumable(records, state, e, peer, minimum, upper) && !IsDone(state, peer) && 0 <= CursorOf(state, peer)
    requires D.ConformingPage(h, page, minimum, upper, CursorOf(state, peer)) && !page.done
    requires WalksDown(ToWire(page, peer).items, CursorOf(state, peer), minimum, upper)
    ensures var items := ToWire(page, peer).items;
            Resumable(Put(records, peer, items), state[Cursor(peer) := Number(page.next)], e, peer, minimum, upper)
  {
    var before := CursorOf(state, peer);
    var items := ToWire(page, peer).items;
    forall i | 0 <= i < |items| ensures page.next <= items[i].id.value {
      assert D.Delivered(page.items, page.items[i].id);
    }
    forall id | page.next <= id < Frontier(before, upper) && D.IsMessage(e.kept, id) ensures Listed(items, id) {
      var i :| 0 <= i < |page.items| && page.items[i].id == id;
      assert items[i].id == Some(id);
    }
    WalkStaysResumable(records, state, e, peer, minimum, upper, items, page.next);
  }

  /** When the window below the cursor is empty, everything above the minimum has been saved. */
  lemma ExhaustedIsComplete(records: Records, state: State, e: Era, h: D.History, peer: int, minimum: nat, upper: nat)
    requires During(e, h)
    requires Resumable(records, state, e, peer, minimum, upper) && !IsDone(state, peer) && 0 <= CursorOf(state, peer)
    requires D.Exhausted(h, minimum, upper, CursorOf(state, peer))
    ensures SavedWithin(records, e, peer, minimum + 1, upper)
    ensures Resumable(records, state[Done(peer) := Flag], e, peer, minimum, upper)
  {
  }

  // ----------------------------------------------------------- the page loop

  ghost predicate Reliable(daemon: Daemon) {
    forall n, before :: !daemon(n, before).Failed?
  }

  /** The state after `items` were committed one by one. */
  ghost function CursorSaved(state: State, peer: int, items: seq<WireItem>): State
    requires forall i :: 0 <= i < |items| ==> items[i].id.Some?
  {
    if items == [] then state else state[Cursor(peer) := Number(LastId(items, 0))]
  }

  lemma PageCommitsStayBounded(records: Records, state: State, peer: int, minimum: nat, upper: nat,
                               items: seq<WireItem>)
    requires Bounded(records, state, peer, minimum, upper)
    requires WalksDown(items, CursorOf(state, peer), minimum, upper)
    ensures Bounded(Put(records, peer, items), CursorSaved(state, peer, items), peer, minimum, upper)
    ensures OnlyAdds(records, Put(records, peer, items), peer, minimum)
  {
    if items != [] {
      LastIsLowest(items, CursorOf(state, peer), minimum, upper);
      WalkStaysBounded(records, state, peer, minimum, upper, items, LastId(items, 0));
    }
  }

  lemma PageCommitsStayResumable(records: Records, state: State, e: Era, peer: int, minimum: nat, upper: nat,
                                 reply: Reply, n: nat)
    requires Resumable(records, state, e, peer, minimum, upper) && !IsDone(state, peer) && 0 <= CursorOf(state, peer)
    requires reply.Page? && ConformingReply(reply, e, peer, minimum, upper, CursorOf(state, peer))
    requires n <= |reply.items| && WalksDown(reply.items[..n], CursorOf(state, peer), minimum, upper)
    ensures Resumable(Put(records, peer, reply.items[..n]), CursorSaved(state, peer, reply.items[..n]), e, peer,
                      minimum, upper)
    ensures reply.done.Some?
    ensures n < |reply.items| ==>
              Acceptable(reply.items[n], peer, LastId(reply.items[..n], CursorOf(state, peer)), minimum, upper)
  {
    hide Resumable, Acceptable, D.ConformingPage;
    var before := CursorOf(state, peer);
    var h, page :| During(e, h) && D.ConformingPage(h, page, minimum, upper, before) && reply == ToWire(page, peer);
    if n > 0 {
      CrashMidPageIsResumable(records, state, e, h, peer, minimum, upper, page, n);
    }
    if n < |page.items| {
      FaithfulItemAccepted(page, h, peer, minimum, upper, before, n);
    }
  }

  lemma PageEndStaysResumable(records: Records, state: State, e: Era, peer: int, minimum: nat, upper: nat,
                              reply: Reply)
    requires Resumable(records, state, e, peer, minimum, upper) && !IsDone(state, peer) && 0 <= CursorOf(state, peer)
    requires reply.Page? && ConformingReply(reply, e, peer, minimum, upper, CursorOf(state, peer))
    requires WalksDown(reply.items, CursorOf(state, peer), minimum, upper)
    ensures reply.done.Some? && reply.next.Some?
    ensures reply.done.value ==>
              && reply.items == [] && Put(records, peer, reply.items) == records
              && Resumable(records, state[Done(peer) := Flag], e, peer, minimum, upper)
    ensures !reply.done.value ==>
              && Advance(reply.next, CursorOf(state, peer), LastId(reply.items, CursorOf(state, peer)), Some(upper)).Ok?
              && Resumable(Put(records, peer, reply.items), state[Cursor(peer) := Number(reply.next.value)], e, peer,
                           minimum, upper)
  {
    var before := CursorOf(state, peer);
    var h, page :| During(e, h) && D.ConformingPage(h, page, minimum, upper, before) && reply == ToWire(page, peer);
    if page.done {
      assert |page.items| > 0 ==> D.IsMessage(h, page.items[0].id);
      ExhaustedIsComplete(records, state, e, h, peer, minimum, upper);
    } else {
      FaithfulCursorAccepted(page, h, peer, minimum, upper, before);
      AdvanceIsResumable(records, state, e, h, peer, minimum, upper, page);
    }
  }

  /** Each saved id uses up at least one id below the frontier. */
  lemma {:induction false} WalkCounts(items: seq<WireItem>, before: nat, minimum: nat, upper: nat)
    requires WalksDown(items, before, minimum, upper)
    ensures items != [] ==> LastId(items, before) + |items| <= Frontier(before, upper)
  {
    if |items| > 1 {
      var n := |items| - 1;
      WalkCounts(items[..n], before, minimum, upper);
      assert items[n - 1].id.value > items[n].id.value;
    }
  }

  lemma FlagStaysBounded(records: Records, state: State, peer: int, minimum: nat, upper: nat)
    requires Bounded(records, state, peer, minimum, upper)
    ensures Bounded(records, state[Done(peer) := Flag], peer, minimum, upper)
  {
  }

  /** The end of the loop body: marks the history complete, or moves the cursor over the whole page.
      `records` and `state` are the checkpoint from before the page's records were committed. */
  method EndPage(cp: Checkpoint, peer: int, minimum: nat, upper: nat, reply: Reply, before: nat, last: nat, room: nat,
                 ghost e: Era, ghost records: Records, ghost state: State)
    returns (stop: Option<Outcome>, next: nat)
    requires reply.Page? && reply.done.Some?
    requires before == CursorOf(state, peer) && !IsDone(state, peer)
    requires Bounded(records, state, peer, minimum, upper) && Bounded(cp.records, cp.state, peer, minimum, upper)
    requires WalksDown(reply.items, before, minimum, upper) && last == LastId(reply.items, before)
    requires cp.records == Put(records, peer, reply.items) && cp.state == CursorSaved(state, peer, reply.items)
    modifies cp
    ensures cp.records == old(cp.records) && SameOtherState(old(cp.state), cp.state, peer)
    ensures Bounded(cp.records, cp.state, peer, minimum, upper)
    ensures stop.None? ==> room > 0 && 0 < next == CursorOf(cp.state, peer) < Frontier(before, upper)
                           && (reply.items != [] ==> next <= last)
    ensures stop.Some? ==>
              && stop.value in {Finished, Crashed, Refused}
              && CursorOf(cp.state, peer) == CursorOf(old(cp.state), peer)
    ensures stop == Some(Crashed) ==> room == 0
    ensures stop == Some(Finished) ==> room > 0
    ensures stop == Some(Finished) <==> IsDone(cp.state, peer)
    ensures (ConformingReply(reply, e, peer, minimum, upper, before)
             && Resumable(records, state, e, peer, minimum, upper)
             && old(Resumable(cp.records, cp.state, e, peer, minimum, upper)))
            ==> Resumable(cp.records, cp.state, e, peer, minimum, upper) && stop != Some(Refused)
  {
    hide Resumable, Bounded, ConformingReply, Put, WalksDown, LastId, InWindow;
    if ConformingReply(reply, e, peer, minimum, upper, before) && Resumable(records, state, e, peer, minimum, upper) {
      PageEndStaysResumable(records, state, e, peer, minimum, upper, reply);
    }
    next := before;
    if reply.done.value {
      if room == 0 {
        return Some(Crashed), next;
      }
      FlagStaysBounded(cp.records, cp.state, peer, minimum, upper);
      cp.Mark(Done(peer), Flag);
      return Some(Finished), next;
    }
    var advanced := Advance(reply.next, before, last, Some(upper));
    if advanced.Err? {
      return Some(Refused), next;
    }
    if room == 0 {
      return Some(Crashed), next;
    }
    next := advanced.value;
    LastIsLowest(reply.items, before, minimum, upper);
    WalkStaysBounded(records, state, peer, minimum, upper, reply.items, next);
    assert cp.state[Cursor(peer) := Number(next)] == state[Cursor(peer) := Number(next)];
    cp.Mark(Cursor(peer), Number(next));
    stop := None;
  }

  lemma AddsNothing(records: Records, peer: int, minimum: nat)
    ensures OnlyAdds(records, records, peer, minimum)
  {
  }

  lemma FaithfulHasFlag(reply: Reply, e: Era, peer: int, minimum: nat, upper: nat, before: nat)
    requires reply.Page? && ConformingReply(reply, e, peer, minimum, upper, before)
    ensures reply.done.Some?
  {
  }

  /** The loop body: commits one reply's records and then its cursor or the completion flag. */
  method TakePage(cp: Checkpoint, peer: int, minimum: nat, upper: nat, reply: Reply, before: nat, budget: nat,
                  ghost e: Era)
    returns (stop: Option<Outcome>, next: nat, commits: nat)
    requires reply.Page?
    requires before == CursorOf(cp.state, peer) && !IsDone(cp.state, peer)
    requires Bounded(cp.records, cp.state, peer, minimum, upper)
    modifies cp
    ensures Bounded(cp.records, cp.state, peer, minimum, upper)
    ensures OnlyAdds(old(cp.records), cp.records, peer, minimum) && SameOtherState(old(cp.state), cp.state, peer)
    ensures Frontier(CursorOf(cp.state, peer), upper) <= Frontier(before, upper)
    ensures commits <= budget && commits <= 2 * Frontier(before, upper)
    ensures stop.None? ==> 0 < next == CursorOf(cp.state, peer) < Frontier(before, upper)
                           && commits + 2 * next <= 2 * Frontier(before, upper)
    ensures stop.Some? ==> stop.value in {Finished, Crashed, Refused}
    ensures stop == Some(Crashed) ==> commits == budget
    ensures stop == Some(Finished) <==> IsDone(cp.state, peer)
    ensures reply.done.None? ==> stop == Some(Refused) && cp.records == old(cp.records) && cp.state == old(cp.state)
    ensures (ConformingReply(reply, e, peer, minimum, upper, before)
             && old(Resumable(cp.records, cp.state, e, peer, minimum, upper)))
            ==> Resumable(cp.records, cp.state, e, peer, minimum, upper) && stop != Some(Refused)
  {
    hide Resumable, Bounded, ConformingReply, OnlyAdds, Put, Acceptable;
    if reply.done.None? {
      if ConformingReply(reply, e, peer, minimum, upper, before) {
        FaithfulHasFlag(reply, e, peer, minimum, upper, before);
      }
      AddsNothing(cp.records, peer, minimum);
      return Some(Refused), before, 0;
    }
    ghost var records, state := cp.records, cp.state;
    var saved, last, cut := SavePage(cp, peer, reply.items, before, minimum, upper, budget);
    ghost var items := reply.items[..saved];
    assert cp.state == CursorSaved(state, peer, items);
    PageCommitsStayBounded(records, state, peer, minimum, upper, items);
    WalkCounts(items, before, minimum, upper);
    LastIsLowest(items, before, minimum, upper);
    if ConformingReply(reply, e, peer, minimum, upper, before) && Resumable(records, state, e, peer, minimum, upper) {
      PageCommitsStayResumable(records, state, e, peer, minimum, upper, reply, saved);
    }
    if cut.Some? {
      return cut, before, saved;
    }
    assert items == reply.items;
    stop, next := EndPage(cp, peer, minimum, upper, reply, before, last, budget - saved, e, records, state);
    commits := if stop.None? || stop.value.Finished? then saved + 1 else saved;
  }

  /** One attempt at a group's history: it resumes at the durable cursor and may crash after `budget` commits.
      `e` is the history below the frozen boundary while it is exported: messages may vanish from it. A daemon that
      does not serve it is still held to `Bounded`. */
  method HistoryPeer(cp: Checkpoint, peer: int, minimum: nat, upper: nat, daemon: Daemon, start: nat, budget: nat,
                     ghost e: Era)
    returns (outcome: Outcome, requests: nat, commits: nat)
    requires Bounded(cp.records, cp.state, peer, minimum, upper)
    modifies cp
    ensures Bounded(cp.records, cp.state, peer, minimum, upper)
    ensures OnlyAdds(old(cp.records), cp.records, peer, minimum) && SameOtherState(old(cp.state), cp.state, peer)
    ensures Frontier(CursorOf(cp.state, peer), upper) <= Frontier(CursorOf(old(cp.state), peer), upper)
    ensures commits <= budget && commits <= 2 * Frontier(CursorOf(old(cp.state), peer), upper)
    ensures outcome.Crashed? ==> commits == budget
    ensures requests <= Frontier(CursorOf(old(cp.state), peer), upper)
    ensures outcome.Finished? <==> IsDone(cp.state, peer)
    ensures (ConformingDaemon(daemon, e, peer, minimum, upper)
             && old(Resumable(cp.records, cp.state, e, peer, minimum, upper)))
            ==> Resumable(cp.records, cp.state, e, peer, minimum, upper) && !outcome.Refused?
    ensures (ConformingDaemon(daemon, e, peer, minimum, upper)
             && old(Resumable(cp.records, cp.state, e, peer, minimum, upper))
             && Reliable(daemon) && budget > 2 * (upper + 1))
            ==> outcome.Finished?
  {
    requests, commits := 0, 0;
    if IsDone(cp.state, peer) {
      return Finished, requests, commits;
    }
    var before: nat := CursorOf(cp.state, peer);
    ghost var first := Frontier(before, upper);
    ghost var good := ConformingDaemon(daemon, e, peer, minimum, upper)
                      && Resumable(cp.records, cp.state, e, peer, minimum, upper);
    while true
      invariant before == CursorOf(cp.state, peer) && !IsDone(cp.state, peer)
      invariant Bounded(cp.records, cp.state, peer, minimum, upper)
      invariant OnlyAdds(old(cp.records), cp.records, peer, minimum) && SameOtherState(old(cp.state), cp.state, peer)
      invariant commits <= budget
      invariant requests + Frontier(before, upper) <= first
      invariant commits + 2 * Frontier(before, upper) <= 2 * first
      invariant good ==> Resumable(cp.records, cp.state, e, peer, minimum, upper)
      decreases Frontier(before, upper)
    {
      var reply := daemon(start + requests, before);
      assert good ==> ConformingReply(reply, e, peer, minimum, upper, before);
      requests := requests + 1;
      if reply.Failed? {
        return RequestFailed, requests, commits;
      }
      var stop, next, more := TakePage(cp, peer, minimum, upper, reply, before, budget - commits, e);
      commits := commits + more;
      if stop.Some? {
        return stop.value, requests, commits;
      }
      before := next;
    }
  }
}
