/** Snapshot-paginated history of conversation changes over an append-only event log. */
module ConversationChanges {
  import opened Common

  datatype Event = Event(number: int, kind: string, occurredAt: int, dialogId: int)

  /** Events in insertion order; numbers are assigned increasing from 1 and rows are never changed or deleted. */
  type Log = seq<Event>

  ghost predicate Ordered(log: Log) {
    && (forall i :: 0 <= i < |log| ==> log[i].number > 0)
    && forall i, j :: 0 <= i < j < |log| ==> log[i].number < log[j].number
  }

  const CHANGE_KINDS: seq<string> := ["edit", "deleted_message", "access_lost", "access_restored"]
  const DEFAULT_PAGE_LIMIT := 50
  const MAX_PAGE_LIMIT := 500

  datatype Filter = Filter(since: Option<int>, until: Option<int>, kinds: seq<string>, dialog: Option<int>)

  datatype Cursor = Cursor(filter: Filter, pageLimit: int, snapshot: int, after: int, depth: int)

  /** A navigation token either carries a cursor this daemon signed or is refused. */
  datatype Token = Signed(cursor: Cursor) | Unreadable

  /** `kinds` and `pageLimit` may be absent; `filtersSupplied` tells whether any filter field was present. */
  datatype Request = Request(since: Option<int>, until: Option<int>, kinds: Option<seq<string>>, dialog: Option<int>,
                             pageLimit: Option<int>, filtersSupplied: bool, navigation: Option<Token>)

  datatype Page = Page(events: seq<Event>, hasMore: bool, next: Option<Cursor>, depth: int)

  // ------------------------------------------------------------------ parsing

  /** First occurrences, in order. */
  function Deduplicated(kinds: seq<string>): (r: seq<string>)
    ensures forall k :: k in r <==> k in kinds
    ensures kinds != [] ==> r != []
  {
    if kinds == [] then []
    else
      var n := |kinds| - 1;
      var before := Deduplicated(kinds[..n]);
      if kinds[n] in before then before else before + [kinds[n]]
  }

  lemma {:induction false} DeduplicatedOnce(kinds: seq<string>)
    ensures Deduplicated(Deduplicated(kinds)) == Deduplicated(kinds)
  {
    if kinds != [] {
      var n := |kinds| - 1;
      var before := Deduplicated(kinds[..n]);
      DeduplicatedOnce(kinds[..n]);
      assert (before + [kinds[n]])[..|before|] == before;
    }
  }

  predicate NonNegative(bound: Option<int>) {
    bound.Some? ==> bound.value >= 0
  }

  predicate ValidBounds(since: Option<int>, until: Option<int>) {
    NonNegative(since) && NonNegative(until) && (since.Some? && until.Some? ==> since.value < until.value)
  }

  predicate ValidKinds(kinds: seq<string>) {
    kinds != [] && forall k :: k in kinds ==> k in CHANGE_KINDS
  }

  function ParseFilter(request: Request): Result<Filter> {
    if !ValidBounds(request.since, request.until) then Err("invalid_input")
    else if request.kinds.Some? && !ValidKinds(request.kinds.value) then Err("invalid_input")
    else
      var kinds := if request.kinds.Some? then Deduplicated(request.kinds.value) else CHANGE_KINDS;
      Ok(Filter(request.since, request.until, kinds, request.dialog))
  }

  function ParsePageLimit(request: Request): Result<int> {
    var limit := if request.pageLimit.Some? then request.pageLimit.value else DEFAULT_PAGE_LIMIT;
    if 1 <= limit <= MAX_PAGE_LIMIT then Ok(limit) else Err("invalid_input")
  }

  predicate ReadableCursor(cursor: Cursor) {
    && ValidBounds(cursor.filter.since, cursor.filter.until) && ValidKinds(cursor.filter.kinds)
    && 1 <= cursor.pageLimit <= MAX_PAGE_LIMIT
    && cursor.snapshot >= 0 && cursor.after > 0 && cursor.depth >= 2
  }

  datatype Effective = Effective(filter: Filter, pageLimit: int, cursor: Option<Cursor>)

  /** A continued traversal keeps the token's filters; repeating them differently is an error. */
  function EffectiveRequest(request: Request): Result<Effective> {
    var filter :- ParseFilter(request);
    var limit :- ParsePageLimit(request);
    match request.navigation
    case None => Ok(Effective(filter, limit, None))
    case Some(Unreadable) => Err("invalid_navigation")
    case Some(Signed(cursor)) =>
      if !ReadableCursor(cursor) then Err("invalid_navigation")
      else if request.filtersSupplied && filter != cursor.filter then Err("invalid_navigation")
      else Ok(Effective(cursor.filter, if request.pageLimit.Some? then limit else cursor.pageLimit, Some(cursor)))
  }

  // ------------------------------------------------------------------ one page

  predicate Matches(e: Event, filter: Filter) {
    && e.kind in filter.kinds
    && (filter.since.Some? ==> e.occurredAt >= filter.since.value)
    && (filter.until.Some? ==> e.occurredAt < filter.until.value)
    && (filter.dialog.Some? ==> e.dialogId == filter.dialog.value)
  }

  predicate Selected(e: Event, filter: Filter, snapshot: int, after: Option<int>) {
    e.number <= snapshot && Matches(e, filter) && (after.Some? ==> e.number < after.value)
  }

  /** The selected rows, newest first. */
  function Rows(log: Log, filter: Filter, snapshot: int, after: Option<int>): seq<Event> {
    if log == [] then []
    else
      var n := |log| - 1;
      var older := Rows(log[..n], filter, snapshot, after);
      if Selected(log[n], filter, snapshot, after) then [log[n]] + older else older
  }

  /** `ORDER BY seq DESC LIMIT limit`. */
  function QueryRows(log: Log, filter: Filter, snapshot: int, after: Option<int>, limit: nat): seq<Event> {
    var rows := Rows(log, filter, snapshot, after);
    rows[..if limit <= |rows| then limit else |rows|]
  }

  function LastNumber(log: Log): int {
    if log == [] then 0 else log[|log| - 1].number
  }

  function SnapshotOf(log: Log, effective: Effective): int {
    if effective.cursor.Some? then effective.cursor.value.snapshot else LastNumber(log)
  }

  function AfterOf(effective: Effective): Option<int> {
    if effective.cursor.Some? then Some(effective.cursor.value.after) else None
  }

  function PageFor(log: Log, effective: Effective): Page
    requires effective.pageLimit >= 1
  {
    var snapshot := SnapshotOf(log, effective);
    var rows := QueryRows(log, effective.filter, snapshot, AfterOf(effective), effective.pageLimit + 1);
    var hasMore := |rows| > effective.pageLimit;
    var events := if hasMore then rows[..effective.pageLimit] else rows;
    var depth := if effective.cursor.Some? then effective.cursor.value.depth else 1;
    var next := if hasMore
                then Some(Cursor(effective.filter, effective.pageLimit, snapshot, events[|events| - 1].number,
                                 depth + 1))
                else None;
    Page(events, hasMore, next, depth)
  }

  function Query(log: Log, request: Request): Result<Page> {
    var effective :- EffectiveRequest(request);
    Ok(PageFor(log, effective))
  }

  // ------------------------------------------------------------------ what a listing is

  /** The listing holds each matching event once, newest first. */
  lemma {:induction false} RowsAreTheMatches(log: Log, filter: Filter, snapshot: int, after: Option<int>)
    requires Ordered(log)
    ensures forall e :: e in Rows(log, filter, snapshot, after) <==> e in log && Selected(e, filter, snapshot, after)
    ensures forall i, j :: 0 <= i < j < |Rows(log, filter, snapshot, after)| ==>
              Rows(log, filter, snapshot, after)[i].number > Rows(log, filter, snapshot, after)[j].number
  {
    if log != [] {
      var n := |log| - 1;
      RowsAreTheMatches(log[..n], filter, snapshot, after);
      assert log == log[..n] + [log[n]];
      var rows, older := Rows(log, filter, snapshot, after), Rows(log[..n], filter, snapshot, after);
      forall i | 0 <= i < |older| ensures older[i].number < log[n].number { assert older[i] in log[..n]; }
      if Selected(log[n], filter, snapshot, after) {
        forall i, j | 0 <= i < j < |rows| ensures rows[i].number > rows[j].number {
          assert rows[j] == older[j - 1];
          assert i > 0 ==> rows[i] == older[i - 1];
        }
      }
    }
  }

  /** Events appended after the snapshot are never seen. */
  lemma {:induction false} LaterEventsAreInvisible(log: Log, newer: Log, filter: Filter, snapshot: int,
                                                   after: Option<int>)
    requires forall i :: 0 <= i < |newer| ==> newer[i].number > snapshot
    ensures Rows(log + newer, filter, snapshot, after) == Rows(log, filter, snapshot, after)
  {
    if newer == [] {
      assert log + newer == log;
    } else {
      var n := |newer| - 1;
      assert (log + newer)[..|log| + n] == log + newer[..n];
      LaterEventsAreInvisible(log, newer[..n], filter, snapshot, after);
    }
  }

  /** A bound above every event of the log selects like no bound. */
  lemma {:induction false} LooseBound(log: Log, filter: Filter, snapshot: int, after: Option<int>, bound: int)
    requires Ordered(log) && forall i :: 0 <= i < |log| ==> log[i].number < bound
    requires after.Some? ==> bound <= after.value
    ensures Rows(log, filter, snapshot, Some(bound)) == Rows(log, filter, snapshot, after)
  {
    if log != [] { LooseBound(log[..|log| - 1], filter, snapshot, after, bound); }
  }

  /** Continuing after the last event of a page gives exactly the rest of the listing. */
  lemma {:induction false} ContinuesAfterPage(log: Log, filter: Filter, snapshot: int, after: Option<int>, k: nat)
    requires Ordered(log) && 0 < k <= |Rows(log, filter, snapshot, after)|
    ensures var rows := Rows(log, filter, snapshot, after);
            Rows(log, filter, snapshot, Some(rows[k - 1].number)) == rows[k..]
  {
    hide Matches;
    var n := |log| - 1;
    var rows, older := Rows(log, filter, snapshot, after), Rows(log[..n], filter, snapshot, after);
    RowsAreTheMatches(log[..n], filter, snapshot, after);
    if Selected(log[n], filter, snapshot, after) {
      if k == 1 {
        LooseBound(log[..n], filter, snapshot, after, log[n].number);
      } else {
        ContinuesAfterPage(log[..n], filter, snapshot, after, k - 1);
        assert rows[k - 1] == older[k - 2] && older[k - 2] in log[..n];
      }
    } else {
      ContinuesAfterPage(log[..n], filter, snapshot, after, k);
      assert older[k - 1] in log[..n];
    }
  }

  /** The page is the next stretch of the listing, as long as its limit allows, and knows its number; the cursor moves
      strictly down, keeps filter, snapshot and limit, and stays readable. */
  ghost predicate NextStretch(log: Log, effective: Effective, page: Page) {
    var snapshot := SnapshotOf(log, effective);
    var rows := Rows(log, effective.filter, snapshot, AfterOf(effective));
    && page.events <= rows && |page.events| == Min(effective.pageLimit, |rows|)
    && (page.next.Some? <==> page.hasMore) && (page.hasMore <==> |page.events| < |rows|)
    && page.depth == (if effective.cursor.Some? then effective.cursor.value.depth else 1)
    && (page.next.Some? ==>
          var next := page.next.value;
          && next.filter == effective.filter && next.snapshot == snapshot
          && next.pageLimit == effective.pageLimit && next.depth == page.depth + 1
          && page.events != [] && next.after == page.events[|page.events| - 1].number
          && Rows(log, effective.filter, snapshot, Some(next.after)) == rows[|page.events|..]
          && (AfterOf(effective).Some? ==> next.after < AfterOf(effective).value) && next.after <= snapshot
          && ReadableCursor(next))
  }

  predicate ReadableEffective(effective: Effective) {
    && ValidBounds(effective.filter.since, effective.filter.until) && ValidKinds(effective.filter.kinds)
    && 1 <= effective.pageLimit <= MAX_PAGE_LIMIT
    && (effective.cursor.Some? ==> ReadableCursor(effective.cursor.value))
  }

  lemma EffectiveIsReadable(request: Request)
    requires EffectiveRequest(request).Ok?
    ensures ReadableEffective(EffectiveRequest(request).value)
  {
  }

  lemma PageIsNextStretch(log: Log, effective: Effective)
    requires Ordered(log) && ReadableEffective(effective)
    ensures NextStretch(log, effective, PageFor(log, effective))
  {
    hide Rows, ValidBounds, ValidKinds;
    var snapshot, after := SnapshotOf(log, effective), AfterOf(effective);
    var rows := Rows(log, effective.filter, snapshot, after);
    if |rows| > effective.pageLimit {
      var last := rows[effective.pageLimit - 1];
      ContinuesAfterPage(log, effective.filter, snapshot, after, effective.pageLimit);
      RowIsSelected(log, effective.filter, snapshot, after, effective.pageLimit - 1);
    }
  }

  lemma RowIsSelected(log: Log, filter: Filter, snapshot: int, after: Option<int>, i: nat)
    requires Ordered(log) && i < |Rows(log, filter, snapshot, after)|
    ensures Selected(Rows(log, filter, snapshot, after)[i], filter, snapshot, after)
    ensures Rows(log, filter, snapshot, after)[i].number > 0
  {
    RowsAreTheMatches(log, filter, snapshot, after);
    assert Rows(log, filter, snapshot, after)[i] in log;
  }

  lemma QueryIsNextStretch(log: Log, request: Request, effective: Effective)
    requires Ordered(log) && EffectiveRequest(request) == Ok(effective)
    ensures Query(log, request).Ok? && NextStretch(log, effective, Query(log, request).value)
  {
    hide EffectiveRequest, PageFor, NextStretch;
    EffectiveIsReadable(request);
    PageIsNextStretch(log, effective);
  }

  // ------------------------------------------------------------------ which requests, which limit, which events

  /** The limit a request names, else the one its token carries, else 50. */
  function LimitOf(request: Request): int {
    if request.pageLimit.Some? then request.pageLimit.value
    else if FollowsToken(request) then request.navigation.value.cursor.pageLimit
    else 50
  }

  /** A request is answered exactly when its bounds, kinds and limit are allowed, and its token, if any, is readable
      and not contradicted. */
  lemma AnsweredExactlyWhen(request: Request)
    ensures EffectiveRequest(request).Ok?
            <==> && (request.since.Some? ==> request.since.value >= 0)
                 && (request.until.Some? ==> request.until.value >= 0)
                 && (request.since.Some? && request.until.Some? ==> request.since.value < request.until.value)
                 && (request.kinds.Some? ==>
                       request.kinds.value != [] && forall k :: k in request.kinds.value ==> k in CHANGE_KINDS)
                 && (request.pageLimit.Some? ==> 1 <= request.pageLimit.value <= 500)
                 && (request.navigation.Some? ==>
                       && request.navigation.value.Signed?
                       && var cursor := request.navigation.value.cursor;
                          && ValidBounds(cursor.filter.since, cursor.filter.until) && ValidKinds(cursor.filter.kinds)
                          && 1 <= cursor.pageLimit <= 500
                          && cursor.snapshot >= 0 && cursor.after >= 1 && cursor.depth >= 2
                          && (request.filtersSupplied ==> ParseFilter(request) == Ok(cursor.filter)))
    ensures EffectiveRequest(request).Ok? ==> EffectiveRequest(request).value.pageLimit == LimitOf(request)
  {
  }

  /** A page holds as many events as its limit allows of what the snapshot still has to show. */
  lemma PageHoldsItsLimit(log: Log, request: Request)
    requires Ordered(log) && EffectiveRequest(request).Ok?
    ensures var effective := EffectiveRequest(request).value;
            var left := Rows(log, effective.filter, SnapshotOf(log, effective), AfterOf(effective));
            Query(log, request).Ok? && |Query(log, request).value.events| == Min(LimitOf(request), |left|)
  {
    hide EffectiveRequest, PageFor;
    AnsweredExactlyWhen(request);
    QueryIsNextStretch(log, request, EffectiveRequest(request).value);
  }

  /** A window of one second, one kind and one conversation selects exactly what happened there and then. */
  lemma SmallestWindow(e: Event, t: int, kind: string, dialog: int)
    ensures Matches(e, Filter(Some(t), Some(t + 1), [kind], Some(dialog)))
            <==> e.occurredAt == t && e.kind == kind && e.dialogId == dialog
  {
    assert kind in [kind];
  }

  /** Windows that meet share nothing and leave nothing out; leaving a bound, a kind or the conversation open adds
      everything it kept out. */
  lemma WindowsTile(e: Event, filter: Filter, from: int, at: int, to: int)
    requires from <= at <= to
    ensures var left, right := filter.(since := Some(from), until := Some(at)),
                               filter.(since := Some(at), until := Some(to));
            && (Matches(e, filter.(since := Some(from), until := Some(to))) <==> Matches(e, left) || Matches(e, right))
            && !(Matches(e, left) && Matches(e, right))
    ensures Matches(e, filter.(since := None))
            <==> exists t :: t <= e.occurredAt && Matches(e, filter.(since := Some(t)))
    ensures Matches(e, filter.(until := None))
            <==> exists t :: t > e.occurredAt && Matches(e, filter.(until := Some(t)))
    ensures Matches(e, filter.(dialog := None)) <==> exists d :: Matches(e, filter.(dialog := Some(d)))
  {
    if Matches(e, filter.(since := None)) { assert Matches(e, filter.(since := Some(e.occurredAt))); }
    if Matches(e, filter.(until := None)) { assert Matches(e, filter.(until := Some(e.occurredAt + 1))); }
    if Matches(e, filter.(dialog := None)) { assert Matches(e, filter.(dialog := Some(e.dialogId))); }
  }

  /** Kinds select one by one. */
  lemma KindsAddUp(e: Event, filter: Filter, more: seq<string>)
    ensures Matches(e, filter.(kinds := filter.kinds + more))
            <==> Matches(e, filter) || Matches(e, filter.(kinds := more))
    ensures !Matches(e, filter.(kinds := []))
  {
  }

  // ------------------------------------------------------------------ a whole traversal

  /** A follow-up: whatever the client asks, at the place the token stands for. */
  function FollowUp(ask: Request, cursor: Cursor): Request {
    ask.(navigation := Some(Signed(cursor)))
  }

  /** A follow-up that is accepted: valid fields, and no other filters than the traversal's. */
  predicate Compatible(ask: Request, filter: Filter) {
    && AllowedLimit(ask.pageLimit) && ParseFilter(ask).Ok?
    && (ask.filtersSupplied ==> ParseFilter(ask).value == filter)
  }

  /** The filters a token carries read back as they were, so a client may also repeat them. */
  lemma FilterReadsBack(request: Request, filter: Filter, ask: Request)
    requires ParseFilter(request) == Ok(filter) && AllowedLimit(ask.pageLimit)
    requires ask.since == filter.since && ask.until == filter.until && ask.kinds == Some(filter.kinds)
    requires ask.dialog == filter.dialog
    ensures ParseFilter(ask) == Ok(filter) && Compatible(ask, filter)
  {
    hide Deduplicated;
    if request.kinds.Some? {
      DeduplicatedOnce(request.kinds.value);
      assert filter.kinds == Deduplicated(request.kinds.value);
    } else {
      AllKindsOnce();
    }
  }

  lemma AllKindsOnce()
    ensures Deduplicated(CHANGE_KINDS) == CHANGE_KINDS
  {
    var kinds := CHANGE_KINDS;
    assert kinds[..3][..2][..1][..0] == [];
    assert Deduplicated(kinds[..3][..2][..1]) == kinds[..1];
    assert kinds[..2] == kinds[..3][..2] && kinds[..1] == kinds[..3][..2][..1];
    assert Deduplicated(kinds[..2]) == kinds[..2];
    assert Deduplicated(kinds[..3]) == kinds[..3];
    assert kinds == kinds[..3] + [kinds[3]];
  }

  ghost predicate Growing(logs: nat -> Log) {
    && (forall i: nat :: Ordered(logs(i)))
    && forall i: nat, j: nat :: i <= j ==> logs(i) <= logs(j)
  }

  predicate AllowedLimit(limit: Option<int>) {
    limit.Some? ==> 1 <= limit.value <= MAX_PAGE_LIMIT
  }

  predicate FollowsToken(request: Request) {
    request.navigation.Some? && request.navigation.value.Signed?
  }

  /** All events a reader collects by following tokens. At request `step` the log is `logs(step)` and the client's own
      fields are `asks(step)`; the first refused follow-up ends the traversal with its error. */
  ghost function Collect(logs: nat -> Log, asks: nat -> Request, request: Request, step: nat): Result<seq<Event>>
    requires Growing(logs)
    decreases if FollowsToken(request) then 0 else 1,
              if FollowsToken(request) then Max(0, request.navigation.value.cursor.after) else 0
  {
    assert Ordered(logs(step));
    match Query(logs(step), request)
    case Err(message) => Err(message)
    case Ok(page) =>
      if page.next.None? then Ok(page.events)
      else
        QueryIsNextStretch(logs(step), request, EffectiveRequest(request).value);
        match Collect(logs, asks, FollowUp(asks(step + 1), page.next.value), step + 1)
        case Err(message) => Err(message)
        case Ok(rest) => Ok(page.events + rest)
  }

  /** Every later log shows the same rows below the first snapshot. */
  lemma SameBelowSnapshot(logs: nat -> Log, step: nat, filter: Filter, after: Option<int>)
    requires Growing(logs)
    ensures var snapshot := LastNumber(logs(0));
            Rows(logs(step), filter, snapshot, after) == Rows(logs(0), filter, snapshot, after)
  {
    var first, later := logs(0), logs(step);
    assert Ordered(later) && Ordered(first) && first <= later;
    var newer := later[|first|..];
    assert later == first + newer;
    forall i | 0 <= i < |newer| ensures newer[i].number > LastNumber(first) {
      assert newer[i] == later[|first| + i];
      if first != [] { assert first[|first| - 1] == later[|first| - 1]; }
    }
    LaterEventsAreInvisible(first, newer, filter, LastNumber(first), after);
  }

  /** If following the page's token collects the rest of the listing, this request collects all of it. */
  lemma CollectStep(logs: nat -> Log, asks: nat -> Request, request: Request, step: nat,
                    effective: Effective, rows: seq<Event>)
    requires Growing(logs) && EffectiveRequest(request) == Ok(effective)
    requires var page := Query(logs(step), request);
             page.Ok? && page.value.events <= rows && (page.value.next.Some? <==> |page.value.events| < |rows|)
    requires var page := Query(logs(step), request).value;
             page.next.Some? ==>
               var rest := Collect(logs, asks, FollowUp(asks(step + 1), page.next.value), step + 1);
               rest.Ok? ==> rest.value == rows[|page.events|..]
    ensures var collected := Collect(logs, asks, request, step);
            collected.Ok? ==> collected.value == rows
    ensures var page := Query(logs(step), request).value;
            Collect(logs, asks, request, step).Ok?
            <==> (page.next.Some? ==> Collect(logs, asks, FollowUp(asks(step + 1), page.next.value), step + 1).Ok?)
  {
    hide Query, EffectiveRequest, FollowUp, Growing;
    var page := Query(logs(step), request).value;
    if page.next.Some? { assert page.events + rows[|page.events|..] == rows; } else { assert page.events == rows; }
  }

  /** A token decides the filters, the snapshot and the place; a follow-up that asks for other filters is refused. */
  lemma TokenDecides(ask: Request, cursor: Cursor)
    requires ReadableCursor(cursor)
    ensures EffectiveRequest(FollowUp(ask, cursor)).Ok? <==> Compatible(ask, cursor.filter)
    ensures EffectiveRequest(FollowUp(ask, cursor)).Ok? ==>
              var effective := EffectiveRequest(FollowUp(ask, cursor)).value;
              && effective.cursor == Some(cursor) && effective.filter == cursor.filter
              && effective.pageLimit == (if ask.pageLimit.Some? then ask.pageLimit.value else cursor.pageLimit)
  {
  }

  lemma {:induction false} CollectFromToken(logs: nat -> Log, asks: nat -> Request, cursor: Cursor, step: nat)
    requires Growing(logs) && ReadableCursor(cursor) && cursor.snapshot == LastNumber(logs(0))
    ensures var collected := Collect(logs, asks, FollowUp(asks(step), cursor), step);
            && (collected.Ok? ==> collected.value == Rows(logs(0), cursor.filter, cursor.snapshot, Some(cursor.after)))
            && ((forall i :: i >= step ==> Compatible(asks(i), cursor.filter)) ==> collected.Ok?)
            && (!Compatible(asks(step), cursor.filter) ==> collected.Err?)
    decreases cursor.after
  {
    hide Query, Rows, EffectiveRequest, Compatible, FollowUp;
    var request := FollowUp(asks(step), cursor);
    assert Ordered(logs(step));
    TokenDecides(asks(step), cursor);
    if EffectiveRequest(request).Err? {
      RefusedEndsIt(logs, asks, request, step);
    } else {
      hide Collect;
      var effective := EffectiveRequest(request).value;
      QueryIsNextStretch(logs(step), request, effective);
      SameBelowSnapshot(logs, step, cursor.filter, Some(cursor.after));
      var page := Query(logs(step), request).value;
      if page.next.Some? {
        SameBelowSnapshot(logs, step, cursor.filter, Some(page.next.value.after));
        CollectFromToken(logs, asks, page.next.value, step + 1);
      }
      CollectStep(logs, asks, request, step, effective,
                  Rows(logs(0), cursor.filter, cursor.snapshot, Some(cursor.after)));
    }
  }

  lemma RefusedEndsIt(logs: nat -> Log, asks: nat -> Request, request: Request, step: nat)
    requires Growing(logs) && EffectiveRequest(request).Err?
    ensures Collect(logs, asks, request, step).Err?
  {
    hide EffectiveRequest;
  }

  /** Without a bound, the first snapshot selects every matching event of the log. */
  lemma SnapshotHasAll(log: Log, filter: Filter)
    requires Ordered(log)
    ensures forall e :: e in log ==> (Selected(e, filter, LastNumber(log), None) <==> Matches(e, filter))
  {
  }

  lemma CollectFromStart(logs: nat -> Log, asks: nat -> Request, request: Request, filter: Filter)
    requires Growing(logs)
    requires request.navigation.None? && AllowedLimit(request.pageLimit) && ParseFilter(request) == Ok(filter)
    ensures var collected := Collect(logs, asks, request, 0);
            && (collected.Ok? ==> collected.value == Rows(logs(0), filter, LastNumber(logs(0)), None))
            && ((forall i :: i > 0 ==> Compatible(asks(i), filter)) ==> collected.Ok?)
  {
    hide Collect, Query, Rows, ParseFilter, Compatible;
    assert Ordered(logs(0));
    var effective := EffectiveRequest(request).value;
    assert effective.cursor == None && effective.filter == filter;
    QueryIsNextStretch(logs(0), request, effective);
    var page := Query(logs(0), request).value;
    if page.next.Some? { CollectFromToken(logs, asks, page.next.value, 1); }
    CollectStep(logs, asks, request, 0, effective, Rows(logs(0), filter, LastNumber(logs(0)), None));
  }

  /** A traversal with any appends in between and any follow-ups either ends in a refusal, or collects exactly the
      events of the first snapshot that match the first request; it cannot mix filters. It is never refused when every
      follow-up is valid and leaves the filters out or repeats them. */
  lemma TraversalIsTheFirstSnapshot(logs: nat -> Log, asks: nat -> Request, request: Request, filter: Filter)
    requires Growing(logs)
    requires request.navigation.None? && AllowedLimit(request.pageLimit) && ParseFilter(request) == Ok(filter)
    ensures (forall i :: i > 0 ==> Compatible(asks(i), filter)) ==> Collect(logs, asks, request, 0).Ok?
    ensures var collected := Collect(logs, asks, request, 0);
            collected.Ok? ==>
              && (forall e :: e in collected.value <==> e in logs(0) && Matches(e, filter))
              && forall i, j :: 0 <= i < j < |collected.value| ==> collected.value[i].number > collected.value[j].number
  {
    hide Collect, Query, Rows, ParseFilter, Selected, Matches, Compatible;
    var log := logs(0);
    assert Ordered(log);
    CollectFromStart(logs, asks, request, filter);
    RowsAreTheMatches(log, filter, LastNumber(log), None);
    SnapshotHasAll(log, filter);
  }

  // ------------------------------------------------------------------ the pages of a traversal

  /** The pages a reader gets by following tokens, up to the last one or to a refusal. */
  ghost function Pages(logs: nat -> Log, asks: nat -> Request, request: Request, step: nat): seq<Page>
    requires Growing(logs)
    decreases if FollowsToken(request) then 0 else 1,
              if FollowsToken(request) then Max(0, request.navigation.value.cursor.after) else 0
  {
    assert Ordered(logs(step));
    match Query(logs(step), request)
    case Err(_) => []
    case Ok(page) =>
      if page.next.None? then [page]
      else
        QueryIsNextStretch(logs(step), request, EffectiveRequest(request).value);
        [page] + Pages(logs, asks, FollowUp(asks(step + 1), page.next.value), step + 1)
  }

  /** The limit of the k-th follow-up from `step` on: its own, else the one before it had. */
  function LimitAfter(asks: nat -> Request, kept: int, step: nat, k: nat): int
    decreases k
  {
    var limit := if asks(step).pageLimit.Some? then asks(step).pageLimit.value else kept;
    if k == 0 then limit else LimitAfter(asks, limit, step + 1, k - 1)
  }

  /** The page with this number and limit. */
  ghost predicate Numbered(page: Page, number: int, limit: int) {
    && page.depth == number && |page.events| <= limit && (page.hasMore ==> |page.events| == limit)
  }

  lemma {:induction false} PagesFromToken(logs: nat -> Log, asks: nat -> Request, cursor: Cursor, step: nat, k: nat)
    requires Growing(logs) && ReadableCursor(cursor)
    requires k < |Pages(logs, asks, FollowUp(asks(step), cursor), step)|
    ensures var page := Pages(logs, asks, FollowUp(asks(step), cursor), step)[k];
            Numbered(page, cursor.depth + k, LimitAfter(asks, cursor.pageLimit, step, k))
    decreases k
  {
    hide Query, Rows, EffectiveRequest, FollowUp, Compatible;
    var request := FollowUp(asks(step), cursor);
    assert Ordered(logs(step));
    TokenDecides(asks(step), cursor);
    QueryAnswers(logs(step), request);
    QueryIsNextStretch(logs(step), request, EffectiveRequest(request).value);
    var page := Query(logs(step), request).value;
    if k > 0 {
      PagesFromToken(logs, asks, page.next.value, step + 1, k - 1);
    }
  }

  lemma QueryAnswers(log: Log, request: Request)
    ensures Query(log, request).Ok? <==> EffectiveRequest(request).Ok?
  {
    hide EffectiveRequest, PageFor;
  }

  /** The pages of a traversal are numbered from 1. Every page but the last is full, and no page exceeds its limit: the
      one its request names, else that of the page before, which for the first page is 50. */
  lemma PagesAreNumberedAndFull(logs: nat -> Log, asks: nat -> Request, request: Request, k: nat)
    requires Growing(logs) && request.navigation.None? && k < |Pages(logs, asks, request, 0)|
    ensures var pages := Pages(logs, asks, request, 0);
            var first := if request.pageLimit.Some? then request.pageLimit.value else 50;
            && Numbered(pages[k], k + 1, if k == 0 then first else LimitAfter(asks, first, 1, k - 1))
            && (k < |pages| - 1 ==> pages[k].hasMore)
  {
    hide Query, Rows, EffectiveRequest, FollowUp;
    assert Ordered(logs(0));
    QueryAnswers(logs(0), request);
    AnsweredExactlyWhen(request);
    QueryIsNextStretch(logs(0), request, EffectiveRequest(request).value);
    var page := Query(logs(0), request).value;
    NoTokenNoCursor(request);
    if k > 0 { PagesFromToken(logs, asks, page.next.value, 1, k - 1); }
    PagesGoOn(logs, asks, request, 0, k);
  }

  lemma NoTokenNoCursor(request: Request)
    requires EffectiveRequest(request).Ok? && request.navigation.None?
    ensures EffectiveRequest(request).value.cursor == None
  {
  }

  lemma {:induction false} PagesGoOn(logs: nat -> Log, asks: nat -> Request, request: Request, step: nat, k: nat)
    requires Growing(logs) && k < |Pages(logs, asks, request, step)|
    ensures k < |Pages(logs, asks, request, step)| - 1 ==> Pages(logs, asks, request, step)[k].hasMore
    decreases k
  {
    hide Query, Rows, EffectiveRequest, FollowUp;
    assert Ordered(logs(step));
    QueryAnswers(logs(step), request);
    QueryIsNextStretch(logs(step), request, EffectiveRequest(request).value);
    var page := Query(logs(step), request).value;
    if k > 0 { PagesGoOn(logs, asks, FollowUp(asks(step + 1), page.next.value), step + 1, k - 1); }
  }
}
