/** The cold backfill: a backward walk under an expiring lease, with any number of slices in flight. */
module ColdBackfill {
  import opened Common
  import opened TelegramPages

  const BATCH_LIMIT := 100

  datatype Status = Pending | Running | Complete

  /** The cold columns of one peer; the retry field doubles as the lease of a running slice. */
  datatype Row = Row(offset: Option<nat>, status: Status, retry: Option<int>, accessLost: bool)

  const FRESH_ROW := Row(None, Pending, None, false)

  datatype Outcome = Page(ids: seq<int>) | Floor | AccessSkip | FloodWait

  function OffsetOf(row: Row): nat {
    if row.offset.Some? then row.offset.value else 0
  }

  predicate Claimable(row: Row, now: int, expected: Option<nat>) {
    && row.status != Complete
    && (row.retry.None? || row.retry.value <= now)
    && !row.accessLost
    && (expected.Some? ==> OffsetOf(row) == expected.value)
  }

  /** The slice that holds this lease still owns the row. */
  predicate Owns(row: Row, claimUntil: int) {
    row.status == Running && row.retry == Some(claimUntil)
  }

  predicate ClaimMatches(row: Row, offset: nat, claimUntil: int) {
    !row.accessLost && OffsetOf(row) == offset && Owns(row, claimUntil)
  }

  function Release(row: Row, claimUntil: int): Row {
    if Owns(row, claimUntil) then row.(status := Pending, retry := None) else row
  }

  /** `_finish_cold_backfill_peer`: only the owner of the lease changes the row. */
  function Finish(row: Row, claimUntil: int, outcome: Outcome, accessRetryAt: int): Row {
    if !Owns(row, claimUntil) then row
    else match outcome
      case FloodWait => Release(row, claimUntil)
      case AccessSkip => row.(status := Pending, retry := Some(accessRetryAt))
      case Floor => row.(status := Complete, retry := None)
      case Page(ids) => row.(offset := Oldest(ids), status := Pending, retry := None)
  }

  function Oldest(ids: seq<int>): Option<nat> {
    if ids == [] then None else Some(Max(0, ids[|ids| - 1]))
  }

  /** An empty page from a reachable peer is the history floor, and only that. */
  function OutcomeOf(page: seq<int>): Outcome {
    if page == [] then Floor else Page(page)
  }

  /** The row kept in the store, updated in place under the lease. */
  class PeerRow {
    var offset: Option<nat>
    var status: Status
    var retry: Option<int>
    var accessLost: bool

    function View(): Row
      reads this
    {
      Row(offset, status, retry, accessLost)
    }

    constructor ()
      ensures View() == FRESH_ROW
    {
      offset, status, retry, accessLost := None, Pending, None, false;
    }

    method Claim(now: int, claimUntil: int, expected: Option<nat>) returns (claimed: Option<nat>)
      modifies this
      ensures claimed.Some? <==> Claimable(old(View()), now, expected)
      ensures claimed.Some? ==> View() == old(View()).(status := Running, retry := Some(claimUntil))
                                && claimed.value == OffsetOf(View())
      ensures claimed.None? ==> View() == old(View())
    {
      if !Claimable(View(), now, expected) {
        return None;
      }
      status, retry := Running, Some(claimUntil);
      claimed := Some(OffsetOf(View()));
    }

    method SaveClaimed(claimUntil: int, offset': Option<nat>, status': Status,
                       retry': Option<int>) returns (accepted: bool)
      modifies this
      ensures accepted <==> Owns(old(View()), claimUntil)
      ensures View() == if accepted then Row(offset', status', retry', old(accessLost)) else old(View())
    {
      accepted := status == Running && retry == Some(claimUntil);
      if accepted {
        offset, status, retry := offset', status', retry';
      }
    }

    method ReleaseClaim(claimUntil: int) returns (accepted: bool)
      modifies this
      ensures accepted <==> Owns(old(View()), claimUntil)
      ensures View() == Release(old(View()), claimUntil)
    {
      accepted := status == Running && retry == Some(claimUntil);
      if accepted {
        status, retry := Pending, None;
      }
    }

    method FinishPeer(claimUntil: int, outcome: Outcome, accessRetryAt: int) returns (accepted: bool)
      modifies this
      ensures accepted <==> Owns(old(View()), claimUntil)
      ensures View() == Finish(old(View()), claimUntil, outcome, accessRetryAt)
    {
      match outcome {
        case FloodWait => accepted := ReleaseClaim(claimUntil);
        case AccessSkip => accepted := SaveClaimed(claimUntil, offset, Pending, Some(accessRetryAt));
        case Floor => accepted := SaveClaimed(claimUntil, offset, Complete, None);
        case Page(ids) => accepted := SaveClaimed(claimUntil, Oldest(ids), Pending, None);
      }
    }
  }

  // ---------------------------------------------------------------- the whole system

  datatype Phase = Claimed | Searched(page: seq<int>) | Ready(outcome: Outcome)

  datatype Slice = Slice(claimUntil: int, offset: nat, phase: Phase)

  /** `firstTop` is the newest id of the page that moved the offset off 0; messages above it are the hot sweep's.
      `latest` is the latest time any claim has carried. */
  datatype System = System(latest: int, history: set<int>, top: nat, stored: set<int>, row: Row, slices: seq<Slice>,
                           firstTop: nat)

  /** A claim carries its own reading of the clock. */
  datatype Step =
    | Arrive(id: nat)
    | Vanish(id: nat)
    | Claim(now: int, lease: nat, expected: Option<nat>)
    | Search(i: nat, page: seq<int>)
    | Skipped(i: nat, outcome: Outcome)
    | Store(i: nat)
    | Done(i: nat, accessRetryAt: int)
    | Unfinished(i: nat)
    | Drop(i: nat)
    | Access(lost: bool)

  ghost predicate Enabled(s: System, step: Step) {
    match step
    case Arrive(id) => id > s.top
    case Vanish(_) => true
    case Claim(_, lease, _) => lease >= 1
    case Search(i, page) =>
      && i < |s.slices| && s.slices[i].phase.Claimed?
      && IsNewestPage(s.history, page, 0, s.top, s.slices[i].offset, BATCH_LIMIT)
    case Skipped(i, outcome) => i < |s.slices| && !s.slices[i].phase.Ready? && outcome in {AccessSkip, FloodWait}
    case Store(i) => i < |s.slices| && s.slices[i].phase.Searched?
    case Done(i, _) => i < |s.slices| && s.slices[i].phase.Ready?
    case Unfinished(i) => i < |s.slices|
    case Drop(i) => i < |s.slices|
    case Access(_) => true
  }

  function Apply(s: System, step: Step): System
    requires Enabled(s, step)
  {
    match step
    case Arrive(id) => s.(history := s.history + {id}, top := id)
    case Vanish(id) => s.(history := s.history - {id})
    case Claim(now, lease, expected) =>
      var t := s.(latest := Max(s.latest, now));
      if !Claimable(s.row, now, expected) then t
      else t.(row := s.row.(status := Running, retry := Some(now + lease)),
              slices := s.slices + [Slice(now + lease, OffsetOf(s.row), Claimed)])
    case Search(i, page) => s.(slices := s.slices[i := s.slices[i].(phase := Searched(page))])
    case Skipped(i, outcome) => s.(slices := s.slices[i := s.slices[i].(phase := Ready(outcome))])
    case Store(i) =>
      var slice := s.slices[i];
      if ClaimMatches(s.row, slice.offset, slice.claimUntil) then
        s.(stored := s.stored + (set id | id in slice.phase.page),
           slices := s.slices[i := slice.(phase := Ready(OutcomeOf(slice.phase.page)))])
      else
        s.(row := Release(s.row, slice.claimUntil), slices := RemoveAt(s.slices, i))
    case Done(i, accessRetryAt) =>
      var slice := s.slices[i];
      var moved := Owns(s.row, slice.claimUntil) && slice.phase.outcome.Page? && slice.phase.outcome.ids != []
                   && OffsetOf(s.row) == 0;
      s.(row := Finish(s.row, slice.claimUntil, slice.phase.outcome, accessRetryAt),
         slices := RemoveAt(s.slices, i),
         firstTop := if moved then Max(0, slice.phase.outcome.ids[0]) else s.firstTop)
    case Unfinished(i) => s.(row := Release(s.row, s.slices[i].claimUntil), slices := RemoveAt(s.slices, i))
    case Drop(i) => s.(slices := RemoveAt(s.slices, i))
    case Access(lost) => s.(row := s.row.(accessLost := lost))
  }

  // ------------------------------------------------------------- who may walk, and when

  /** A claim starts a slice exactly on a reachable peer that is not complete, stands where expected and whose retry
      time has come; a refused claim leaves the row alone. */
  lemma ClaimStartsExactlyWhen(s: System, now: int, lease: nat, expected: Option<nat>)
    requires Enabled(s, Claim(now, lease, expected))
    ensures var t := Apply(s, Claim(now, lease, expected));
            if !s.row.accessLost && s.row.status != Complete
               && (match s.row.retry case None => true case Some(due) => due <= now)
               && (match expected case None => true case Some(offset) => OffsetOf(s.row) == offset)
            then
              && t.slices == s.slices + [Slice(now + lease, OffsetOf(s.row), Claimed)]
              && Owns(t.row, now + lease) && OffsetOf(t.row) == OffsetOf(s.row)
            else t.slices == s.slices && t.row == s.row
  {
  }

  /** Nobody else starts while the owner's lease runs. */
  lemma LeaseKeepsOthersOut(s: System, claimUntil: int, now: int, lease: nat, expected: Option<nat>)
    requires Owns(s.row, claimUntil) && now < claimUntil && Enabled(s, Claim(now, lease, expected))
    ensures Apply(s, Claim(now, lease, expected)).row == s.row
    ensures Apply(s, Claim(now, lease, expected)).slices == s.slices
  {
  }

  /** What the owner's outcome leaves: where the walk stands, and from when on the next slice may start. */
  lemma OutcomeSetsNextClaim(s: System, i: nat, accessRetryAt: int, now: int)
    requires Enabled(s, Done(i, accessRetryAt)) && Owns(s.row, s.slices[i].claimUntil)
    ensures var outcome, row := s.slices[i].phase.outcome, Apply(s, Done(i, accessRetryAt)).row;
            && row.accessLost == s.row.accessLost && row.status != Running
            && (row.status == Complete <==> outcome.Floor?)
            && OffsetOf(row) == (if outcome.Page? && outcome.ids != [] then Max(0, outcome.ids[|outcome.ids| - 1])
                                 else if outcome.Page? then 0 else OffsetOf(s.row))
            && (Claimable(row, now, None)
                <==> !row.accessLost && !outcome.Floor? && (outcome.AccessSkip? ==> accessRetryAt <= now))
  {
  }

  // --------------------------------------------------------------------- fencing

  /** An accepted claim that issues a lease which a slice in flight already holds. */
  ghost predicate Collides(s: System, step: Step) {
    && step.Claim? && Claimable(s.row, step.now, step.expected)
    && exists i :: 0 <= i < |s.slices| && s.slices[i].claimUntil == step.now + step.lease
  }

  /** The leases in flight are distinct, and the owner of the row walks from the row's offset. */
  ghost predicate Leases(s: System) {
    && (forall i, j :: 0 <= i < j < |s.slices| ==> s.slices[i].claimUntil != s.slices[j].claimUntil)
    && (forall i :: 0 <= i < |s.slices| && Owns(s.row, s.slices[i].claimUntil) ==>
        s.slices[i].offset == OffsetOf(s.row))
  }

  /** At most one slice in flight matches the row. */
  ghost predicate OneOwner(s: System) {
    forall i, j :: 0 <= i < j < |s.slices| ==>
      !(Owns(s.row, s.slices[i].claimUntil) && Owns(s.row, s.slices[j].claimUntil))
  }

  /** A slice in flight that does not own the row owns it after the step. */
  ghost predicate Regains(s: System, step: Step)
    requires Enabled(s, step)
  {
    exists i :: 0 <= i < |s.slices| && !Owns(s.row, s.slices[i].claimUntil)
      && Owns(Apply(s, step).row, s.slices[i].claimUntil)
  }

  /** Taking a slice out keeps the leases distinct. */
  lemma RemovalKeepsLeases(s: System, i: nat, t: System)
    requires Leases(s) && i < |s.slices| && t.slices == RemoveAt(s.slices, i)
    requires forall c :: Owns(t.row, c) ==> t.row == s.row
    ensures Leases(t)
  {
  }

  lemma StepKeepsLeases(s: System, step: Step)
    requires Leases(s) && Enabled(s, step) && !Collides(s, step)
    ensures Leases(Apply(s, step))
  {
    hide IsNewestPage;
    var t := Apply(s, step);
    match step
    case Store(i) =>
      if !ClaimMatches(s.row, s.slices[i].offset, s.slices[i].claimUntil) { RemovalKeepsLeases(s, i, t); }
    case Done(i, _) => RemovalKeepsLeases(s, i, t);
    case Unfinished(i) => RemovalKeepsLeases(s, i, t);
    case Drop(i) => RemovalKeepsLeases(s, i, t);
    case _ =>
  }

  /** A slice in flight gets the row back by exactly one kind of step: a claim that issues its lease again. */
  lemma RegainsExactlyWhenCollides(s: System, step: Step)
    requires Enabled(s, step)
    ensures Regains(s, step) <==> Collides(s, step)
  {
    hide IsNewestPage;
    if Collides(s, step) {
      var i :| 0 <= i < |s.slices| && s.slices[i].claimUntil == step.now + step.lease;
      assert !Owns(s.row, s.slices[i].claimUntil) && Owns(Apply(s, step).row, s.slices[i].claimUntil);
    }
  }

  /** A claim that collides leaves two slices that both own the row. */
  lemma CollisionMakesTwoOwners(s: System, step: Step)
    requires Enabled(s, step) && Collides(s, step)
    ensures !OneOwner(Apply(s, step))
  {
    var t := Apply(s, step);
    var i :| 0 <= i < |s.slices| && s.slices[i].claimUntil == step.now + step.lease;
    assert t.slices[i] == s.slices[i];
    assert Owns(t.row, t.slices[i].claimUntil) && Owns(t.row, t.slices[|s.slices|].claimUntil);
  }

  /** A slice without the row can store no page and change no column. */
  lemma FencedChangesNothing(s: System, i: nat, accessRetryAt: int)
    requires i < |s.slices| && !Owns(s.row, s.slices[i].claimUntil)
    ensures s.slices[i].phase.Ready? ==> Apply(s, Done(i, accessRetryAt)).row == s.row
    ensures s.slices[i].phase.Searched? ==> Apply(s, Store(i)).row == s.row && Apply(s, Store(i)).stored == s.stored
    ensures Apply(s, Unfinished(i)).row == s.row
  {
  }

  // ------------------------------------------------- claims in the order of their times

  /** The claim is not older than any before it. */
  predicate Punctual(s: System, step: Step) {
    step.Claim? ==> step.now >= s.latest
  }

  /** What no slice owns any more has run out by the latest claim. */
  ghost predicate Expired(s: System) {
    forall i :: 0 <= i < |s.slices| ==> Owns(s.row, s.slices[i].claimUntil) || s.slices[i].claimUntil <= s.latest
  }

  /** A punctual claim's lease is strictly larger than every lease still in flight. */
  lemma NewLeaseIsLargest(s: System, step: Step)
    requires Expired(s) && Enabled(s, step) && Punctual(s, step)
    requires step.Claim? && Claimable(s.row, step.now, step.expected)
    ensures forall i :: 0 <= i < |s.slices| ==> s.slices[i].claimUntil < step.now + step.lease
  {
  }

  lemma RemovalKeepsExpired(s: System, i: nat, t: System)
    requires Leases(s) && Expired(s) && i < |s.slices| && t.slices == RemoveAt(s.slices, i) && t.latest == s.latest
    requires t.row == s.row || Owns(s.row, s.slices[i].claimUntil)
    ensures Expired(t)
  {
    hide Owns;
    forall k | 0 <= k < |t.slices| ensures Owns(t.row, t.slices[k].claimUntil) || t.slices[k].claimUntil <= t.latest {
      var j := if k < i then k else k + 1;
      assert t.slices[k] == s.slices[j] && j != i;
      if t.row != s.row { OnlyOneOwns(s, i, j); }
    }
  }

  lemma OnlyOneOwns(s: System, i: nat, j: nat)
    requires Leases(s) && i < |s.slices| && j < |s.slices| && i != j && Owns(s.row, s.slices[i].claimUntil)
    ensures !Owns(s.row, s.slices[j].claimUntil)
  {
  }

  /** A slice gives the row up only when its outcome or its release takes it out of flight, or when its lease ran
      out. */
  lemma PunctualStepKeepsExpired(s: System, step: Step)
    requires Leases(s) && Expired(s) && Enabled(s, step) && Punctual(s, step)
    ensures Expired(Apply(s, step)) && !Collides(s, step)
  {
    hide IsNewestPage, Leases;
    var t := Apply(s, step);
    match step
    case Claim(now, lease, expected) =>
      if Claimable(s.row, now, expected) { NewLeaseIsLargest(s, step); }
    case Store(i) =>
      if !ClaimMatches(s.row, s.slices[i].offset, s.slices[i].claimUntil) { RemovalKeepsExpired(s, i, t); }
    case Done(i, _) => RemovalKeepsExpired(s, i, t);
    case Unfinished(i) => RemovalKeepsExpired(s, i, t);
    case Drop(i) => RemovalKeepsExpired(s, i, t);
    case _ =>
  }

  /** The lease ran out and was given to somebody else, or was given back. */
  ghost predicate Fenced(s: System, claimUntil: int) {
    claimUntil <= s.latest && !Owns(s.row, claimUntil)
  }

  /** With punctual claims a fenced lease never owns the row again, in flight or not. */
  lemma FencedStaysFenced(s: System, step: Step, claimUntil: int)
    requires Enabled(s, step) && Punctual(s, step) && Fenced(s, claimUntil)
    ensures Fenced(Apply(s, step), claimUntil)
  {
  }

  // ----------------------------------------------------------------- completeness

  ghost predicate PageCovers(s: System, page: seq<int>, offset: nat) {
    Covers(s.history, s.top, page, 0, offset, BATCH_LIMIT)
  }

  ghost predicate SoundPhase(s: System, slice: Slice) {
    match slice.phase
    case Claimed => true
    case Searched(page) => PageCovers(s, page, slice.offset)
    case Ready(outcome) =>
      match outcome
      case Page(ids) => ids != [] && PageCovers(s, ids, slice.offset) && forall id :: id in ids ==> id in s.stored
      case Floor => PageCovers(s, [], slice.offset)
      case _ => true
  }

  /** A slice below the top started where everything up to the first page's top had been stored. */
  ghost predicate SoundSlice(s: System, slice: Slice) {
    && slice.offset <= s.top && SoundPhase(s, slice)
    && (slice.offset > 0 ==>
          OffsetOf(s.row) > 0 && forall id :: id in s.history && slice.offset <= id <= s.firstTop ==> id in s.stored)
  }

  /** Everything from the offset up to the first page's top has been stored; once complete, everything below it too. */
  ghost predicate WalkComplete(s: System) {
    && OffsetOf(s.row) <= s.top && s.firstTop <= s.top
    && (OffsetOf(s.row) == 0 ==> s.firstTop == 0)
    && (forall id :: id in s.history && OffsetOf(s.row) <= id <= s.firstTop && OffsetOf(s.row) > 0 ==> id in s.stored)
    && (s.row.status == Complete ==> forall id :: id in s.history && id <= s.firstTop ==> id in s.stored)
  }

  ghost predicate SlicesSound(s: System) {
    forall i :: 0 <= i < |s.slices| ==> SoundSlice(s, s.slices[i])
  }

  ghost predicate IdsInRange(s: System) {
    forall id :: id in s.history ==> 0 < id <= s.top
  }

  /** What holds between any two steps, whatever times the claims carry, as long as no harmful outcome was accepted. */
  ghost predicate Sound(s: System) {
    IdsInRange(s) && WalkComplete(s) && SlicesSound(s)
  }

  /** With distinct leases in flight on top. */
  ghost predicate Invariant(s: System) {
    Sound(s) && Leases(s)
  }

  ghost predicate Initial(s: System) {
    s.row == FRESH_ROW && s.slices == [] && s.firstTop == 0 && IdsInRange(s)
  }

  /** The outcome of a slice that started at the top is accepted after the row has moved down, and the messages it does
      not speak of, up to the row's offset, are not all stored. */
  ghost predicate Harmful(s: System, step: Step)
    requires Enabled(s, step)
  {
    && step.Done?
    && var slice := s.slices[step.i];
       && Owns(s.row, slice.claimUntil) && slice.offset == 0 && OffsetOf(s.row) > 0
       && (slice.phase.outcome.Page? || slice.phase.outcome.Floor?)
       && exists id :: Skips(s, slice, id)
  }

  /** Below the row's offset, above the slice's page, and not stored. */
  ghost predicate Skips(s: System, slice: Slice, id: int)
    requires slice.phase.Ready?
  {
    && id in s.history && id !in s.stored && id < OffsetOf(s.row) && id <= s.firstTop
    && (slice.phase.outcome.Page? && slice.phase.outcome.ids != [] ==> slice.phase.outcome.ids[0] < id)
  }

  /** Without a collision the owner started at the row's offset, so nothing is skipped. */
  lemma NoLeaseNoHarm(s: System, step: Step)
    requires Leases(s) && Enabled(s, step)
    ensures !Harmful(s, step)
  {
  }

  lemma HistoryMoves(s: System, t: System)
    requires Sound(s) && t == s.(history := t.history, top := t.top) && s.top <= t.top
    requires forall id :: id in t.history ==> (id in s.history || id > s.top) && 0 < id <= t.top
    ensures Sound(t)
  {
    forall i | 0 <= i < |t.slices| ensures SoundSlice(t, t.slices[i]) {
      assert SoundSlice(s, s.slices[i]);
      PhaseMoves(s, t, t.slices[i]);
    }
  }

  lemma PhaseMoves(s: System, t: System, slice: Slice)
    requires t == s.(history := t.history, top := t.top) && s.top <= t.top && slice.offset <= s.top
    requires forall id :: id in t.history ==> (id in s.history || id > s.top)
    requires SoundPhase(s, slice)
    ensures SoundPhase(t, slice)
  {
    match slice.phase
    case Claimed =>
    case Searched(page) => CoversSurvives(s.history, s.top, t.history, t.top, page, 0, slice.offset, BATCH_LIMIT);
    case Ready(outcome) =>
      if outcome.Page? {
        CoversSurvives(s.history, s.top, t.history, t.top, outcome.ids, 0, slice.offset, BATCH_LIMIT);
      } else if outcome.Floor? {
        CoversSurvives(s.history, s.top, t.history, t.top, [], 0, slice.offset, BATCH_LIMIT);
      }
  }

  /** A slice stays sound while the history stands still, more is stored and the walk has started. */
  lemma SliceStaysSound(s: System, t: System, slice: Slice)
    requires SoundSlice(s, slice) && t.history == s.history && t.top == s.top
    requires forall id :: id in s.stored ==> id in t.stored
    requires OffsetOf(s.row) > 0 ==> OffsetOf(t.row) > 0 && t.firstTop == s.firstTop
    ensures SoundSlice(t, slice)
  {
  }

  /** Every slice of the new state was one of the old state, or is the sound one given. */
  lemma SlicesStaySound(s: System, t: System, newcomer: Slice)
    requires SlicesSound(s) && SoundSlice(t, newcomer) && t.history == s.history && t.top == s.top
    requires forall id :: id in s.stored ==> id in t.stored
    requires OffsetOf(s.row) > 0 ==> OffsetOf(t.row) > 0 && t.firstTop == s.firstTop
    requires forall k :: 0 <= k < |t.slices| ==> t.slices[k] == newcomer || t.slices[k] in s.slices
    ensures SlicesSound(t)
  {
    forall k | 0 <= k < |t.slices| ensures SoundSlice(t, t.slices[k]) {
      if t.slices[k] != newcomer {
        var j :| 0 <= j < |s.slices| && s.slices[j] == t.slices[k];
        assert SoundSlice(s, s.slices[j]);
        SliceStaysSound(s, t, t.slices[k]);
      }
    }
  }

  lemma RemovalKeepsSlices(s: System, i: nat, t: System)
    requires SlicesSound(s) && i < |s.slices| && t.slices == RemoveAt(s.slices, i)
    requires t.history == s.history && t.top == s.top && t.stored == s.stored
    requires OffsetOf(s.row) > 0 ==> OffsetOf(t.row) > 0 && t.firstTop == s.firstTop
    ensures SlicesSound(t)
  {
    hide SoundSlice;
    forall k | 0 <= k < |t.slices| ensures SoundSlice(t, t.slices[k]) {
      assert t.slices[k] == s.slices[if k < i then k else k + 1];
      assert SoundSlice(s, s.slices[if k < i then k else k + 1]);
      SliceStaysSound(s, t, t.slices[k]);
    }
  }

  lemma ClaimIsSound(s: System, step: Step)
    requires Sound(s) && step.Claim? && Enabled(s, step)
    ensures Sound(Apply(s, step))
  {
    var t := Apply(s, step);
    var slice := Slice(step.now + step.lease, OffsetOf(s.row), Claimed);
    SlicesStaySound(s, t, slice);
  }

  lemma SearchIsSound(s: System, step: Step)
    requires Sound(s) && (step.Search? || step.Skipped?) && Enabled(s, step)
    ensures Sound(Apply(s, step))
  {
    var t := Apply(s, step);
    assert SoundSlice(s, s.slices[step.i]);
    if step.Search? {
      SearchCovers(s.history, s.top, step.page, 0, s.slices[step.i].offset, BATCH_LIMIT);
    }
    SlicesStaySound(s, t, t.slices[step.i]);
  }

  lemma StoreIsSound(s: System, i: nat)
    requires Sound(s) && Enabled(s, Store(i))
    ensures Sound(Apply(s, Store(i)))
  {
    var t := Apply(s, Store(i));
    var slice := s.slices[i];
    assert SoundSlice(s, slice);
    if ClaimMatches(s.row, slice.offset, slice.claimUntil) {
      assert SoundSlice(t, t.slices[i]);
      SlicesStaySound(s, t, t.slices[i]);
    } else {
      RemovalKeepsSlices(s, i, t);
    }
  }

  /** What an accepted page does to the walk: the row's offset is the page's oldest id. */
  lemma PageMovesDown(s: System, i: nat, accessRetryAt: int)
    requires Sound(s) && Enabled(s, Done(i, accessRetryAt)) && Owns(s.row, s.slices[i].claimUntil)
    requires s.slices[i].phase.outcome.Page?
    ensures var t := Apply(s, Done(i, accessRetryAt));
            && 0 < OffsetOf(t.row) <= t.top && t.row.status != Complete && t.firstTop <= t.top
            && (OffsetOf(s.row) > 0 ==> t.firstTop == s.firstTop)
            && (WalkComplete(t) <==> !Harmful(s, Done(i, accessRetryAt)))
  {
    var t := Apply(s, Done(i, accessRetryAt));
    var slice := s.slices[i];
    assert SoundSlice(s, slice);
    var ids := slice.phase.outcome.ids;
    assert ids[0] in ids && ids[|ids| - 1] in ids;
    if Harmful(s, Done(i, accessRetryAt)) {
      var id :| Skips(s, slice, id);
      assert OffsetOf(t.row) <= id <= t.firstTop;
    } else {
      forall id | id in t.history && OffsetOf(t.row) <= id <= t.firstTop ensures id in t.stored {
        PageStores(s, i, accessRetryAt, id);
      }
    }
  }

  lemma PageStores(s: System, i: nat, accessRetryAt: int, id: int)
    requires Sound(s) && Enabled(s, Done(i, accessRetryAt)) && Owns(s.row, s.slices[i].claimUntil)
    requires s.slices[i].phase.outcome.Page? && !Harmful(s, Done(i, accessRetryAt))
    requires var t := Apply(s, Done(i, accessRetryAt));
             id in s.history && OffsetOf(t.row) <= id <= t.firstTop
    ensures id in s.stored
  {
    var slice := s.slices[i];
    assert SoundSlice(s, slice);
    var ids := slice.phase.outcome.ids;
    assert ids[0] in ids && ids[|ids| - 1] in ids;
    if id !in s.stored {
      assert id !in ids;
      if slice.offset == 0 && OffsetOf(s.row) > 0 { assert Skips(s, slice, id); }
    }
  }

  /** What an accepted floor does to the walk. */
  lemma FloorCompletes(s: System, i: nat, accessRetryAt: int)
    requires Sound(s) && Enabled(s, Done(i, accessRetryAt)) && Owns(s.row, s.slices[i].claimUntil)
    requires s.slices[i].phase.outcome.Floor?
    ensures WalkComplete(Apply(s, Done(i, accessRetryAt))) <==> !Harmful(s, Done(i, accessRetryAt))
  {
    var slice := s.slices[i];
    assert SoundSlice(s, slice);
    if Harmful(s, Done(i, accessRetryAt)) {
      var id :| Skips(s, slice, id);
    } else {
      forall id | id in s.history && id <= s.firstTop ensures id in s.stored {
        if id !in s.stored && slice.offset == 0 && OffsetOf(s.row) > 0 { assert Skips(s, slice, id); }
      }
    }
  }

  /** The owner's outcome moves the walk down, or ends it: without leaving a message behind, unless it is harmful. */
  lemma DoneIsSound(s: System, i: nat, accessRetryAt: int)
    requires Sound(s) && Enabled(s, Done(i, accessRetryAt))
    ensures WalkComplete(Apply(s, Done(i, accessRetryAt))) <==> !Harmful(s, Done(i, accessRetryAt))
    ensures IdsInRange(Apply(s, Done(i, accessRetryAt))) && SlicesSound(Apply(s, Done(i, accessRetryAt)))
  {
    var t := Apply(s, Done(i, accessRetryAt));
    var owned := Owns(s.row, s.slices[i].claimUntil);
    if owned && s.slices[i].phase.outcome.Page? {
      PageMovesDown(s, i, accessRetryAt);
    } else if owned && s.slices[i].phase.outcome.Floor? {
      FloorCompletes(s, i, accessRetryAt);
    }
    hide WalkComplete, Harmful, SlicesSound;
    RemovalKeepsSlices(s, i, t);
  }

  /** The walk stays complete over a step exactly when the step is not harmful. */
  lemma StepKeepsWalkExactlyWhen(s: System, step: Step)
    requires Sound(s) && Enabled(s, step)
    ensures Sound(Apply(s, step)) <==> !Harmful(s, step)
    ensures WalkComplete(Apply(s, step)) <==> !Harmful(s, step)
  {
    hide IsNewestPage, SlicesSound, IdsInRange;
    var t := Apply(s, step);
    match step
    case Arrive(id) => ArrivalIsSound(s, step);
    case Vanish(id) => ArrivalIsSound(s, step);
    case Claim(_, _, _) => ClaimIsSound(s, step);
    case Search(i, page) => SearchIsSound(s, step);
    case Skipped(i, outcome) => SearchIsSound(s, step);
    case Store(i) => StoreIsSound(s, i);
    case Done(i, accessRetryAt) => DoneIsSound(s, i, accessRetryAt);
    case Unfinished(i) => EndIsSound(s, step);
    case Drop(i) => EndIsSound(s, step);
    case Access(lost) => EndIsSound(s, step);
  }

  lemma ArrivalIsSound(s: System, step: Step)
    requires Sound(s) && (step.Arrive? || step.Vanish?) && Enabled(s, step)
    ensures Sound(Apply(s, step))
  {
    HistoryMoves(s, Apply(s, step));
  }

  lemma EndIsSound(s: System, step: Step)
    requires Sound(s) && (step.Unfinished? || step.Drop? || step.Access?) && Enabled(s, step)
    ensures Sound(Apply(s, step))
  {
    var t := Apply(s, step);
    if step.Access? {
      forall k | 0 <= k < |t.slices| ensures SoundSlice(t, t.slices[k]) {
        assert SoundSlice(s, s.slices[k]);
        SliceStaysSound(s, t, t.slices[k]);
      }
    } else {
      RemovalKeepsSlices(s, step.i, t);
    }
  }

  lemma StepKeepsInvariant(s: System, step: Step)
    requires Invariant(s) && Enabled(s, step) && !Collides(s, step)
    ensures Invariant(Apply(s, step))
  {
    hide Sound, WalkComplete, Harmful, Leases, Collides, Apply;
    StepKeepsLeases(s, step);
    NoLeaseNoHarm(s, step);
    StepKeepsWalkExactlyWhen(s, step);
  }

  // ------------------------------------------------------------------------ runs

  ghost predicate IsRun(states: seq<System>, steps: seq<Step>) {
    && |states| == |steps| + 1
    && Initial(states[0])
    && forall i :: 0 <= i < |steps| ==> Enabled(states[i], steps[i]) && states[i + 1] == Apply(states[i], steps[i])
  }

  /** No accepted claim among the first `n` steps issues the lease of a slice in flight. */
  ghost predicate NoCollision(states: seq<System>, steps: seq<Step>, n: nat)
    requires |states| == |steps| + 1 && n <= |steps|
  {
    forall k :: 0 <= k < n ==> !Collides(states[k], steps[k])
  }

  lemma {:induction false} RunKeepsInvariant(states: seq<System>, steps: seq<Step>, n: nat)
    requires IsRun(states, steps) && n < |states| && NoCollision(states, steps, n)
    ensures Invariant(states[n])
  {
    if n > 0 {
      RunKeepsInvariant(states, steps, n - 1);
      StepKeepsInvariant(states[n - 1], steps[n - 1]);
    }
  }

  /** Wherever the run stands, at most one slice has owned the row, and none got it back. */
  ghost predicate FenceHolds(states: seq<System>, steps: seq<Step>)
    requires IsRun(states, steps)
  {
    && (forall n :: 0 <= n < |states| ==> OneOwner(states[n]))
    && (forall n :: 0 <= n < |steps| ==> !Regains(states[n], steps[n]))
  }

  lemma NoCollisionOneOwner(states: seq<System>, steps: seq<Step>)
    requires IsRun(states, steps) && NoCollision(states, steps, |steps|)
    ensures forall n :: 0 <= n < |states| ==> OneOwner(states[n])
  {
    forall n | 0 <= n < |states| ensures OneOwner(states[n]) {
      RunKeepsInvariant(states, steps, n);
      assert Leases(states[n]);
    }
  }

  /** The fence holds over a run exactly when no claim issues again the lease of a slice in flight. */
  lemma FenceHoldsExactlyWhen(states: seq<System>, steps: seq<Step>)
    requires IsRun(states, steps)
    ensures FenceHolds(states, steps) <==> NoCollision(states, steps, |steps|)
    ensures (forall n :: 0 <= n < |states| ==> OneOwner(states[n])) <==> NoCollision(states, steps, |steps|)
    ensures (forall n :: 0 <= n < |steps| ==> !Regains(states[n], steps[n])) <==> NoCollision(states, steps, |steps|)
  {
    hide OneOwner, Regains, Collides, Apply, Enabled;
    forall n | 0 <= n < |steps| ensures Regains(states[n], steps[n]) <==> Collides(states[n], steps[n]) {
      RegainsExactlyWhenCollides(states[n], steps[n]);
    }
    if NoCollision(states, steps, |steps|) {
      NoCollisionOneOwner(states, steps);
    } else {
      var k :| 0 <= k < |steps| && Collides(states[k], steps[k]);
      CollisionMakesTwoOwners(states[k], steps[k]);
      assert !OneOwner(states[k + 1]);
    }
  }

  /** Every claim carries a time that is not older than the ones before. */
  ghost predicate ClaimsInOrder(states: seq<System>, steps: seq<Step>)
    requires |states| == |steps| + 1
  {
    forall k :: 0 <= k < |steps| ==> Punctual(states[k], steps[k])
  }

  lemma {:induction false} InOrderKeepsExpired(states: seq<System>, steps: seq<Step>, n: nat)
    requires IsRun(states, steps) && ClaimsInOrder(states, steps) && n < |states|
    ensures Expired(states[n]) && Leases(states[n]) && NoCollision(states, steps, n)
  {
    if n > 0 {
      InOrderKeepsExpired(states, steps, n - 1);
      PunctualStepKeepsExpired(states[n - 1], steps[n - 1]);
      StepKeepsLeases(states[n - 1], steps[n - 1]);
    }
  }

  /** Claims in the order of their times never collide, so the fence holds. */
  lemma InOrderFenceHolds(states: seq<System>, steps: seq<Step>)
    requires IsRun(states, steps) && ClaimsInOrder(states, steps)
    ensures FenceHolds(states, steps)
  {
    InOrderKeepsExpired(states, steps, |steps|);
    FenceHoldsExactlyWhen(states, steps);
  }

  lemma InitialIsSound(s: System)
    requires Initial(s)
    ensures Sound(s)
  {
  }

  /** No harmful outcome is accepted among the first `n` steps. */
  ghost predicate NoHarm(states: seq<System>, steps: seq<Step>, n: nat)
    requires IsRun(states, steps) && n <= |steps|
  {
    forall k :: 0 <= k < n ==> !Harmful(states[k], steps[k])
  }

  lemma {:induction false} NoHarmKeepsSound(states: seq<System>, steps: seq<Step>, n: nat)
    requires IsRun(states, steps) && n <= |steps| && NoHarm(states, steps, n)
    ensures Sound(states[n])
  {
    hide WalkComplete, Harmful, Apply, Enabled;
    if n > 0 {
      NoHarmKeepsSound(states, steps, n - 1);
      StepKeepsWalkExactlyWhen(states[n - 1], steps[n - 1]);
    } else {
      InitialIsSound(states[0]);
    }
  }

  lemma {:induction false} NoCollisionNoHarm(states: seq<System>, steps: seq<Step>, n: nat)
    requires IsRun(states, steps) && n <= |steps| && NoCollision(states, steps, n)
    ensures NoHarm(states, steps, n)
  {
    hide Harmful, Apply;
    forall k | 0 <= k < n ensures !Harmful(states[k], steps[k]) {
      RunKeepsInvariant(states, steps, k);
      NoLeaseNoHarm(states[k], steps[k]);
    }
  }

  /** `complete` means: every message at or below the first fetched page's top has been stored. */
  lemma CompleteMeansAllStored(states: seq<System>, steps: seq<Step>, n: nat)
    requires IsRun(states, steps) && n <= |steps| && NoHarm(states, steps, n) && states[n].row.status == Complete
    ensures forall id :: id in states[n].history && id <= states[n].firstTop ==> id in states[n].stored
  {
    NoHarmKeepsSound(states, steps, n);
  }

  /** Whatever times the claims carry: the walk leaves no message behind, at any moment of the run, exactly when no
      outcome of a slice that started at the top is accepted over messages that are not stored. */
  lemma WalkIsCompleteExactlyWhen(states: seq<System>, steps: seq<Step>)
    requires IsRun(states, steps)
    ensures (forall n :: 0 <= n < |states| ==> WalkComplete(states[n])) <==> NoHarm(states, steps, |steps|)
  {
    hide WalkComplete, Harmful, Apply, Enabled;
    if NoHarm(states, steps, |steps|) {
      forall n | 0 <= n < |states| ensures WalkComplete(states[n]) {
        NoHarmKeepsSound(states, steps, n);
      }
    } else {
      var k :| 0 <= k < |steps| && Harmful(states[k], steps[k]);
      var first := FirstHarm(states, steps, k);
      NoHarmKeepsSound(states, steps, first);
      StepKeepsWalkExactlyWhen(states[first], steps[first]);
      assert !WalkComplete(states[first + 1]);
    }
  }

  lemma {:induction false} FirstHarm(states: seq<System>, steps: seq<Step>, k: nat) returns (n: nat)
    requires IsRun(states, steps) && k < |steps| && Harmful(states[k], steps[k])
    ensures n <= k && Harmful(states[n], steps[n]) && NoHarm(states, steps, n)
  {
    hide Harmful, Apply, Enabled;
    if j :| 0 <= j < k && Harmful(states[j], steps[j]) {
      n := FirstHarm(states, steps, j);
    } else {
      n := k;
    }
  }

  /** With claims in order, a lease that expired and passed on never owns the row again, at any later point. */
  lemma {:induction false} LeaseNeverReturns(states: seq<System>, steps: seq<Step>, i: nat, j: nat, claimUntil: int)
    requires IsRun(states, steps) && ClaimsInOrder(states, steps) && i <= j < |states| && Fenced(states[i], claimUntil)
    ensures Fenced(states[j], claimUntil)
    decreases j
  {
    if i < j {
      LeaseNeverReturns(states, steps, i, j - 1, claimUntil);
      FencedStaysFenced(states[j - 1], steps[j - 1], claimUntil);
    }
  }

  /** How far the walk still has to go: from "not started" down through the offsets to complete. */
  function Remaining(s: System): nat {
    if s.row.status == Complete then 0
    else if OffsetOf(s.row) == 0 then s.top + 2
    else OffsetOf(s.row) + 1
  }

  /** No step but an arrival before the first page prolongs the walk, and completion is final. */
  lemma WalkOnlyDescends(s: System, step: Step)
    requires Invariant(s) && Enabled(s, step)
    ensures var t := Apply(s, step);
            && (OffsetOf(s.row) > 0 ==> 0 < OffsetOf(t.row) <= OffsetOf(s.row))
            && (s.row.status == Complete ==> t.row.status == Complete && OffsetOf(t.row) == OffsetOf(s.row))
            && (!step.Arrive? ==> Remaining(t) <= Remaining(s))
  {
    if step.Done? {
      assert SoundSlice(s, s.slices[step.i]);
      var outcome := s.slices[step.i].phase.outcome;
      if outcome.Page? { assert outcome.ids[|outcome.ids| - 1] in outcome.ids; }
    }
  }

  /** Every accepted page or floor shortens the walk, so it ends after finitely many of them. */
  lemma AcceptedPageDescends(s: System, i: nat, accessRetryAt: int)
    requires Invariant(s) && Enabled(s, Done(i, accessRetryAt)) && Owns(s.row, s.slices[i].claimUntil)
    requires s.slices[i].phase.outcome.Page? || s.slices[i].phase.outcome.Floor?
    ensures Remaining(Apply(s, Done(i, accessRetryAt))) < Remaining(s)
    ensures s.slices[i].phase.outcome.Floor? <==> Apply(s, Done(i, accessRetryAt)).row.status == Complete
  {
    assert SoundSlice(s, s.slices[i]);
    var outcome := s.slices[i].phase.outcome;
    if outcome.Page? { assert outcome.ids[|outcome.ids| - 1] in outcome.ids; }
  }

  /** The row becomes complete only by an owned empty page. */
  lemma CompletedByFloorOnly(s: System, step: Step)
    requires Enabled(s, step) && s.row.status != Complete && Apply(s, step).row.status == Complete
    ensures step.Done? && s.slices[step.i].phase == Ready(Floor) && Owns(s.row, s.slices[step.i].claimUntil)
  {
  }

  lemma RunExtends(states: seq<System>, steps: seq<Step>, step: Step)
    requires IsRun(states, steps) && NoCollision(states, steps, |steps|) && Enabled(states[|steps|], step)
    ensures IsRun(states + [Apply(states[|steps|], step)], steps + [step])
    ensures NoCollision(states + [Apply(states[|steps|], step)], steps + [step], |steps|)
  {
    hide Apply, Enabled, Collides;
  }

  /** The system after the first slice lost the row at time 11 and the second, stopped by a flood wait, gave it back. */
  ghost function HandedOver(): System {
    System(11, {}, 0, {}, FRESH_ROW, [Slice(11, 0, Claimed)], 0)
  }

  /** The first slice claims at time 10 for one second; at 11 another takes over, meets a flood wait and gives the row
      back while the first slice is still in flight. */
  lemma HandOver() returns (states: seq<System>, steps: seq<Step>)
    ensures steps == [Claim(10, 1, None), Claim(11, 1, None), Skipped(1, FloodWait), Done(1, 0)]
    ensures IsRun(states, steps) && NoCollision(states, steps, 4) && states[4] == HandedOver()
    ensures !Owns(states[2].row, 11)
  {
    var first, second := Slice(11, 0, Claimed), Slice(12, 0, Claimed);
    var s0 := System(0, {}, 0, {}, FRESH_ROW, [], 0);
    var s1 := System(10, {}, 0, {}, Row(None, Running, Some(11), false), [first], 0);
    var s2 := System(11, {}, 0, {}, Row(None, Running, Some(12), false), [first, second], 0);
    var s3 := s2.(slices := [first, second.(phase := Ready(FloodWait))]);
    assert Apply(s0, Claim(10, 1, None)) == s1;
    assert Apply(s1, Claim(11, 1, None)) == s2;
    assert Apply(s2, Skipped(1, FloodWait)) == s3;
    assert Apply(s3, Done(1, 0)) == HandedOver();
    hide Apply;
    states := [s0, s1, s2, s3, HandedOver()];
    steps := [Claim(10, 1, None), Claim(11, 1, None), Skipped(1, FloodWait), Done(1, 0)];
  }

  /** A claim with an older reading of the clock can break the fence: at time 10 for one second it issues the first
      slice's lease again. */
  lemma StaleClockReissuesLease() returns (states: seq<System>, steps: seq<Step>)
    ensures steps == [Claim(10, 1, None), Claim(11, 1, None), Skipped(1, FloodWait), Done(1, 0), Claim(10, 1, None)]
    ensures IsRun(states, steps) && NoCollision(states, steps, 4) && Collides(states[4], steps[4])
    ensures states[4].slices == [Slice(11, 0, Claimed)] && !Owns(states[2].row, 11) && !Owns(states[4].row, 11)
    ensures states[5].slices == [Slice(11, 0, Claimed), Slice(11, 0, Claimed)] && Owns(states[5].row, 11)
    ensures !FenceHolds(states, steps)
  {
    var before, first := HandOver();
    var step := Claim(10, 1, None);
    RunExtends(before, first, step);
    states, steps := before + [Apply(HandedOver(), step)], first + [step];
    assert HandedOver().slices[0].claimUntil == step.now + step.lease;
    FenceHoldsExactlyWhen(states, steps);
    hide FenceHolds, IsRun;
  }

  /** An older time alone does no harm: after the same hand-over a claim at time 10 for two seconds is fine. */
  lemma StaleClockMayBeHarmless() returns (states: seq<System>, steps: seq<Step>)
    ensures steps == [Claim(10, 1, None), Claim(11, 1, None), Skipped(1, FloodWait), Done(1, 0), Claim(10, 2, None)]
    ensures IsRun(states, steps) && !ClaimsInOrder(states, steps) && FenceHolds(states, steps)
  {
    var before, first := HandOver();
    var step := Claim(10, 2, None);
    RunExtends(before, first, step);
    states, steps := before + [Apply(HandedOver(), step)], first + [step];
    assert !Punctual(states[4], steps[4]);
    FenceHoldsExactlyWhen(states, steps);
    hide FenceHolds, IsRun;
  }

  // ------------------------------------------------------- completeness after a collision

  /** Messages 1 to `n` arrive, one after another. */
  lemma {:induction false} ArriveMany(states: seq<System>, steps: seq<Step>, n: nat)
    returns (states': seq<System>, steps': seq<Step>)
    requires IsRun(states, steps) && states[|steps|].top == 0
    requires forall id :: id !in states[|steps|].history
    ensures IsRun(states', steps') && |steps'| == |steps| + n
    ensures var s, t := states[|steps|], states'[|steps'|];
            t == s.(history := t.history, top := n) && forall id :: id in t.history <==> 1 <= id <= n
  {
    if n == 0 {
      states', steps' := states, steps;
    } else {
      var before, first := ArriveMany(states, steps, n - 1);
      var s := before[|first|];
      states', steps' := OneMore(before, first, Arrive(n));
    }
  }

  lemma OneMore(states: seq<System>, steps: seq<Step>, step: Step) returns (states': seq<System>, steps': seq<Step>)
    requires IsRun(states, steps) && Enabled(states[|steps|], step)
    ensures IsRun(states', steps') && steps' == steps + [step] && states' == states + [Apply(states[|steps|], step)]
    ensures states'[|steps'|] == Apply(states[|steps|], step)
  {
    hide Apply, Enabled, Initial;
    states', steps' := states + [Apply(states[|steps|], step)], steps + [step];
  }

  /** A slice found the history empty, lost the row, and still holds its floor. */
  lemma FencedFloor() returns (states: seq<System>, steps: seq<Step>)
    ensures IsRun(states, steps)
    ensures var s := states[|steps|];
            && s.row == Row(None, Running, Some(11), false) && s.slices == [Slice(11, 0, Ready(Floor))]
            && s.top == 0 && s.firstTop == 0 && s.latest == 10
            && (forall id :: id !in s.history) && forall id :: id !in s.stored
  {
    states, steps := [System(0, {}, 0, {}, FRESH_ROW, [], 0)], [];
    states, steps := OneMore(states, steps, Claim(10, 1, None));
    assert states[1].slices == [Slice(11, 0, Claimed)];
    states, steps := OneMore(states, steps, Search(0, []));
    states, steps := OneMore(states, steps, Store(0));
    assert states[3].slices == [Slice(11, 0, Ready(Floor))];
  }

  /** The newest 100 of 101 messages. */
  function NewestHundred(): seq<int> {
    seq(100, i => 101 - i)
  }

  lemma NewestHundredIsNewest(history: set<int>)
    requires forall id :: id in history <==> 1 <= id <= 101
    ensures IsNewestPage(history, NewestHundred(), 0, 101, 0, BATCH_LIMIT)
    ensures 1 !in NewestHundred() && NewestHundred()[99] == 2 && NewestHundred()[0] == 101
  {
    var page := NewestHundred();
    forall id | 2 <= id <= 101 ensures id in page {
      assert page[101 - id] == id;
    }
  }

  /** The second slice fetches the newest 100 of 101 messages and moves the row to message 2. */
  lemma RowMovesOn() returns (states: seq<System>, steps: seq<Step>)
    ensures IsRun(states, steps)
    ensures var s := states[|steps|];
            && s.row == Row(Some(2), Pending, None, false) && s.slices == [Slice(11, 0, Ready(Floor))]
            && s.firstTop == 101 && 1 in s.history && 1 !in s.stored
  {
    states, steps := FencedFloor();
    states, steps := ArriveMany(states, steps, 101);
    var s := states[|steps|];
    var first := Slice(11, 0, Ready(Floor));
    states, steps := OneMore(states, steps, Claim(11, 1, None));
    assert states[|steps|].slices == [first, Slice(12, 0, Claimed)];
    NewestHundredIsNewest(s.history);
    states, steps := OneMore(states, steps, Search(1, NewestHundred()));
    assert states[|steps|].slices == [first, Slice(12, 0, Searched(NewestHundred()))];
    states, steps := OneMore(states, steps, Store(1));
    assert states[|steps|].slices == [first, Slice(12, 0, Ready(Page(NewestHundred())))];
    states, steps := OneMore(states, steps, Done(1, 0));
    assert states[|steps|].slices == [first];
  }

  /** A collision can complete the walk too early: the fenced floor gets the row back by a claim with an older time and
      marks it complete, while message 1 was never stored. */
  lemma CollisionCompletesTooEarly() returns (states: seq<System>, steps: seq<Step>)
    ensures IsRun(states, steps) && |steps| >= 2
    ensures Collides(states[|steps| - 2], steps[|steps| - 2]) && Harmful(states[|steps| - 1], steps[|steps| - 1])
    ensures var last := states[|steps|];
            last.row.status == Complete && 1 in last.history && 1 <= last.firstTop && 1 !in last.stored
  {
    states, steps := RowMovesOn();
    var s := states[|steps|];
    assert s.slices[0].claimUntil == 11;
    states, steps := OneMore(states, steps, Claim(10, 1, None));
    var t := states[|steps|];
    assert t.slices == [Slice(11, 0, Ready(Floor)), Slice(11, 2, Claimed)];
    assert Skips(t, t.slices[0], 1);
    states, steps := OneMore(states, steps, Done(0, 0));
  }
}
