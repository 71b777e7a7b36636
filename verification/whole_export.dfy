/** Attempts of a whole export over one checkpoint: base import, admin log and every group's history, cut off
    anywhere. */
module WholeExport {
  import opened Common
  import opened CheckpointStore
  import opened ExportClient
  import opened BaseCensus
  import opened IncrementalExport
  import A = AdminLog
  import D = ExportDaemon

  // ------------------------------------------------------------------ the admin part

  ghost predicate BaseAdminsKept(records: Records, file: Option<BaseFile>) {
    file.Some? ==> forall i :: 0 <= i < |file.value.admins| ==>
      var key := RecordKey(AdminKind, file.value.group, file.value.admins[i].id);
      key in records && records[key] == file.value.admins[i].payload
  }

  ghost predicate Started(state: State, file: Option<BaseFile>) {
    BaseDone(file, state) && Read(state, Peers).PeerList?
  }

  /** Admin rows are events of the group that is exported. */
  ghost predicate AdminRowsOf(records: Records, dialog: int) {
    forall key: RecordKey :: key in records && key.kind.AdminKind? ==> key.peer == dialog && key.id > 0
  }

  /** The admin part of the checkpoint, whatever the daemon answers; `asked` counts the admin requests so far. */
  ghost predicate AdminSafe(records: Records, state: State, file: Option<BaseFile>, t: A.Timeline, asked: nat,
                            walk: A.Walk) {
    && A.BeganAt(t, 0, asked, map[], walk.initial, map[], state)
    && (A.AdminIsDone(state) <==> !walk.ending.Open?)
    && (Read(state, Peers).PeerList? ==> Read(state, Peers).peers != [])
    && (if Started(state, file) then
          var peers := Read(state, Peers).peers;
          && BaseAdminsKept(records, file) && AdminRowsOf(records, peers[0].dialog)
          && A.AdminBounded(records, state, peers[0].dialog, AdminMaxOf(file))
        else !A.Walking(state) && A.AdminCursorOf(state) == 0)
  }

  /** With a faithful daemon the admin log's own invariant holds as well. */
  ghost predicate AdminTracked(records: Records, state: State, file: Option<BaseFile>, t: A.Timeline, asked: nat,
                               walk: A.Walk) {
    Started(state, file) && Read(state, Peers).peers != [] ==>
      A.AdminResumable(records, state, t, asked, walk, Read(state, Peers).peers[0].dialog, AdminMaxOf(file))
  }

  ghost predicate SameAdminState(before: State, after: State) {
    Read(before, AdminCursor) == Read(after, AdminCursor) && Read(before, AdminDone) == Read(after, AdminDone)
  }

  /** Nothing but admin rows and admin state decides whether the admin log can be resumed. */
  lemma SameAdminsResumable(before: Records, after: Records, s: State, s': State, t: A.Timeline, asked: nat,
                            walk: A.Walk, dialog: int, minimum: nat)
    requires A.AdminResumable(before, s, t, asked, walk, dialog, minimum)
    requires SameAdmins(before, after) && SameAdminState(s, s')
    ensures A.AdminResumable(after, s', t, asked, walk, dialog, minimum)
  {
    forall id ensures A.Recorded(before, dialog, id) <==> A.Recorded(after, dialog, id) {}
    if A.AdminCursorOf(s') > 0 {
      forall id | D.IsMessage(walk.initial, id) && id > minimum
        ensures exists saved :: A.Recorded(after, dialog, saved) && id <= saved
      {
        var saved :| A.Recorded(before, dialog, saved) && id <= saved;
        assert A.Recorded(after, dialog, saved);
      }
    }
  }

  lemma SameAdminsBounded(before: Records, after: Records, s: State, s': State, dialog: int, minimum: nat)
    requires A.AdminBounded(before, s, dialog, minimum) && SameAdmins(before, after) && SameAdminState(s, s')
    ensures A.AdminBounded(after, s', dialog, minimum)
  {
    forall id ensures A.Recorded(before, dialog, id) <==> A.Recorded(after, dialog, id) {}
  }

  lemma SameAdminsSafe(before: Records, after: Records, s: State, s': State, file: Option<BaseFile>,
                       t: A.Timeline, asked: nat, walk: A.Walk)
    requires AdminSafe(before, s, file, t, asked, walk)
    requires SameAdmins(before, after) && SameAdminState(s, s')
    requires Read(s, Peers) == Read(s', Peers) && BaseDone(file, s) == BaseDone(file, s')
    ensures AdminSafe(after, s', file, t, asked, walk)
    ensures AdminTracked(before, s, file, t, asked, walk) ==> AdminTracked(after, s', file, t, asked, walk)
  {
    hide A.AdminResumable, A.AdminBounded;
    if Started(s, file) {
      var dialog := Read(s, Peers).peers[0].dialog;
      SameAdminsBounded(before, after, s, s', dialog, AdminMaxOf(file));
      if AdminTracked(before, s, file, t, asked, walk) {
        SameAdminsResumable(before, after, s, s', t, asked, walk, dialog, AdminMaxOf(file));
      }
    }
  }

  /** Before anything was fetched the admin log starts fresh above the newest admin event of the base. */
  lemma AdminStarts(records: Records, state: State, file: Option<BaseFile>, t: A.Timeline, asked: nat,
                    walk: A.Walk, peers: seq<Peer>)
    requires A.BeganAt(t, 0, asked, map[], walk.initial, map[], state) && !A.Walking(state)
    requires A.AdminCursorOf(state) == 0 && walk.ending.Open?
    requires Read(state, Peers) == PeerList(peers) && peers != [] && BaseAdminsKept(records, file)
    requires AdminRowsOf(records, peers[0].dialog)
    requires forall key: RecordKey :: key in records && key.kind.AdminKind? ==> key.id <= AdminMaxOf(file)
    ensures AdminSafe(records, state, file, t, asked, walk) && AdminTracked(records, state, file, t, asked, walk)
  {
    hide A.AdminResumable;
    A.FreshIsResumable(records, state, t, asked, walk.initial, peers[0].dialog, AdminMaxOf(file));
    A.ResumableIsBounded(records, state, t, asked, walk, peers[0].dialog, AdminMaxOf(file));
  }

  lemma BaseRowsAdmins(file: BaseFile, boundaries: map<int, nat>)
    requires WellFormed(file)
    ensures BaseAdminsKept(BaseRows(file, boundaries), Some(file))
            && AdminRowsOf(BaseRows(file, boundaries), file.group)
    ensures forall key: RecordKey :: key in BaseRows(file, boundaries) && key.kind.AdminKind? ==>
              key.id <= AdminMaxOf(Some(file))
  {
    var start := ImportedAdmins(map[], file.admins);
    ImportedAdminKeys(file.group, file.admins);
    ImportedKeys(start, file.messages, boundaries, 0, 0);
    forall key: RecordKey | key in BaseRows(file, boundaries) && key.kind.AdminKind?
      ensures 0 < key.id <= AdminMaxOf(Some(file)) && key.peer == file.group
    {
      assert key in start;
      if file.admins != [] { NewestIsFirst(file.group, file.admins); }
    }
  }

  // ------------------------------------------------- the admin step leaves the messages alone

  lemma EventsKeepParts(before: Records, after: Records, s: State, s': State, hs: Histories, peers: seq<Peer>,
                        boundaries: map<int, nat>, dialog: int, minimum: nat)
    requires AllParts(before, s, hs, peers, boundaries)
    requires A.OnlyAddsEvents(before, after, dialog, minimum) && A.SameRestOfState(s, s')
    ensures AllParts(after, s', hs, peers, boundaries)
  {
    hide PeerPart;
    forall k | 0 <= k < |peers|
      ensures PeerPart(after, s', HistoryOf(hs, peers[k].dialog), peers[k], MinimumOf(boundaries, peers[k].dialog))
    {
      var p := peers[k].dialog;
      EventsKeepPart(before, after, s, s', HistoryOf(hs, p), peers[k], MinimumOf(boundaries, p), dialog, minimum);
    }
  }

  lemma EventsKeepPart(before: Records, after: Records, s: State, s': State, e: Era, peer: Peer, floor: nat,
                       dialog: int, minimum: nat)
    requires PeerPart(before, s, e, peer, floor)
    requires A.OnlyAddsEvents(before, after, dialog, minimum) && A.SameRestOfState(s, s')
    ensures PeerPart(after, s', e, peer, floor)
  {
    assert Read(s, Cursor(peer.dialog)) == Read(s', Cursor(peer.dialog));
    assert Read(s, Done(peer.dialog)) == Read(s', Done(peer.dialog));
    forall id ensures Saved(before, peer.dialog, id) <==> Saved(after, peer.dialog, id) {}
    forall id | Saved(before, peer.dialog, id)
      ensures after[RecordKey(MessageKind, peer.dialog, id)] == before[RecordKey(MessageKind, peer.dialog, id)] {}
  }

  lemma EventsKeepInvariant(before: Records, after: Records, s: State, s': State, file: Option<BaseFile>,
                            refresh: nat, hs: Histories, dialog: int, minimum: nat)
    requires ExportInvariant(before, s, file, refresh, hs) && BaseDone(file, s) && Read(s, Peers) != Null
    requires A.OnlyAddsEvents(before, after, dialog, minimum) && A.SameRestOfState(s, s')
    ensures ExportInvariant(after, s', file, refresh, hs)
  {
    hide AllParts, WellFormed, Frozen, CoversBase;
    EventsKeepParts(before, after, s, s', hs, Read(s, Peers).peers, BoundariesOf(file, refresh), dialog, minimum);
    assert Read(s, Peers) == Read(s', Peers) && Read(s, BaseInfo) == Read(s', BaseInfo)
        && Read(s, BaseImported) == Read(s', BaseImported) && Read(s, BaseFingerprint) == Read(s', BaseFingerprint);
  }

  lemma EventsKeepAdminRows(before: Records, after: Records, file: Option<BaseFile>, dialog: int, minimum: nat)
    requires BaseAdminsKept(before, file) && AdminRowsOf(before, dialog)
    requires A.OnlyAddsEvents(before, after, dialog, minimum)
    ensures BaseAdminsKept(after, file) && AdminRowsOf(after, dialog)
  {
  }

  // ------------------------------------------------------------------ preparing

  /** Storing the peer list starts the admin part at once when there is no base to import. */
  lemma SafeAfterPeers(records: Records, state: State, file: Option<BaseFile>, refresh: nat, hs: Histories,
                       peers: seq<Peer>, t: A.Timeline, asked: nat, walk: A.Walk)
    requires ExportInvariant(records, state, file, refresh, hs) && AdminSafe(records, state, file, t, asked, walk)
    requires Read(state, Peers) in {Null, PeerList(peers)} && peers != []
    ensures AdminSafe(records, state[Peers := PeerList(peers)], file, t, asked, walk)
    ensures AdminTracked(records, state, file, t, asked, walk) ==>
              AdminTracked(records, state[Peers := PeerList(peers)], file, t, asked, walk)
  {
    hide A.AdminResumable, A.AdminBounded, AllParts, WellFormed, Frozen, CoversBase;
    var state' := state[Peers := PeerList(peers)];
    if Read(state, Peers) == Null {
      if BaseDone(file, state') { AdminStarts(records, state', file, t, asked, walk, peers); }
    } else {
      SameAdminsSafe(records, records, state, state', file, t, asked, walk);
    }
  }

  lemma SafeAfterImport(state: State, file: BaseFile, boundaries: map<int, nat>, peers: seq<Peer>,
                        t: A.Timeline, asked: nat, walk: A.Walk)
    requires WellFormed(file) && AdminSafe(map[], state, Some(file), t, asked, walk) && CoversBase(peers, Some(file))
    requires Read(state, BaseImported) == Null && Read(state, Peers) == PeerList(peers)
    ensures AdminSafe(BaseRows(file, boundaries), state[BaseImported := Flag], Some(file), t, asked, walk)
    ensures AdminTracked(BaseRows(file, boundaries), state[BaseImported := Flag], Some(file), t, asked, walk)
  {
    hide A.AdminResumable, BaseRows, WellFormed;
    BaseRowsAdmins(file, boundaries);
    AdminStarts(BaseRows(file, boundaries), state[BaseImported := Flag], Some(file), t, asked, walk, peers);
  }

  /** The import transaction, once: base messages at or below their boundary and all base admin events. */
  method ImportOnce(cp: Checkpoint, file: BaseFile, boundaries: map<int, nat>, mark: Fingerprint, refresh: nat,
                    peers: seq<Peer>, ghost hs: Histories, ghost t: A.Timeline, ghost asked: nat, ghost walk: A.Walk)
    requires ExportInvariant(cp.records, cp.state, Some(file), refresh, hs)
    requires AdminSafe(cp.records, cp.state, Some(file), t, asked, walk)
    requires WellFormed(file) && BaseMatches(file, BoundariesOf(Some(file), refresh), hs)
    requires boundaries == BoundariesOf(Some(file), refresh) && Read(cp.state, BaseInfo) != Null
    requires Read(cp.state, BaseFingerprint) == Print(mark) && Read(cp.state, Peers) == PeerList(peers)
    modifies cp
    ensures ExportInvariant(cp.records, cp.state, Some(file), refresh, hs)
    ensures AdminSafe(cp.records, cp.state, Some(file), t, asked, walk)
    ensures old(AdminTracked(cp.records, cp.state, Some(file), t, asked, walk)) ==>
              AdminTracked(cp.records, cp.state, Some(file), t, asked, walk)
    ensures Read(cp.state, BaseImported) != Null && Read(cp.state, Peers) == PeerList(peers)
    ensures SameAdminState(old(cp.state), cp.state)
  {
    hide A.AdminResumable, AllParts, WellFormed, BaseMatches, Frozen, Imported, ImportedAdmins, AdminSafe, AdminTracked;
    ghost var pending := Read(cp.state, BaseImported) == Null;
    if pending {
      InvariantAfterImport(cp.state, file, refresh, hs, peers);
      NothingYet(cp.records, cp.state, Some(file), refresh, hs);
      SafeAfterImport(cp.state, file, boundaries, peers, t, asked, walk);
    }
    var ok := cp.ImportBase(file.admins, file.messages, boundaries, mark);
    assert ok;
  }

  lemma NothingYet(records: Records, state: State, file: Option<BaseFile>, refresh: nat, hs: Histories)
    requires ExportInvariant(records, state, file, refresh, hs) && !BaseDone(file, state)
    ensures records == map[]
  {
  }

  /** The base is usable: well formed, and not another file than the one this checkpoint began with. */
  ghost predicate Usable(file: Option<BaseFile>, state: State, mark: Fingerprint) {
    file.Some? ==> WellFormed(file.value) && Read(state, BaseFingerprint) in {Null, Print(mark)}
  }

  /** `_prepare`: the census of the base, the frozen peers and the import, each committed once. */
  method Prepare(cp: Checkpoint, file: Option<BaseFile>, mark: Fingerprint, refresh: nat, current: seq<Peer>,
                 budget: nat, ghost hs: Histories, ghost t: A.Timeline, ghost asked: nat, ghost walk: A.Walk)
    returns (stop: Option<Outcome>, peers: seq<Peer>, boundaries: map<int, nat>, adminMax: nat, commits: nat)
    requires ExportInvariant(cp.records, cp.state, file, refresh, hs)
             && AdminSafe(cp.records, cp.state, file, t, asked, walk)
    requires Frozen(Chosen(cp.state, current), hs) && current != []
    requires file.Some? && WellFormed(file.value) ==> BaseMatches(file.value, BoundariesOf(file, refresh), hs)
    modifies cp
    ensures ExportInvariant(cp.records, cp.state, file, refresh, hs)
            && AdminSafe(cp.records, cp.state, file, t, asked, walk)
    ensures old(AdminTracked(cp.records, cp.state, file, t, asked, walk)) ==>
              AdminTracked(cp.records, cp.state, file, t, asked, walk)
    ensures Read(cp.state, Peers) in {Read(old(cp.state), Peers), PeerList(Chosen(old(cp.state), current))}
    ensures stop.Some? ==> stop.value in {Crashed, Refused}
    ensures commits <= budget && commits <= 3 && SameAdminState(old(cp.state), cp.state)
    ensures stop.None? ==>
              && BaseDone(file, cp.state) && Read(cp.state, Peers) == PeerList(peers) && peers != []
              && peers == Chosen(old(cp.state), current) && Frozen(peers, hs)
              && boundaries == BoundariesOf(file, refresh) && adminMax == AdminMaxOf(file)
    ensures stop == Some(Crashed) ==> commits == budget
    ensures stop == Some(Refused) <==>
              !(file.Some? && budget == 0)
              && !(Usable(file, old(cp.state), mark) && CoversBase(Chosen(old(cp.state), current), file))
  {
    hide A.AdminResumable, AllParts, WellFormed, BaseMatches, Frozen, CoversBase, AdminSafe, AdminTracked,
           ExportInvariant;
    hide BoundariesOf, AdminMaxOf;
    NoBase(refresh);
    stop, peers, boundaries, adminMax, commits := None, Chosen(cp.state, current), map[], 0, 0;
    SavedPeers(cp.records, cp.state, file, refresh, hs, t, asked, walk);
    if file.Some? {
      if budget == 0 {
        stop := Some(Crashed);
        return;
      }
      ghost var state := cp.state;
      var facts, committed := LoadBaseInfo(cp, file.value, mark, refresh, hs);
      SameAdminsAsNow(cp.records);
      SameAdminsSafe(cp.records, cp.records, state, cp.state, file, t, asked, walk);
      if facts.None? {
        stop := Some(Refused);
        return;
      }
      boundaries, adminMax := facts.value.boundaries, facts.value.adminMax;
      commits := if committed then 1 else 0;
    }
    if !CoversBase(peers, file) {
      stop := Some(Refused);
      return;
    }
    if commits == budget {
      stop := Some(Crashed);
      return;
    }
    InvariantAfterPeers(cp.records, cp.state, file, refresh, hs, peers);
    SafeAfterPeers(cp.records, cp.state, file, refresh, hs, peers, t, asked, walk);
    cp.Mark(Peers, PeerList(peers));
    commits := commits + 1;
    if file.Some? {
      if commits == budget {
        stop := Some(Crashed);
        return;
      }
      ImportOnce(cp, file.value, boundaries, mark, refresh, peers, hs, t, asked, walk);
      commits := commits + 1;
    }
  }

  lemma NoBase(refresh: nat)
    ensures BoundariesOf(None, refresh) == map[] && AdminMaxOf(None) == 0
  {
  }

  lemma SavedPeers(records: Records, state: State, file: Option<BaseFile>, refresh: nat, hs: Histories,
                   t: A.Timeline, asked: nat, walk: A.Walk)
    requires ExportInvariant(records, state, file, refresh, hs) && AdminSafe(records, state, file, t, asked, walk)
    ensures Read(state, Peers) != Null ==>
              Read(state, Peers).PeerList? && Read(state, Peers).peers != [] && Frozen(Read(state, Peers).peers, hs)
  {
  }

  // ------------------------------------------------------------------ attempts

  /** What one attempt meets: the base's fingerprint, the group as opened now, the daemons, and where it is cut off. */
  datatype Try = Try(mark: Fingerprint, current: seq<Peer>, admin: A.AdminDaemon, daemons: Peer -> Daemon, budget: nat)

  lemma SafeParts(records: Records, state: State, file: Option<BaseFile>, refresh: nat, hs: Histories,
                  peers: seq<Peer>, t: A.Timeline, asked: nat, walk: A.Walk)
    requires ExportInvariant(records, state, file, refresh, hs) && AdminSafe(records, state, file, t, asked, walk)
    requires BaseDone(file, state) && Read(state, Peers) == PeerList(peers)
    ensures AllParts(records, state, hs, peers, BoundariesOf(file, refresh)) && BaseAdminsKept(records, file)
    ensures peers != [] && A.AdminBounded(records, state, peers[0].dialog, AdminMaxOf(file))
    ensures A.AdminIsDone(state) <==> !walk.ending.Open?
    ensures AdminTracked(records, state, file, t, asked, walk)
            <==> A.AdminResumable(records, state, t, asked, walk, peers[0].dialog, AdminMaxOf(file))
  {
    hide A.AdminResumable;
  }

  /** The admin walk goes on from where an earlier attempt left it. */
  lemma SafeAfterEvents(before: Records, after: Records, s: State, s': State, file: Option<BaseFile>,
                        refresh: nat, hs: Histories, peers: seq<Peer>,
                        t: A.Timeline, asked: nat, more: nat, walk: A.Walk, later: A.Walk)
    requires ExportInvariant(before, s, file, refresh, hs) && AdminSafe(before, s, file, t, asked, walk)
    requires BaseDone(file, s) && Read(s, Peers) == PeerList(peers)
    requires peers != [] && A.OnlyAddsEvents(before, after, peers[0].dialog, AdminMaxOf(file))
             && A.SameRestOfState(s, s')
    requires A.BeganAt(t, asked, more, walk.initial, later.initial, s, s')
    requires A.AdminIsDone(s') <==> !later.ending.Open?
    requires A.AdminBounded(after, s', peers[0].dialog, AdminMaxOf(file))
    ensures ExportInvariant(after, s', file, refresh, hs) && AdminSafe(after, s', file, t, asked + more, later)
    ensures BaseDone(file, s') && Read(s', Peers) == PeerList(peers)
  {
    hide A.AdminBounded, ExportInvariant, A.OnlyAddsEvents, BaseAdminsKept, AdminRowsOf;
    EventsKeepInvariant(before, after, s, s', file, refresh, hs, peers[0].dialog, AdminMaxOf(file));
    EventsKeepAdminRows(before, after, file, peers[0].dialog, AdminMaxOf(file));
    A.BeganTwice(t, asked, more, walk.initial, later.initial, s, s');
    assert Read(s, Peers) == Read(s', Peers) && Read(s, BaseImported) == Read(s', BaseImported);
  }

  /** The group histories leave the admin part as it was. */
  lemma SafeAfterHistories(before: Records, after: Records, s: State, s': State, file: Option<BaseFile>,
                           refresh: nat, hs: Histories, peers: seq<Peer>, t: A.Timeline, asked: nat, walk: A.Walk)
    requires ExportInvariant(before, s, file, refresh, hs) && AdminSafe(before, s, file, t, asked, walk)
    requires BaseDone(file, s) && Read(s, Peers) == PeerList(peers)
    requires AllParts(after, s', hs, peers, BoundariesOf(file, refresh)) && SameAdmins(before, after)
    requires forall key: StateKey :: !key.Cursor? && !key.Done? ==> Read(s, key) == Read(s', key)
    ensures ExportInvariant(after, s', file, refresh, hs) && AdminSafe(after, s', file, t, asked, walk)
    ensures AdminTracked(before, s, file, t, asked, walk) ==> AdminTracked(after, s', file, t, asked, walk)
    ensures BaseDone(file, s') && Read(s', Peers) == PeerList(peers) && A.AdminIsDone(s) == A.AdminIsDone(s')
  {
    hide A.AdminResumable, AllParts, WellFormed, Frozen, CoversBase, AdminSafe, AdminTracked;
    SameAdminsSafe(before, after, s, s', file, t, asked, walk);
  }

  /** Commits that are enough for one attempt: the preparation, the rest of the admin log, and every history. */
  ghost function Enough(state: State, t: A.Timeline, asked: nat, peers: seq<Peer>): int {
    3 + 2 * A.Reach(state, t, asked) + Work(peers)
  }

  /** `_run_export` up to publication: one attempt, cut off after `budget` commits. `asked` numbers its admin
      requests. */
  method Attempt(cp: Checkpoint, file: Option<BaseFile>, refresh: nat, attempt: Try, asked: nat, ghost hs: Histories,
                 ghost t: A.Timeline, ghost walk: A.Walk)
    returns (outcome: Outcome, more: nat, ghost later: A.Walk)
    requires ExportInvariant(cp.records, cp.state, file, refresh, hs)
             && AdminSafe(cp.records, cp.state, file, t, asked, walk)
    requires Frozen(Chosen(cp.state, attempt.current), hs) && attempt.current != []
    requires file.Some? && WellFormed(file.value) ==> BaseMatches(file.value, BoundariesOf(file, refresh), hs)
    requires Serves(attempt.daemons, Chosen(cp.state, attempt.current), BoundariesOf(file, refresh), hs)
    modifies cp
    ensures ExportInvariant(cp.records, cp.state, file, refresh, hs)
    ensures AdminSafe(cp.records, cp.state, file, t, asked + more, later)
    ensures Read(cp.state, Peers) in {Read(old(cp.state), Peers), PeerList(Chosen(old(cp.state), attempt.current))}
    ensures A.EndedBy(attempt.admin, asked, more, walk.ending, later.ending)
    ensures outcome.Finished? ==>
              && Started(cp.state, file) && Read(cp.state, Peers) == PeerList(Chosen(old(cp.state), attempt.current))
              && IsFullExport(cp.records, Chosen(old(cp.state), attempt.current), hs) && A.AdminIsDone(cp.state)
    ensures A.GrowsOnTop(t) && A.FaithfulDaemon(attempt.admin, t, AdminMaxOf(file))
            && old(AdminTracked(cp.records, cp.state, file, t, asked, walk))
            ==> && AdminTracked(cp.records, cp.state, file, t, asked + more, later)
                && (Usable(file, old(cp.state), attempt.mark)
                    && CoversBase(Chosen(old(cp.state), attempt.current), file)
                    && A.NeverLost(attempt.admin)
                    && ReliableFor(attempt.daemons, Chosen(old(cp.state), attempt.current))
                    && attempt.budget > Enough(old(cp.state), t, asked, Chosen(old(cp.state), attempt.current))
                    ==> outcome.Finished?)
  {
    hide A.AdminResumable, A.AdminBounded, A.OnlyAddsEvents, A.SameRestOfState, A.BeganAt, A.EndedBy, A.GrowsOnTop,
         A.FaithfulDaemon;
    hide AllParts, WellFormed, BaseMatches, Frozen, CoversBase, AdminSafe, AdminTracked, ExportInvariant, IsFullExport,
         Serves, SameAdmins, Usable;
    more, later := 0, walk;
    A.EndedAtStart(attempt.admin, asked, walk.ending);
    var stop, peers, boundaries, adminMax, spent :=
      Prepare(cp, file, attempt.mark, refresh, attempt.current, attempt.budget, hs, t, asked, walk);
    if stop.Some? {
      outcome := stop.value;
      return;
    }
    SafeParts(cp.records, cp.state, file, refresh, hs, peers, t, asked, walk);
    ghost var records, state := cp.records, cp.state;
    var commits;
    outcome, more, commits, later :=
      A.ExportAdminLog(cp, peers[0].dialog, adminMax, attempt.admin, asked, attempt.budget - spent, t, walk);
    SafeAfterEvents(records, cp.records, state, cp.state, file, refresh, hs, peers, t, asked, more, walk, later);
    SafeParts(cp.records, cp.state, file, refresh, hs, peers, t, asked + more, later);
    if !outcome.Finished? {
      return;
    }
    records, state := cp.records, cp.state;
    outcome := AllHistories(cp, peers, boundaries, attempt.daemons, attempt.budget - spent - commits, hs);
    SafeAfterHistories(records, cp.records, state, cp.state, file, refresh, hs, peers, t, asked + more, later);
  }

  // ---------------------------------------------------------------- whole runs

  /** The saved admin events: those of the base, and every newer one of the log the walk began with that has not
      expired. */
  ghost predicate AdminsComplete(records: Records, file: Option<BaseFile>, peers: seq<Peer>, now: D.History,
                                 began: D.History) {
    && peers != [] && BaseAdminsKept(records, file)
    && A.Complete(records, began, now, peers[0].dialog, AdminMaxOf(file))
  }

  /** A finished export has all admin events exactly when a page ended the walk, or nothing was left below its
      cursor. */
  lemma FinishedAdmins(records: Records, state: State, file: Option<BaseFile>, t: A.Timeline, asked: nat,
                       walk: A.Walk, peers: seq<Peer>)
    requires A.GrowsOnTop(t) && AdminSafe(records, state, file, t, asked, walk)
    requires AdminTracked(records, state, file, t, asked, walk)
    requires Started(state, file) && Read(state, Peers) == PeerList(peers) && A.AdminIsDone(state)
    ensures AdminsComplete(records, file, peers, t.logs(asked), walk.initial)
            <==> walk.ending.ByPage? || A.NothingBelow(state, walk.initial, t.logs(asked), AdminMaxOf(file))
    ensures walk.ending.ByPage? || walk.ending.ByUnavailable?
  {
    hide A.GrowsOnTop, A.AdminResumable, A.Complete, A.NothingBelow;
    A.CompleteExactlyWhen(records, state, t, asked, walk, peers[0].dialog, AdminMaxOf(file));
  }

  /** The rows a checkpoint can hold: positive ids, of the export's groups, admin events of the first one. */
  ghost predicate Coherent(records: Records, peers: seq<Peer>) {
    && peers != [] && DistinctPeers(peers) && (forall k :: 0 <= k < |peers| ==> peers[k].dialog < 0)
    && forall key: RecordKey :: key in records ==>
         key.id > 0 && if key.kind.MessageKind? then HasPeer(peers, key.peer) else key.peer == peers[0].dialog
  }

  /** Once its groups are known, whatever a checkpoint holds can be published. */
  lemma AlwaysCoherent(records: Records, state: State, file: Option<BaseFile>, refresh: nat, hs: Histories,
                       t: A.Timeline, asked: nat, walk: A.Walk, peers: seq<Peer>)
    requires ExportInvariant(records, state, file, refresh, hs) && AdminSafe(records, state, file, t, asked, walk)
    requires Read(state, Peers) == PeerList(peers)
    ensures Coherent(records, peers)
  {
    hide A.AdminBounded, Resumable, Bounded, SavedWithin;
    if BaseDone(file, state) {
      forall key: RecordKey | key in records
        ensures key.id > 0 && if key.kind.MessageKind? then HasPeer(peers, key.peer) else key.peer == peers[0].dialog
      {
        if key.kind.MessageKind? {
          var k :| 0 <= k < |peers| && peers[k].dialog == key.peer;
          assert PeerPart(records, state, HistoryOf(hs, key.peer), peers[k],
                          MinimumOf(BoundariesOf(file, refresh), key.peer));
          assert key == RecordKey(MessageKind, key.peer, key.id);
          assert Saved(records, key.peer, key.id);
        }
      }
    }
  }

  /** One of the first `n` attempts found the admin log unavailable. */
  ghost predicate MetUnavailable(tries: seq<Try>, n: nat)
    requires n <= |tries|
  {
    exists i, k, b :: 0 <= i < n && tries[i].admin(k, b).Unavailable?
  }

  ghost predicate FaithfulTries(tries: seq<Try>, t: A.Timeline, file: Option<BaseFile>) {
    A.GrowsOnTop(t) && forall i :: 0 <= i < |tries| ==> A.FaithfulDaemon(tries[i].admin, t, AdminMaxOf(file))
  }

  /** The histories as one list of groups finds them at its opening: what is said of a run is about the list it
      keeps. */
  type Openings = seq<Peer> -> Histories

  /** The list fits its histories: no message above its upper ids, the base matches, and every attempt's daemon serves
      it when asked with its upper ids. */
  ghost predicate FitsAll(current: seq<Peer>, file: Option<BaseFile>, refresh: nat, tries: seq<Try>, of: Openings) {
    && Frozen(current, of(current)) && current != []
    && (file.Some? && WellFormed(file.value) ==> BaseMatches(file.value, BoundariesOf(file, refresh), of(current)))
    && forall j :: 0 <= j < |tries| ==> Serves(tries[j].daemons, current, BoundariesOf(file, refresh), of(current))
  }

  /** The histories of the list that was saved; before one is saved nothing depends on them. */
  ghost function Kept(state: State, of: Openings): Histories {
    of(if Read(state, Peers).PeerList? then Read(state, Peers).peers else [])
  }

  /** Any number of attempts over one checkpoint, each cut off anywhere. Each may open the group anew; the first list
      that is saved decides. Wherever they stop, what is saved can be published; if one finishes, every message is
      saved, and every admin event exactly when the log was not cut short. */
  method Run(file: Option<BaseFile>, refresh: nat, tries: seq<Try>, ghost of: Openings, ghost t: A.Timeline)
    returns (cp: Checkpoint, finished: bool, peers: seq<Peer>, asked: nat, ghost walk: A.Walk)
    requires forall i :: 0 <= i < |tries| ==> FitsAll(tries[i].current, file, refresh, tries, of)
    ensures fresh(cp) && ExportInvariant(cp.records, cp.state, file, refresh, Kept(cp.state, of))
    ensures AdminSafe(cp.records, cp.state, file, t, asked, walk)
    ensures Read(cp.state, Peers) != Null ==> Read(cp.state, Peers) == PeerList(peers) && Coherent(cp.records, peers)
    ensures finished ==> FromTries(cp.state, tries) && Read(cp.state, Peers) == PeerList(peers)
    ensures finished ==> IsFullExport(cp.records, peers, of(peers))
    ensures finished ==> exists k: nat :: k < asked && walk.initial == t.logs(k)
    ensures walk.ending.ByUnavailable? ==> MetUnavailable(tries, |tries|)
    ensures finished && FaithfulTries(tries, t, file) ==>
              && (AdminsComplete(cp.records, file, peers, t.logs(asked), walk.initial)
                  <==> walk.ending.ByPage? || A.NothingBelow(cp.state, walk.initial, t.logs(asked), AdminMaxOf(file)))
              && (!MetUnavailable(tries, |tries|) ==>
                    AdminsComplete(cp.records, file, peers, t.logs(asked), walk.initial))
  {
    hide ExportInvariant, AdminSafe, AdminTracked, Serves, Frozen, IsFullExport, BaseMatches, AdminsComplete, Coherent,
         MetUnavailable;
    hide WellFormed, BoundariesOf, AdminMaxOf, A.NothingBelow, A.EndedBy, Kept;
    hide A.GrowsOnTop, A.FaithfulDaemon, Usable, ReliableFor, CoversBase, A.NeverLost, Enough;
    cp := new Checkpoint();
    finished, peers, asked, walk := false, [], 0, A.NO_WALK;
    RunStarts(file, refresh, Kept(map[], of), t);
    ghost var good := FaithfulTries(tries, t, file);
    for i := 0 to |tries|
      invariant fresh(cp) && !finished
      invariant ExportInvariant(cp.records, cp.state, file, refresh, Kept(cp.state, of))
      invariant AdminSafe(cp.records, cp.state, file, t, asked, walk)
      invariant FromTries(cp.state, tries)
      invariant walk.ending.ByUnavailable? ==> MetUnavailable(tries, i)
      invariant good ==> AdminTracked(cp.records, cp.state, file, t, asked, walk)
    {
      ghost var k := ChosenTry(cp.state, tries, i);
      ghost var hs := of(tries[k].current);
      assert FitsAll(tries[k].current, file, refresh, tries, of) && tries[i].current != [];
      KeptIsChosen(cp.records, cp.state, file, refresh, of, tries[k].current);
      ghost var since, sent := walk, asked;
      var outcome, more;
      outcome, more, walk := Attempt(cp, file, refresh, tries[i], asked, hs, t, walk);
      asked := asked + more;
      UnavailableIsMet(tries, i, sent, more, since, walk);
      assert FromTries(cp.state, tries);
      ChosenIsKept(cp.records, cp.state, file, refresh, of, tries[k].current);
      if outcome.Finished? {
        finished, peers := true, Read(cp.state, Peers).peers;
        AlwaysCoherent(cp.records, cp.state, file, refresh, hs, t, asked, walk, peers);
        FinishedBegan(cp.records, cp.state, file, t, asked, walk);
        if good { FinishedAdmins(cp.records, cp.state, file, t, asked, walk, peers); }
        MetSooner(tries, i + 1);
        return;
      }
    }
    ghost var kept := Kept(cp.state, of);
    KnownPeers(cp.records, cp.state, file, refresh, kept);
    if Read(cp.state, Peers) != Null {
      peers := Read(cp.state, Peers).peers;
      AlwaysCoherent(cp.records, cp.state, file, refresh, kept, t, asked, walk, peers);
    }
  }

  /** Without saved groups the invariant speaks of no history. */
  lemma AnyHistories(records: Records, state: State, file: Option<BaseFile>, refresh: nat, hs: Histories,
                     other: Histories)
    requires ExportInvariant(records, state, file, refresh, hs) && Read(state, Peers) == Null
    ensures ExportInvariant(records, state, file, refresh, other)
  {
  }

  lemma KeptIsChosen(records: Records, state: State, file: Option<BaseFile>, refresh: nat, of: Openings,
                     chosen: seq<Peer>)
    requires ExportInvariant(records, state, file, refresh, Kept(state, of))
    requires Read(state, Peers) in {Null, PeerList(chosen)}
    ensures ExportInvariant(records, state, file, refresh, of(chosen))
  {
    hide ExportInvariant;
    if Read(state, Peers) == Null {
      AnyHistories(records, state, file, refresh, Kept(state, of), of(chosen));
    }
  }

  lemma ChosenIsKept(records: Records, state: State, file: Option<BaseFile>, refresh: nat, of: Openings,
                     chosen: seq<Peer>)
    requires ExportInvariant(records, state, file, refresh, of(chosen))
    requires Read(state, Peers) in {Null, PeerList(chosen)}
    ensures ExportInvariant(records, state, file, refresh, Kept(state, of))
  {
    hide ExportInvariant;
    if Read(state, Peers) == Null {
      AnyHistories(records, state, file, refresh, of(chosen), Kept(state, of));
    }
  }

  lemma KnownPeers(records: Records, state: State, file: Option<BaseFile>, refresh: nat, hs: Histories)
    requires ExportInvariant(records, state, file, refresh, hs)
    ensures Read(state, Peers) != Null ==> Read(state, Peers).PeerList?
  {
  }

  lemma UnavailableIsMet(tries: seq<Try>, i: nat, sent: nat, more: nat, since: A.Walk, walk: A.Walk)
    requires i < |tries| && A.EndedBy(tries[i].admin, sent, more, since.ending, walk.ending)
    requires since.ending.ByUnavailable? ==> MetUnavailable(tries, i)
    ensures walk.ending.ByUnavailable? ==> MetUnavailable(tries, i + 1)
  {
  }

  lemma MetSooner(tries: seq<Try>, n: nat)
    requires n <= |tries|
    ensures MetUnavailable(tries, n) ==> MetUnavailable(tries, |tries|)
  {
  }

  lemma FinishedBegan(records: Records, state: State, file: Option<BaseFile>, t: A.Timeline, asked: nat, walk: A.Walk)
    requires AdminSafe(records, state, file, t, asked, walk) && A.AdminIsDone(state)
    ensures exists k: nat :: k < asked && walk.initial == t.logs(k)
    ensures walk.ending.ByPage? || walk.ending.ByUnavailable?
  {
    assert A.Walking(state) && !A.Walking(map[]);
  }

  ghost predicate FromTries(state: State, tries: seq<Try>) {
    Read(state, Peers) != Null ==> exists k :: 0 <= k < |tries| && Read(state, Peers) == PeerList(tries[k].current)
  }

  lemma ChosenTry(state: State, tries: seq<Try>, i: nat) returns (k: nat)
    requires FromTries(state, tries) && i < |tries|
    ensures k < |tries| && tries[k].current == Chosen(state, tries[i].current)
    ensures Read(state, Peers) in {Null, PeerList(tries[k].current)}
  {
    k := i;
    if Read(state, Peers).PeerList? {
      k :| 0 <= k < |tries| && Read(state, Peers) == PeerList(tries[k].current);
    }
  }

  lemma RunStarts(file: Option<BaseFile>, refresh: nat, hs: Histories, t: A.Timeline)
    ensures ExportInvariant(map[], map[], file, refresh, hs) && AdminSafe(map[], map[], file, t, 0, A.NO_WALK)
    ensures AdminTracked(map[], map[], file, t, 0, A.NO_WALK)
  {
  }

  // ---------------------------------------------------- an update and a fresh export

  ghost predicate SameGroups(first: seq<Peer>, second: seq<Peer>) {
    forall p :: HasPeer(first, p) <==> HasPeer(second, p)
  }

  /** Two runs, one that updates a base and one that starts from nothing, each cut off and resumed in its own way. If
      both finish, kept the same groups with the same histories, and nothing vanished meanwhile, they saved the same
      messages. */
  method UpdateAndFresh(base: BaseFile, refresh: nat, updates: seq<Try>, exports: seq<Try>, ghost of: Openings,
                        ghost t: A.Timeline)
    returns (updated: Checkpoint, anew: Checkpoint, both: bool, peers: seq<Peer>, groups: seq<Peer>)
    requires forall i :: 0 <= i < |updates| ==> FitsAll(updates[i].current, Some(base), refresh, updates, of)
    requires forall i :: 0 <= i < |exports| ==> FitsAll(exports[i].current, None, refresh, exports, of)
    ensures fresh(updated) && fresh(anew)
    ensures both && SameGroups(peers, groups) && of(peers) == of(groups) && Still(of(peers)) ==>
              forall key: RecordKey :: key.kind.MessageKind? ==>
                && (key in updated.records <==> key in anew.records)
                && (key in updated.records ==> updated.records[key] == anew.records[key])
  {
    hide FitsAll, IsFullExport, ExportInvariant, AdminSafe, Coherent, MetUnavailable, FaithfulTries, AdminsComplete,
         SameGroups, Still;
    var first, second, n;
    ghost var walk;
    updated, first, peers, n, walk := Run(Some(base), refresh, updates, of, t);
    anew, second, groups, n, walk := Run(None, refresh, exports, of, t);
    both := first && second;
    if both && SameGroups(peers, groups) && of(peers) == of(groups) && Still(of(peers)) {
      FullExportsAgree(updated.records, anew.records, peers, groups, of(peers));
    }
  }

  /** Two exports of the same still histories save the same messages. */
  lemma FullExportsAgree(first: Records, second: Records, peers: seq<Peer>, groups: seq<Peer>, hs: Histories)
    requires IsFullExport(first, peers, hs) && IsFullExport(second, groups, hs)
    requires SameGroups(peers, groups) && Still(hs)
    ensures forall key: RecordKey :: key.kind.MessageKind? ==>
              (key in first <==> key in second) && (key in first ==> first[key] == second[key])
  {
    forall key: RecordKey | key.kind.MessageKind?
      ensures (key in first <==> key in second) && (key in first ==> first[key] == second[key])
    {
      StillExportIsExact(first, peers, hs, key);
      StillExportIsExact(second, groups, hs, key);
    }
  }
}
