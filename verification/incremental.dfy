/** A whole export over its attempts: base import, frozen peers, every peer's history; crashes in between. */
module IncrementalExport {
  import opened Common
  import opened TelegramPages
  import opened CheckpointStore
  import opened ExportClient
  import opened BaseCensus
  import D = ExportDaemon

  /** The history of each group while it is exported, up to the newest id at opening time. */
  type Histories = map<int, Era>

  function HistoryOf(hs: Histories, dialog: int): Era {
    if dialog in hs then hs[dialog] else Era(map[], map[])
  }

  function MinimumOf(boundaries: map<int, nat>, dialog: int): nat {
    if dialog in boundaries then boundaries[dialog] else 0
  }

  ghost predicate DistinctPeers(peers: seq<Peer>) {
    forall i, j :: 0 <= i < j < |peers| ==> peers[i].dialog != peers[j].dialog
  }

  /** The groups as opening finds them: negative dialog ids, and no message above the frozen upper id. */
  ghost predicate Frozen(peers: seq<Peer>, hs: Histories) {
    && DistinctPeers(peers) && (forall k :: 0 <= k < |peers| ==> peers[k].dialog < 0)
    && forall k :: 0 <= k < |peers| ==> FrozenAt(HistoryOf(hs, peers[k].dialog), peers[k].upper)
  }

  ghost predicate FrozenAt(e: Era, upper: nat) {
    && During(e, e.ever)
    && forall id :: id in e.ever ==> 0 < id <= upper
  }

  /** Nothing vanishes while the histories are exported. */
  ghost predicate Still(hs: Histories) {
    forall p :: HistoryOf(hs, p).kept == HistoryOf(hs, p).ever
  }

  /** At or below a peer's boundary the base file holds every message that stays, and no other than of this history. */
  ghost predicate BaseMatches(file: BaseFile, boundaries: map<int, nat>, hs: Histories) {
    && (forall i :: 0 <= i < |file.messages| ==>
          var m := file.messages[i];
          m.id <= MinimumOf(boundaries, m.peer) ==>
            D.IsMessage(HistoryOf(hs, m.peer).ever, m.id) && HistoryOf(hs, m.peer).ever[m.id].payload == m.payload)
    && (forall p, id :: p in file.peers && id <= MinimumOf(boundaries, p) && D.IsMessage(HistoryOf(hs, p).kept, id) ==>
          id in IdsOf(file.messages, p))
  }

  predicate HasPeer(peers: seq<Peer>, dialog: int) {
    exists k :: 0 <= k < |peers| && peers[k].dialog == dialog
  }

  /** Every message that stayed is saved, and nothing that never was one, each with its content. */
  ghost predicate IsFullExport(records: Records, peers: seq<Peer>, hs: Histories) {
    forall key: RecordKey :: key.kind.MessageKind? ==>
      && (HasPeer(peers, key.peer) && D.IsMessage(HistoryOf(hs, key.peer).kept, key.id) ==> key in records)
      && (key in records ==>
            && HasPeer(peers, key.peer) && D.IsMessage(HistoryOf(hs, key.peer).ever, key.id)
            && records[key] == HistoryOf(hs, key.peer).ever[key.id].payload)
  }

  /** When nothing vanishes meanwhile, the rows are exactly the messages of the frozen histories. */
  lemma StillExportIsExact(records: Records, peers: seq<Peer>, hs: Histories, key: RecordKey)
    requires IsFullExport(records, peers, hs) && Still(hs) && key.kind.MessageKind?
    ensures key in records <==> HasPeer(peers, key.peer) && D.IsMessage(HistoryOf(hs, key.peer).ever, key.id)
  {
  }

  // ---------------------------------------------------------------- invariant

  /** One peer's part: the base range is exact, and above it the page loop's own invariant holds. */
  ghost predicate PeerPart(records: Records, state: State, h: Era, peer: Peer, minimum: nat) {
    && SavedWithin(records, h, peer.dialog, 1, minimum)
    && (forall id :: id <= 0 ==> !Saved(records, peer.dialog, id))
    && Bounded(records, state, peer.dialog, minimum, peer.upper)
    && Resumable(records, state, h, peer.dialog, minimum, peer.upper)
  }

  ghost predicate AllParts(records: Records, state: State, hs: Histories, peers: seq<Peer>, boundaries: map<int, nat>) {
    && (forall k :: 0 <= k < |peers| ==>
          PeerPart(records, state, HistoryOf(hs, peers[k].dialog), peers[k], MinimumOf(boundaries, peers[k].dialog)))
    && (forall key :: key in records && key.kind.MessageKind? ==> HasPeer(peers, key.peer))
  }

  ghost predicate Untouched(records: Records, state: State) {
    records == map[] && forall p :: CursorOf(state, p) == 0 && !IsDone(state, p)
  }

  /** Work done for one peer leaves every other peer's part as it was. */
  lemma OtherPartsKept(before: Records, after: Records, state: State, state': State, h: Era, peer: Peer,
                       minimum: nat, worked: int, floor: nat)
    requires PeerPart(before, state, h, peer, minimum) && peer.dialog != worked
    requires OnlyAdds(before, after, worked, floor) && SameOtherState(state, state', worked)
    ensures PeerPart(after, state', h, peer, minimum)
  {
    hide Frontier;
    assert Read(state, Cursor(peer.dialog)) == Read(state', Cursor(peer.dialog));
    assert Read(state, Done(peer.dialog)) == Read(state', Done(peer.dialog));
    forall id ensures Saved(before, peer.dialog, id) <==> Saved(after, peer.dialog, id) {
      var key := RecordKey(MessageKind, peer.dialog, id);
      assert key in after && key !in before ==> key.peer == worked;
    }
    forall id | Saved(before, peer.dialog, id)
      ensures after[RecordKey(MessageKind, peer.dialog, id)] == before[RecordKey(MessageKind, peer.dialog, id)]
    {
    }
  }

  /** The peer that was worked on keeps its base range, which lies below everything the loop adds. */
  lemma BaseRangeKept(before: Records, after: Records, h: Era, peer: int, minimum: nat)
    requires SavedWithin(before, h, peer, 1, minimum) && (forall id :: id <= 0 ==> !Saved(before, peer, id))
    requires OnlyAdds(before, after, peer, minimum)
    ensures SavedWithin(after, h, peer, 1, minimum) && (forall id :: id <= 0 ==> !Saved(after, peer, id))
  {
  }

  lemma PartIsExact(records: Records, state: State, e: Era, peer: Peer, minimum: nat, id: int)
    requires PeerPart(records, state, e, peer, minimum) && IsDone(state, peer.dialog) && FrozenAt(e, peer.upper)
    ensures D.IsMessage(e.kept, id) ==> Saved(records, peer.dialog, id)
    ensures Saved(records, peer.dialog, id) ==>
              D.IsMessage(e.ever, id) && records[RecordKey(MessageKind, peer.dialog, id)] == e.ever[id].payload
  {
    assert D.IsMessage(e.kept, id) ==> D.IsMessage(e.ever, id);
  }

  /** Once every peer is marked done, the checkpoint is the full export of the frozen histories. */
  lemma AllDoneIsFullExport(records: Records, state: State, hs: Histories, peers: seq<Peer>, boundaries: map<int, nat>)
    requires AllParts(records, state, hs, peers, boundaries) && Frozen(peers, hs)
    requires forall k :: 0 <= k < |peers| ==> IsDone(state, peers[k].dialog)
    ensures IsFullExport(records, peers, hs)
  {
    forall key: RecordKey | key.kind.MessageKind?
      ensures HasPeer(peers, key.peer) && D.IsMessage(HistoryOf(hs, key.peer).kept, key.id) ==> key in records
      ensures key in records ==>
                && HasPeer(peers, key.peer) && D.IsMessage(HistoryOf(hs, key.peer).ever, key.id)
                && records[key] == HistoryOf(hs, key.peer).ever[key.id].payload
    {
      if HasPeer(peers, key.peer) {
        var k :| 0 <= k < |peers| && peers[k].dialog == key.peer;
        var e := HistoryOf(hs, key.peer);
        assert PeerPart(records, state, e, peers[k], MinimumOf(boundaries, key.peer));
        assert FrozenAt(e, peers[k].upper);
        assert key == RecordKey(MessageKind, key.peer, key.id);
        PartIsExact(records, state, e, peers[k], MinimumOf(boundaries, key.peer), key.id);
      }
    }
  }

  // ------------------------------------------------------------------- import

  ghost predicate OnlyAdmins(records: Records) {
    forall key :: key in records ==> key.kind.AdminKind?
  }

  /** The admin rows of two tables are the same. */
  ghost predicate SameAdmins(before: Records, after: Records) {
    forall key: RecordKey :: key.kind.AdminKind? ==>
      (key in before <==> key in after) && (key in before ==> before[key] == after[key])
  }

  /** Importing a well-formed base saves exactly its messages at or below their boundary. */
  lemma {:induction false} ImportedKeys(start: Records, ms: seq<BaseMessage>, boundaries: map<int, nat>, peer: int,
                                        id: int)
    requires OnlyAdmins(start)
    ensures Saved(Imported(start, ms, boundaries), peer, id) <==>
              id in IdsOf(ms, peer) && !(peer in boundaries && id > boundaries[peer])
    ensures SameAdmins(start, Imported(start, ms, boundaries))
    ensures Saved(Imported(start, ms, boundaries), peer, id) ==>
              exists i :: 0 <= i < |ms| && ms[i].peer == peer && ms[i].id == id
                          && Imported(start, ms, boundaries)[RecordKey(MessageKind, peer, id)] == ms[i].payload
  {
    if ms != [] {
      var n := |ms| - 1;
      var rest := Imported(start, ms[..n], boundaries);
      ImportedKeys(start, ms[..n], boundaries, peer, id);
      if Saved(rest, peer, id) {
        var i :| 0 <= i < n && ms[..n][i].peer == peer && ms[..n][i].id == id
                 && rest[RecordKey(MessageKind, peer, id)] == ms[..n][i].payload;
        assert ms[i].peer == peer;
      }
    }
  }

  ghost predicate HasEvent(admins: seq<AdminEvent>, id: int) {
    exists i :: 0 <= i < |admins| && admins[i].id == id
  }

  lemma HasEventStep(admins: seq<AdminEvent>, id: int)
    requires admins != []
    ensures HasEvent(admins, id) <==> HasEvent(admins[..|admins| - 1], id) || id == admins[|admins| - 1].id
  {
    var n := |admins| - 1;
    if HasEvent(admins, id) && id != admins[n].id {
      var i :| 0 <= i < |admins| && admins[i].id == id;
      assert admins[..n][i].id == id;
    }
    if HasEvent(admins[..n], id) {
      var i :| 0 <= i < n && admins[..n][i].id == id;
      assert admins[i].id == id;
    }
  }

  /** The imported admin rows are the admin events of the base, with their content. */
  lemma {:induction false} ImportedAdminKeys(group: int, admins: seq<AdminEvent>)
    requires AdminsOrdered(group, admins)
    ensures OnlyAdmins(ImportedAdmins(map[], admins))
    ensures forall key :: key in ImportedAdmins(map[], admins) ==> key.peer == group && HasEvent(admins, key.id)
    ensures forall i :: 0 <= i < |admins| ==>
              var key := RecordKey(AdminKind, group, admins[i].id);
              key in ImportedAdmins(map[], admins) && ImportedAdmins(map[], admins)[key] == admins[i].payload
  {
    hide HasEvent;
    if admins != [] {
      var n := |admins| - 1;
      ImportedAdminKeys(group, admins[..n]);
      NewestIsFirst(group, admins);
      forall id ensures HasEvent(admins, id) <==> HasEvent(admins[..n], id) || id == admins[n].id {
        HasEventStep(admins, id);
      }
    }
  }

  lemma NewestIsFirst(group: int, admins: seq<AdminEvent>)
    requires AdminsOrdered(group, admins) && admins != []
    ensures !HasEvent(admins[..|admins| - 1], admins[|admins| - 1].id)
    ensures forall id :: HasEvent(admins, id) ==> 0 < id <= admins[0].id
  {
  }

  /** The rows the import transaction leaves. */
  function BaseRows(file: BaseFile, boundaries: map<int, nat>): Records {
    Imported(ImportedAdmins(map[], file.admins), file.messages, boundaries)
  }

  lemma UntouchedPart(records: Records, state: State, e: Era, peer: Peer, minimum: nat)
    requires forall p :: CursorOf(state, p) == 0 && !IsDone(state, p)
    requires FrozenAt(e, peer.upper)
    requires forall id :: D.IsMessage(e.kept, id) && id <= minimum ==> Saved(records, peer.dialog, id)
    requires forall id :: Saved(records, peer.dialog, id) ==>
               && id <= minimum && D.IsMessage(e.ever, id)
               && records[RecordKey(MessageKind, peer.dialog, id)] == e.ever[id].payload
    ensures PeerPart(records, state, e, peer, minimum)
  {
  }

  /** After the import transaction every peer starts from an exact base range and nothing above it. */
  lemma ImportStartsAllParts(file: BaseFile, refresh: nat, boundaries: map<int, nat>, state: State,
                             peers: seq<Peer>, hs: Histories)
    requires WellFormed(file) && Frozen(peers, hs)
    requires forall p :: p in boundaries <==> p in file.peers
    requires BaseMatches(file, boundaries, hs)
    requires forall p :: p in file.peers ==> HasPeer(peers, p)
    requires forall p :: CursorOf(state, p) == 0 && !IsDone(state, p)
    ensures AllParts(BaseRows(file, boundaries), state, hs, peers, boundaries)
  {
    var start := ImportedAdmins(map[], file.admins);
    var records := BaseRows(file, boundaries);
    ImportedAdminKeys(file.group, file.admins);
    forall k | 0 <= k < |peers|
      ensures PeerPart(records, state, HistoryOf(hs, peers[k].dialog), peers[k], MinimumOf(boundaries, peers[k].dialog))
    {
      var p := peers[k].dialog;
      var e := HistoryOf(hs, p);
      forall id
        ensures D.IsMessage(e.kept, id) && id <= MinimumOf(boundaries, p) ==> Saved(records, p, id)
        ensures Saved(records, p, id) ==>
                  && id <= MinimumOf(boundaries, p) && D.IsMessage(e.ever, id)
                  && records[RecordKey(MessageKind, p, id)] == e.ever[id].payload
      {
        ImportedKeys(start, file.messages, boundaries, p, id);
        IdsAreMembers(file.messages, p, id);
        assert D.IsMessage(e.kept, id) ==> D.IsMessage(e.ever, id) && id > 0;
      }
      UntouchedPart(records, state, e, peers[k], MinimumOf(boundaries, p));
    }
    forall key | key in records && key.kind.MessageKind?
      ensures HasPeer(peers, key.peer)
    {
      assert key == RecordKey(MessageKind, key.peer, key.id) && Saved(records, key.peer, key.id);
      ImportedKeys(start, file.messages, boundaries, key.peer, key.id);
      IdsAreMembers(file.messages, key.peer, key.id);
    }
  }

  lemma EmptyStartsAllParts(state: State, peers: seq<Peer>, hs: Histories)
    requires Frozen(peers, hs) && forall p :: CursorOf(state, p) == 0 && !IsDone(state, p)
    ensures AllParts(map[], state, hs, peers, map[])
  {
  }

  // ----------------------------------------------------------------- attempts

  /** The boundaries the census of a well-formed base fixes; none without a base. */
  ghost function BoundariesOf(file: Option<BaseFile>, refresh: nat): map<int, nat> {
    if file.None? then map[]
    else map p | p in file.value.peers :: Max(0, Boundary(IdsOf(file.value.messages, p), refresh))
  }

  /** The newest admin event of the base; the log is fetched above it. */
  function AdminMaxOf(file: Option<BaseFile>): nat {
    if file.None? || file.value.admins == [] then 0 else Max(0, file.value.admins[0].id)
  }

  /** It is the newest: no event of the base is newer, and one is as new. */
  lemma AdminMaxIsNewest(file: BaseFile)
    requires WellFormed(file)
    ensures AdminMaxOf(None) == 0
    ensures forall i :: 0 <= i < |file.admins| ==> file.admins[i].id <= AdminMaxOf(Some(file))
    ensures if file.admins == [] then AdminMaxOf(Some(file)) == 0
            else exists i :: 0 <= i < |file.admins| && file.admins[i].id == AdminMaxOf(Some(file))
  {
    if file.admins != [] { assert file.admins[0].id == AdminMaxOf(Some(file)); }
  }

  ghost function FactsOf(file: Option<BaseFile>, refresh: nat): StateValue {
    BaseFacts(BoundariesOf(file, refresh), AdminMaxOf(file))
  }

  predicate BaseDone(file: Option<BaseFile>, state: State) {
    file.None? || Read(state, BaseImported) != Null
  }

  predicate CoversBase(peers: seq<Peer>, file: Option<BaseFile>) {
    file.Some? ==> peers != [] && peers[0].dialog == file.value.group
                   && forall p :: p in file.value.peers ==> HasPeer(peers, p)
  }

  /** What every attempt finds and leaves, wherever it stops. */
  ghost predicate ExportInvariant(records: Records, state: State, file: Option<BaseFile>, refresh: nat, hs: Histories) {
    && (Read(state, BaseInfo) != Null ==>
          && file.Some? && WellFormed(file.value) && Read(state, BaseInfo) == FactsOf(file, refresh)
          && Read(state, BaseFingerprint) != Null)
    && (Read(state, Peers) != Null ==>
          Read(state, Peers).PeerList? && Frozen(Read(state, Peers).peers, hs)
            && CoversBase(Read(state, Peers).peers, file))
    && (Read(state, BaseImported) != Null ==> Read(state, Peers) != Null && Read(state, BaseInfo) != Null)
    && (if BaseDone(file, state) && Read(state, Peers) != Null
        then AllParts(records, state, hs, Read(state, Peers).peers, BoundariesOf(file, refresh))
        else Untouched(records, state))
  }

  /** The peers this export is about: the saved list, or what opening the group yields now. */
  function Chosen(state: State, current: seq<Peer>): seq<Peer> {
    if Read(state, Peers).PeerList? then Read(state, Peers).peers else current
  }

  /** The daemon, asked with a peer's own upper id, serves that peer's frozen history. */
  ghost predicate Serves(daemons: Peer -> Daemon, peers: seq<Peer>, boundaries: map<int, nat>, hs: Histories) {
    forall k :: 0 <= k < |peers| ==>
      ConformingDaemon(daemons(peers[k]), HistoryOf(hs, peers[k].dialog), peers[k].dialog,
                       MinimumOf(boundaries, peers[k].dialog), peers[k].upper)
  }

  /** Commits that are enough for every group's history: two for each id, and a completion flag. */
  function Work(peers: seq<Peer>): nat {
    if peers == [] then 0 else 2 * (peers[0].upper + 1) + 1 + Work(peers[1..])
  }

  ghost predicate ReliableFor(daemons: Peer -> Daemon, peers: seq<Peer>) {
    forall k :: 0 <= k < |peers| ==> Reliable(daemons(peers[k]))
  }

  /** The groups one after another, each resumed where it stands. */
  method AllHistories(cp: Checkpoint, peers: seq<Peer>, boundaries: map<int, nat>, daemons: Peer -> Daemon, budget: nat,
                      ghost hs: Histories)
    returns (outcome: Outcome)
    requires AllParts(cp.records, cp.state, hs, peers, boundaries) && Frozen(peers, hs)
    requires Serves(daemons, peers, boundaries, hs)
    modifies cp
    ensures AllParts(cp.records, cp.state, hs, peers, boundaries)
    ensures forall key: StateKey :: !key.Cursor? && !key.Done? ==> Read(old(cp.state), key) == Read(cp.state, key)
    ensures SameAdmins(old(cp.records), cp.records)
    ensures outcome.Finished? ==> IsFullExport(cp.records, peers, hs)
    ensures !outcome.Refused?
    ensures ReliableFor(daemons, peers) && budget >= Work(peers) ==> outcome.Finished?
  {
    hide AllParts, PeerPart, Serves, ConformingDaemon, Resumable, Bounded, OnlyAdds, SameOtherState, Frozen, SameAdmins;
    hide IsFullExport, Frontier;
    var left: nat := budget;
    SameAdminsAsNow(cp.records);
    for i := 0 to |peers|
      invariant left <= budget && (budget >= Work(peers) ==> left >= Work(peers[i..]))
      invariant AllParts(cp.records, cp.state, hs, peers, boundaries)
      invariant forall key: StateKey :: !key.Cursor? && !key.Done? ==> Read(old(cp.state), key) == Read(cp.state, key)
      invariant SameAdmins(old(cp.records), cp.records)
      invariant forall k :: 0 <= k < i ==> IsDone(cp.state, peers[k].dialog)
    {
      ghost var records, state := cp.records, cp.state;
      var peer := peers[i];
      var minimum := MinimumOf(boundaries, peer.dialog);
      ghost var e := HistoryOf(hs, peer.dialog);
      OnePeerReady(records, state, hs, peers, boundaries, daemons, i);
      assert peers[i..][0] == peer && peers[i..][1..] == peers[i + 1..];
      var requests, commits;
      outcome, requests, commits := HistoryPeer(cp, peer.dialog, minimum, peer.upper, daemons(peer), 0, left, e);
      left := left - commits;
      OnePeerWorked(records, cp.records, state, cp.state, hs, peers, boundaries, i);
      AdminsUntouched(old(cp.records), records, cp.records, peer.dialog, minimum);
      OtherStateUntouched(state, cp.state, peer.dialog);
      if !outcome.Finished? {
        return;
      }
    }
    AllDoneIsFullExport(cp.records, cp.state, hs, peers, boundaries);
    outcome := Finished;
  }

  lemma SameAdminsAsNow(records: Records)
    ensures SameAdmins(records, records)
  {
  }

  lemma AdminsUntouched(first: Records, before: Records, after: Records, peer: int, minimum: nat)
    requires SameAdmins(first, before) && OnlyAdds(before, after, peer, minimum)
    ensures SameAdmins(first, after)
  {
  }

  lemma OtherStateUntouched(before: State, after: State, peer: int)
    requires SameOtherState(before, after, peer)
    ensures forall key: StateKey :: !key.Cursor? && !key.Done? ==> Read(before, key) == Read(after, key)
  {
  }

  lemma OnePeerReady(records: Records, state: State, hs: Histories, peers: seq<Peer>, boundaries: map<int, nat>,
                     daemons: Peer -> Daemon, i: nat)
    requires AllParts(records, state, hs, peers, boundaries) && Serves(daemons, peers, boundaries, hs) && i < |peers|
    ensures var p, minimum := peers[i].dialog, MinimumOf(boundaries, peers[i].dialog);
            && Bounded(records, state, p, minimum, peers[i].upper)
            && Resumable(records, state, HistoryOf(hs, p), p, minimum, peers[i].upper)
            && ConformingDaemon(daemons(peers[i]), HistoryOf(hs, p), p, minimum, peers[i].upper)
            && Frontier(CursorOf(state, p), peers[i].upper) <= peers[i].upper + 1
  {
    hide ConformingDaemon;
    assert PeerPart(records, state, HistoryOf(hs, peers[i].dialog), peers[i], MinimumOf(boundaries, peers[i].dialog));
  }

  lemma OnePeerWorked(before: Records, after: Records, state: State, state': State, hs: Histories, peers: seq<Peer>,
                      boundaries: map<int, nat>, i: nat)
    requires AllParts(before, state, hs, peers, boundaries) && Frozen(peers, hs) && i < |peers|
    requires var minimum := MinimumOf(boundaries, peers[i].dialog);
             && OnlyAdds(before, after, peers[i].dialog, minimum)
             && Bounded(after, state', peers[i].dialog, minimum, peers[i].upper)
             && Resumable(after, state', HistoryOf(hs, peers[i].dialog), peers[i].dialog, minimum, peers[i].upper)
    requires SameOtherState(state, state', peers[i].dialog)
    ensures AllParts(after, state', hs, peers, boundaries)
    ensures forall k :: 0 <= k < |peers| && k != i ==> IsDone(state, peers[k].dialog) == IsDone(state', peers[k].dialog)
  {
    hide Bounded, Resumable, SavedWithin;
    var minimum := MinimumOf(boundaries, peers[i].dialog);
    forall k | 0 <= k < |peers|
      ensures PeerPart(after, state', HistoryOf(hs, peers[k].dialog), peers[k], MinimumOf(boundaries, peers[k].dialog))
    {
      var h := HistoryOf(hs, peers[k].dialog);
      assert PeerPart(before, state, h, peers[k], MinimumOf(boundaries, peers[k].dialog));
      if k == i {
        BaseRangeKept(before, after, h, peers[i].dialog, minimum);
      } else {
        assert peers[k].dialog != peers[i].dialog;
        OtherPartsKept(before, after, state, state', h, peers[k], MinimumOf(boundaries, peers[k].dialog),
                       peers[i].dialog, minimum);
      }
    }
    forall key | key in after && key.kind.MessageKind? ensures HasPeer(peers, key.peer) {
      if key !in before { assert peers[i].dialog == key.peer; }
    }
  }

  lemma CensusBoundaries(file: BaseFile, refresh: nat, boundaries: map<int, nat>)
    requires WellFormed(file)
    requires forall p :: p in boundaries <==> p in file.peers
    requires forall p :: p in file.peers ==> boundaries[p] == Boundary(IdsOf(file.messages, p), refresh)
    ensures boundaries == BoundariesOf(Some(file), refresh)
  {
    forall p | p in file.peers ensures Boundary(IdsOf(file.messages, p), refresh) >= 0 {
      IdsDescend(file.version, file.peers, file.messages, p);
      var ids := IdsOf(file.messages, p);
      assert |ids| > refresh ==> ids[refresh] in ids;
    }
    var expected := BoundariesOf(Some(file), refresh);
    assert forall p :: p in expected <==> p in boundaries;
    assert forall p :: p in expected ==> expected[p] == boundaries[p];
  }

  /** `_base_info`: the census is taken once and pinned to the base's fingerprint. */
  method LoadBaseInfo(cp: Checkpoint, file: BaseFile, mark: Fingerprint, refresh: nat, ghost hs: Histories)
    returns (r: Option<StateValue>, committed: bool)
    requires ExportInvariant(cp.records, cp.state, Some(file), refresh, hs)
    modifies cp
    ensures ExportInvariant(cp.records, cp.state, Some(file), refresh, hs)
    ensures Read(cp.state, Peers) == Read(old(cp.state), Peers)
    ensures cp.records == old(cp.records) && forall key: StateKey :: !key.BaseInfo? && !key.BaseFingerprint? ==>
              Read(cp.state, key) == Read(old(cp.state), key)
    ensures r.Some? ==> && WellFormed(file) && r.value == FactsOf(Some(file), refresh)
                        && Read(cp.state, BaseInfo) == r.value && Read(cp.state, BaseFingerprint) == Print(mark)
    ensures r.Some? <==> WellFormed(file) && Read(old(cp.state), BaseFingerprint) in {Null, Print(mark)}
  {
    hide WellFormed, Boundary, IdsOf, AllParts, Frozen, CoversBase, BoundariesOf, Untouched;
    var saved := Read(cp.state, BaseFingerprint);
    committed := false;
    if saved != Null && saved != Print(mark) {
      return None, committed;
    }
    var known := Read(cp.state, BaseInfo);
    if known != Null && saved == Null {
      return None, committed;
    }
    if known != Null {
      assert WellFormed(file);
      return Some(known), committed;
    }
    var census := TakeCensus(file, refresh);
    if census.Err? {
      return None, committed;
    }
    CensusBoundaries(file, refresh, census.value.boundaries);
    ghost var state := cp.state;
    var facts := BaseFacts(census.value.boundaries, census.value.adminMax);
    cp.MarkMany(map[BaseInfo := facts, BaseFingerprint := Print(mark)]);
    InvariantAfterInfo(cp.records, state, cp.state, Some(file), refresh, hs);
    return Some(facts), true;
  }

  lemma InvariantAfterInfo(records: Records, state: State, state': State, file: Option<BaseFile>, refresh: nat,
                           hs: Histories)
    requires ExportInvariant(records, state, file, refresh, hs)
    requires file.Some? && WellFormed(file.value) && Read(state, BaseInfo) == Null
    requires Read(state', BaseInfo) == FactsOf(file, refresh) && Read(state', BaseFingerprint) != Null
    requires forall key: StateKey :: !key.BaseInfo? && !key.BaseFingerprint? ==> Read(state, key) == Read(state', key)
    ensures ExportInvariant(records, state', file, refresh, hs)
  {
    forall p ensures CursorOf(state', p) == CursorOf(state, p) && IsDone(state', p) == IsDone(state, p) {
      assert Read(state, Cursor(p)) == Read(state', Cursor(p)) && Read(state, Done(p)) == Read(state', Done(p));
    }
  }

  /** Storing the peer list freezes the upper ids; without a base the histories start at once. */
  lemma InvariantAfterPeers(records: Records, state: State, file: Option<BaseFile>, refresh: nat, hs: Histories,
                            peers: seq<Peer>)
    requires ExportInvariant(records, state, file, refresh, hs)
    requires Read(state, Peers) in {Null, PeerList(peers)} && Frozen(peers, hs) && CoversBase(peers, file)
    ensures ExportInvariant(records, state[Peers := PeerList(peers)], file, refresh, hs)
  {
    hide ExportInvariant, Frozen, CoversBase;
    if Read(state, Peers) == Null {
      FirstPeers(records, state, file, refresh, hs, peers);
    } else {
      SamePeersAgain(records, state, file, refresh, hs, peers);
    }
  }

  lemma PeersTouchNoCursor(state: State, peers: seq<Peer>)
    ensures var after := state[Peers := PeerList(peers)];
            && (forall p :: CursorOf(after, p) == CursorOf(state, p))
            && (forall p :: IsDone(after, p) == IsDone(state, p))
            && forall p ::
                 && Read(after, Cursor(p)) == Read(state, Cursor(p))
                 && Read(after, Done(p)) == Read(state, Done(p))
  {
  }

  lemma FirstPeers(records: Records, state: State, file: Option<BaseFile>, refresh: nat, hs: Histories,
                   peers: seq<Peer>)
    requires ExportInvariant(records, state, file, refresh, hs)
    requires Read(state, Peers) == Null && Frozen(peers, hs) && CoversBase(peers, file)
    ensures ExportInvariant(records, state[Peers := PeerList(peers)], file, refresh, hs)
  {
    hide Frozen, CoversBase, AllParts, WellFormed;
    PeersTouchNoCursor(state, peers);
    if file.None? { EmptyStartsAllParts(state[Peers := PeerList(peers)], peers, hs); }
  }

  lemma SamePeersAgain(records: Records, state: State, file: Option<BaseFile>, refresh: nat, hs: Histories,
                       peers: seq<Peer>)
    requires ExportInvariant(records, state, file, refresh, hs) && Read(state, Peers) == PeerList(peers)
    ensures ExportInvariant(records, state[Peers := PeerList(peers)], file, refresh, hs)
  {
    hide Frozen, CoversBase, AllParts, WellFormed;
    PeersTouchNoCursor(state, peers);
    SameReadsSameParts(records, state, state[Peers := PeerList(peers)], hs, peers, BoundariesOf(file, refresh));
  }

  lemma SameReadsSameParts(records: Records, state: State, state': State, hs: Histories, peers: seq<Peer>,
                           boundaries: map<int, nat>)
    requires forall p ::
               Read(state', Cursor(p)) == Read(state, Cursor(p)) && Read(state', Done(p)) == Read(state, Done(p))
    ensures AllParts(records, state, hs, peers, boundaries) ==> AllParts(records, state', hs, peers, boundaries)
  {
  }

  lemma InvariantAfterImport(state: State, file: BaseFile, refresh: nat, hs: Histories, peers: seq<Peer>)
    requires ExportInvariant(map[], state, Some(file), refresh, hs) && Read(state, BaseImported) == Null
    requires Read(state, Peers) == PeerList(peers) && Read(state, BaseInfo) != Null
    requires BaseMatches(file, BoundariesOf(Some(file), refresh), hs)
    ensures ExportInvariant(BaseRows(file, BoundariesOf(Some(file), refresh)), state[BaseImported := Flag],
                            Some(file), refresh, hs)
  {
    var state' := state[BaseImported := Flag];
    assert forall p :: CursorOf(state', p) == CursorOf(state, p) && IsDone(state', p) == IsDone(state, p);
    ImportStartsAllParts(file, refresh, BoundariesOf(Some(file), refresh), state', peers, hs);
  }
}
