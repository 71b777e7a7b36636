/** The published file closes the loop: whatever the checkpoint holds, its export is a valid base for the next
    update. */
module PublishedBase {
  import opened Common
  import opened TelegramPages
  import opened CheckpointStore
  import opened ExportClient
  import opened BaseCensus
  import opened IncrementalExport
  import opened WholeExport
  import A = AdminLog
  import D = ExportDaemon

  const CURRENT_FORMAT_VERSION := 5

  function Rows(records: Records, kind: Kind, peer: int): set<RecordKey> {
    set key | key in records && key.kind == kind && key.peer == peer
  }

  /** The ids of one group's rows in `ORDER BY id DESC`. */
  function NewestFirst(kind: Kind, peer: int, keys: set<RecordKey>): (r: seq<int>)
    requires forall key :: key in keys ==> key.kind == kind && key.peer == peer
    ensures Descending(r) && |r| == |keys|
    ensures forall id :: id in r <==> RecordKey(kind, peer, id) in keys
  {
    if keys == {} then []
    else
      HasNewest(keys);
      NewestIsUnique(kind, peer, keys);
      var top :| IsNewest(top, keys);
      var rest := NewestFirst(kind, peer, keys - {top});
      NewestOnTop(kind, peer, keys, top, rest);
      [top.id] + rest
  }

  predicate IsNewest(top: RecordKey, keys: set<RecordKey>) {
    top in keys && forall key :: key in keys ==> key.id <= top.id
  }

  lemma NewestIsUnique(kind: Kind, peer: int, keys: set<RecordKey>)
    requires forall key :: key in keys ==> key.kind == kind && key.peer == peer
    ensures forall top, other :: IsNewest(top, keys) && IsNewest(other, keys) ==> top == other
  {
    forall top, other | IsNewest(top, keys) && IsNewest(other, keys) ensures top == other {
      assert top.id == other.id && top.kind == other.kind && top.peer == other.peer;
    }
  }

  lemma NewestOnTop(kind: Kind, peer: int, keys: set<RecordKey>, top: RecordKey, rest: seq<int>)
    requires forall key :: key in keys ==> key.kind == kind && key.peer == peer
    requires IsNewest(top, keys) && Descending(rest) && |rest| == |keys - {top}|
    requires forall id :: id in rest <==> RecordKey(kind, peer, id) in keys - {top}
    ensures Descending([top.id] + rest) && |[top.id] + rest| == |keys|
    ensures forall id :: id in [top.id] + rest <==> RecordKey(kind, peer, id) in keys
  {
    assert top == RecordKey(kind, peer, top.id);
    forall i | 0 <= i < |rest| ensures rest[i] < top.id {
      assert rest[i] in rest && RecordKey(kind, peer, rest[i]) in keys;
    }
    forall id ensures id in [top.id] + rest <==> id == top.id || id in rest {}
  }

  lemma {:induction false} HasNewest(keys: set<RecordKey>)
    requires keys != {}
    ensures exists top :: IsNewest(top, keys)
  {
    var some :| some in keys;
    var others := keys - {some};
    assert forall key :: key in keys ==> key == some || key in others;
    if others != {} {
      HasNewest(others);
      var top :| IsNewest(top, others);
      assert IsNewest(if some.id >= top.id then some else top, keys);
    } else {
      assert IsNewest(some, keys);
    }
  }

  function IdsInOrder(records: Records, kind: Kind, peer: int): (r: seq<int>)
    ensures Descending(r) && |r| == |Rows(records, kind, peer)|
    ensures forall id :: id in r <==> RecordKey(kind, peer, id) in records
  {
    NewestFirst(kind, peer, Rows(records, kind, peer))
  }

  function PeerRows(records: Records, peer: int, ids: seq<int>,
                          reactorsIn: Payload -> nat): (rows: seq<BaseMessage>)
    requires forall id :: id in ids ==> RecordKey(MessageKind, peer, id) in records
    ensures |rows| == |ids|
    ensures forall i :: 0 <= i < |ids| ==>
              var payload := records[RecordKey(MessageKind, peer, ids[i])];
              rows[i] == BaseMessage(peer, ids[i], None, reactorsIn(payload), payload)
  {
    seq(|ids|, i requires 0 <= i < |ids| =>
      var payload := records[RecordKey(MessageKind, peer, ids[i])];
      BaseMessage(peer, ids[i], None, reactorsIn(payload), payload))
  }

  function RowsOf(records: Records, peer: int, reactorsIn: Payload -> nat): seq<BaseMessage> {
    PeerRows(records, peer, IdsInOrder(records, MessageKind, peer), reactorsIn)
  }

  /** The message section: each peer's rows in directory order. */
  function Section(records: Records, dialogs: seq<int>, reactorsIn: Payload -> nat): seq<BaseMessage> {
    if dialogs == [] then []
    else Section(records, dialogs[..|dialogs| - 1], reactorsIn) + RowsOf(records, dialogs[|dialogs| - 1], reactorsIn)
  }

  function Dialogs(peers: seq<Peer>): (dialogs: seq<int>)
    ensures |dialogs| == |peers| && forall i :: 0 <= i < |peers| ==> dialogs[i] == peers[i].dialog
  {
    seq(|peers|, i requires 0 <= i < |peers| => peers[i].dialog)
  }

  function KeysOfKind(records: Records, kind: Kind): set<RecordKey> {
    set key | key in records && key.kind == kind
  }

  ghost function SumReactors(records: Records, keys: set<RecordKey>, reactorsIn: Payload -> nat): nat
    requires forall key :: key in keys ==> key in records
  {
    if keys == {} then 0
    else
      var key :| key in keys;
      reactorsIn(records[key]) + SumReactors(records, keys - {key}, reactorsIn)
  }

  /** The footer counts every saved row. */
  ghost function Summary(records: Records, reactorsIn: Payload -> nat): Footer {
    Footer(|KeysOfKind(records, MessageKind)|, |KeysOfKind(records, AdminKind)|,
           SumReactors(records, KeysOfKind(records, MessageKind), reactorsIn))
  }

  function AdminRows(records: Records, group: int, ids: seq<int>): (rows: seq<AdminEvent>)
    requires forall id :: id in ids ==> RecordKey(AdminKind, group, id) in records
    ensures |rows| == |ids|
    ensures forall i :: 0 <= i < |ids| ==>
              rows[i] == AdminEvent(group, ids[i], records[RecordKey(AdminKind, group, ids[i])])
  {
    seq(|ids|, i requires 0 <= i < |ids| => AdminEvent(group, ids[i], records[RecordKey(AdminKind, group, ids[i])]))
  }

  ghost function PublishedFile(records: Records, peers: seq<Peer>, reactorsIn: Payload -> nat): BaseFile
    requires peers != []
  {
    var group := peers[0].dialog;
    var admins := IdsInOrder(records, AdminKind, group);
    BaseFile(CURRENT_FORMAT_VERSION, group, Dialogs(peers),
             AdminRows(records, group, admins),
             Section(records, Dialogs(peers), reactorsIn), Summary(records, reactorsIn))
  }

  // -------------------------------------------------------------------- order

  lemma {:induction false} PositionIs(peers: seq<int>, k: nat)
    requires k < |peers| && Distinct(peers)
    ensures Position(peers, peers[k]) == k
  {
  }

  lemma {:induction false} SectionMembers(records: Records, dialogs: seq<int>, reactorsIn: Payload -> nat, i: nat)
    requires i < |Section(records, dialogs, reactorsIn)|
    ensures var m := Section(records, dialogs, reactorsIn)[i];
            var key := RecordKey(MessageKind, m.peer, m.id);
            && m.peer in dialogs && key in records && m.key == None
            && m.payload == records[key] && m.reactors == reactorsIn(records[key])
  {
    var n := |dialogs| - 1;
    var before := Section(records, dialogs[..n], reactorsIn);
    if i < |before| {
      SectionMembers(records, dialogs[..n], reactorsIn, i);
    } else {
      assert IdsInOrder(records, MessageKind, dialogs[n])[i - |before|] in IdsInOrder(records, MessageKind, dialogs[n]);
    }
  }

  /** Rows of earlier groups come first, and within a group the newer row comes first. */
  lemma {:induction false} SectionPair(records: Records, dialogs: seq<int>, n: nat, reactorsIn: Payload -> nat,
                                       i: nat, j: nat)
    requires Distinct(dialogs) && n <= |dialogs|
    requires i < j < |Section(records, dialogs[..n], reactorsIn)|
    ensures var ms := Section(records, dialogs[..n], reactorsIn);
            && ms[i].peer in dialogs && ms[j].peer in dialogs
            && Position(dialogs, ms[i].peer) <= Position(dialogs, ms[j].peer)
            && (ms[i].peer == ms[j].peer ==> ms[i].id > ms[j].id)
  {
    assert dialogs[..n][..n - 1] == dialogs[..n - 1];
    var before := Section(records, dialogs[..n - 1], reactorsIn);
    PositionIs(dialogs, n - 1);
    if j < |before| {
      SectionPair(records, dialogs, n - 1, reactorsIn, i, j);
    } else if i < |before| {
      SectionMembers(records, dialogs[..n - 1], reactorsIn, i);
      var k :| 0 <= k < n - 1 && dialogs[k] == before[i].peer;
      PositionIs(dialogs, k);
    }
  }

  lemma SectionOrdered(records: Records, dialogs: seq<int>, reactorsIn: Payload -> nat)
    requires Distinct(dialogs) && forall p :: p in dialogs ==> p < 0
    requires forall key :: key in records ==> key.id > 0
    ensures WellOrdered(CURRENT_FORMAT_VERSION, dialogs, Section(records, dialogs, reactorsIn))
  {
    hide Section;
    var n := |dialogs|;
    assert dialogs[..n] == dialogs;
    var ms := Section(records, dialogs, reactorsIn);
    forall i | 0 <= i < |ms| ensures GoodMessage(CURRENT_FORMAT_VERSION, dialogs, ms[i]) {
      SectionMembers(records, dialogs, reactorsIn, i);
    }
    forall i, j | 0 <= i < j < |ms|
      ensures Position(dialogs, ms[i].peer) <= Position(dialogs, ms[j].peer)
      ensures ms[i].peer == ms[j].peer ==> ms[i].id > ms[j].id
    {
      SectionPair(records, dialogs, n, reactorsIn, i, j);
    }
  }

  lemma RowOf(records: Records, reactorsIn: Payload -> nat, key: RecordKey) returns (j: nat)
    requires key in records && key.kind.MessageKind?
    ensures var rows := RowsOf(records, key.peer, reactorsIn);
            j < |rows| && rows[j].peer == key.peer && rows[j].id == key.id
  {
    hide IdsInOrder;
    var ids := IdsInOrder(records, MessageKind, key.peer);
    assert RecordKey(MessageKind, key.peer, key.id) == key;
    assert key.id in ids;
    j :| 0 <= j < |ids| && ids[j] == key.id;
  }

  lemma {:induction false} SectionComplete(records: Records, dialogs: seq<int>, reactorsIn: Payload -> nat,
                                           key: RecordKey)
    requires key in records && key.kind.MessageKind? && key.peer in dialogs
    ensures exists i :: 0 <= i < |Section(records, dialogs, reactorsIn)|
                        && Section(records, dialogs, reactorsIn)[i].peer == key.peer
                        && Section(records, dialogs, reactorsIn)[i].id == key.id
  {
    hide IdsInOrder;
    var n := |dialogs| - 1;
    var before, rows := Section(records, dialogs[..n], reactorsIn), RowsOf(records, dialogs[n], reactorsIn);
    var all := Section(records, dialogs, reactorsIn);
    assert all == before + rows;
    if key.peer == dialogs[n] {
      var j := RowOf(records, reactorsIn, key);
      assert all[|before| + j] == rows[j];
    } else {
      hide Section, RowsOf;
      SectionComplete(records, dialogs[..n], reactorsIn, key);
      var i :| 0 <= i < |before| && before[i].peer == key.peer && before[i].id == key.id;
      assert all[i] == before[i];
    }
  }

  /** Every admin event of the group is published as it was saved, and nothing else. */
  lemma AdminsPublished(records: Records, peers: seq<Peer>, reactorsIn: Payload -> nat)
    requires peers != []
    ensures var group, admins := peers[0].dialog, PublishedFile(records, peers, reactorsIn).admins;
            && (forall i :: 0 <= i < |admins| ==>
                  var key := RecordKey(AdminKind, group, admins[i].id);
                  admins[i].dialog == group && key in records && admins[i].payload == records[key])
            && forall id :: RecordKey(AdminKind, group, id) in records ==>
                 exists i :: 0 <= i < |admins| && admins[i].id == id
  {
    var group, admins := peers[0].dialog, PublishedFile(records, peers, reactorsIn).admins;
    var ids := IdsInOrder(records, AdminKind, group);
    hide IdsInOrder;
    forall i | 0 <= i < |admins|
      ensures admins[i].dialog == group && RecordKey(AdminKind, group, admins[i].id) in records
              && admins[i].payload == records[RecordKey(AdminKind, group, admins[i].id)]
    {
      assert ids[i] in ids;
    }
    forall id | RecordKey(AdminKind, group, id) in records ensures exists i :: 0 <= i < |admins| && admins[i].id == id {
      assert id in ids;
      var i :| 0 <= i < |ids| && ids[i] == id;
      assert admins[i].id == id;
    }
  }

  // ------------------------------------------------------------------- footer

  ghost function KeySet(ms: seq<BaseMessage>): set<RecordKey> {
    set i | 0 <= i < |ms| :: RecordKey(MessageKind, ms[i].peer, ms[i].id)
  }

  lemma {:induction false} SumStep(records: Records, keys: set<RecordKey>, key: RecordKey, reactorsIn: Payload -> nat)
    requires key in keys && forall k :: k in keys ==> k in records
    ensures SumReactors(records, keys, reactorsIn)
         == reactorsIn(records[key]) + SumReactors(records, keys - {key}, reactorsIn)
  {
    var first :| first in keys && SumReactors(records, keys, reactorsIn)
      == reactorsIn(records[first]) + SumReactors(records, keys - {first}, reactorsIn);
    if first != key {
      SumStep(records, keys - {first}, key, reactorsIn);
      SumStep(records, keys - {key}, first, reactorsIn);
      assert keys - {first} - {key} == keys - {key} - {first};
    }
  }

  lemma LastKeyIsNew(version: nat, peers: seq<int>, ms: seq<BaseMessage>)
    requires WellOrdered(version, peers, ms) && ms != []
    ensures RecordKey(MessageKind, ms[|ms| - 1].peer, ms[|ms| - 1].id) !in KeySet(ms[..|ms| - 1])
  {
  }

  lemma KeySetStep(ms: seq<BaseMessage>)
    requires ms != []
    ensures KeySet(ms) == KeySet(ms[..|ms| - 1]) + {RecordKey(MessageKind, ms[|ms| - 1].peer, ms[|ms| - 1].id)}
  {
  }

  ghost predicate RowsMatch(records: Records, ms: seq<BaseMessage>, reactorsIn: Payload -> nat) {
    forall i :: 0 <= i < |ms| ==>
      var key := RecordKey(MessageKind, ms[i].peer, ms[i].id);
      key in records && ms[i].reactors == reactorsIn(records[key])
  }

  /** Counting rows of the table and counting messages of the file give the same totals. */
  lemma {:induction false} TotalsAgree(records: Records, peers: seq<int>, ms: seq<BaseMessage>,
                                       reactorsIn: Payload -> nat)
    requires WellOrdered(CURRENT_FORMAT_VERSION, peers, ms) && RowsMatch(records, ms, reactorsIn)
    ensures |KeySet(ms)| == |ms| && (forall key :: key in KeySet(ms) ==> key in records)
    ensures SumReactors(records, KeySet(ms), reactorsIn) == ReactorCount(ms)
  {
    hide WellOrdered;
    if ms != [] {
      var n := |ms| - 1;
      var key := RecordKey(MessageKind, ms[n].peer, ms[n].id);
      PrefixWellOrdered(CURRENT_FORMAT_VERSION, peers, ms, n);
      LastKeyIsNew(CURRENT_FORMAT_VERSION, peers, ms);
      TotalsAgree(records, peers, ms[..n], reactorsIn);
      KeySetStep(ms);
      hide KeySet;
      SumStep(records, KeySet(ms), key, reactorsIn);
      assert KeySet(ms) - {key} == KeySet(ms[..n]);
    }
  }

  lemma AdminTotals(records: Records, group: int)
    requires forall key :: key in records && key.kind.AdminKind? ==> key.peer == group
    ensures |IdsInOrder(records, AdminKind, group)| == |KeysOfKind(records, AdminKind)|
  {
    assert Rows(records, AdminKind, group) == KeysOfKind(records, AdminKind);
  }

  lemma SectionKeys(records: Records, dialogs: seq<int>, reactorsIn: Payload -> nat)
    requires forall key :: key in records && key.kind.MessageKind? ==> key.peer in dialogs
    ensures KeySet(Section(records, dialogs, reactorsIn)) == KeysOfKind(records, MessageKind)
    ensures RowsMatch(records, Section(records, dialogs, reactorsIn), reactorsIn)
  {
    hide Section;
    var ms := Section(records, dialogs, reactorsIn);
    forall i | 0 <= i < |ms|
      ensures var key := RecordKey(MessageKind, ms[i].peer, ms[i].id);
              key in records && ms[i].reactors == reactorsIn(records[key])
    {
      SectionMembers(records, dialogs, reactorsIn, i);
    }
    forall key | key in KeysOfKind(records, MessageKind) ensures key in KeySet(ms) {
      SectionComplete(records, dialogs, reactorsIn, key);
      var i :| 0 <= i < |ms| && ms[i].peer == key.peer && ms[i].id == key.id;
      assert key == RecordKey(MessageKind, ms[i].peer, ms[i].id);
    }
  }

  lemma ListedGroups(peers: seq<Peer>)
    ensures forall p :: HasPeer(peers, p) <==> p in Dialogs(peers)
  {
    forall p ensures HasPeer(peers, p) <==> p in Dialogs(peers) {
      if HasPeer(peers, p) {
        var k :| 0 <= k < |peers| && peers[k].dialog == p;
        assert Dialogs(peers)[k] == p;
      }
    }
  }

  /** Every export the checkpoint can publish passes the census of a later update. */
  lemma PublishedIsWellFormed(records: Records, peers: seq<Peer>, reactorsIn: Payload -> nat)
    requires Coherent(records, peers)
    ensures WellFormed(PublishedFile(records, peers, reactorsIn))
  {
    hide WellOrdered, Section, SumReactors, ReactorCount, IdsInOrder, KeySet, RowsMatch;
    var dialogs := Dialogs(peers);
    ListedGroups(peers);
    var file := PublishedFile(records, peers, reactorsIn);
    SectionOrdered(records, dialogs, reactorsIn);
    SectionKeys(records, dialogs, reactorsIn);
    TotalsAgree(records, dialogs, file.messages, reactorsIn);
    AdminTotals(records, peers[0].dialog);
    var admins := IdsInOrder(records, AdminKind, peers[0].dialog);
    forall i | 0 <= i < |admins| ensures admins[i] > 0 {
      assert admins[i] in IdsInOrder(records, AdminKind, peers[0].dialog);
    }
  }

  // ----------------------------------------------------------------- rendering

  /** One pass over all saved rows, in any order. */
  method Summarize(records: Records, reactorsIn: Payload -> nat) returns (footer: Footer)
    ensures footer == Summary(records, reactorsIn)
  {
    var rest := KeysOfKind(records, MessageKind);
    var messages, reactors := |rest|, 0;
    while rest != {}
      invariant forall key :: key in rest ==> key in records
      invariant reactors + SumReactors(records, rest, reactorsIn)
             == SumReactors(records, KeysOfKind(records, MessageKind), reactorsIn)
      decreases |rest|
    {
      var key :| key in rest;
      SumStep(records, rest, key, reactorsIn);
      reactors := reactors + reactorsIn(records[key]);
      rest := rest - {key};
    }
    footer := Footer(messages, |KeysOfKind(records, AdminKind)|, reactors);
  }

  /** The file as `_publish` writes it: the admin events of the group, each group's messages, and the totals. */
  method RenderExport(records: Records, peers: seq<Peer>, reactorsIn: Payload -> nat) returns (file: BaseFile)
    requires peers != []
    ensures file == PublishedFile(records, peers, reactorsIn)
  {
    hide IdsInOrder, SumReactors;
    var group := peers[0].dialog;
    var messages: seq<BaseMessage> := [];
    for i := 0 to |peers|
      invariant messages == Section(records, Dialogs(peers)[..i], reactorsIn)
    {
      assert Dialogs(peers)[..i + 1][..i] == Dialogs(peers)[..i];
      messages := messages + RowsOf(records, peers[i].dialog, reactorsIn);
    }
    assert Dialogs(peers)[..|peers|] == Dialogs(peers);
    var footer := Summarize(records, reactorsIn);
    var admins := AdminRows(records, group, IdsInOrder(records, AdminKind, group));
    file := BaseFile(CURRENT_FORMAT_VERSION, group, Dialogs(peers), admins, messages, footer);
  }

  // ------------------------------------------------------------- the next update

  /** The ids an export of this history may end up with, newest first. */
  ghost predicate Lists(ids: seq<int>, e: Era) {
    && Descending(ids)
    && (forall id :: id in ids ==> D.IsMessage(e.ever, id))
    && (forall id :: D.IsMessage(e.kept, id) ==> id in ids)
  }

  /** Older than the newest `refresh` messages of an export, a later history has nothing new and nothing edited. */
  ghost predicate Settled(e: Era, later: Era, refresh: nat) {
    forall ids, id :: Lists(ids, e) && id <= Max(0, Boundary(ids, refresh)) ==> AgreeAt(e, later, id)
  }

  ghost predicate AgreeAt(e: Era, later: Era, id: int) {
    && (D.IsMessage(later.kept, id) ==> D.IsMessage(e.kept, id))
    && (D.IsMessage(e.ever, id) ==> D.IsMessage(later.ever, id) && later.ever[id].payload == e.ever[id].payload)
  }

  ghost predicate SettledGroups(peers: seq<Peer>, hs: Histories, later: Histories, refresh: nat) {
    forall k :: 0 <= k < |peers| ==> Settled(HistoryOf(hs, peers[k].dialog), HistoryOf(later, peers[k].dialog), refresh)
  }

  /** A group's section of a full export lists ids its history allows. */
  lemma SectionLists(records: Records, peers: seq<Peer>, hs: Histories, reactorsIn: Payload -> nat, p: int)
    requires Coherent(records, peers) && IsFullExport(records, peers, hs) && HasPeer(peers, p)
    ensures Lists(IdsOf(Section(records, Dialogs(peers), reactorsIn), p), HistoryOf(hs, p))
  {
    hide Section, WellOrdered, IdsOf;
    var dialogs := Dialogs(peers);
    var ms := Section(records, dialogs, reactorsIn);
    ListedGroups(peers);
    SectionOrdered(records, dialogs, reactorsIn);
    IdsDescend(CURRENT_FORMAT_VERSION, dialogs, ms, p);
    forall id ensures id in IdsOf(ms, p) <==> RecordKey(MessageKind, p, id) in records {
      IdsAreMembers(ms, p, id);
      if id in IdsOf(ms, p) {
        var i :| 0 <= i < |ms| && ms[i].peer == p && ms[i].id == id;
        SectionMembers(records, dialogs, reactorsIn, i);
      }
      if RecordKey(MessageKind, p, id) in records {
        SectionComplete(records, dialogs, reactorsIn, RecordKey(MessageKind, p, id));
      }
    }
  }

  /** A finished export, published, is a base that matches every later history which is settled below the refreshed
      messages. */
  lemma PublishedMatchesLater(records: Records, peers: seq<Peer>, hs: Histories, later: Histories, refresh: nat,
                              reactorsIn: Payload -> nat)
    requires Coherent(records, peers) && IsFullExport(records, peers, hs) && SettledGroups(peers, hs, later, refresh)
    ensures var file := PublishedFile(records, peers, reactorsIn);
            BaseMatches(file, BoundariesOf(Some(file), refresh), later)
  {
    hide Section, IdsOf, Boundary, Settled, Lists, Summary, IdsInOrder;
    var file := PublishedFile(records, peers, reactorsIn);
    var dialogs := Dialogs(peers);
    var ms := file.messages;
    var boundaries := BoundariesOf(Some(file), refresh);
    ListedGroups(peers);
    forall p, id | p in dialogs && id <= MinimumOf(boundaries, p)
      ensures AgreeAt(HistoryOf(hs, p), HistoryOf(later, p), id)
    {
      SettledAt(records, peers, hs, later, refresh, reactorsIn, p, id);
    }
    forall i | 0 <= i < |ms| && ms[i].id <= MinimumOf(boundaries, ms[i].peer)
      ensures D.IsMessage(HistoryOf(later, ms[i].peer).ever, ms[i].id)
      ensures HistoryOf(later, ms[i].peer).ever[ms[i].id].payload == ms[i].payload
    {
      SectionMembers(records, dialogs, reactorsIn, i);
      assert RecordKey(MessageKind, ms[i].peer, ms[i].id) in records;
      assert AgreeAt(HistoryOf(hs, ms[i].peer), HistoryOf(later, ms[i].peer), ms[i].id);
    }
    forall p, id | p in dialogs && id <= MinimumOf(boundaries, p) && D.IsMessage(HistoryOf(later, p).kept, id)
      ensures id in IdsOf(ms, p)
    {
      assert AgreeAt(HistoryOf(hs, p), HistoryOf(later, p), id);
      SectionComplete(records, dialogs, reactorsIn, RecordKey(MessageKind, p, id));
      IdsAreMembers(ms, p, id);
    }
  }

  lemma SettledAt(records: Records, peers: seq<Peer>, hs: Histories, later: Histories, refresh: nat,
                  reactorsIn: Payload -> nat, p: int, id: int)
    requires Coherent(records, peers) && IsFullExport(records, peers, hs) && SettledGroups(peers, hs, later, refresh)
    requires HasPeer(peers, p) && p in Dialogs(peers)
    requires var file := PublishedFile(records, peers, reactorsIn);
             id <= MinimumOf(BoundariesOf(Some(file), refresh), p)
    ensures AgreeAt(HistoryOf(hs, p), HistoryOf(later, p), id)
  {
    hide Section, IdsOf, Boundary, Lists, Summary, IdsInOrder, Coherent, IsFullExport, AgreeAt;
    var k :| 0 <= k < |peers| && peers[k].dialog == p;
    SectionLists(records, peers, hs, reactorsIn, p);
    assert Settled(HistoryOf(hs, p), HistoryOf(later, p), refresh);
  }

  /** Whatever lists the two runs may keep, the later histories are settled below the refreshed messages. */
  ghost predicate SettledOpenings(exports: seq<Try>, updates: seq<Try>, of: Openings, later: Openings, refresh: nat) {
    forall i, j :: 0 <= i < |exports| && 0 <= j < |updates| ==>
      SettledGroups(exports[i].current, of(exports[i].current), later(updates[j].current), refresh)
  }

  /** What an update is asked of every list it may keep, but for the base, which the export provides. */
  ghost predicate FitsLater(base: BaseFile, refresh: nat, updates: seq<Try>, later: Openings) {
    forall i :: 0 <= i < |updates| ==>
      && Frozen(updates[i].current, later(updates[i].current)) && updates[i].current != []
      && forall j :: 0 <= j < |updates| ==>
           Serves(updates[j].daemons, updates[i].current, BoundariesOf(Some(base), refresh), later(updates[i].current))
  }

  lemma PublishedFits(records: Records, peers: seq<Peer>, exports: seq<Try>, i: nat, updates: seq<Try>, of: Openings,
                      later: Openings, refresh: nat, reactorsIn: Payload -> nat)
    requires Coherent(records, peers) && IsFullExport(records, peers, of(peers))
    requires i < |exports| && peers == exports[i].current
    requires SettledOpenings(exports, updates, of, later, refresh)
    requires FitsLater(PublishedFile(records, peers, reactorsIn), refresh, updates, later)
    ensures forall j :: 0 <= j < |updates| ==>
              FitsAll(updates[j].current, Some(PublishedFile(records, peers, reactorsIn)), refresh, updates, later)
  {
    assert peers != [];
    hide Frozen, Serves, BaseMatches, SettledGroups, PublishedFile, Coherent, IsFullExport;
    forall j | 0 <= j < |updates|
      ensures FitsAll(updates[j].current, Some(PublishedFile(records, peers, reactorsIn)), refresh, updates, later)
    {
      assert SettledGroups(peers, of(peers), later(updates[j].current), refresh);
      PublishedMatchesLater(records, peers, of(peers), later(updates[j].current), refresh, reactorsIn);
    }
  }

  /** The whole circle: an export is run to its end, published, accepted as a base, and updated over a later history.
      The attempts of the update depend on the file, which fixes the boundaries the daemon is asked for. */
  method ExportThenUpdate(exports: seq<Try>, updates: BaseFile -> seq<Try>, refresh: nat, reactorsIn: Payload -> nat,
                          ghost of: Openings, ghost later: Openings, ghost t: A.Timeline, ghost t': A.Timeline)
    returns (file: Option<BaseFile>, updated: Option<Checkpoint>, peers: seq<Peer>)
    requires forall i :: 0 <= i < |exports| ==> FitsAll(exports[i].current, None, refresh, exports, of)
    requires forall base :: FitsLater(base, refresh, updates(base), later)
    requires forall base :: SettledOpenings(exports, updates(base), of, later, refresh)
    ensures file.Some? ==>
              && WellFormed(file.value)
              && forall i :: 0 <= i < |updates(file.value)| ==>
                   BaseMatches(file.value, BoundariesOf(file, refresh), later(updates(file.value)[i].current))
    ensures updated.Some? ==>
              file.Some? && fresh(updated.value) && IsFullExport(updated.value.records, peers, later(peers))
  {
    hide Frozen, BaseMatches, Serves, WellFormed, IsFullExport, ExportInvariant, AdminSafe, Coherent, MetUnavailable,
         FaithfulTries, AdminsComplete, PublishedFile, FitsLater, SettledOpenings;
    file, updated := None, None;
    var cp, finished, n;
    ghost var walk;
    cp, finished, peers, n, walk := Run(None, refresh, exports, of, t);
    if !finished {
      return;
    }
    ghost var i :| 0 <= i < |exports| && peers == exports[i].current;
    var rendered := RenderExport(cp.records, peers, reactorsIn);
    PublishedIsWellFormed(cp.records, peers, reactorsIn);
    assert FitsLater(rendered, refresh, updates(rendered), later);
    assert SettledOpenings(exports, updates(rendered), of, later, refresh);
    PublishedFits(cp.records, peers, exports, i, updates(rendered), of, later, refresh, reactorsIn);
    file := Some(rendered);
    cp, finished, peers, n, walk := Run(file, refresh, updates(rendered), later, t');
    if finished {
      updated := Some(cp);
    }
  }
}
