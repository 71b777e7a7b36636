/** The one-pass validation of a base export: order, identity, footer counts and per-peer refresh boundaries. */
module BaseCensus {
  import opened Common
  import opened CheckpointStore
  import opened TelegramPages

  datatype Footer = Footer(messages: int, adminEvents: int, reactors: int)

  datatype BaseFile = BaseFile(version: nat, group: int, peers: seq<int>, admins: seq<AdminEvent>,
                               messages: seq<BaseMessage>, footer: Footer)

  datatype Info = Info(group: int, peers: seq<int>, boundaries: map<int, nat>, adminMax: nat)

  /** Files before this version must carry the redundant message key. */
  const INTERNAL_FORMAT_VERSION := 3

  // --------------------------------------------------------- what is accepted

  ghost predicate Distinct(peers: seq<int>) {
    forall i, j :: 0 <= i < j < |peers| ==> peers[i] != peers[j]
  }

  ghost predicate GoodDirectory(group: int, peers: seq<int>) {
    peers != [] && peers[0] == group && Distinct(peers) && forall p :: p in peers ==> p < 0
  }

  function Position(peers: seq<int>, p: int): (k: nat)
    requires p in peers
    ensures k < |peers| && peers[k] == p
  {
    if peers[0] == p then 0 else 1 + Position(peers[1..], p)
  }

  ghost predicate GoodMessage(version: nat, peers: seq<int>, m: BaseMessage) {
    && m.peer in peers && m.peer < 0 && m.id > 0
    && (version < INTERNAL_FORMAT_VERSION ==> m.key.Some?)
    && (m.key.Some? ==> m.key.value == (m.peer, m.id))
  }

  /** Peers appear in directory order, and within a peer the ids strictly descend. */
  ghost predicate WellOrdered(version: nat, peers: seq<int>, ms: seq<BaseMessage>) {
    && (forall i :: 0 <= i < |ms| ==> GoodMessage(version, peers, ms[i]))
    && (forall i, j :: 0 <= i < j < |ms| ==> Position(peers, ms[i].peer) <= Position(peers, ms[j].peer))
    && (forall i, j :: 0 <= i < j < |ms| && ms[i].peer == ms[j].peer ==> ms[i].id > ms[j].id)
  }

  ghost predicate AdminsOrdered(group: int, admins: seq<AdminEvent>) {
    && (forall i :: 0 <= i < |admins| ==> admins[i].dialog == group && admins[i].id > 0)
    && (forall i, j :: 0 <= i < j < |admins| ==> admins[i].id > admins[j].id)
  }

  function ReactorCount(ms: seq<BaseMessage>): nat {
    if ms == [] then 0 else ReactorCount(ms[..|ms| - 1]) + ms[|ms| - 1].reactors
  }

  ghost predicate WellFormed(file: BaseFile) {
    && file.group < 0 && GoodDirectory(file.group, file.peers)
    && AdminsOrdered(file.group, file.admins)
    && WellOrdered(file.version, file.peers, file.messages)
    && file.footer == Footer(|file.messages|, |file.admins|, ReactorCount(file.messages))
  }

  // ------------------------------------------------------------- boundaries

  /** The ids of one peer, in file order. */
  function IdsOf(ms: seq<BaseMessage>, peer: int): seq<int> {
    if ms == [] then []
    else
      var rest := IdsOf(ms[..|ms| - 1], peer);
      if ms[|ms| - 1].peer == peer then rest + [ms[|ms| - 1].id] else rest
  }

  /** The id just past the newest `refresh` ids of a descending run, or 0 when there are not that many. */
  function Boundary(ids: seq<int>, refresh: nat): int {
    if |ids| > refresh then ids[refresh] else 0
  }

  function Appended(ms: seq<BaseMessage>, m: BaseMessage, peer: int): (ids: seq<int>)
    ensures ids == IdsOf(ms + [m], peer)
  {
    assert (ms + [m])[..|ms|] == ms;
    if m.peer == peer then IdsOf(ms, peer) + [m.id] else IdsOf(ms, peer)
  }

  lemma {:induction false} IdsAreMembers(ms: seq<BaseMessage>, peer: int, id: int)
    ensures id in IdsOf(ms, peer) <==> exists i :: 0 <= i < |ms| && ms[i].peer == peer && ms[i].id == id
  {
    if ms != [] {
      var n := |ms| - 1;
      IdsAreMembers(ms[..n], peer, id);
      if exists i :: 0 <= i < |ms| && ms[i].peer == peer && ms[i].id == id {
        var i :| 0 <= i < |ms| && ms[i].peer == peer && ms[i].id == id;
        if i < n { assert ms[..n][i] == ms[i]; }
      }
    }
  }

  lemma {:induction false} IdsDescend(version: nat, peers: seq<int>, ms: seq<BaseMessage>, peer: int)
    requires WellOrdered(version, peers, ms)
    ensures Descending(IdsOf(ms, peer))
    ensures forall id :: id in IdsOf(ms, peer) ==> id > 0
  {
    if ms != [] {
      var n := |ms| - 1;
      IdsDescend(version, peers, ms[..n], peer);
      if ms[n].peer == peer {
        var rest := IdsOf(ms[..n], peer);
        forall k | 0 <= k < |rest| ensures rest[k] > ms[n].id {
          IdsAreMembers(ms[..n], peer, rest[k]);
        }
      }
    }
  }

  /** Exactly the newest min(refresh, n) messages of a peer lie above its boundary. */
  lemma BoundaryRank(ids: seq<int>, refresh: nat)
    requires Descending(ids) && forall id :: id in ids ==> id > 0
    ensures forall k :: 0 <= k < |ids| ==> (ids[k] > Boundary(ids, refresh) <==> k < Min(refresh, |ids|))
  {
    forall k | 0 <= k < |ids| ensures ids[k] > Boundary(ids, refresh) <==> k < Min(refresh, |ids|) {
      assert ids[k] in ids;
      if |ids| > refresh && k != refresh {
        if k < refresh { assert ids[k] > ids[refresh]; } else { assert ids[refresh] > ids[k]; }
      }
    }
  }

  lemma BoundaryAppended(ids: seq<int>, id: int, refresh: nat)
    ensures Boundary(ids + [id], refresh) == if |ids| == refresh then id else Boundary(ids, refresh)
  {
  }

  // ----------------------------------------------------------- the streaming pass

  /** What the pass remembers of one peer: how many messages, where the refreshed ones end, and the last id. */
  ghost predicate Booked(ids: seq<int>, refresh: nat, count: nat, boundary: int, last: Option<int>) {
    && count == |ids|
    && boundary == Boundary(ids, refresh)
    && last == if ids == [] then None else Some(ids[|ids| - 1])
  }

  function Lookup(m: map<int, int>, p: int): Option<int> {
    if p in m then Some(m[p]) else None
  }

  class Census {
    const refresh: nat
    const version: nat
    const peers: seq<int>
    var counts: map<int, nat>
    var boundaries: map<int, nat>
    var last: map<int, int>
    var peerIndex: nat
    var messages: nat
    var reactors: nat
    ghost var seen: seq<BaseMessage>

    ghost predicate Valid()
      reads this
    {
      && (forall p :: p in counts <==> p in peers)
      && (forall p :: p in boundaries <==> p in peers)
      && (forall p :: p in peers ==> Booked(IdsOf(seen, p), refresh, counts[p], boundaries[p], Lookup(last, p)))
      && (if seen == [] then peerIndex == 0 else peerIndex < |peers| && peers[peerIndex] == seen[|seen| - 1].peer)
      && WellOrdered(version, peers, seen)
      && messages == |seen| && reactors == ReactorCount(seen)
    }

    constructor (refresh: nat, version: nat, peers: seq<int>)
      ensures Valid() && seen == []
      ensures this.refresh == refresh && this.version == version && this.peers == peers
    {
      this.refresh, this.version, this.peers := refresh, version, peers;
      counts := map p | p in peers :: 0;
      boundaries := map p | p in peers :: 0;
      last, peerIndex, messages, reactors, seen := map[], 0, 0, 0, [];
    }

    method Message(m: BaseMessage) returns (ok: bool)
      requires Valid() && Distinct(peers)
      modifies this
      ensures ok <==> WellOrdered(version, peers, old(seen) + [m])
      ensures ok ==> Valid() && seen == old(seen) + [m]
    {
      hide WellOrdered, IdsOf, Boundary, ReactorCount;
      if m.peer >= 0 || m.id <= 0 || m.peer !in counts
         || (version < INTERNAL_FORMAT_VERSION && m.key != Some((m.peer, m.id)))
         || (m.key.Some? && m.key.value != (m.peer, m.id)) {
        BadMessageBreaksOrder(version, peers, seen, m);
        return false;
      }
      while peerIndex < |peers| && peers[peerIndex] != m.peer
        invariant old(peerIndex) <= peerIndex <= |peers|
        invariant forall k :: old(peerIndex) <= k < peerIndex ==> peers[k] != m.peer
        modifies this`peerIndex
      {
        peerIndex := peerIndex + 1;
      }
      OrderExtends(version, peers, seen, m, old(peerIndex));
      if peerIndex == |peers| || (m.peer in last && m.id >= last[m.peer]) {
        return false;
      }
      Count(m);
      ok := true;
    }

    /** Books an accepted message; the boundary is fixed by the message just past the refreshed ones. */
    method Count(m: BaseMessage)
      requires m.peer in peers && WellOrdered(version, peers, seen + [m])
      requires peerIndex < |peers| && peers[peerIndex] == m.peer
      requires (forall p :: p in counts <==> p in peers) && (forall p :: p in boundaries <==> p in peers)
      requires forall p :: p in peers ==> Booked(IdsOf(seen, p), refresh, counts[p], boundaries[p], Lookup(last, p))
      requires messages == |seen| && reactors == ReactorCount(seen) && m.id > 0
      modifies this
      ensures Valid() && seen == old(seen) + [m]
    {
      hide WellOrdered, IdsOf;
      BoundaryAppended(IdsOf(seen, m.peer), m.id, refresh);
      last := last[m.peer := m.id];
      counts := counts[m.peer := counts[m.peer] + 1];
      if counts[m.peer] == refresh + 1 {
        boundaries := boundaries[m.peer := m.id];
      }
      messages := messages + 1;
      reactors := reactors + m.reactors;
      forall p | p in peers
        ensures Booked(IdsOf(seen + [m], p), refresh, counts[p], boundaries[p], Lookup(last, p))
      {
        assert IdsOf(seen + [m], p) == Appended(seen, m, p);
      }
      assert (seen + [m])[..|seen|] == seen;
      seen := seen + [m];
    }
  }

  lemma BadMessageBreaksOrder(version: nat, peers: seq<int>, seen: seq<BaseMessage>, m: BaseMessage)
    requires !GoodMessage(version, peers, m)
    ensures !WellOrdered(version, peers, seen + [m])
  {
    assert (seen + [m])[|seen|] == m;
  }

  /** The two checks of the pass: the peer is not behind the current one, and its ids go down. */
  ghost predicate Continues(peers: seq<int>, seen: seq<BaseMessage>, m: BaseMessage, at: nat) {
    && (exists k :: at <= k < |peers| && peers[k] == m.peer)
    && (IdsOf(seen, m.peer) != [] ==> m.id < IdsOf(seen, m.peer)[|IdsOf(seen, m.peer)| - 1])
  }

  lemma OrderedContinues(version: nat, peers: seq<int>, seen: seq<BaseMessage>, m: BaseMessage, at: nat)
    requires WellOrdered(version, peers, seen + [m]) && GoodMessage(version, peers, m) && Distinct(peers)
    requires if seen == [] then at == 0 else at < |peers| && peers[at] == seen[|seen| - 1].peer
    ensures Continues(peers, seen, m, at)
  {
    hide IdsOf;
    var all, ids := seen + [m], IdsOf(seen, m.peer);
    if seen != [] {
      assert Position(peers, all[|seen| - 1].peer) <= Position(peers, all[|seen|].peer);
    }
    assert at <= Position(peers, m.peer);
    if ids != [] {
      IdsAreMembers(seen, m.peer, ids[|ids| - 1]);
      var i :| 0 <= i < |seen| && seen[i].peer == m.peer && seen[i].id == ids[|ids| - 1];
      assert all[i].id > all[|seen|].id;
    }
  }

  lemma ContinuedIsOrdered(version: nat, peers: seq<int>, seen: seq<BaseMessage>, m: BaseMessage, at: nat)
    requires WellOrdered(version, peers, seen) && GoodMessage(version, peers, m) && Distinct(peers)
    requires if seen == [] then at == 0 else at < |peers| && peers[at] == seen[|seen| - 1].peer
    requires Continues(peers, seen, m, at)
    ensures WellOrdered(version, peers, seen + [m])
  {
    hide IdsOf;
    var ids := IdsOf(seen, m.peer);
    IdsDescend(version, peers, seen, m.peer);
    forall i | 0 <= i < |seen| && seen[i].peer == m.peer ensures seen[i].id > m.id {
      IdsAreMembers(seen, m.peer, seen[i].id);
      LastIsOldest(ids, seen[i].id);
    }
  }

  /** What the two checks of the pass mean for the whole prefix read so far. */
  lemma OrderExtends(version: nat, peers: seq<int>, seen: seq<BaseMessage>, m: BaseMessage, at: nat)
    requires WellOrdered(version, peers, seen) && GoodMessage(version, peers, m) && Distinct(peers)
    requires if seen == [] then at == 0 else at < |peers| && peers[at] == seen[|seen| - 1].peer
    ensures WellOrdered(version, peers, seen + [m]) <==>
              && (exists k :: at <= k < |peers| && peers[k] == m.peer)
              && (IdsOf(seen, m.peer) != [] ==> m.id < IdsOf(seen, m.peer)[|IdsOf(seen, m.peer)| - 1])
  {
    hide IdsOf, GoodMessage, Distinct;
    assert Continues(peers, seen, m, at) <==> WellOrdered(version, peers, seen + [m]) by {
      hide WellOrdered, Continues;
      if WellOrdered(version, peers, seen + [m]) { OrderedContinues(version, peers, seen, m, at); }
      if Continues(peers, seen, m, at) { ContinuedIsOrdered(version, peers, seen, m, at); }
    }
  }

  /** Every message prefix of a well-ordered file is well ordered, so the first bad message decides. */
  lemma PrefixWellOrdered(version: nat, peers: seq<int>, ms: seq<BaseMessage>, n: nat)
    requires n <= |ms| && WellOrdered(version, peers, ms)
    ensures WellOrdered(version, peers, ms[..n])
  {
  }

  /** The file is accepted exactly when it is well formed, and then the boundaries split off the newest messages. */
  method TakeCensus(file: BaseFile, refresh: nat) returns (r: Result<Info>)
    ensures r.Ok? <==> WellFormed(file)
    ensures r.Ok? ==> r.value.group == file.group && r.value.peers == file.peers
    ensures r.Ok? ==> forall p :: p in r.value.boundaries <==> p in file.peers
    ensures r.Ok? ==> forall p :: p in file.peers ==>
              r.value.boundaries[p] == Boundary(IdsOf(file.messages, p), refresh)
    ensures r.Ok? ==> r.value.adminMax == if file.admins == [] then 0 else file.admins[0].id
  {
    hide WellOrdered, IdsOf, Boundary, Booked, ReactorCount;
    if file.group >= 0 {
      return Err("Invalid base export identifier");
    }
    var directory := CheckDirectory(file.group, file.peers);
    if !directory {
      return Err("Malformed base group/peer directory");
    }
    var admins := CheckAdmins(file.group, file.admins);
    if !admins {
      return Err("Malformed base admin event order");
    }
    var census := new Census(refresh, file.version, file.peers);
    for i := 0 to |file.messages|
      invariant census.Valid() && census.seen == file.messages[..i]
      invariant census.refresh == refresh && census.version == file.version && census.peers == file.peers
    {
      assert file.messages[..i] + [file.messages[i]] == file.messages[..i + 1];
      var ok := census.Message(file.messages[i]);
      if !ok {
        if WellOrdered(file.version, file.peers, file.messages) {
          PrefixWellOrdered(file.version, file.peers, file.messages, i + 1);
        }
        return Err("Malformed base history order");
      }
    }
    assert file.messages[..|file.messages|] == file.messages;
    if file.footer != Footer(census.messages, |file.admins|, census.reactors) {
      return Err("Base export footer counts do not match records");
    }
    BookedBoundaries(census);
    return Ok(Info(file.group, file.peers, census.boundaries, if file.admins == [] then 0 else file.admins[0].id));
  }

  lemma BookedBoundaries(census: Census)
    requires census.Valid()
    ensures forall p :: p in census.peers ==> census.boundaries[p] == Boundary(IdsOf(census.seen, p), census.refresh)
  {
  }

  method CheckDirectory(group: int, peers: seq<int>) returns (ok: bool)
    ensures ok <==> GoodDirectory(group, peers)
  {
    if peers == [] || peers[0] != group {
      return false;
    }
    var known: set<int> := {};
    for i := 0 to |peers|
      invariant forall p :: p in known <==> p in peers[..i]
      invariant Distinct(peers[..i]) && forall p :: p in peers[..i] ==> p < 0
    {
      assert peers[i] in peers;
      if peers[i] >= 0 || peers[i] in known {
        if peers[i] in known {
          var k :| 0 <= k < i && peers[k] == peers[i];
          assert !Distinct(peers);
        }
        return false;
      }
      assert peers[..i + 1] == peers[..i] + [peers[i]];
      known := known + {peers[i]};
    }
    assert peers[..|peers|] == peers;
    ok := true;
  }

  method CheckAdmins(group: int, admins: seq<AdminEvent>) returns (ok: bool)
    requires group < 0
    ensures ok <==> AdminsOrdered(group, admins)
  {
    var last := 0;
    for i := 0 to |admins|
      invariant AdminsOrdered(group, admins[..i])
      invariant last == if i == 0 then 0 else admins[i - 1].id
      invariant i > 0 ==> last > 0
    {
      var e := admins[i];
      if e.id <= 0 || e.dialog != group || (last != 0 && e.id >= last) {
        return false;
      }
      last := e.id;
    }
    assert admins[..|admins|] == admins;
    ok := true;
  }
}
