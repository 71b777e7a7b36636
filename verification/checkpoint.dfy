/** The durable export checkpoint: two tables, changed only by atomic commits. */
module CheckpointStore {
  import opened Common

  type Payload = string
  type Fingerprint = nat

  datatype Kind = MessageKind | AdminKind

  datatype RecordKey = RecordKey(kind: Kind, peer: int, id: int)

  /** A group of the export with the newest message id frozen when the export was opened. */
  datatype Peer = Peer(dialog: int, upper: nat)

  datatype StateKey =
    | Cursor(peer: int)
    | Done(peer: int)
    | AdminCursor
    | AdminDone
    | Peers
    | BaseFingerprint
    | BaseInfo
    | BaseImported
    | Published
    | PendingPublish

  /** JSON values kept in the state table; a stored null reads like an absent row. */
  datatype StateValue =
    | Null
    | Number(n: int)
    | Flag
    | PeerList(peers: seq<Peer>)
    | BaseFacts(boundaries: map<int, nat>, adminMax: nat)
    | Print(fingerprint: Fingerprint)

  type Records = map<RecordKey, Payload>
  type State = map<StateKey, StateValue>

  function Read(state: State, key: StateKey): StateValue {
    if key in state then state[key] else Null
  }

  function CursorOf(state: State, peer: int): int {
    match Read(state, Cursor(peer))
    case Number(n) => n
    case _ => 0
  }

  predicate IsDone(state: State, peer: int) {
    Read(state, Done(peer)) != Null
  }

  /** A message of a base file; `key` is its redundant message key, when the file version carries one. */
  datatype BaseMessage = BaseMessage(peer: int, id: int, key: Option<(int, int)>, reactors: nat, payload: Payload)

  /** Base records at or below their peer's boundary; a row that is already there wins. */
  function Imported(records: Records, base: seq<BaseMessage>, boundaries: map<int, nat>): Records {
    if base == [] then records
    else
      var rest := Imported(records, base[..|base| - 1], boundaries);
      var m := base[|base| - 1];
      var key := RecordKey(MessageKind, m.peer, m.id);
      if m.peer in boundaries && m.id > boundaries[m.peer] then rest
      else if key in rest then rest
      else rest[key := m.payload]
  }

  datatype AdminEvent = AdminEvent(dialog: int, id: int, payload: Payload)

  /** Admin events of the base; a row that is already there wins. */
  function ImportedAdmins(records: Records, admins: seq<AdminEvent>): Records {
    if admins == [] then records
    else
      var rest := ImportedAdmins(records, admins[..|admins| - 1]);
      var e := admins[|admins| - 1];
      var key := RecordKey(AdminKind, e.dialog, e.id);
      if key in rest then rest else rest[key := e.payload]
  }

  class Checkpoint {
    var records: Records
    var state: State

    constructor ()
      ensures records == map[] && state == map[]
    {
      records, state := map[], map[];
    }

    /** Commits one record together with the cursor that says it is there. */
    method Save(kind: Kind, peer: int, id: int, payload: Payload, cursor: StateKey)
      modifies this
      ensures records == old(records)[RecordKey(kind, peer, id) := payload]
      ensures state == old(state)[cursor := Number(id)]
    {
      records := records[RecordKey(kind, peer, id) := payload];
      state := state[cursor := Number(id)];
    }

    method Mark(key: StateKey, value: StateValue)
      modifies this
      ensures records == old(records) && state == old(state)[key := value]
    {
      state := state[key := value];
    }

    method MarkMany(values: State)
      modifies this
      ensures records == old(records) && state == old(state) + values
    {
      state := state + values;
    }

    /** One transaction: either the whole base and its flag are there, or nothing of it. */
    method ImportBase(admins: seq<AdminEvent>, base: seq<BaseMessage>, boundaries: map<int, nat>, current: Fingerprint)
      returns (ok: bool)
      modifies this
      ensures Read(old(state), BaseImported) != Null ==> ok && records == old(records) && state == old(state)
      ensures Read(old(state), BaseImported) == Null && Read(old(state), BaseFingerprint) != Print(current) ==>
                !ok && records == old(records) && state == old(state)
      ensures Read(old(state), BaseImported) == Null && Read(old(state), BaseFingerprint) == Print(current) ==>
                && ok
                && records == Imported(ImportedAdmins(old(records), admins), base, boundaries)
                && state == old(state)[BaseImported := Flag]
    {
      if Read(state, BaseImported) != Null {
        return true;
      }
      var rows := records;
      for i := 0 to |admins|
        invariant rows == ImportedAdmins(records, admins[..i])
        invariant records == old(records) && state == old(state)
      {
        var key := RecordKey(AdminKind, admins[i].dialog, admins[i].id);
        assert admins[..i + 1][..i] == admins[..i];
        if key !in rows {
          rows := rows[key := admins[i].payload];
        }
      }
      assert admins[..|admins|] == admins;
      ghost var start := rows;
      for i := 0 to |base|
        invariant rows == Imported(start, base[..i], boundaries)
        invariant records == old(records) && state == old(state)
      {
        var m := base[i];
        var key := RecordKey(MessageKind, m.peer, m.id);
        assert base[..i + 1][..i] == base[..i];
        if !(m.peer in boundaries && m.id > boundaries[m.peer]) && key !in rows {
          rows := rows[key := m.payload];
        }
      }
      assert base[..|base|] == base;
      if Read(state, BaseFingerprint) != Print(current) {
        return false;
      }
      records := rows;
      state := state[BaseImported := Flag];
      ok := true;
    }
  }
}
