/** Identity interning and reaction back-references: packing a flat export record and expanding it again. */
module Identities {
  import opened Common
  import opened JsonValues
  import opened Pointers

  datatype RecordKind = MessageRecord | AdminRecord | HeaderRecord

  /** The identity directory: a snapshot's reference is its position. */
  type Index = seq<Json>

  // -------------------------------------------------------------------- index

  function FirstAt(index: Index, snapshot: Json): (r: Option<nat>)
    ensures r.Some? ==> r.value < |index| && index[r.value] == snapshot
    ensures r.Some? ==> forall i :: 0 <= i < r.value ==> index[i] != snapshot
    ensures r.None? ==> snapshot !in index
  {
    if index == [] then None
    else if index[0] == snapshot then Some(0)
    else match FirstAt(index[1..], snapshot)
      case Some(i) => assert index[1..][i] == index[i + 1]; Some(i + 1)
      case None => None
  }

  /** The position of an identity's sparse snapshot; a frozen directory takes no new ones. */
  function Intern(index: Index, frozen: bool, identity: Fields): (r: Result<(int, Index)>)
    ensures r.Ok? ==> 0 <= r.value.0 < |r.value.1| && index <= r.value.1 && r.value.1[r.value.0] == Omit(JObj(identity))
  {
    var snapshot := Omit(JObj(identity));
    var found := FirstAt(index, snapshot);
    if found.Some? then Ok((found.value, index))
    else if frozen then Err("Export identities changed between publication passes")
    else Ok((|index|, index + [snapshot]))
  }

  function Get(index: Index, reference: Json): Result<Fields> {
    if !reference.JNum? || reference.n < 0 then Err("Invalid identity reference")
    else if reference.n >= |index| || !index[reference.n].JObj? then Err("Identity reference is out of range")
    else Ok(index[reference.n].fields)
  }

  // ----------------------------------------------------------- one identity

  predicate StartsWith(key: string, prefix: string) {
    prefix <= key
  }

  /** The part of a record whose keys start with the prefix, without the prefix. */
  function Snapshot(record: Fields, prefix: string): (r: Fields)
    ensures forall s: string {:trigger prefix + s} :: s in r <==> prefix + s in record
    ensures forall s: string {:trigger r[s]} :: s in r ==> r[s] == record[prefix + s]
  {
    assert forall key :: key in record && StartsWith(key, prefix) ==> prefix + key[|prefix|..] == key;
    assert forall s: string :: prefix + s in record ==> StartsWith(prefix + s, prefix) && (prefix + s)[|prefix|..] == s;
    map key | key in record && StartsWith(key, prefix) :: key[|prefix|..] := record[key]
  }

  function Without(record: Fields, prefix: string): (r: Fields)
    ensures forall key :: key in r <==> key in record && !StartsWith(key, prefix)
    ensures forall key :: key in r ==> r[key] == record[key]
  {
    map key | key in record && !StartsWith(key, prefix) :: record[key]
  }

  function Prefixed(identity: Fields, prefix: string): (r: Fields)
    ensures forall key :: key in r <==> StartsWith(key, prefix) && key[|prefix|..] in identity
    ensures forall key :: key in r ==> StartsWith(key, prefix) && r[key] == identity[key[|prefix|..]]
  {
    var keys := set s | s in identity :: prefix + s;
    assert forall s: string :: s in identity ==> (prefix + s)[|prefix|..] == s;
    assert forall key :: StartsWith(key, prefix) ==> prefix + key[|prefix|..] == key;
    map key | key in keys :: identity[key[|prefix|..]]
  }

  /** The reference field of a prefix: "author_" becomes "author". */
  function Reference(prefix: string): string
    requires prefix != ""
  {
    prefix[..|prefix| - 1]
  }

  /** Replaces the prefixed facts by one reference, or by nothing when they are all blank. */
  function IdentityRef(record: Fields, prefix: string, index: Index, frozen: bool): (r: Result<(Fields, Index)>)
    requires prefix != ""
    ensures r.Ok? ==> index <= r.value.1
  {
    if Reference(prefix) in record then Err("Flat identity contains a reserved reference field")
    else
      var identity := OmitFields(Snapshot(record, prefix));
      var rest := Without(record, prefix);
      if identity == map[] then Ok((rest, index))
      else
        var interned :- Intern(index, frozen, identity);
        Ok((rest[Reference(prefix) := JNum(interned.0)], interned.1))
  }

  function ExpandRef(record: Fields, prefix: string, index: Index): Result<Fields>
    requires prefix != ""
  {
    var field := Reference(prefix);
    if field !in record then Ok(record)
    else
      var identity :- Get(index, record[field]);
      Ok((map key | key in record && key != field :: record[key]) + Prefixed(identity, prefix))
  }

  // ---------------------------------------------------------------- related users

  function RelatedRefs(users: seq<Json>, index: Index, frozen: bool): (r: Result<(seq<Json>, Index)>)
    ensures r.Ok? ==> index <= r.value.1 && |r.value.0| == |users|
  {
    if users == [] then Ok(([], index))
    else
      var before :- RelatedRefs(users[..|users| - 1], index, frozen);
      var user := users[|users| - 1];
      if !user.JObj? then Err("Related user is not an object")
      else
        var interned :- Intern(before.1, frozen, user.fields);
        Ok((before.0 + [JNum(interned.0)], interned.1))
  }

  function RelatedExpand(refs: seq<Json>, index: Index): (r: Result<seq<Json>>)
    ensures r.Ok? ==> |r.value| == |refs|
  {
    if refs == [] then Ok([])
    else
      var before :- RelatedExpand(refs[..|refs| - 1], index);
      var user :- Get(index, refs[|refs| - 1]);
      Ok(before + [JObj(user)])
  }

  // -------------------------------------------------------------------- reactors

  function ReactorRefs(reactors: seq<Json>, index: Index, frozen: bool): (r: Result<(seq<Json>, Index)>)
    ensures r.Ok? ==> index <= r.value.1 && |r.value.0| == |reactors|
  {
    if reactors == [] then Ok(([], index))
    else
      var before :- ReactorRefs(reactors[..|reactors| - 1], index, frozen);
      var reactor := reactors[|reactors| - 1];
      if !reactor.JObj? then Err("Reactor is not an object")
      else
        var packed :- IdentityRef(reactor.fields, ACTOR, before.1, frozen);
        Ok((before.0 + [JObj(packed.0)], packed.1))
  }

  function ReactorExpand(reactors: seq<Json>, index: Index): (r: Result<seq<Json>>)
    ensures r.Ok? ==> |r.value| == |reactors|
  {
    if reactors == [] then Ok([])
    else
      var before :- ReactorExpand(reactors[..|reactors| - 1], index);
      var reactor := reactors[|reactors| - 1];
      if !reactor.JObj? then Err("Reactor is not an object")
      else
        var flat :- ExpandRef(reactor.fields, ACTOR, index);
        Ok(before + [JObj(flat)])
  }

  const AUTHOR := "author_"
  const ACTOR := "actor_"

  // --------------------------------------------------------------- recent reactions

  /** The integer a canonical decimal spelling denotes: no sign but a leading minus, no leading zero, no "-0". */
  function CanonicalInt(s: string): Option<int> {
    if s == "0" then Some(0)
    else
      var negative := s != "" && s[0] == '-';
      var magnitude := if negative then s[1..] else s;
      if magnitude == "" || magnitude[0] == '0' then None
      else match ReadIndex(magnitude)
        case Some(n) => var value: int := n; Some(if negative then -value else value)
        case None => None
  }

  const CHANNEL_OFFSET := 1_000_000_000_000

  function PeerId(identity: Fields): Option<Json> {
    if "id" !in identity || !identity["id"].JStr? || "kind" !in identity then None
    else match CanonicalInt(identity["id"].s)
      case None => None
      case Some(id) =>
        if identity["kind"] == JStr("user") && id > 0 then
          Some(JObj(map["_" := JStr("PeerUser"), "user_id" := JNum(id)]))
        else if identity["kind"] == JStr("chat") && id < 0 then
          Some(JObj(map["_" := JStr("PeerChat"), "chat_id" := JNum(-id)]))
        else if identity["kind"] == JStr("channel") && id <= -CHANNEL_OFFSET then
          Some(JObj(map["_" := JStr("PeerChannel"), "channel_id" := JNum(-id - CHANNEL_OFFSET)]))
        else None
  }

  function Raw(reactor: Fields): Fields {
    if "raw" in reactor && reactor["raw"].JObj? then reactor["raw"].fields else map[]
  }

  /** What a reactor offers for a field its raw facts do not mention. */
  function Default(reactor: Fields, identity: Fields, field: string): Option<Json> {
    if field == "peer_id" then PeerId(identity)
    else if field in reactor && reactor[field] != JNull then Some(reactor[field])
    else None
  }

  function SetDefault(candidate: Fields, field: string, value: Option<Json>): Fields {
    if value.None? || field in candidate then candidate else candidate[field := value.value]
  }

  /** The recent-reaction event a reactor stands for. */
  function RecentCandidate(reactor: Fields, identity: Fields): Fields {
    var withDate := SetDefault(Raw(reactor), "date", Default(reactor, identity, "date"));
    var withReaction := SetDefault(withDate, "reaction", Default(reactor, identity, "reaction"));
    SetDefault(withReaction, "peer_id", Default(reactor, identity, "peer_id"))
  }

  function CandidateOf(reactor: Json, index: Index): Option<Fields> {
    if !reactor.JObj? || "actor" !in reactor.fields then None
    else match Get(index, reactor.fields["actor"])
      case Ok(identity) => Some(RecentCandidate(reactor.fields, identity))
      case Err(_) => None
  }

  /** The first reactor whose event has the same sparse form. */
  function Match(reactors: seq<Json>, index: Index, event: Json): (r: Option<nat>)
    ensures r.Some? ==> r.value < |reactors| && CandidateOf(reactors[r.value], index).Some?
                        && Omit(JObj(CandidateOf(reactors[r.value], index).value)) == Omit(event)
  {
    if reactors == [] then None
    else
      var n := |reactors| - 1;
      match Match(reactors[..n], index, event)
      case Some(i) => Some(i)
      case None =>
        var candidate := CandidateOf(reactors[n], index);
        if event.JObj? && candidate.Some? && Omit(JObj(candidate.value)) == Omit(event) then Some(n) else None
  }

  function CompactEvents(events: seq<Json>, reactors: seq<Json>, index: Index): (r: Result<seq<Json>>)
    ensures r.Ok? ==> |r.value| == |events|
    ensures r.Ok? ==> forall i :: 0 <= i < |events| ==>
              && !(events[i].JObj? && "reactor" in events[i].fields)
              && r.value[i] == CompactEvent(events[i], reactors, index)
  {
    if events == [] then Ok([])
    else
      var before :- CompactEvents(events[..|events| - 1], reactors, index);
      var event := events[|events| - 1];
      if event.JObj? && "reactor" in event.fields then Err("Flat reaction contains a reserved reference field")
      else Ok(before + [CompactEvent(event, reactors, index)])
  }

  function CompactEvent(event: Json, reactors: seq<Json>, index: Index): Json {
    match Match(reactors, index, event)
    case Some(i) => JObj(map["reactor" := JNum(i)])
    case None => event
  }

  function ExpandEvent(event: Json, reactors: seq<Json>): Result<Json> {
    if event.JObj? && event.fields.Keys == {"reactor"} then
      var reference := event.fields["reactor"];
      if !reference.JNum? || !(0 <= reference.n < |reactors|) then Err("Recent reaction reference is out of range")
      else if !reactors[reference.n].JObj? then Err("Recent reaction reference is invalid")
      else
        var reactor := reactors[reference.n].fields;
        Ok(JObj(RecentCandidate(reactor, Snapshot(reactor, ACTOR))))
    else Ok(event)
  }

  function ExpandEvents(events: seq<Json>, reactors: seq<Json>): (r: Result<seq<Json>>)
    ensures r.Ok? ==> |r.value| == |events|
    ensures r.Ok? <==> forall i :: 0 <= i < |events| ==> ExpandEvent(events[i], reactors).Ok?
    ensures r.Ok? ==> forall i :: 0 <= i < |events| ==> ExpandEvent(events[i], reactors) == Ok(r.value[i])
  {
    if events == [] then Ok([])
    else
      var before := ExpandEvents(events[..|events| - 1], reactors);
      if before.Err? then
        Err(before.message)
      else
        var event :- ExpandEvent(events[|events| - 1], reactors);
        Ok(before.value + [event])
  }

  // ------------------------------------------------------------------ whole records

  predicate HasArray(record: Fields, field: string) {
    field in record && record[field].JArr?
  }

  predicate HasObject(record: Fields, field: string) {
    field in record && record[field].JObj?
  }

  predicate HasRecent(record: Fields) {
    && HasObject(record, "reactions")
    && HasObject(record["reactions"].fields, "aggregate")
    && HasArray(record["reactions"].fields["aggregate"].fields, "recent_reactions")
  }

  function Recent(record: Fields): seq<Json>
    requires HasRecent(record)
  {
    record["reactions"].fields["aggregate"].fields["recent_reactions"].items
  }

  function WithRecent(record: Fields, events: seq<Json>): Fields
    requires HasRecent(record)
  {
    var reactions := record["reactions"].fields;
    var aggregate := reactions["aggregate"].fields;
    record["reactions" := JObj(reactions["aggregate" := JObj(aggregate["recent_reactions" := JArr(events)])])]
  }

  function PrefixOf(kind: RecordKind): string {
    if kind == MessageRecord then AUTHOR else ACTOR
  }

  function PackRelated(record: Fields, index: Index, frozen: bool): (r: Result<(Fields, Index)>)
    ensures r.Ok? ==> index <= r.value.1
  {
    if !HasArray(record, "related_users") then Ok((record, index))
    else
      var refs :- RelatedRefs(record["related_users"].items, index, frozen);
      Ok((record["related_users" := JArr(refs.0)], refs.1))
  }

  function PackReactors(record: Fields, index: Index, frozen: bool): (r: Result<(Fields, Index)>)
    ensures r.Ok? ==> index <= r.value.1
  {
    if !HasArray(record, "reactors") then Ok((record, index))
    else
      var packed :- ReactorRefs(record["reactors"].items, index, frozen);
      var result := record["reactors" := JArr(packed.0)];
      if !HasRecent(result) then Ok((result, packed.1))
      else
        var events :- CompactEvents(Recent(result), packed.0, packed.1);
        Ok((WithRecent(result, events), packed.1))
  }

  function Pack(kind: RecordKind, flat: Fields, index: Index, frozen: bool): (r: Result<(Fields, Index)>)
    ensures r.Ok? ==> index <= r.value.1
  {
    if kind == HeaderRecord then Ok((OmitFields(flat), index))
    else
      var owned :- IdentityRef(flat, PrefixOf(kind), index, frozen);
      var related :- PackRelated(owned.0, owned.1, frozen);
      if kind == AdminRecord then Ok((OmitFields(related.0), related.1))
      else
        var packed :- PackReactors(related.0, related.1, frozen);
        Ok((OmitFields(packed.0), packed.1))
  }

  function ExpandRelatedField(record: Fields, index: Index): Result<Fields> {
    if !HasArray(record, "related_users") then Ok(record)
    else
      var users :- RelatedExpand(record["related_users"].items, index);
      Ok(record["related_users" := JArr(users)])
  }

  function ExpandReactorField(record: Fields, index: Index): Result<Fields> {
    if !HasArray(record, "reactors") then Ok(record)
    else
      var reactors :- ReactorExpand(record["reactors"].items, index);
      Ok(record["reactors" := JArr(reactors)])
  }

  function ExpandRecentField(record: Fields): Result<Fields> {
    var reactors := if "reactors" in record then record["reactors"] else JArr([]);
    if !HasRecent(record) || !reactors.JArr? then Ok(record)
    else
      var events :- ExpandEvents(Recent(record), reactors.items);
      Ok(WithRecent(record, events))
  }

  function Expand(kind: RecordKind, wire: Fields, index: Index): Result<Fields> {
    if kind == HeaderRecord then Ok(wire)
    else
      var owned :- ExpandRef(wire, PrefixOf(kind), index);
      var related :- ExpandRelatedField(owned, index);
      if kind == AdminRecord then Ok(related)
      else
        var reactors :- ExpandReactorField(related, index);
        ExpandRecentField(reactors)
  }
}
