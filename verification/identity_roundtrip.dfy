/** Expanding a packed record gives back the sparse record, and exactly when it does. */
module IdentityRoundTrip {
  import opened Common
  import opened JsonValues
  import opened Pointers
  import opened Identities

  // ---------------------------------------------------------- one identity

  /** Only the prefixed facts and their reference change. */
  lemma RefTouchesPrefixOnly(record: Fields, prefix: string, index: Index, frozen: bool)
    requires prefix in {AUTHOR, ACTOR} && IdentityRef(record, prefix, index, frozen).Ok?
    ensures Reference(prefix) !in record
    ensures var packed := IdentityRef(record, prefix, index, frozen).value.0;
            && (forall key :: StartsWith(key, prefix) ==> key !in packed)
            && (forall key :: !StartsWith(key, prefix) && key != Reference(prefix) ==> SameAt(packed, record, key))
  {
  }

  /** Whatever the directory grows to, an interned reference still reads as the identity's sparse snapshot. */
  lemma InternedStaysReadable(index: Index, frozen: bool, identity: Fields, later: Index)
    requires Intern(index, frozen, identity).Ok? && Intern(index, frozen, identity).value.1 <= later
    ensures Get(later, JNum(Intern(index, frozen, identity).value.0)) == Ok(OmitFields(identity))
  {
  }

  lemma ReferenceReads(record: Fields, prefix: string, index: Index, frozen: bool, later: Index)
    requires prefix in {AUTHOR, ACTOR} && IdentityRef(record, prefix, index, frozen).Ok?
    requires IdentityRef(record, prefix, index, frozen).value.1 <= later
    ensures var packed := IdentityRef(record, prefix, index, frozen).value.0;
            var identity := OmitFields(Snapshot(record, prefix));
            if identity == map[] then Reference(prefix) !in packed
            else Reference(prefix) in packed && Get(later, packed[Reference(prefix)]) == Ok(identity)
                 && packed[Reference(prefix)].JNum?
  {
    var identity := OmitFields(Snapshot(record, prefix));
    if identity != map[] {
      OmitIsSparse(JObj(Snapshot(record, prefix)));
      InternedStaysReadable(index, frozen, identity, later);
    }
  }

  /** Expanding any record that carries the packed reference restores the sparse identity facts, nothing else. */
  lemma RefRoundTrip(record: Fields, prefix: string, index: Index, frozen: bool, later: Index, wire: Fields)
    requires prefix in {AUTHOR, ACTOR} && IdentityRef(record, prefix, index, frozen).Ok?
    requires IdentityRef(record, prefix, index, frozen).value.1 <= later
    requires SameAt(wire, IdentityRef(record, prefix, index, frozen).value.0, Reference(prefix))
    requires forall key :: StartsWith(key, prefix) ==> key !in wire
    ensures ExpandRef(wire, prefix, later).Ok?
    ensures var flat := ExpandRef(wire, prefix, later).value;
            && Reference(prefix) !in flat
            && (forall key :: StartsWith(key, prefix) ==> SameAt(flat, OmitFields(record), key))
            && (forall key :: !StartsWith(key, prefix) && key != Reference(prefix) ==> SameAt(flat, wire, key))
  {
    hide IdentityRef, Omit, Get, Snapshot, OmitFields, Prefixed;
    ReferenceReads(record, prefix, index, frozen, later);
    var identity := OmitFields(Snapshot(record, prefix));
    var flat := ExpandRef(wire, prefix, later).value;
    forall key | StartsWith(key, prefix)
      ensures SameAt(flat, OmitFields(record), key)
    {
      PrefixedFact(record, prefix, key);
    }
  }

  /** A prefixed key is a sparse fact of the record exactly when its suffix is one of the identity. */
  lemma PrefixedFact(record: Fields, prefix: string, key: string)
    requires StartsWith(key, prefix)
    ensures var identity := OmitFields(Snapshot(record, prefix));
            var suffix := key[|prefix|..];
            && (suffix in identity <==> key in OmitFields(record))
            && (suffix in identity ==> identity[suffix] == OmitFields(record)[key])
  {
    assert prefix + key[|prefix|..] == key;
  }

  /** Taking the snapshot and dropping blanks commute. */
  lemma SnapshotOfOmit(record: Fields, prefix: string)
    ensures OmitFields(Snapshot(record, prefix)) == Snapshot(OmitFields(record), prefix)
  {
  }

  // -------------------------------------------------------------- arrays of identities

  /** The sparse form of an array, slot by slot. */
  function OmitItems(items: seq<Json>): (r: seq<Json>)
    ensures Omit(JArr(items)) == JArr(r) && |r| == |items|
    ensures forall i :: 0 <= i < |items| ==> r[i] == Omit(items[i])
  {
    Omit(JArr(items)).items
  }

  lemma OmitLastItem(items: seq<Json>)
    requires items != []
    ensures OmitItems(items) == OmitItems(items[..|items| - 1]) + [Omit(items[|items| - 1])]
  {
  }

  lemma {:induction false} RelatedRoundTrip(users: seq<Json>, index: Index, frozen: bool, later: Index)
    requires RelatedRefs(users, index, frozen).Ok? && RelatedRefs(users, index, frozen).value.1 <= later
    ensures RelatedExpand(RelatedRefs(users, index, frozen).value.0, later) == Ok(OmitItems(users))
  {
    hide Omit, OmitItems, Intern, Get;
    if users != [] {
      var n := |users| - 1;
      var before := RelatedRefs(users[..n], index, frozen).value;
      RelatedRoundTrip(users[..n], index, frozen, later);
      InternedStaysReadable(before.1, frozen, users[n].fields, later);
      var refs := RelatedRefs(users, index, frozen).value.0;
      assert refs[..n] == before.0;
      OmitLastItem(users);
      assert Omit(users[n]) == JObj(OmitFields(users[n].fields));
    }
  }

  /** Related users are packed to references that name their sparse identities in any later directory. */
  lemma {:induction false} RelatedAreReferences(users: seq<Json>, index: Index, frozen: bool, later: Index, i: nat)
    requires RelatedRefs(users, index, frozen).Ok? && RelatedRefs(users, index, frozen).value.1 <= later
    requires i < |users|
    ensures var ref := RelatedRefs(users, index, frozen).value.0[i];
            ref.JNum? && 0 <= ref.n < |later| && later[ref.n] == Omit(users[i])
  {
    hide Omit, Intern;
    var n := |users| - 1;
    if i < n { RelatedAreReferences(users[..n], index, frozen, later, i); }
  }

  /** Each reactor is packed on its own, with the directory as it stood when its turn came. */
  lemma {:induction false} ReactorPacked(reactors: seq<Json>, index: Index, frozen: bool, i: nat) returns (at: Index)
    requires ReactorRefs(reactors, index, frozen).Ok? && i < |reactors|
    ensures reactors[i].JObj?
    ensures var r := IdentityRef(reactors[i].fields, ACTOR, at, frozen);
            && r.Ok? && r.value.1 <= ReactorRefs(reactors, index, frozen).value.1
            && ReactorRefs(reactors, index, frozen).value.0[i] == JObj(r.value.0)
  {
    var n := |reactors| - 1;
    if i == n {
      at := ReactorRefs(reactors[..n], index, frozen).value.1;
    } else {
      at := ReactorPacked(reactors[..n], index, frozen, i);
    }
  }

  lemma NumberIsKept(fields: Fields, key: string)
    requires key in fields ==> fields[key].JNum?
    ensures SameAt(OmitFields(fields), fields, key)
  {
  }

  /** A packed reactor, sparse or not, expands to the sparse original. */
  lemma PackedReactorExpands(reactor: Fields, index: Index, frozen: bool, later: Index)
    requires IdentityRef(reactor, ACTOR, index, frozen).Ok?
             && IdentityRef(reactor, ACTOR, index, frozen).value.1 <= later
    ensures ExpandRef(OmitFields(IdentityRef(reactor, ACTOR, index, frozen).value.0), ACTOR, later)
            == Ok(OmitFields(reactor))
  {
    hide Omit, IdentityRef, ExpandRef;
    var packed := IdentityRef(reactor, ACTOR, index, frozen).value.0;
    var wire := OmitFields(packed);
    RefTouchesPrefixOnly(reactor, ACTOR, index, frozen);
    ReferenceReads(reactor, ACTOR, index, frozen, later);
    NumberIsKept(packed, Reference(ACTOR));
    RefRoundTrip(reactor, ACTOR, index, frozen, later, wire);
    var flat := ExpandRef(wire, ACTOR, later).value;
    forall key ensures SameAt(flat, OmitFields(reactor), key) {
      if !StartsWith(key, ACTOR) && key != Reference(ACTOR) { assert SameAt(packed, reactor, key); }
    }
    SameEverywhere(flat, OmitFields(reactor));
  }

  lemma {:induction false} ReactorsExpand(reactors: seq<Json>, index: Index, frozen: bool, later: Index)
    requires ReactorRefs(reactors, index, frozen).Ok? && ReactorRefs(reactors, index, frozen).value.1 <= later
    ensures ReactorExpand(OmitItems(ReactorRefs(reactors, index, frozen).value.0), later) == Ok(OmitItems(reactors))
  {
    hide IdentityRef, ExpandRef, Omit, OmitItems;
    if reactors != [] {
      var n := |reactors| - 1;
      var before := ReactorRefs(reactors[..n], index, frozen).value;
      var packed := ReactorRefs(reactors, index, frozen).value.0;
      ReactorsExpand(reactors[..n], index, frozen, later);
      PackedReactorExpands(reactors[n].fields, before.1, frozen, later);
      assert packed[..n] == before.0;
      OmitLastItem(packed);
      OmitLastItem(reactors);
      assert OmitItems(packed)[..n] == OmitItems(before.0);
      assert Omit(packed[n]) == JObj(OmitFields(packed[n].fields));
      assert Omit(reactors[n]) == JObj(OmitFields(reactors[n].fields));
    }
  }

  // ------------------------------------------------------------ recent reactions

  /** The identity a flat reactor carries. */
  function Owner(reactor: Fields): Fields {
    OmitFields(Snapshot(reactor, ACTOR))
  }

  /** The reactor's own event, read off the flat record. */
  predicate StandsFor(reactor: Json, event: Json) {
    && event.JObj? && reactor.JObj? && Owner(reactor.fields) != map[]
    && JObj(OmitFields(RecentCandidate(reactor.fields, Owner(reactor.fields)))) == Omit(event)
  }

  function ReplacedBy(reactors: seq<Json>, event: Json): (r: Option<nat>)
    ensures r.Some? ==> r.value < |reactors| && StandsFor(reactors[r.value], event)
  {
    if reactors == [] then None
    else
      var n := |reactors| - 1;
      var earlier := ReplacedBy(reactors[..n], event);
      if earlier.Some? then earlier
      else if StandsFor(reactors[n], event) then Some(n)
      else None
  }

  /** A raw fact that is present but blank hides the reactor's own value for that field. */
  predicate Masks(reactor: Fields, field: string) {
    && field in Raw(reactor) && Blank(Omit(Raw(reactor)[field]))
    && Default(reactor, Owner(reactor), field).Some?
    && !Blank(Omit(Default(reactor, Owner(reactor), field).value))
  }

  predicate Masked(reactor: Fields) {
    Masks(reactor, "date") || Masks(reactor, "reaction") || Masks(reactor, "peer_id")
  }

  lemma RawOfOmit(reactor: Fields)
    ensures Raw(OmitFields(reactor)) == OmitFields(Raw(reactor))
  {
  }

  lemma PeerIdIsSparse(identity: Fields)
    ensures PeerId(identity).Some? ==>
              Omit(PeerId(identity).value) == PeerId(identity).value && !Blank(PeerId(identity).value)
  {
    if PeerId(identity).Some? {
      var peer := PeerId(identity).value.fields;
      assert "_" in peer;
      assert OmitFields(peer) == peer by {
        forall key ensures SameAt(OmitFields(peer), peer, key) { }
        SameEverywhere(OmitFields(peer), peer);
      }
    }
  }

  // ------------------------------------------------------------ peers and their identities

  /** The text an integer is printed as. */
  function Spelling(n: int): string {
    if n < 0 then "-" + Decimal(-n) else Decimal(n)
  }

  lemma CanonicalIntInvertsSpelling(s: string, n: int)
    ensures CanonicalInt(s) == Some(n) <==> s == Spelling(n)
  {
    SpellingReadsBack(n);
    if CanonicalInt(s) == Some(n) { CanonicalIsSpelled(s, n); }
  }

  lemma CanonicalIsSpelled(s: string, n: int)
    requires CanonicalInt(s) == Some(n)
    ensures s == Spelling(n)
  {
    if s == "0" {
      DecimalIsPositional(0, 0);
    } else {
      var magnitude := if s[0] == '-' then s[1..] else s;
      ReadBackIsDecimal(magnitude, if n < 0 then -n else n);
      if s[0] == '-' { assert s == "-" + magnitude; }
    }
  }

  lemma SpellingReadsBack(n: int)
    ensures CanonicalInt(Spelling(n)) == Some(n)
  {
    var m := if n < 0 then -n else n;
    IndexRoundTrip(m);
    DecimalHasNoLeadingZero(m);
    if n < 0 {
      assert Spelling(n)[1..] == Decimal(m);
    } else if n == 0 {
      assert Decimal(0) == "0";
    }
  }

  /** A user, a small group or a channel, as Telegram's objects name them. */
  datatype Peer = User(id: int) | Chat(id: int) | Channel(id: int)

  predicate IsPeer(p: Peer) {
    if p.Channel? then p.id >= 0 else p.id > 0
  }

  /** The one number an identity carries for a peer. */
  function MarkedId(p: Peer): int {
    match p
    case User(id) => id
    case Chat(id) => -id
    case Channel(id) => -1_000_000_000_000 - id
  }

  function PeerKind(p: Peer): string {
    match p
    case User(_) => "user"
    case Chat(_) => "chat"
    case Channel(_) => "channel"
  }

  /** Telegram's object for a peer. */
  function PeerJson(p: Peer): Json {
    match p
    case User(id) => JObj(map["_" := JStr("PeerUser"), "user_id" := JNum(id)])
    case Chat(id) => JObj(map["_" := JStr("PeerChat"), "chat_id" := JNum(id)])
    case Channel(id) => JObj(map["_" := JStr("PeerChannel"), "channel_id" := JNum(id)])
  }

  /** The identity carries the peer's kind and number. */
  predicate Identifies(identity: Fields, p: Peer) {
    && "kind" in identity && identity["kind"] == JStr(PeerKind(p))
    && "id" in identity && identity["id"] == JStr(Spelling(MarkedId(p)))
  }

  /** An identity stands for a peer exactly when it carries its kind and its number. */
  lemma PeerIdExactlyWhen(identity: Fields, p: Peer)
    requires IsPeer(p)
    ensures PeerId(identity) == Some(PeerJson(p)) <==> Identifies(identity, p)
  {
    hide CanonicalInt, Spelling;
    if "id" in identity && identity["id"].JStr? {
      CanonicalIntInvertsSpelling(identity["id"].s, MarkedId(p));
    }
    if PeerId(identity) == Some(PeerJson(p)) {
      var other := PeerIdIsPeer(identity);
      PeerJsonIsInjective(p, other);
    }
  }

  /** Whatever an identity stands for is a peer it identifies. */
  lemma PeerIdIsPeer(identity: Fields) returns (p: Peer)
    requires PeerId(identity).Some?
    ensures IsPeer(p) && PeerId(identity) == Some(PeerJson(p)) && Identifies(identity, p)
  {
    hide CanonicalInt, Spelling;
    var id := CanonicalInt(identity["id"].s).value;
    p := if identity["kind"] == JStr("user") then User(id)
    else if identity["kind"] == JStr("chat") then Chat(-id)
    else Channel(-id - CHANNEL_OFFSET);
    CanonicalIntInvertsSpelling(identity["id"].s, MarkedId(p));
  }

  lemma PeerJsonIsInjective(p: Peer, q: Peer)
    requires PeerJson(p) == PeerJson(q)
    ensures p == q
  {
    var a, b := PeerJson(p).fields, PeerJson(q).fields;
    assert a["_"] == b["_"];
    assert "user_id" in a <==> "user_id" in b;
    assert "chat_id" in a <==> "chat_id" in b;
    match p
    case User(_) => assert a["user_id"] == b["user_id"];
    case Chat(_) => assert a["chat_id"] == b["chat_id"];
    case Channel(_) => assert a["channel_id"] == b["channel_id"];
  }

  /** The event a reactor stands for: its raw facts, and its own date, reaction and peer where they say nothing. */
  lemma CandidateIsRawWithDefaults(reactor: Fields, identity: Fields)
    ensures var event, raw := RecentCandidate(reactor, identity), Raw(reactor);
            && (forall key :: key in raw ==> key in event && event[key] == raw[key])
            && (forall key :: key in event && key !in raw ==> key == "date" || key == "reaction" || key == "peer_id")
            && (forall key :: (key == "date" || key == "reaction") && key !in raw ==>
                  && (key in event <==> key in reactor && reactor[key] != JNull)
                  && (key in event ==> event[key] == reactor[key]))
            && ("peer_id" !in raw ==>
                  && ("peer_id" in event <==> exists p :: IsPeer(p) && Identifies(identity, p))
                  && forall p :: IsPeer(p) && Identifies(identity, p) ==>
                       "peer_id" in event && event["peer_id"] == PeerJson(p))
  {
    hide PeerId, Identifies, PeerJson;
    forall p | IsPeer(p) && Identifies(identity, p) ensures PeerId(identity) == Some(PeerJson(p)) {
      PeerIdExactlyWhen(identity, p);
    }
    if PeerId(identity).Some? {
      var p := PeerIdIsPeer(identity);
    }
  }

  ghost predicate IsDefaulted(key: string) {
    key == "date" || key == "reaction" || key == "peer_id"
  }

  /** Key by key: raw facts first, the reactor's defaults for the three defaulted fields after. */
  lemma CandidateFields(reactor: Fields, identity: Fields, key: string)
    ensures var candidate := RecentCandidate(reactor, identity);
            && (key in candidate <==>
                  || key in Raw(reactor)
                  || (IsDefaulted(key) && Default(reactor, identity, key).Some?))
            && (key in candidate ==>
                  candidate[key] == (if key in Raw(reactor) then Raw(reactor)[key]
                                     else Default(reactor, identity, key).value))
  {
  }

  lemma DefaultOfOmit(reactor: Fields, identity: Fields, field: string)
    requires IsDefaulted(field)
    ensures var value := Default(reactor, identity, field);
            Default(OmitFields(reactor), identity, field) ==
              if value.Some? && !Blank(Omit(value.value)) then Some(Omit(value.value)) else None
  {
    PeerIdIsSparse(identity);
  }

  lemma CandidateKeyOfOmit(reactor: Fields, key: string)
    ensures SameAt(RecentCandidate(OmitFields(reactor), Owner(reactor)),
                   OmitFields(RecentCandidate(reactor, Owner(reactor))), key)
            <==> !(IsDefaulted(key) && Masks(reactor, key))
  {
    hide RecentCandidate, Omit, OmitFields, Default, Raw, Owner;
    var identity := Owner(reactor);
    RawOfOmit(reactor);
    CandidateFields(reactor, identity, key);
    CandidateFields(OmitFields(reactor), identity, key);
    if IsDefaulted(key) {
      DefaultOfOmit(reactor, identity, key);
    }
  }

  /** Dropping blanks before or after building a reactor's event gives the same event, unless a blank raw fact masks. */
  lemma CandidateOfOmit(reactor: Fields)
    ensures RecentCandidate(OmitFields(reactor), Owner(reactor)) == OmitFields(RecentCandidate(reactor, Owner(reactor)))
            <==> !Masked(reactor)
  {
    hide RecentCandidate, Omit, OmitFields, Masks, Owner;
    var candidate := RecentCandidate(reactor, Owner(reactor));
    var sparse := RecentCandidate(OmitFields(reactor), Owner(reactor));
    forall key ensures SameAt(sparse, OmitFields(candidate), key) <==> !(IsDefaulted(key) && Masks(reactor, key)) {
      CandidateKeyOfOmit(reactor, key);
    }
    if !Masked(reactor) {
      SameEverywhere(sparse, OmitFields(candidate));
    } else {
      var field := if Masks(reactor, "date") then "date" else if Masks(reactor, "reaction") then "reaction"
          else "peer_id";
      assert !SameAt(sparse, OmitFields(candidate), field);
    }
  }

  lemma SameFactsSameCandidate(a: Fields, b: Fields, identity: Fields)
    requires SameAt(a, b, "raw") && SameAt(a, b, "date") && SameAt(a, b, "reaction")
    ensures RecentCandidate(a, identity) == RecentCandidate(b, identity)
  {
  }

  /** The packed reactor stands for the same event as the flat one. */
  lemma PackedCandidate(reactor: Fields, index: Index, frozen: bool, later: Index)
    requires IdentityRef(reactor, ACTOR, index, frozen).Ok?
             && IdentityRef(reactor, ACTOR, index, frozen).value.1 <= later
    ensures CandidateOf(JObj(IdentityRef(reactor, ACTOR, index, frozen).value.0), later) ==
              if Owner(reactor) == map[] then None else Some(RecentCandidate(reactor, Owner(reactor)))
  {
    hide Omit, IdentityRef, RecentCandidate, Get;
    ReferenceReads(reactor, ACTOR, index, frozen, later);
    RefTouchesPrefixOnly(reactor, ACTOR, index, frozen);
    assert Reference(ACTOR) == "actor";
    assert "reaction"[0] != ACTOR[0] && "raw"[0] != ACTOR[0] && "date"[0] != ACTOR[0];
    SameFactsSameCandidate(IdentityRef(reactor, ACTOR, index, frozen).value.0, reactor, Owner(reactor));
  }

  /** The packed search finds the reactor the flat record names. */
  lemma {:induction false} MatchIsReplacedBy(reactors: seq<Json>, index: Index, frozen: bool, later: Index, event: Json)
    requires ReactorRefs(reactors, index, frozen).Ok? && ReactorRefs(reactors, index, frozen).value.1 <= later
    ensures Match(ReactorRefs(reactors, index, frozen).value.0, later, event) == ReplacedBy(reactors, event)
  {
    hide IdentityRef, Omit, CandidateOf;
    if reactors != [] {
      var n := |reactors| - 1;
      var before := ReactorRefs(reactors[..n], index, frozen).value;
      var packed := ReactorRefs(reactors, index, frozen).value.0;
      assert packed[..n] == before.0;
      MatchIsReplacedBy(reactors[..n], index, frozen, later, event);
      PackedCandidate(reactors[n].fields, before.1, frozen, later);
    }
  }

  /** An event that was replaced comes back as its sparse form exactly when the reactor masks nothing. */
  lemma ReplacedEventExpands(reactors: seq<Json>, event: Json)
    requires ReplacedBy(reactors, event).Some?
    ensures var at := ReplacedBy(reactors, event).value;
            ExpandEvent(JObj(map["reactor" := JNum(at)]), OmitItems(reactors)) == Ok(Omit(event))
            <==> !Masked(reactors[at].fields)
  {
    hide Masked, RecentCandidate, Snapshot;
    var at := ReplacedBy(reactors, event).value;
    var reactor := reactors[at].fields;
    var marker := JObj(map["reactor" := JNum(at)]);
    assert marker.fields.Keys == {"reactor"};
    assert OmitItems(reactors)[at] == JObj(OmitFields(reactor));
    SnapshotOfOmit(reactor, ACTOR);
    CandidateOfOmit(reactor);
    assert ExpandEvent(marker, OmitItems(reactors)) == Ok(JObj(RecentCandidate(OmitFields(reactor), Owner(reactor))));
  }

  // ---------------------------------------------------------------- whole records

  /** In sparse form the event is nothing but a reference to a reactor. */
  predicate BareReference(event: Json) {
    Omit(event).JObj? && Omit(event).fields.Keys == {"reactor"}
  }

  /** A record without any reactors carries an event that reads as a reference to one. Records with a reactor list are
      refused by the packer when an event uses the reserved key at all. */
  predicate Dangling(record: Fields) {
    && !HasArray(record, "reactors") && "reactors" !in OmitFields(record) && HasRecent(record)
    && exists i :: 0 <= i < |Recent(record)| && BareReference(Recent(record)[i])
  }

  /** A recent event is replaced by a reactor whose blank raw fact masks a default. */
  predicate MasksSome(record: Fields) {
    && HasArray(record, "reactors") && HasRecent(record)
    && exists i :: 0 <= i < |Recent(record)| && ReplacedByMasked(record["reactors"].items, Recent(record)[i])
  }

  predicate ReplacedByMasked(reactors: seq<Json>, event: Json) {
    var at := ReplacedBy(reactors, event);
    at.Some? && Masked(reactors[at.value].fields)
  }

  /** No recent event is replaced by a reactor whose blank raw fact masks a default, or left as a reference to
      nothing. */
  predicate Faithful(kind: RecordKind, record: Fields) {
    kind == MessageRecord ==> !MasksSome(record) && !Dangling(record)
  }

  predicate Plain(key: string) {
    key != "related_users" && key != "reactors" && key != "reactions"
  }

  lemma PlainKeys()
    ensures forall prefix :: prefix in {AUTHOR, ACTOR} ==>
              && !StartsWith("related_users", prefix) && !StartsWith("reactors", prefix)
              && !StartsWith("reactions", prefix)
              && Plain(Reference(prefix))
  {
    assert "related_users"[0] != AUTHOR[0] && "reactors"[0] != AUTHOR[0] && "reactions"[0] != AUTHOR[0];
    assert "related_users"[0] != ACTOR[0] && "reactors"[0] != ACTOR[0] && "reactions"[0] != ACTOR[0];
    assert Reference(AUTHOR)[0] == 'a' && Reference(ACTOR)[0] == 'a';
  }

  /** After the reference is expanded, every plain key carries the sparse fact and the three array keys are
      untouched. */
  lemma OwnedExpands(record: Fields, prefix: string, index: Index, frozen: bool, later: Index, packed: Fields)
    requires prefix in {AUTHOR, ACTOR} && IdentityRef(record, prefix, index, frozen).Ok?
    requires IdentityRef(record, prefix, index, frozen).value.1 <= later
    requires forall key :: Plain(key) ==> SameAt(packed, IdentityRef(record, prefix, index, frozen).value.0, key)
    ensures ExpandRef(OmitFields(packed), prefix, later).Ok?
    ensures var flat := ExpandRef(OmitFields(packed), prefix, later).value;
            && (forall key :: Plain(key) ==> SameAt(flat, OmitFields(record), key))
            && (forall key :: !Plain(key) ==> SameAt(flat, OmitFields(packed), key))
  {
    hide IdentityRef, Omit, ExpandRef;
    PlainKeys();
    var owned := IdentityRef(record, prefix, index, frozen).value.0;
    var wire := OmitFields(packed);
    RefTouchesPrefixOnly(record, prefix, index, frozen);
    ReferenceReads(record, prefix, index, frozen, later);
    forall key | StartsWith(key, prefix) ensures key !in wire { assert SameAt(packed, owned, key); }
    assert SameAt(packed, owned, Reference(prefix));
    if Reference(prefix) in owned { OmitKeepsShape(owned[Reference(prefix)]); }
    RefRoundTrip(record, prefix, index, frozen, later, wire);
    var flat := ExpandRef(wire, prefix, later).value;
    NoReference(record, prefix, index, frozen);
    forall key | Plain(key) ensures SameAt(flat, OmitFields(record), key) {
      if !StartsWith(key, prefix) && key != Reference(prefix) {
        assert SameAt(packed, owned, key) && SameAt(owned, record, key);
        assert SameAt(flat, wire, key);
      }
    }
  }

  lemma NoReference(record: Fields, prefix: string, index: Index, frozen: bool)
    requires prefix in {AUTHOR, ACTOR} && IdentityRef(record, prefix, index, frozen).Ok?
    ensures Reference(prefix) !in record
  {
  }

  lemma OmitKeepsShape(j: Json)
    ensures Omit(j).JArr? <==> j.JArr?
    ensures Omit(j).JObj? <==> j.JObj?
    ensures j.JNum? ==> Omit(j) == j
  {
  }

  lemma {:induction false} RefsAreNumbers(users: seq<Json>, index: Index, frozen: bool)
    requires RelatedRefs(users, index, frozen).Ok?
    ensures OmitItems(RelatedRefs(users, index, frozen).value.0) == RelatedRefs(users, index, frozen).value.0
  {
    hide Intern, OmitItems;
    var refs := RelatedRefs(users, index, frozen).value.0;
    if users != [] {
      var n := |users| - 1;
      RefsAreNumbers(users[..n], index, frozen);
      assert refs[..n] == RelatedRefs(users[..n], index, frozen).value.0;
      OmitLastItem(refs);
    }
  }

  /** Expanding the related users of the wire record restores the sparse list and touches nothing else. */
  lemma RelatedFieldExpands(record: Fields, index: Index, frozen: bool, later: Index, wire: Fields)
    requires PackRelated(record, index, frozen).Ok? && PackRelated(record, index, frozen).value.1 <= later
    requires SameAt(wire, OmitFields(PackRelated(record, index, frozen).value.0), "related_users")
    ensures ExpandRelatedField(wire, later).Ok?
    ensures var flat := ExpandRelatedField(wire, later).value;
            && SameAt(flat, OmitFields(record), "related_users")
            && (forall key :: key != "related_users" ==> SameAt(flat, wire, key))
  {
    hide Omit, RelatedRefs, RelatedExpand, OmitItems;
    var packed := PackRelated(record, index, frozen).value.0;
    if HasArray(record, "related_users") {
      var users := record["related_users"].items;
      var refs := RelatedRefs(users, index, frozen).value.0;
      RelatedRoundTrip(users, index, frozen, later);
      RefsAreNumbers(users, index, frozen);
      assert Omit(record["related_users"]) == JArr(OmitItems(users));
      assert Omit(packed["related_users"]) == JArr(refs);
    } else if "related_users" in record {
      OmitKeepsShape(record["related_users"]);
    }
  }

  lemma ReactorFieldExpands(record: Fields, index: Index, frozen: bool, later: Index, wire: Fields)
    requires PackReactors(record, index, frozen).Ok? && PackReactors(record, index, frozen).value.1 <= later
    requires SameAt(wire, OmitFields(PackReactors(record, index, frozen).value.0), "reactors")
    ensures ExpandReactorField(wire, later).Ok?
    ensures var flat := ExpandReactorField(wire, later).value;
            && SameAt(flat, OmitFields(record), "reactors")
            && (forall key :: key != "reactors" ==> SameAt(flat, wire, key))
  {
    hide Omit, ReactorRefs, ReactorExpand, OmitItems, CompactEvents;
    var packed := PackReactors(record, index, frozen).value.0;
    if HasArray(record, "reactors") {
      var reactors := record["reactors"].items;
      var refs := ReactorRefs(reactors, index, frozen).value.0;
      ReactorsExpand(reactors, index, frozen, later);
      assert Omit(record["reactors"]) == JArr(OmitItems(reactors));
      assert Omit(packed["reactors"]) == JArr(OmitItems(refs));
    } else if "reactors" in record {
      OmitKeepsShape(record["reactors"]);
    }
  }

  /** Dropping blanks keeps the recent events, slot by slot, or drops an empty list. */
  lemma RecentOfOmit(record: Fields)
    ensures HasRecent(OmitFields(record)) <==> HasRecent(record) && Recent(record) != []
    ensures HasRecent(record) && Recent(record) != [] ==> Recent(OmitFields(record)) == OmitItems(Recent(record))
  {
    hide OmitItems, Omit;
    var sparse := OmitFields(record);
    if "reactions" in record {
      var r := record["reactions"];
      OmitKeepsShape(r);
      if r.JObj? {
        var reactions := OmitFields(r.fields);
        assert Omit(r) == JObj(reactions);
        assert "aggregate" in reactions ==> "aggregate" in r.fields;
        if "aggregate" in r.fields {
          var a := r.fields["aggregate"];
          OmitKeepsShape(a);
          if a.JObj? {
            var aggregate := OmitFields(a.fields);
            assert Omit(a) == JObj(aggregate);
            assert "recent_reactions" in aggregate ==> "recent_reactions" in a.fields;
            if "recent_reactions" in a.fields {
              var e := a.fields["recent_reactions"];
              OmitKeepsShape(e);
              if e.JArr? { assert Omit(e) == JArr(OmitItems(e.items)); }
            }
          }
        }
      }
    }
  }

  /** Setting a fact that is not blank and dropping blanks commute. */
  lemma SetThenOmit(fields: Fields, key: string, value: Json)
    requires !Blank(Omit(value))
    ensures OmitFields(fields[key := value]) == OmitFields(fields)[key := Omit(value)]
    ensures Omit(JObj(fields[key := value])) == JObj(OmitFields(fields)[key := Omit(value)])
    ensures !Blank(Omit(JObj(fields[key := value])))
  {
    hide Omit;
    var after := fields[key := value];
    assert key in OmitFields(after);
    assert OmitFields(after) == OmitFields(fields)[key := Omit(value)];
    assert Omit(JObj(after)) == JObj(OmitFields(after));
  }

  lemma WithRecentOfOmit(record: Fields, events: seq<Json>)
    requires HasRecent(record) && Recent(record) != [] && events != []
    requires HasRecent(OmitFields(record))
    ensures SameAt(OmitFields(WithRecent(record, events)), WithRecent(OmitFields(record), OmitItems(events)),
                   "reactions")
  {
    hide OmitItems, Omit;
    var reactions := record["reactions"].fields;
    var aggregate := reactions["aggregate"].fields;
    var aggregate' := aggregate["recent_reactions" := JArr(events)];
    var reactions' := reactions["aggregate" := JObj(aggregate')];
    assert Omit(JArr(events)) == JArr(OmitItems(events));
    SetThenOmit(aggregate, "recent_reactions", JArr(events));
    SetThenOmit(reactions, "aggregate", JObj(aggregate'));
    SetThenOmit(record, "reactions", JObj(reactions'));
    assert Omit(JObj(reactions)) == JObj(OmitFields(reactions)) && Omit(JObj(aggregate)) == JObj(OmitFields(aggregate));
  }

  lemma UnreservedStaysUnreserved(event: Json)
    requires !(event.JObj? && "reactor" in event.fields)
    ensures forall reactors :: ExpandEvent(Omit(event), reactors) == Ok(Omit(event))
  {
  }

  /** The i-th wire event expands to the i-th sparse event exactly when its reactor masks nothing. */
  lemma WireEventExpands(reactors: seq<Json>, index: Index, frozen: bool, event: Json)
    requires ReactorRefs(reactors, index, frozen).Ok? && !(event.JObj? && "reactor" in event.fields)
    ensures var packed := ReactorRefs(reactors, index, frozen).value;
            var at := ReplacedBy(reactors, event);
            var expanded := ExpandEvent(Omit(CompactEvent(event, packed.0, packed.1)), OmitItems(reactors));
            && expanded.Ok?
            && (expanded == Ok(Omit(event)) <==> (at.Some? ==> !Masked(reactors[at.value].fields)))
  {
    hide Omit, OmitItems, Masked, RecentCandidate, StandsFor;
    var packed := ReactorRefs(reactors, index, frozen).value;
    MatchIsReplacedBy(reactors, index, frozen, packed.1, event);
    var at := ReplacedBy(reactors, event);
    if at.Some? {
      var marker := JObj(map["reactor" := JNum(at.value)]);
      MarkerIsSparse(at.value);
      ReplacedEventExpands(reactors, event);
      MarkerExpands(reactors, event);
    } else {
      UnreservedStaysUnreserved(event);
    }
  }

  lemma MarkerIsSparse(at: nat)
    ensures Omit(JObj(map["reactor" := JNum(at)])) == JObj(map["reactor" := JNum(at)])
  {
  }

  lemma MarkerExpands(reactors: seq<Json>, event: Json)
    requires ReplacedBy(reactors, event).Some?
    ensures ExpandEvent(JObj(map["reactor" := JNum(ReplacedBy(reactors, event).value)]), OmitItems(reactors)).Ok?
  {
  }

  predicate AllUnmasked(reactors: seq<Json>, events: seq<Json>) {
    forall i :: 0 <= i < |events| ==>
      var at := ReplacedBy(reactors, events[i]);
      at.Some? ==> !Masked(reactors[at.value].fields)
  }

  lemma WireEventsExpand(reactors: seq<Json>, index: Index, frozen: bool, events: seq<Json>)
    requires ReactorRefs(reactors, index, frozen).Ok?
    requires var packed := ReactorRefs(reactors, index, frozen).value;
             CompactEvents(events, packed.0, packed.1).Ok?
    ensures var packed := ReactorRefs(reactors, index, frozen).value;
            var compacted := CompactEvents(events, packed.0, packed.1).value;
            var expanded := ExpandEvents(OmitItems(compacted), OmitItems(reactors));
            && expanded.Ok?
            && (expanded.value == OmitItems(events) <==> AllUnmasked(reactors, events))
  {
    hide Omit, ExpandEvent, CompactEvent, Masked, ReplacedBy, ReactorRefs;
    var packed := ReactorRefs(reactors, index, frozen).value;
    var compacted := CompactEvents(events, packed.0, packed.1).value;
    forall i | 0 <= i < |events|
      ensures var at := ReplacedBy(reactors, events[i]);
              var expanded := ExpandEvent(OmitItems(compacted)[i], OmitItems(reactors));
              && expanded.Ok?
              && (expanded == Ok(OmitItems(events)[i]) <==> (at.Some? ==> !Masked(reactors[at.value].fields)))
    {
      WireEventExpands(reactors, index, frozen, events[i]);
    }
    var expanded := ExpandEvents(OmitItems(compacted), OmitItems(reactors)).value;
    assert forall i :: 0 <= i < |events| ==>
             ExpandEvent(OmitItems(compacted)[i], OmitItems(reactors)) == Ok(expanded[i]);
    assert AllUnmasked(reactors, events) ==> forall i :: 0 <= i < |events| ==> expanded[i] == OmitItems(events)[i];
  }

  lemma WithSameRecent(record: Fields)
    requires HasRecent(record)
    ensures WithRecent(record, Recent(record)) == record
  {
    var reactions := record["reactions"].fields;
    var aggregate := reactions["aggregate"].fields;
    assert aggregate["recent_reactions" := aggregate["recent_reactions"]] == aggregate;
    assert reactions["aggregate" := reactions["aggregate"]] == reactions;
  }

  lemma SameReactionsSameRecent(a: Fields, b: Fields)
    requires SameAt(a, b, "reactions")
    ensures HasRecent(a) <==> HasRecent(b)
    ensures HasRecent(a) ==>
              Recent(a) == Recent(b) && forall events ::
                SameAt(WithRecent(a, events), WithRecent(b, events), "reactions")
  {
  }

  lemma DifferentRecentDiffers(record: Fields, events: seq<Json>, other: seq<Json>)
    requires HasRecent(record)
    ensures SameAt(WithRecent(record, events), WithRecent(record, other), "reactions") ==> events == other
  {
    var x := WithRecent(record, events);
    var y := WithRecent(record, other);
    if SameAt(x, y, "reactions") {
      assert x["reactions"].fields["aggregate"].fields["recent_reactions"] == JArr(events);
      assert y["reactions"].fields["aggregate"].fields["recent_reactions"] == JArr(other);
    }
  }

  lemma NoReactorsToRefer(event: Json)
    ensures ExpandEvent(Omit(event), []) == Ok(Omit(event)) <==> !BareReference(event)
    ensures ExpandEvent(Omit(event), []).Ok? <==> !BareReference(event)
  {
  }

  /** Without a reactor list the recent events stay as they are, or one of them refers to nothing. */
  lemma RecentUntouched(record: Fields, wire: Fields)
    requires !HasArray(record, "reactors")
    requires SameAt(wire, OmitFields(record), "reactors") && SameAt(wire, OmitFields(record), "reactions")
    ensures if Dangling(record) then ExpandRecentField(wire).Err? else ExpandRecentField(wire) == Ok(wire)
  {
    hide Omit, OmitItems, ExpandEvent, BareReference;
    RecentOfOmit(record);
    SameReactionsSameRecent(wire, OmitFields(record));
    if "reactors" in record { OmitKeepsShape(record["reactors"]); }
    if HasRecent(wire) && "reactors" !in wire {
      forall i | 0 <= i < |Recent(wire)|
        ensures ExpandEvent(Recent(wire)[i], []).Ok? <==> !BareReference(Recent(record)[i])
        ensures ExpandEvent(Recent(wire)[i], []) == Ok(Recent(wire)[i]) <==> !BareReference(Recent(record)[i])
      {
        NoReactorsToRefer(Recent(record)[i]);
        assert Recent(wire)[i] == Omit(Recent(record)[i]);
      }
      if !Dangling(record) {
        assert ExpandEvents(Recent(wire), []).value == Recent(wire);
        WithSameRecent(wire);
      }
    }
  }

  lemma SameReactorList(record: Fields, wire: Fields)
    requires HasArray(record, "reactors") && SameAt(wire, OmitFields(record), "reactors")
    ensures (if "reactors" in wire then wire["reactors"] else JArr([])) == JArr(OmitItems(record["reactors"].items))
  {
  }

  lemma WithoutRecentEvents(record: Fields, index: Index, frozen: bool, wire: Fields)
    requires PackReactors(record, index, frozen).Ok? && HasArray(record, "reactors")
    requires SameAt(wire, OmitFields(record), "reactors")
    requires SameAt(wire, OmitFields(PackReactors(record, index, frozen).value.0), "reactions")
    requires HasRecent(record) ==> Recent(record) == []
    ensures ExpandRecentField(wire) == Ok(wire) && SameAt(wire, OmitFields(record), "reactions")
  {
    hide Omit, OmitItems, ReactorRefs;
    var refs := ReactorRefs(record["reactors"].items, index, frozen).value;
    var result := record["reactors" := JArr(refs.0)];
    assert PackReactors(record, index, frozen).value.0 == result by {
      if HasRecent(record) { WithSameRecent(result); }
    }
    assert SameAt(OmitFields(result), OmitFields(record), "reactions");
    RecentOfOmit(record);
    SameReactionsSameRecent(wire, OmitFields(record));
  }

  lemma NoEventsUnmasked(reactors: seq<Json>)
    ensures AllUnmasked(reactors, [])
  {
  }

  /** Packing replaces the recent events by their compacted form. */
  lemma PackedRecent(record: Fields, index: Index, frozen: bool)
    requires PackReactors(record, index, frozen).Ok? && HasArray(record, "reactors") && HasRecent(record)
    ensures ReactorRefs(record["reactors"].items, index, frozen).Ok?
    ensures var refs := ReactorRefs(record["reactors"].items, index, frozen).value;
            && CompactEvents(Recent(record), refs.0, refs.1).Ok?
            && SameAt(OmitFields(PackReactors(record, index, frozen).value.0),
                      OmitFields(WithRecent(record, CompactEvents(Recent(record), refs.0, refs.1).value)), "reactions")
  {
  }

  /** The recent events come back in sparse form exactly when no replacing reactor masks a default. */
  lemma RecentFieldExpands(record: Fields, index: Index, frozen: bool, wire: Fields)
    requires PackReactors(record, index, frozen).Ok? && HasArray(record, "reactors")
    requires SameAt(wire, OmitFields(record), "reactors")
    requires SameAt(wire, OmitFields(PackReactors(record, index, frozen).value.0), "reactions")
    ensures ExpandRecentField(wire).Ok?
    ensures var flat := ExpandRecentField(wire).value;
            && (forall key :: key != "reactions" ==> SameAt(flat, wire, key))
            && (SameAt(flat, OmitFields(record), "reactions") <==>
                  (HasRecent(record) ==> AllUnmasked(record["reactors"].items, Recent(record))))
  {
    hide Omit, OmitItems, ReactorRefs, CompactEvents, ExpandEvents, AllUnmasked, HasRecent, WithRecent, PackReactors,
           ExpandRecentField;
    if HasRecent(record) ==> Recent(record) == [] {
      NoEventsUnmasked(record["reactors"].items);
      WithoutRecentEvents(record, index, frozen, wire);
    } else {
      SameReactorList(record, wire);
      PackedRecent(record, index, frozen);
      EventsFieldExpands(record, index, frozen, wire);
    }
  }

  lemma EventsFieldExpands(record: Fields, index: Index, frozen: bool, wire: Fields)
    requires HasArray(record, "reactors") && HasRecent(record) && Recent(record) != []
    requires ReactorRefs(record["reactors"].items, index, frozen).Ok?
    requires var refs := ReactorRefs(record["reactors"].items, index, frozen).value;
             CompactEvents(Recent(record), refs.0, refs.1).Ok?
    requires (if "reactors" in wire then wire["reactors"] else JArr([])) == JArr(OmitItems(record["reactors"].items))
    requires var refs := ReactorRefs(record["reactors"].items, index, frozen).value;
             var compacted := CompactEvents(Recent(record), refs.0, refs.1).value;
             SameAt(wire, OmitFields(WithRecent(record, compacted)), "reactions")
    ensures ExpandRecentField(wire).Ok?
    ensures var flat := ExpandRecentField(wire).value;
            && (forall key :: key != "reactions" ==> SameAt(flat, wire, key))
            && (SameAt(flat, OmitFields(record), "reactions")
                <==> AllUnmasked(record["reactors"].items, Recent(record)))
  {
    hide Omit, OmitItems, ReactorRefs, CompactEvents, ExpandEvents, AllUnmasked, HasRecent, Recent, WithRecent;
    var reactors := record["reactors"].items;
    var events := Recent(record);
    var refs := ReactorRefs(reactors, index, frozen).value;
    var compacted := CompactEvents(events, refs.0, refs.1).value;
    var sparse := OmitFields(record);
    RecentOfOmit(record);
    var target := WithRecent(sparse, OmitItems(compacted));
    WireEventsExpand(reactors, index, frozen, events);
    WithRecentOfOmit(record, compacted);
    var expanded := ExpandEvents(OmitItems(compacted), OmitItems(reactors)).value;
    WithRecentTwice(sparse, OmitItems(compacted), expanded);
    assert SameAt(wire, target, "reactions");
    SameReactionsSameRecent(wire, target);
    assert SameAt(WithRecent(wire, expanded), WithRecent(sparse, expanded), "reactions");
    WithSameRecent(sparse);
    DifferentRecentDiffers(sparse, expanded, OmitItems(events));
    OnlyReactions(wire, expanded);
  }

  lemma OnlyReactions(record: Fields, events: seq<Json>)
    requires HasRecent(record)
    ensures forall key :: key != "reactions" ==> SameAt(WithRecent(record, events), record, key)
  {
  }

  lemma WithRecentTwice(record: Fields, events: seq<Json>, other: seq<Json>)
    requires HasRecent(record)
    ensures HasRecent(WithRecent(record, events)) && Recent(WithRecent(record, events)) == events
    ensures WithRecent(WithRecent(record, events), other) == WithRecent(record, other)
  {
    var reactions := record["reactions"].fields;
    var aggregate := reactions["aggregate"].fields;
    assert aggregate["recent_reactions" := JArr(events)]["recent_reactions" := JArr(other)]
           == aggregate["recent_reactions" := JArr(other)];
    var a := JObj(aggregate["recent_reactions" := JArr(events)]);
    var b := JObj(aggregate["recent_reactions" := JArr(other)]);
    assert reactions["aggregate" := a]["aggregate" := b] == reactions["aggregate" := b];
  }

  lemma AdminRoundTrip(flat: Fields, index: Index, frozen: bool, later: Index)
    requires Pack(AdminRecord, flat, index, frozen).Ok? && Pack(AdminRecord, flat, index, frozen).value.1 <= later
    ensures Expand(AdminRecord, Pack(AdminRecord, flat, index, frozen).value.0, later) == Ok(OmitFields(flat))
  {
    hide Omit, IdentityRef, PackRelated, ExpandRef, ExpandRelatedField;
    var owned := IdentityRef(flat, ACTOR, index, frozen).value;
    var related := PackRelated(owned.0, owned.1, frozen).value;
    RelatedTouchesOneField(owned.0, owned.1, frozen);
    OwnedExpands(flat, ACTOR, index, frozen, later, related.0);
    var step := ExpandRef(OmitFields(related.0), ACTOR, later).value;
    assert !Plain("related_users") && SameAt(step, OmitFields(related.0), "related_users");
    RelatedFieldExpands(owned.0, owned.1, frozen, later, step);
    var result := ExpandRelatedField(step, later).value;
    RefTouchesPrefixOnly(flat, ACTOR, index, frozen);
    PlainKeys();
    forall key ensures SameAt(result, OmitFields(flat), key) {
      if key == "related_users" {
        assert SameAt(owned.0, flat, key);
      } else {
        assert SameAt(result, step, key);
        if !Plain(key) {
          assert SameAt(step, OmitFields(related.0), key);
          assert SameAt(related.0, owned.0, key) && SameAt(owned.0, flat, key);
        }
      }
    }
    SameEverywhere(result, OmitFields(flat));
  }

  lemma RelatedTouchesOneField(record: Fields, index: Index, frozen: bool)
    requires PackRelated(record, index, frozen).Ok?
    ensures forall key :: key != "related_users" ==> SameAt(PackRelated(record, index, frozen).value.0, record, key)
  {
  }

  lemma ReactorsTouchTwoFields(record: Fields, index: Index, frozen: bool)
    requires PackReactors(record, index, frozen).Ok?
    ensures forall key :: key != "reactors" && key != "reactions" ==>
              SameAt(PackReactors(record, index, frozen).value.0, record, key)
  {
  }

  lemma NoReactorsNoChange(record: Fields, index: Index, frozen: bool)
    requires !HasArray(record, "reactors")
    ensures PackReactors(record, index, frozen) == Ok((record, index))
  {
  }

  /** The records on the way: the flat one with its author and its related users packed, the fully packed one, and the
      wire record with its author, its related users and its reactors expanded again. */
  ghost predicate OnTheWay(flat: Fields, owned: Fields, related: Fields, packed: Fields, a: Fields, b: Fields,
                           c: Fields)
  {
    && (forall key :: Plain(key) ==> SameAt(a, OmitFields(flat), key))
    && (forall key :: !Plain(key) ==> SameAt(a, OmitFields(packed), key) && SameAt(owned, flat, key))
    && (forall key :: key != "related_users" ==> SameAt(related, owned, key))
    && SameAt(b, OmitFields(owned), "related_users") && (forall key :: key != "related_users" ==> SameAt(b, a, key))
    && SameAt(c, OmitFields(related), "reactors") && (forall key :: key != "reactors" ==> SameAt(c, b, key))
  }

  lemma OnlyReactionsOpen(flat: Fields, owned: Fields, related: Fields, packed: Fields, a: Fields, b: Fields, c: Fields)
    requires OnTheWay(flat, owned, related, packed, a, b, c)
    ensures SameAt(related, flat, "reactors") && SameAt(related, flat, "reactions")
    ensures SameAt(c, OmitFields(packed), "reactions") && SameAt(c, OmitFields(related), "reactors")
    ensures forall key :: key != "reactions" ==> SameAt(c, OmitFields(flat), key)
  {
    hide Omit;
    assert !Plain("reactors") && !Plain("reactions") && !Plain("related_users");
    assert SameAt(related, flat, "reactors") by {
      assert SameAt(related, owned, "reactors") && SameAt(owned, flat, "reactors");
    }
    assert SameAt(related, flat, "reactions") by {
      assert SameAt(related, owned, "reactions") && SameAt(owned, flat, "reactions");
    }
    assert SameAt(c, OmitFields(packed), "reactions") by {
      assert SameAt(c, b, "reactions") && SameAt(b, a, "reactions") && SameAt(a, OmitFields(packed), "reactions");
    }
    forall key | key != "reactions" ensures SameAt(c, OmitFields(flat), key) {
      if key != "reactors" {
        assert SameAt(c, b, key);
        if key == "related_users" {
          assert SameAt(b, OmitFields(owned), key);
        } else {
          assert Plain(key) && SameAt(b, a, key) && SameAt(a, OmitFields(flat), key);
        }
      }
    }
  }

  /** The last step of a message, where alone a difference can arise. */
  lemma MessageTail(flat: Fields, related: Fields, index: Index, frozen: bool, c: Fields)
    requires PackReactors(related, index, frozen).Ok?
    requires SameAt(related, flat, "reactors") && SameAt(related, flat, "reactions")
    requires SameAt(c, OmitFields(PackReactors(related, index, frozen).value.0), "reactions")
    requires SameAt(c, OmitFields(related), "reactors")
    requires forall key :: key != "reactions" ==> SameAt(c, OmitFields(flat), key)
    ensures ExpandRecentField(c).Ok? <==> !Dangling(flat)
    ensures ExpandRecentField(c) == Ok(OmitFields(flat)) <==> Faithful(MessageRecord, flat)
  {
    hide Omit, PackReactors, ExpandRecentField, ReplacedBy, Masked, BareReference;
    SameReactionsSameRecent(related, flat);
    if HasArray(flat, "reactors") {
      RecentFieldExpands(related, index, frozen, c);
    } else {
      NoReactorsNoChange(related, index, frozen);
      RecentUntouched(related, c);
      assert SameAt(OmitFields(related), OmitFields(flat), "reactors");
      if Dangling(flat) {
        return;
      }
    }
    var result := ExpandRecentField(c).value;
    forall key | key != "reactions" ensures SameAt(result, OmitFields(flat), key) {
      assert SameAt(result, c, key) && SameAt(c, OmitFields(flat), key);
    }
    assert SameAt(OmitFields(related), OmitFields(flat), "reactions");
    if SameAt(result, OmitFields(flat), "reactions") { SameEverywhere(result, OmitFields(flat)); }
  }

  /** A message comes back as its sparse form exactly when it is faithful, whatever the directory grew to meanwhile; it
      does not come back at all exactly when it carries a reference to nothing. */
  lemma MessageRoundTrip(flat: Fields, index: Index, frozen: bool, later: Index)
    requires Pack(MessageRecord, flat, index, frozen).Ok? && Pack(MessageRecord, flat, index, frozen).value.1 <= later
    ensures var expanded := Expand(MessageRecord, Pack(MessageRecord, flat, index, frozen).value.0, later);
            (expanded.Ok? <==> !Dangling(flat)) && (expanded == Ok(OmitFields(flat)) <==> Faithful(MessageRecord, flat))
  {
    hide Omit, IdentityRef, PackRelated, PackReactors, ExpandRef, ExpandRelatedField, ExpandReactorField,
           ExpandRecentField, ReplacedBy;
    var owned := IdentityRef(flat, AUTHOR, index, frozen).value;
    var related := PackRelated(owned.0, owned.1, frozen).value;
    var packed := PackReactors(related.0, related.1, frozen).value;
    RefTouchesPrefixOnly(flat, AUTHOR, index, frozen);
    RelatedTouchesOneField(owned.0, owned.1, frozen);
    ReactorsTouchTwoFields(related.0, related.1, frozen);
    PlainKeys();
    forall key | Plain(key) ensures SameAt(packed.0, owned.0, key) {
      assert SameAt(packed.0, related.0, key) && SameAt(related.0, owned.0, key);
    }
    OwnedExpands(flat, AUTHOR, index, frozen, later, packed.0);
    var wire := OmitFields(packed.0);
    var a := ExpandRef(wire, AUTHOR, later).value;
    assert SameAt(packed.0, related.0, "related_users") && SameAt(a, wire, "related_users");
    RelatedFieldExpands(owned.0, owned.1, frozen, later, a);
    var b := ExpandRelatedField(a, later).value;
    assert SameAt(b, a, "reactors") && SameAt(a, wire, "reactors");
    ReactorFieldExpands(related.0, related.1, frozen, later, b);
    var c := ExpandReactorField(b, later).value;
    assert OnTheWay(flat, owned.0, related.0, packed.0, a, b, c);
    OnlyReactionsOpen(flat, owned.0, related.0, packed.0, a, b, c);
    hide OnTheWay, SameAt, Dangling, Faithful;
    MessageTail(flat, related.0, related.1, frozen, c);
  }

  /** The law over every record the packer takes: packing then expanding gives the sparse record if and only if nothing
      is masked and no event refers to nothing. */
  lemma RoundTripExactlyWhenFaithful(kind: RecordKind, flat: Fields, index: Index, frozen: bool, later: Index)
    requires kind != HeaderRecord && Pack(kind, flat, index, frozen).Ok?
             && Pack(kind, flat, index, frozen).value.1 <= later
    ensures Expand(kind, Pack(kind, flat, index, frozen).value.0, later) == Ok(OmitFields(flat))
            <==> Faithful(kind, flat)
  {
    if kind == AdminRecord {
      AdminRoundTrip(flat, index, frozen, later);
    } else {
      MessageRoundTrip(flat, index, frozen, later);
    }
  }

  lemma SparseMasksNothing(reactor: Fields)
    requires OmitFields(reactor) == reactor
    ensures !Masked(reactor)
  {
  }

  lemma SparseItems(items: seq<Json>, i: nat)
    requires Omit(JArr(items)) == JArr(items) && i < |items|
    ensures Omit(items[i]) == items[i]
  {
  }

  /** A record already in sparse form comes back as itself, unless an event of it refers to nothing. */
  lemma SparseRoundTrip(kind: RecordKind, flat: Fields, index: Index, frozen: bool, later: Index)
    requires kind != HeaderRecord && Pack(kind, flat, index, frozen).Ok?
             && Pack(kind, flat, index, frozen).value.1 <= later
    requires OmitFields(flat) == flat
    ensures Expand(kind, Pack(kind, flat, index, frozen).value.0, later) == Ok(flat)
            <==> (kind == MessageRecord ==> !Dangling(flat))
  {
    hide Masked, Dangling;
    RoundTripExactlyWhenFaithful(kind, flat, index, frozen, later);
    if kind == MessageRecord && HasArray(flat, "reactors") && HasRecent(flat) {
      var reactors := flat["reactors"].items;
      forall i | 0 <= i < |Recent(flat)| && ReplacedBy(reactors, Recent(flat)[i]).Some?
        ensures !Masked(reactors[ReplacedBy(reactors, Recent(flat)[i]).value].fields)
      {
        var at := ReplacedBy(reactors, Recent(flat)[i]).value;
        assert Omit(flat["reactors"]) == flat["reactors"];
        SparseItems(reactors, at);
        SparseMasksNothing(reactors[at].fields);
      }
    }
  }

  // A record the round trip changes: the reactor's raw date is null, so the event without a date gains one.

  const EXAMPLE_RAW: Fields := map["big" := JBool(true), "date" := JNull]
  const EXAMPLE_EVENT: Fields := map["big" := JBool(true)]
  const EXAMPLE_REACTOR: Fields := map["actor_name" := JStr("Ann"), "date" := JStr("2026"), "raw" := JObj(EXAMPLE_RAW)]
  const EXAMPLE_RECENT: Fields := map["recent_reactions" := JArr([JObj(EXAMPLE_EVENT)])]
  const EXAMPLE_REACTIONS: Fields := map["aggregate" := JObj(EXAMPLE_RECENT)]
  const EXAMPLE: Fields := map["reactors" := JArr([JObj(EXAMPLE_REACTOR)]), "reactions" := JObj(EXAMPLE_REACTIONS)]

  lemma ExampleOwner()
    ensures Owner(EXAMPLE_REACTOR) != map[] && PeerId(Owner(EXAMPLE_REACTOR)) == None
  {
    hide Owner;
    ExampleHasName();
    ExampleHasNoId();
    assert "name" in Owner(EXAMPLE_REACTOR);
  }

  lemma ExampleHasName()
    ensures "name" in Owner(EXAMPLE_REACTOR)
  {
    hide Snapshot, OmitFields;
    assert ACTOR + "name" == "actor_name";
    assert "name" in Snapshot(EXAMPLE_REACTOR, ACTOR);
  }

  lemma ExampleHasNoId()
    ensures "id" !in Owner(EXAMPLE_REACTOR)
  {
  }

  lemma ExampleCandidate()
    ensures RecentCandidate(EXAMPLE_REACTOR, Owner(EXAMPLE_REACTOR)) == EXAMPLE_RAW
  {
    hide Owner, PeerId;
    ExampleOwner();
  }

  lemma ExampleStandsFor()
    ensures StandsFor(JObj(EXAMPLE_REACTOR), JObj(EXAMPLE_EVENT)) && Masked(EXAMPLE_REACTOR)
  {
    hide Owner, RecentCandidate, PeerId;
    ExampleOwner();
    ExampleCandidate();
    forall key ensures SameAt(OmitFields(EXAMPLE_RAW), OmitFields(EXAMPLE_EVENT), key) { }
    SameEverywhere(OmitFields(EXAMPLE_RAW), OmitFields(EXAMPLE_EVENT));
    assert Raw(EXAMPLE_REACTOR) == EXAMPLE_RAW;
    assert Masks(EXAMPLE_REACTOR, "date");
  }

  lemma ExampleReactorPacks(index: Index)
    ensures ReactorRefs([JObj(EXAMPLE_REACTOR)], index, false).Ok?
  {
  }

  lemma ExampleEventCompacts(reactors: seq<Json>, index: Index)
    ensures CompactEvents([JObj(EXAMPLE_EVENT)], reactors, index).Ok?
  {
  }

  lemma ExampleOwned()
    ensures IdentityRef(EXAMPLE, AUTHOR, [], false).Ok?
    ensures forall key :: !Plain(key) ==> SameAt(IdentityRef(EXAMPLE, AUTHOR, [], false).value.0, EXAMPLE, key)
  {
    hide Snapshot, OmitFields;
    assert Reference(AUTHOR) == "author" && |"author"| == 6;
    assert IdentityRef(EXAMPLE, AUTHOR, [], false).Ok?;
    RefTouchesPrefixOnly(EXAMPLE, AUTHOR, [], false);
    PlainKeys();
  }

  lemma ExamplePacks()
    ensures Pack(MessageRecord, EXAMPLE, [], false).Ok?
  {
    hide OmitFields, ReactorRefs, IdentityRef, CompactEvents;
    ExampleOwned();
    var owned := IdentityRef(EXAMPLE, AUTHOR, [], false).value;
    assert SameAt(owned.0, EXAMPLE, "related_users") && SameAt(owned.0, EXAMPLE, "reactors")
           && SameAt(owned.0, EXAMPLE, "reactions");
    ExampleReactorPacks(owned.1);
    var refs := ReactorRefs([JObj(EXAMPLE_REACTOR)], owned.1, false).value;
    ExampleEventCompacts(refs.0, refs.1);
  }

  lemma MaskedDateIsNotRestored()
    ensures Pack(MessageRecord, EXAMPLE, [], false).Ok?
    ensures var packed := Pack(MessageRecord, EXAMPLE, [], false).value;
            Expand(MessageRecord, packed.0, packed.1) != Ok(OmitFields(EXAMPLE))
  {
    hide StandsFor, Masked, Pack, Expand, OmitFields;
    ExamplePacks();
    ExampleStandsFor();
    assert [JObj(EXAMPLE_REACTOR)][..0] == [];
    assert ReplacedBy([JObj(EXAMPLE_REACTOR)], JObj(EXAMPLE_EVENT)) == Some(0);
    assert Recent(EXAMPLE)[0] == JObj(EXAMPLE_EVENT);
    assert ReplacedByMasked(EXAMPLE["reactors"].items, Recent(EXAMPLE)[0]);
    assert !Faithful(MessageRecord, EXAMPLE);
    RoundTripExactlyWhenFaithful(MessageRecord, EXAMPLE, [], false, Pack(MessageRecord, EXAMPLE, [], false).value.1);
  }

  // A record the reader refuses: it lists no reactors, and a recent event reads as a reference to one.

  const LONE_EVENT: Fields := map["reactor" := JNum(0)]
  const LONE_RECENT: Fields := map["recent_reactions" := JArr([JObj(LONE_EVENT)])]
  const LONE_REACTIONS: Fields := map["aggregate" := JObj(LONE_RECENT)]
  const LONE: Fields := map["reactions" := JObj(LONE_REACTIONS)]

  lemma LoneIsDangling()
    ensures Dangling(LONE)
  {
    assert Recent(LONE)[0] == JObj(LONE_EVENT);
    assert Omit(JObj(LONE_EVENT)).fields.Keys == {"reactor"};
  }

  lemma LoneOwned()
    ensures IdentityRef(LONE, AUTHOR, [], false).Ok?
    ensures forall key :: !Plain(key) ==> SameAt(IdentityRef(LONE, AUTHOR, [], false).value.0, LONE, key)
  {
    hide Snapshot, OmitFields;
    assert Reference(AUTHOR) == "author" && |"author"| == 6;
    assert IdentityRef(LONE, AUTHOR, [], false).Ok?;
    RefTouchesPrefixOnly(LONE, AUTHOR, [], false);
    PlainKeys();
  }

  lemma LonePacks()
    ensures Pack(MessageRecord, LONE, [], false).Ok?
  {
    hide OmitFields, IdentityRef;
    LoneOwned();
    var owned := IdentityRef(LONE, AUTHOR, [], false).value;
    assert SameAt(owned.0, LONE, "related_users") && SameAt(owned.0, LONE, "reactors");
  }

  /** It packs, and cannot be read back. */
  lemma LoneReferenceIsRefused()
    ensures Pack(MessageRecord, LONE, [], false).Ok?
    ensures var packed := Pack(MessageRecord, LONE, [], false).value;
            Expand(MessageRecord, packed.0, packed.1).Err?
  {
    hide Pack, Expand, Dangling;
    LonePacks();
    LoneIsDangling();
    MessageRoundTrip(LONE, [], false, Pack(MessageRecord, LONE, [], false).value.1);
  }
}
