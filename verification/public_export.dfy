/** The public copy of a whole export: its own identity list, its messages, and the file of removed facts. */
module PublicExport {
  import opened Common
  import opened JsonValues
  import opened Pointers
  import opened RemovedFacts
  import opened PublicProjection

  const IDENTITY_FORMAT_VERSION := 4
  const SPARSE_FORMAT_VERSION := 5

  /** An export file by sections; `admins` is None when the file has no such section. */
  datatype Document = Document(version: nat, group: Json, metadata: Json, identities: seq<Json>,
                               admins: Option<seq<Json>>, messages: seq<Fields>, totals: Json)

  /** The allowlists of the sections, and the tables their entries refer to. */
  datatype Layout = Layout(group: Projection, header: Projection, identity: map<string, Projection>,
                           message: map<string, Projection>, tables: Tables)

  /** Sections a format version has: identities from version 4 on, admin events optional from version 5 on. */
  predicate Shaped(doc: Document) {
    && (doc.version < IDENTITY_FORMAT_VERSION ==> doc.identities == [])
    && (doc.version < SPARSE_FORMAT_VERSION ==> doc.admins.Some?)
  }

  /** What is published of a value, before references are rewritten. */
  function Facts(value: Json, p: Projection, tables: Tables, version: nat): Json
    requires GuardedTables(tables)
  {
    AtVersion(Project(value, p, tables), version)
  }

  /** From version 5 on every part of a file is written without blank properties. */
  function AtVersion(value: Json, version: nat): Json {
    if version >= SPARSE_FORMAT_VERSION then Omit(value) else value
  }

  /** What may and must be shown of a value: its own facts alone, nothing but what the allowlist allows, no blank
      property from version 5 on, and all of every copy of the value that the allowlist allows. */
  ghost predicate PublicPart(value: Json, shown: Json, p: Projection, tables: Tables, version: nat)
    requires GuardedTables(tables)
  {
    && TakenFrom(shown, value) && OnlyDrops(value, shown)
    && (TaggedTables(tables) && Tagged(p) ==> Conforms(shown, p, tables))
    && (version >= SPARSE_FORMAT_VERSION ==> BlankFree(shown))
    && forall copy :: Conforms(copy, p, tables) && Within(copy, value) ==> PartOf(AtVersion(copy, version), shown)
  }

  lemma FactsArePublic(value: Json, p: Projection, tables: Tables, version: nat)
    requires GuardedTables(tables)
    ensures PublicPart(value, Facts(value, p, tables, version), p, tables, version)
  {
    hide Facts, Conforms, Within, TakenFrom, OnlyDrops, PartOf, BlankFree, Tagged, Guarded, AtVersion;
    FactsAreTaken(value, p, tables, version);
    if TaggedTables(tables) && Tagged(p) { FactsConform(value, p, tables, version); }
    forall copy | Conforms(copy, p, tables) && Within(copy, value)
      ensures PartOf(AtVersion(copy, version), Facts(value, p, tables, version))
    {
      FactsShowAllAllowed(copy, value, p, tables, version);
    }
  }

  /** Nothing is made up. */
  lemma FactsAreTaken(value: Json, p: Projection, tables: Tables, version: nat)
    requires GuardedTables(tables)
    ensures var shown := Facts(value, p, tables, version);
            TakenFrom(shown, value) && OnlyDrops(value, shown)
              && (version >= SPARSE_FORMAT_VERSION ==> BlankFree(shown))
  {
    hide Project, TakenFrom, OnlyDrops, BlankFree, Omit;
    var projected := Project(value, p, tables);
    ProjectTakenFrom(value, p, tables);
    OmitTakenFrom(projected, value);
    ProjectOnlyDrops(value, p, tables);
    OmitOnlyDrops(value, projected);
    OmitIsBlankFreePart(projected);
  }

  /** Nothing but what is allowed is shown. */
  lemma FactsConform(value: Json, p: Projection, tables: Tables, version: nat)
    requires TaggedTables(tables) && Tagged(p)
    ensures Conforms(Facts(value, p, tables, version), p, tables)
  {
    hide Project, Conforms, Omit;
    ProjectionConforms(value, p, tables);
    OmitConforms(Project(value, p, tables), p, tables);
  }

  /** Nothing allowed is withheld. */
  lemma FactsShowAllAllowed(copy: Json, value: Json, p: Projection, tables: Tables, version: nat)
    requires GuardedTables(tables) && Conforms(copy, p, tables) && Within(copy, value)
    ensures PartOf(AtVersion(copy, version), Facts(value, p, tables, version))
  {
    hide Project, Conforms, Within, PartOf, Omit, Guarded;
    ProjectionKeepsAllAllowed(copy, value, p, tables);
    WithinIsPart(copy, Project(value, p, tables));
    PartsStaySparse(copy, Project(value, p, tables));
  }

  function MessageFacts(message: Fields, layout: Layout, version: nat): (r: Fields)
    requires GuardedTables(layout.tables)
    ensures PublicPart(JObj(message), JObj(r), Keys(layout.message), layout.tables, version)
  {
    FactsArePublic(JObj(message), Keys(layout.message), layout.tables, version);
    Facts(JObj(message), Keys(layout.message), layout.tables, version).fields
  }

  /** The public part of every message of a file. */
  ghost function AllFacts(doc: Document, layout: Layout): (facts: seq<Fields>)
    requires GuardedTables(layout.tables)
    ensures |facts| == |doc.messages|
    ensures forall i :: 0 <= i < |facts| ==> facts[i] == MessageFacts(doc.messages[i], layout, doc.version)
  {
    seq(|doc.messages|, i requires 0 <= i < |doc.messages| => MessageFacts(doc.messages[i], layout, doc.version))
  }

  // ------------------------------------------------------------------ the public identities

  predicate ValidRef(source: seq<Json>, ref: Json) {
    ref.JNum? && 0 <= ref.n < |source|
  }

  /** The public part of every identity of a file. */
  ghost function ShownIdentities(source: seq<Json>, layout: Layout, version: nat): (shown: seq<Json>)
    requires GuardedTables(layout.tables)
    ensures |shown| == |source|
    ensures forall i :: 0 <= i < |shown| ==> shown[i] == Facts(source[i], Keys(layout.identity), layout.tables, version)
  {
    seq(|source|, i requires 0 <= i < |source| => Facts(source[i], Keys(layout.identity), layout.tables, version))
  }

  ghost predicate NoneTwice(identities: seq<Json>) {
    forall i, j :: 0 <= i < j < |identities| ==> identities[i] != identities[j]
  }

  /** The public reference names the public part of the identity the source reference names. */
  ghost predicate Resolves(shown: seq<Json>, public: seq<Json>, ref: Json, out: Json) {
    && ValidRef(shown, ref) && ValidRef(public, out)
    && public[out.n] == shown[ref.n]
  }

  /** The reactors of a record differ by their resolved references alone. */
  ghost predicate ActorsResolve(shown: seq<Json>, public: seq<Json>, reactors: seq<Json>, out: seq<Json>, count: nat)
    requires count <= |reactors| && count <= |out|
  {
    forall i :: 0 <= i < count ==>
      && reactors[i].JObj? && out[i].JObj? && out[i].fields.Keys == reactors[i].fields.Keys
      && (forall key :: key in out[i].fields && key != "actor" ==> out[i].fields[key] == reactors[i].fields[key])
      && ("actor" in reactors[i].fields ==>
            Resolves(shown, public, reactors[i].fields["actor"], out[i].fields["actor"]))
  }

  ghost predicate UsersResolve(shown: seq<Json>, public: seq<Json>, users: seq<Json>, out: seq<Json>, count: nat)
    requires count <= |users| && count <= |out|
  {
    forall i :: 0 <= i < count ==> Resolves(shown, public, users[i], out[i])
  }

  ghost predicate AuthorResolves(shown: seq<Json>, public: seq<Json>, record: Fields, out: Fields) {
    "author" in record ==> "author" in out && Resolves(shown, public, record["author"], out["author"])
  }

  ghost predicate RelatedResolve(shown: seq<Json>, public: seq<Json>, record: Fields, out: Fields) {
    "related_users" in record ==>
      && "related_users" in out && record["related_users"].JArr? && out["related_users"].JArr?
      && |record["related_users"].items| == |out["related_users"].items|
      && UsersResolve(shown, public, record["related_users"].items, out["related_users"].items,
                      |out["related_users"].items|)
  }

  ghost predicate ReactorsResolve(shown: seq<Json>, public: seq<Json>, record: Fields, out: Fields) {
    "reactors" in record ==>
      && "reactors" in out && record["reactors"].JArr? && out["reactors"].JArr?
      && |record["reactors"].items| == |out["reactors"].items|
      && ActorsResolve(shown, public, record["reactors"].items, out["reactors"].items, |out["reactors"].items|)
  }

  predicate IsReferenceKey(key: string) {
    key == "author" || key == "related_users" || key == "reactors"
  }

  /** The record with every reference rewritten, and nothing else. */
  ghost predicate Remapped(shown: seq<Json>, public: seq<Json>, record: Fields, out: Fields) {
    && out.Keys == record.Keys
    && (forall key :: key in out && !IsReferenceKey(key) ==> out[key] == record[key])
    && AuthorResolves(shown, public, record, out)
    && RelatedResolve(shown, public, record, out)
    && ReactorsResolve(shown, public, record, out)
  }

  /** References that resolve go on resolving while the public list grows. */
  lemma StillRemapped(shown: seq<Json>, public: seq<Json>, later: seq<Json>, record: Fields, out: Fields)
    requires public <= later
    requires Remapped(shown, public, record, out)
    ensures Remapped(shown, later, record, out)
  {
  }

  /** Rewriting references is still only dropping keys: the old reference is a removed fact. */
  lemma RemappedOnlyDrops(original: Json, shown: seq<Json>, public: seq<Json>, record: Fields, out: Fields)
    requires OnlyDrops(original, JObj(record)) && original.JObj?
    requires Remapped(shown, public, record, out)
    ensures OnlyDrops(original, JObj(out))
  {
    forall key | key in out ensures key in original.fields && OnlyDrops(original.fields[key], out[key]) {
      assert key in record && OnlyDrops(original.fields[key], record[key]);
      if key == "reactors" && original.fields[key].JArr? && |original.fields[key].items| == |record[key].items| {
        forall i | 0 <= i < |out[key].items| ensures OnlyDrops(original.fields[key].items[i], out[key].items[i]) {
          assert OnlyDrops(original.fields[key].items[i], record[key].items[i]);
          ActorOnlyDrops(original.fields[key].items[i], record[key].items[i].fields, out[key].items[i].fields);
        }
      }
    }
  }

  lemma ActorOnlyDrops(original: Json, reactor: Fields, out: Fields)
    requires OnlyDrops(original, JObj(reactor)) && out.Keys == reactor.Keys
    requires forall key :: key in out && key != "actor" ==> out[key] == reactor[key]
    requires "actor" in out ==> out["actor"].JNum?
    ensures OnlyDrops(original, JObj(out))
  {
    if original.JObj? {
      forall key | key in out ensures key in original.fields && OnlyDrops(original.fields[key], out[key]) {
        assert key in reactor;
      }
    }
  }

  // ------------------------------------------------------------------ what a record refers to

  /** A reference that stands somewhere in a record. */
  ghost predicate Mentions(record: Fields, ref: Json) {
    || ("author" in record && record["author"] == ref)
    || ("related_users" in record && record["related_users"].JArr? && ref in record["related_users"].items)
    || ("reactors" in record && record["reactors"].JArr? && exists i :: MentionsAt(record["reactors"].items, i, ref))
  }

  ghost predicate MentionsAt(reactors: seq<Json>, i: int, ref: Json) {
    0 <= i < |reactors| && reactors[i].JObj? && "actor" in reactors[i].fields && reactors[i].fields["actor"] == ref
  }

  /** Every reference of the record is valid, and the lists that hold them are lists. */
  ghost predicate Remappable(shown: seq<Json>, record: Fields) {
    && ("related_users" in record ==> record["related_users"].JArr?)
    && ("reactors" in record ==>
          && record["reactors"].JArr?
          && forall i :: 0 <= i < |record["reactors"].items| ==> record["reactors"].items[i].JObj?)
    && forall ref :: Mentions(record, ref) ==> ValidRef(shown, ref)
  }

  /** Every identity the record refers to is in the public list already. */
  ghost predicate Known(shown: seq<Json>, public: seq<Json>, record: Fields) {
    forall ref :: Mentions(record, ref) && ValidRef(shown, ref) ==>
      shown[ref.n] in public
  }

  lemma RemappedIsKnown(shown: seq<Json>, public: seq<Json>, record: Fields, out: Fields)
    requires Remapped(shown, public, record, out)
    ensures Known(shown, public, record)
  {
    forall ref | Mentions(record, ref) && ValidRef(shown, ref)
      ensures shown[ref.n] in public
    {
      if "author" in record && record["author"] == ref {
      } else if "related_users" in record && record["related_users"].JArr? && ref in record["related_users"].items {
        var i :| 0 <= i < |record["related_users"].items| && record["related_users"].items[i] == ref;
        assert Resolves(shown, public, ref, out["related_users"].items[i]);
      } else {
        var i :| MentionsAt(record["reactors"].items, i, ref);
      }
    }
  }

  /** The new entries of a list are public parts of identities the record refers to. */
  ghost predicate OnlyMentioned(before: seq<Json>, after: seq<Json>, shown: seq<Json>, record: Fields) {
    && before <= after
    && forall k :: |before| <= k < |after| ==> IsMentioned(shown, record, after[k])
  }

  ghost predicate IsMentioned(shown: seq<Json>, record: Fields, identity: Json) {
    exists ref :: ComesFrom(shown, record, ref, identity)
  }

  ghost predicate ComesFrom(shown: seq<Json>, record: Fields, ref: Json, identity: Json) {
    Mentions(record, ref) && ValidRef(shown, ref) && identity == shown[ref.n]
  }

  /** The public identity list, filled in the order in which messages refer to identities. */
  class PublicIndex {
    const source: seq<Json>
    const layout: Layout
    const version: nat
    var identities: seq<Json>

    constructor (source: seq<Json>, layout: Layout, version: nat)
      ensures this.source == source && this.layout == layout && this.version == version && identities == []
    {
      this.source, this.layout, this.version, identities := source, layout, version, [];
    }

    ghost function Shown(): seq<Json>
      requires GuardedTables(layout.tables)
    {
      ShownIdentities(source, layout, version)
    }

    /** The first position of the identity's public part, or a new last one. */
    method Remap(ref: Json) returns (r: Result<int>)
      requires GuardedTables(layout.tables) && NoneTwice(identities)
      modifies this
      ensures r.Ok? <==> ref.JNum? && 0 <= ref.n < |source|
      ensures r.Err? ==> identities == old(identities)
      ensures r.Ok? ==>
                var identity := Shown()[ref.n];
                && identities == (if identity in old(identities) then old(identities) else old(identities) + [identity])
                && NoneTwice(identities) && Resolves(Shown(), identities, ref, JNum(r.value))
    {
      if !(ref.JNum? && 0 <= ref.n < |source|) {
        return Err("Invalid identity reference");
      }
      var identity := Facts(source[ref.n], Keys(layout.identity), layout.tables, version);
      var position := 0;
      while position < |identities|
        invariant 0 <= position <= |identities| && identities == old(identities)
        invariant identity !in identities[..position]
      {
        if identities[position] == identity {
          return Ok(position);
        }
        position := position + 1;
      }
      identities := identities + [identity];
      r := Ok(position);
    }

    /** What rewriting one reference of a record leaves. */
    method RemapMentioned(ref: Json, ghost record: Fields, ghost first: seq<Json>)
      returns (r: Result<int>)
      requires GuardedTables(layout.tables) && NoneTwice(identities) && Mentions(record, ref)
      requires OnlyMentioned(first, identities, Shown(), record)
      modifies this
      ensures r.Ok? <==> ValidRef(source, ref)
      ensures NoneTwice(identities) && old(identities) <= identities
      ensures OnlyMentioned(first, identities, Shown(), record)
      ensures r.Ok? ==> Resolves(Shown(), identities, ref, JNum(r.value))
      ensures Known(Shown(), old(identities), record) ==> identities == old(identities)
    {
      hide Facts;
      ghost var before := identities;
      r := Remap(ref);
      if r.Ok? {
        OneMoreMentioned(first, before, Shown(), record, ref);
      }
    }

    method RemapUsers(users: seq<Json>, ghost record: Fields, ghost first: seq<Json>)
      returns (r: Result<seq<Json>>)
      requires GuardedTables(layout.tables) && NoneTwice(identities)
      requires forall ref :: ref in users ==> Mentions(record, ref)
      requires OnlyMentioned(first, identities, Shown(), record)
      modifies this
      ensures r.Ok? <==> forall ref :: ref in users ==> ValidRef(source, ref)
      ensures NoneTwice(identities) && old(identities) <= identities
      ensures OnlyMentioned(first, identities, Shown(), record)
      ensures r.Ok? ==>
                |r.value| == |users| && UsersResolve(Shown(), identities, users, r.value, |users|)
      ensures Known(Shown(), old(identities), record) ==> identities == old(identities)
    {
      hide Facts, Mentions, OnlyMentioned, Known;
      var out: seq<Json> := [];
      for i := 0 to |users|
        invariant NoneTwice(identities) && old(identities) <= identities && |out| == i
        invariant OnlyMentioned(first, identities, Shown(), record)
        invariant forall k :: 0 <= k < i ==> ValidRef(source, users[k])
        invariant UsersResolve(Shown(), identities, users, out, i)
        invariant Known(Shown(), old(identities), record) ==> identities == old(identities)
      {
        assert users[i] in users;
        var position := RemapMentioned(users[i], record, first);
        if position.Err? {
          return Err(position.message);
        }
        out := out + [JNum(position.value)];
      }
      r := Ok(out);
    }

    method RemapActors(reactors: seq<Json>, ghost record: Fields, ghost first: seq<Json>)
      returns (r: Result<seq<Json>>)
      requires GuardedTables(layout.tables) && NoneTwice(identities)
      requires forall i, ref :: MentionsAt(reactors, i, ref) ==> Mentions(record, ref)
      requires OnlyMentioned(first, identities, Shown(), record)
      modifies this
      ensures r.Ok? <==>
                && (forall i :: 0 <= i < |reactors| ==> reactors[i].JObj?)
                && forall i, ref :: MentionsAt(reactors, i, ref) ==> ValidRef(source, ref)
      ensures NoneTwice(identities) && old(identities) <= identities
      ensures OnlyMentioned(first, identities, Shown(), record)
      ensures r.Ok? ==>
                && |r.value| == |reactors|
                && ActorsResolve(Shown(), identities, reactors, r.value, |reactors|)
      ensures Known(Shown(), old(identities), record) ==> identities == old(identities)
    {
      hide Facts, Mentions, OnlyMentioned, Known;
      var out: seq<Json> := [];
      for i := 0 to |reactors|
        invariant NoneTwice(identities) && old(identities) <= identities && |out| == i
        invariant OnlyMentioned(first, identities, Shown(), record)
        invariant forall k :: 0 <= k < i ==> reactors[k].JObj?
        invariant forall k, ref :: k < i && MentionsAt(reactors, k, ref) ==> ValidRef(source, ref)
        invariant ActorsResolve(Shown(), identities, reactors, out, i)
        invariant Known(Shown(), old(identities), record) ==> identities == old(identities)
      {
        if !reactors[i].JObj? {
          return Err("Malformed reactor");
        }
        var fields := reactors[i].fields;
        if "actor" in fields {
          assert MentionsAt(reactors, i, fields["actor"]);
          var position := RemapMentioned(fields["actor"], record, first);
          if position.Err? {
            return Err(position.message);
          }
          fields := fields["actor" := JNum(position.value)];
        }
        out := out + [JObj(fields)];
      }
      r := Ok(out);
    }

    /** `_remap_public_refs`: author, related users and reactors, in this order. */
    method RemapRecord(record: Fields) returns (r: Result<Fields>)
      requires GuardedTables(layout.tables) && NoneTwice(identities)
      modifies this
      ensures r.Ok? <==> Remappable(Shown(), record)
      ensures NoneTwice(identities) && old(identities) <= identities
      ensures OnlyMentioned(old(identities), identities, Shown(), record)
      ensures r.Ok? ==> Remapped(Shown(), identities, record, r.value)
      ensures Known(Shown(), old(identities), record) ==> identities == old(identities)
    {
      hide Facts, OnlyMentioned, Known, Resolves, UsersResolve, ActorsResolve;
      ghost var first := identities;
      NothingNew(identities, Shown(), record);
      var out := record;
      if "author" in record {
        var author := RemapMentioned(record["author"], record, first);
        if author.Err? {
          return Err(author.message);
        }
        out := out["author" := JNum(author.value)];
      }
      ghost var afterAuthor := identities;
      if "related_users" in record {
        if !record["related_users"].JArr? {
          return Err("Malformed related users");
        }
        var users := RemapUsers(record["related_users"].items, record, first);
        if users.Err? {
          return Err(users.message);
        }
        out := out["related_users" := JArr(users.value)];
      }
      ghost var afterUsers := identities;
      if "reactors" in record {
        if !record["reactors"].JArr? {
          return Err("Malformed reactors");
        }
        var reactors := RemapActors(record["reactors"].items, record, first);
        if reactors.Err? {
          return Err(reactors.message);
        }
        out := out["reactors" := JArr(reactors.value)];
      }
      StillResolves(Shown(), afterAuthor, afterUsers, identities, record, out);
      r := Ok(out);
    }
  }

  lemma OneMoreMentioned(first: seq<Json>, before: seq<Json>, shown: seq<Json>, record: Fields, ref: Json)
    requires Mentions(record, ref) && ValidRef(shown, ref)
    requires OnlyMentioned(first, before, shown, record)
    ensures OnlyMentioned(first, before + [shown[ref.n]], shown, record)
  {
    hide Mentions;
    var identity := shown[ref.n];
    assert ComesFrom(shown, record, ref, identity);
    assert (before + [identity])[..|first|] == before[..|first|];
  }

  lemma NothingNew(public: seq<Json>, shown: seq<Json>, record: Fields)
    ensures OnlyMentioned(public, public, shown, record)
  {
  }

  lemma StillResolves(shown: seq<Json>, afterAuthor: seq<Json>, afterUsers: seq<Json>, public: seq<Json>,
                      record: Fields, out: Fields)
    requires afterAuthor <= afterUsers <= public
    ensures AuthorResolves(shown, afterAuthor, record, out) ==> AuthorResolves(shown, public, record, out)
    ensures RelatedResolve(shown, afterUsers, record, out) ==> RelatedResolve(shown, public, record, out)
  {
  }

  // ------------------------------------------------------------------ both passes

  /** Some public message refers to the identity. */
  ghost predicate FromMessages(shown: seq<Json>, facts: seq<Fields>, identity: Json) {
    exists i :: 0 <= i < |facts| && IsMentioned(shown, facts[i], identity)
  }

  ghost predicate AllFromMessages(shown: seq<Json>, facts: seq<Fields>, public: seq<Json>) {
    forall k :: 0 <= k < |public| ==> FromMessages(shown, facts, public[k])
  }

  lemma MoreFromMessages(shown: seq<Json>, facts: seq<Fields>, before: seq<Json>, after: seq<Json>, i: nat)
    requires i < |facts| && AllFromMessages(shown, facts, before) && OnlyMentioned(before, after, shown, facts[i])
    ensures AllFromMessages(shown, facts, after)
  {
    hide IsMentioned;
    forall k | 0 <= k < |after| ensures FromMessages(shown, facts, after[k]) {
      if k < |before| {
        assert after[k] == before[k] && FromMessages(shown, facts, before[k]);
      }
    }
  }

  /** What a pass writes: every message's facts, rewritten against one list. */
  ghost predicate RewrittenTo(shown: seq<Json>, facts: seq<Fields>, public: seq<Json>, messages: seq<Fields>)
    requires |messages| <= |facts|
  {
    forall i :: 0 <= i < |messages| ==> Remapped(shown, public, facts[i], messages[i])
  }

  lemma StillRewritten(shown: seq<Json>, facts: seq<Fields>, public: seq<Json>, later: seq<Json>, messages: seq<Fields>)
    requires |messages| <= |facts| && public <= later && RewrittenTo(shown, facts, public, messages)
    ensures RewrittenTo(shown, facts, later, messages)
  {
    hide Remapped;
    forall i | 0 <= i < |messages| ensures Remapped(shown, later, facts[i], messages[i]) {
      StillRemapped(shown, public, later, facts[i], messages[i]);
    }
  }

  /** The first pass: every identity a public message refers to, once, in the order of the first reference. What it
      rewrote on the way, `drafts`, names the right identities in the finished list. */
  method CollectIdentities(doc: Document, layout: Layout)
    returns (r: Result<PublicIndex>, ghost drafts: seq<Fields>)
    requires GuardedTables(layout.tables)
    ensures var shown, facts := ShownIdentities(doc.identities, layout, doc.version), AllFacts(doc, layout);
            && (r.Ok? <==> forall i :: 0 <= i < |facts| ==> Remappable(shown, facts[i]))
            && (r.Ok? ==>
                  && fresh(r.value) && NoneTwice(r.value.identities)
                  && r.value.source == doc.identities && r.value.layout == layout && r.value.version == doc.version
                  && AllFromMessages(shown, facts, r.value.identities)
                  && |drafts| == |facts| && RewrittenTo(shown, facts, r.value.identities, drafts)
                  && forall i :: 0 <= i < |facts| ==> Known(shown, r.value.identities, facts[i]))
  {
    hide Remappable, Remapped, Known, OnlyMentioned, MessageFacts, Facts, NoneTwice, AllFromMessages;
    ghost var shown, facts := ShownIdentities(doc.identities, layout, doc.version), AllFacts(doc, layout);
    drafts := [];
    var index := new PublicIndex(doc.identities, layout, doc.version);
    NoneYet(shown, facts);
    for i := 0 to |doc.messages|
      invariant index.Shown() == shown && NoneTwice(index.identities)
      invariant AllFromMessages(shown, facts, index.identities)
      invariant forall k :: 0 <= k < i ==> Remappable(shown, facts[k])
      invariant |drafts| == i && RewrittenTo(shown, facts, index.identities, drafts)
    {
      ghost var before := index.identities;
      var out := index.RemapRecord(MessageFacts(doc.messages[i], layout, doc.version));
      MoreFromMessages(shown, facts, before, index.identities, i);
      StillRewritten(shown, facts, before, index.identities, drafts);
      if out.Err? {
        return Err(out.message), drafts;
      }
      drafts := drafts + [out.value];
    }
    forall i | 0 <= i < |facts| ensures Known(shown, index.identities, facts[i]) {
      RemappedIsKnown(shown, index.identities, facts[i], drafts[i]);
    }
    r := Ok(index);
  }

  lemma NoneYet(shown: seq<Json>, facts: seq<Fields>)
    ensures NoneTwice([]) && AllFromMessages(shown, facts, [])
  {
  }

  /** In a list without duplicates there is one way to rewrite a record. */
  lemma RemapIsUnique(shown: seq<Json>, public: seq<Json>, record: Fields, out: Fields, other: Fields)
    requires NoneTwice(public)
    requires Remapped(shown, public, record, out)
    requires Remapped(shown, public, record, other)
    ensures out == other
  {
    forall key | key in out ensures out[key] == other[key] {
      if key == "related_users" {
        UsersAreUnique(shown, public, record[key].items, out[key].items, other[key].items);
      } else if key == "reactors" {
        ActorsAreUnique(shown, public, record[key].items, out[key].items, other[key].items);
      } else if key == "author" {
        SameReference(shown, public, record[key], out[key], other[key]);
      }
    }
  }

  lemma SameReference(shown: seq<Json>, public: seq<Json>, ref: Json, out: Json, other: Json)
    requires NoneTwice(public)
    requires Resolves(shown, public, ref, out)
    requires Resolves(shown, public, ref, other)
    ensures out == other
  {
  }

  lemma UsersAreUnique(shown: seq<Json>, public: seq<Json>, users: seq<Json>, out: seq<Json>, other: seq<Json>)
    requires NoneTwice(public) && |users| == |out| == |other|
    requires UsersResolve(shown, public, users, out, |users|)
    requires UsersResolve(shown, public, users, other, |users|)
    ensures out == other
  {
    hide Resolves, NoneTwice;
    forall i | 0 <= i < |users| ensures out[i] == other[i] {
      SameReference(shown, public, users[i], out[i], other[i]);
    }
  }

  lemma ActorsAreUnique(shown: seq<Json>, public: seq<Json>, reactors: seq<Json>, out: seq<Json>, other: seq<Json>)
    requires NoneTwice(public) && |reactors| == |out| == |other|
    requires ActorsResolve(shown, public, reactors, out, |reactors|)
    requires ActorsResolve(shown, public, reactors, other, |reactors|)
    ensures out == other
  {
    hide Resolves, NoneTwice;
    forall i | 0 <= i < |reactors| ensures out[i] == other[i] {
      if "actor" in reactors[i].fields {
        SameReference(shown, public, reactors[i].fields["actor"], out[i].fields["actor"], other[i].fields["actor"]);
      }
      assert out[i].fields == other[i].fields;
    }
  }

  /** Both passes write the same messages. */
  lemma PassesAgree(shown: seq<Json>, facts: seq<Fields>, public: seq<Json>, drafts: seq<Fields>, messages: seq<Fields>)
    requires NoneTwice(public) && |drafts| == |messages| == |facts|
    requires RewrittenTo(shown, facts, public, drafts) && RewrittenTo(shown, facts, public, messages)
    ensures drafts == messages
  {
    hide Remapped, NoneTwice;
    forall i | 0 <= i < |messages| ensures drafts[i] == messages[i] {
      RemapIsUnique(shown, public, facts[i], drafts[i], messages[i]);
    }
  }

  /** The second pass: against the collected list every record is rewritten as in the first pass, and the list stays. */
  method RewriteMessages(doc: Document, index: PublicIndex, ghost drafts: seq<Fields>) returns (messages: seq<Fields>)
    requires GuardedTables(index.layout.tables) && NoneTwice(index.identities)
    requires index.source == doc.identities && index.version == doc.version
    requires var facts := AllFacts(doc, index.layout);
             && (forall i :: 0 <= i < |facts| ==>
                   Remappable(index.Shown(), facts[i]) && Known(index.Shown(), index.identities, facts[i]))
             && |drafts| == |facts| && RewrittenTo(index.Shown(), facts, index.identities, drafts)
    modifies index
    ensures index.identities == old(index.identities) && |messages| == |doc.messages|
    ensures RewrittenTo(index.Shown(), AllFacts(doc, index.layout), index.identities, messages) && messages == drafts
  {
    hide Remappable, Remapped, Known, OnlyMentioned, MessageFacts, Facts, NoneTwice;
    ghost var facts := AllFacts(doc, index.layout);
    messages := [];
    for i := 0 to |doc.messages|
      invariant index.identities == old(index.identities) && NoneTwice(index.identities) && |messages| == i
      invariant RewrittenTo(index.Shown(), facts, index.identities, messages)
    {
      var out := index.RemapRecord(MessageFacts(doc.messages[i], index.layout, doc.version));
      messages := messages + [out.value];
    }
    PassesAgree(index.Shown(), facts, index.identities, drafts, messages);
  }

  // ------------------------------------------------------------------ the whole file

  function Objects(messages: seq<Fields>): (r: seq<Json>)
    ensures |r| == |messages| && forall i :: 0 <= i < |r| ==> r[i] == JObj(messages[i])
  {
    seq(|messages|, i requires 0 <= i < |messages| => JObj(messages[i]))
  }

  /** The file as one JSON object. */
  function Sections(doc: Document): Fields {
    map["format_version" := JNum(doc.version), "group" := doc.group, "metadata" := doc.metadata,
        "messages" := JArr(Objects(doc.messages)), "export" := doc.totals]
    + (if doc.version >= IDENTITY_FORMAT_VERSION then map["identities" := JArr(doc.identities)] else map[])
    + (if doc.admins.Some? then map["admin_events" := JArr(doc.admins.value)] else map[])
  }

  /** Up to version 4 the admin events are removed one by one from a list that is published empty. */
  function AdminItems(admins: seq<Json>, count: nat): seq<Removal>
    requires count <= |admins|
  {
    if count == 0 then []
    else AdminItems(admins, count - 1) + [Removal(["admin_events", Decimal(count - 1)], admins[count - 1])]
  }

  /** From version 5 on the admin section is withheld as a whole. */
  predicate AdminsWithheld(doc: Document) {
    doc.version >= SPARSE_FORMAT_VERSION && doc.admins.Some?
  }

  function RemovedAdmins(doc: Document): seq<Removal> {
    if AdminsWithheld(doc)
    then [Removal(["admin_events"], JArr(doc.admins.value))] else []
  }

  function RemovedAdminItems(doc: Document): seq<Removal> {
    if doc.version < SPARSE_FORMAT_VERSION && doc.admins.Some?
    then AdminItems(doc.admins.value, |doc.admins.value|) else []
  }

  /** The identity list is given back as a whole when it was changed at all. */
  function RemovedIdentities(doc: Document, public: Document): seq<Removal> {
    if doc.version >= IDENTITY_FORMAT_VERSION && doc.identities != public.identities
    then [Removal(["identities"], JArr(doc.identities))] else []
  }

  /** The removed-facts file, in the order in which it is written. */
  ghost function RemovedFrom(doc: Document, public: Document, order: KeyOrder): seq<Removal>
    requires IsKeyOrder(order)
  {
    RemovedAdmins(doc)
    + Removed(doc.group, public.group, ["group"], order)
    + Removed(doc.metadata, public.metadata, ["metadata"], order)
    + RemovedIdentities(doc, public)
    + RemovedAdminItems(doc)
    + Removed(JArr(Objects(doc.messages)), JArr(Objects(public.messages)), ["messages"], order)
    + Removed(doc.totals, public.totals, ["export"], order)
  }

  /** What publishing may do to a file: drop facts, withhold admin events, and use another identity list. */
  ghost predicate PublicCopy(doc: Document, public: Document) {
    && public.version == doc.version && Shaped(doc)
    && public.admins == (if doc.version >= SPARSE_FORMAT_VERSION then None else Some([]))
    && OnlyDrops(doc.group, public.group) && OnlyDrops(doc.metadata, public.metadata)
    && |public.messages| == |doc.messages|
    && (forall i :: 0 <= i < |doc.messages| ==> OnlyDrops(JObj(doc.messages[i]), JObj(public.messages[i])))
    && OnlyDrops(doc.totals, public.totals)
  }

  /** The removed facts of a section give the section back. */
  lemma PatchSection(fields: Fields, key: string, original: Json, order: KeyOrder)
    requires IsKeyOrder(order) && key in fields && OnlyDrops(original, fields[key])
    ensures Patch(JObj(fields), Removed(original, fields[key], [key], order), 0) == JObj(fields[key := original])
  {
    hide Patch, Removed;
    var removals := Removed(original, fields[key], [key], order);
    RemovedUnder(original, fields[key], [key], order);
    assert [] + [key] == [key];
    PatchUnderKey(fields, removals, [], key);
    PatchRestoresExactlyWhenOnlyDrops(original, fields[key], [key], order);
  }

  lemma PatchAdmins(fields: Fields, doc: Document)
    ensures Patch(JObj(fields), RemovedAdmins(doc), 0)
         == JObj(if AdminsWithheld(doc) then fields["admin_events" := JArr(doc.admins.value)] else fields)
  {
    if AdminsWithheld(doc) {
      assert [] + ["admin_events"] == ["admin_events"];
      PatchMissingKey(fields, JArr(doc.admins.value), [], "admin_events");
    }
  }

  lemma PatchIdentities(fields: Fields, doc: Document, public: Document)
    requires doc.version >= IDENTITY_FORMAT_VERSION ==>
               "identities" in fields && fields["identities"] == JArr(public.identities)
    ensures Patch(JObj(fields), RemovedIdentities(doc, public), 0)
         == JObj(if doc.version >= IDENTITY_FORMAT_VERSION then fields["identities" := JArr(doc.identities)]
                 else fields)
  {
    if RemovedIdentities(doc, public) != [] {
      assert [] + ["identities"] == ["identities"];
      PatchMissingKey(fields, JArr(doc.identities), [], "identities");
    } else if doc.version >= IDENTITY_FORMAT_VERSION {
      assert fields["identities" := JArr(doc.identities)] == fields;
    }
  }

  lemma {:induction false} AdminItemsUnder(admins: seq<Json>, count: nat)
    requires count <= |admins|
    ensures Under(AdminItems(admins, count), ["admin_events"])
  {
    if count > 0 { AdminItemsUnder(admins, count - 1); }
  }

  lemma PutLast(items: seq<Json>, value: Json)
    ensures Put(JArr(items), [Decimal(|items|)], value) == JArr(items + [value])
  {
    var path := [Decimal(|items|)];
    IndexRoundTrip(|items|);
    assert path[1..] == [];
    assert Put(JNull, path[1..], value) == value;
  }

  /** Appending the events one by one to the empty list gives the whole list. */
  lemma {:induction false} PatchAppends(admins: seq<Json>, count: nat)
    requires count <= |admins|
    ensures forall i :: 0 <= i < |AdminItems(admins, count)| ==> 1 <= |AdminItems(admins, count)[i].path|
    ensures Patch(JArr([]), AdminItems(admins, count), 1) == JArr(admins[..count])
  {
    hide Put;
    AdminItemsUnder(admins, count);
    if count > 0 {
      var i := count - 1;
      PatchAppends(admins, i);
      PutLast(admins[..i], admins[i]);
      var removal := Removal(["admin_events", Decimal(i)], admins[i]);
      assert AdminItems(admins, count)[..|AdminItems(admins, i)|] == AdminItems(admins, i);
      assert removal.path[1..] == [Decimal(i)];
      assert admins[..i] + [admins[i]] == admins[..count];
    } else {
      assert admins[..count] == [];
    }
  }

  lemma PatchAdminItems(fields: Fields, doc: Document)
    requires doc.version < SPARSE_FORMAT_VERSION && doc.admins.Some?
    requires "admin_events" in fields && fields["admin_events"] == JArr([])
    ensures Patch(JObj(fields), RemovedAdminItems(doc), 0) == JObj(fields["admin_events" := JArr(doc.admins.value)])
  {
    hide Patch, AdminItems;
    var admins := doc.admins.value;
    AdminItemsUnder(admins, |admins|);
    assert [] + ["admin_events"] == ["admin_events"];
    PatchUnderKey(fields, AdminItems(admins, |admins|), [], "admin_events");
    PatchAppends(admins, |admins|);
    assert admins[..|admins|] == admins;
  }

  /** The message sections as lists of objects. */
  lemma MessagesOnlyDrop(doc: Document, public: Document)
    requires PublicCopy(doc, public)
    ensures OnlyDrops(JArr(Objects(doc.messages)), JArr(Objects(public.messages)))
  {
  }

  function AdminsBack(doc: Document, public: Document): Fields {
    if AdminsWithheld(doc) then Sections(public)["admin_events" := JArr(doc.admins.value)] else Sections(public)
  }

  /** The file after the header and the admin section of format 5 were given back. */
  function HeaderBack(doc: Document, public: Document): Fields {
    AdminsBack(doc, public)["group" := doc.group]["metadata" := doc.metadata]
  }

  /** The file after the identity list and the admin items of older formats were given back as well. */
  function ListsBack(doc: Document, public: Document): Fields {
    var fields := HeaderBack(doc, public);
    var listed := if doc.version >= IDENTITY_FORMAT_VERSION then fields["identities" := JArr(doc.identities)]
        else fields;
    if doc.version < SPARSE_FORMAT_VERSION && doc.admins.Some?
    then listed["admin_events" := JArr(doc.admins.value)] else listed
  }

  /** Patching the sections one after another. */
  lemma PatchHeader(doc: Document, public: Document, order: KeyOrder)
    requires IsKeyOrder(order) && PublicCopy(doc, public)
    ensures Patch(JObj(Sections(public)), RemovedAdmins(doc) + Removed(doc.group, public.group, ["group"], order)
                                          + Removed(doc.metadata, public.metadata, ["metadata"], order), 0)
         == JObj(HeaderBack(doc, public))
  {
    hide Patch, Removed, OnlyDrops;
    var fields, started := Sections(public), AdminsBack(doc, public);
    var group := Removed(doc.group, public.group, ["group"], order);
    var metadata := Removed(doc.metadata, public.metadata, ["metadata"], order);
    PatchAdmins(fields, doc);
    PatchInParts(JObj(fields), RemovedAdmins(doc), group, 0);
    PatchSection(started, "group", doc.group, order);
    PatchInParts(JObj(fields), RemovedAdmins(doc) + group, metadata, 0);
    PatchSection(started["group" := doc.group], "metadata", doc.metadata, order);
  }

  lemma PatchLists(doc: Document, public: Document)
    requires PublicCopy(doc, public)
    ensures Patch(JObj(HeaderBack(doc, public)), RemovedIdentities(doc, public) + RemovedAdminItems(doc), 0)
         == JObj(ListsBack(doc, public))
  {
    hide Patch, OnlyDrops, RemovedIdentities;
    var fields := HeaderBack(doc, public);
    var listed := if doc.version >= IDENTITY_FORMAT_VERSION then fields["identities" := JArr(doc.identities)]
        else fields;
    PatchIdentities(fields, doc, public);
    PatchInParts(JObj(fields), RemovedIdentities(doc, public), RemovedAdminItems(doc), 0);
    if doc.version < SPARSE_FORMAT_VERSION {
      PatchAdminItems(listed, doc);
    } else {
      PatchNothing(JObj(listed), 0);
    }
  }

  lemma PatchRecords(doc: Document, public: Document, order: KeyOrder)
    requires IsKeyOrder(order) && PublicCopy(doc, public)
    ensures var removals := Removed(JArr(Objects(doc.messages)), JArr(Objects(public.messages)), ["messages"], order)
                            + Removed(doc.totals, public.totals, ["export"], order);
            Patch(JObj(ListsBack(doc, public)), removals, 0)
            == JObj(ListsBack(doc, public)["messages" := JArr(Objects(doc.messages))]["export" := doc.totals])
  {
    hide Patch, OnlyDrops, Removed, Objects;
    var fields := ListsBack(doc, public);
    var original, published := JArr(Objects(doc.messages)), JArr(Objects(public.messages));
    var messages := Removed(original, published, ["messages"], order);
    MessagesOnlyDrop(doc, public);
    PatchSection(fields, "messages", original, order);
    PatchSection(fields["messages" := original], "export", doc.totals, order);
    PatchInParts(JObj(fields), messages, Removed(doc.totals, public.totals, ["export"], order), 0);
  }

  lemma AllBack(doc: Document, public: Document)
    requires PublicCopy(doc, public)
    ensures ListsBack(doc, public)["messages" := JArr(Objects(doc.messages))]["export" := doc.totals] == Sections(doc)
  {
    hide OnlyDrops, Objects;
    var back := ListsBack(doc, public)["messages" := JArr(Objects(doc.messages))]["export" := doc.totals];
    forall key ensures SameAt(back, Sections(doc), key) {
      BackAt(doc, public, key);
    }
    hide SameAt, ListsBack, Sections;
    SameEverywhere(back, Sections(doc));
  }

  lemma BackAt(doc: Document, public: Document, key: string)
    requires PublicCopy(doc, public)
    ensures SameAt(ListsBack(doc, public)["messages" := JArr(Objects(doc.messages))]["export" := doc.totals],
                   Sections(doc), key)
  {
    hide OnlyDrops, Objects, SameAt, ListsBack, Sections;
    if doc.version >= SPARSE_FORMAT_VERSION {
      SparseBackAt(doc, public, key);
    } else {
      OlderBackAt(doc, public, key);
    }
  }

  lemma SparseBackAt(doc: Document, public: Document, key: string)
    requires PublicCopy(doc, public) && doc.version >= SPARSE_FORMAT_VERSION
    ensures SameAt(ListsBack(doc, public)["messages" := JArr(Objects(doc.messages))]["export" := doc.totals],
                   Sections(doc), key)
  {
    hide OnlyDrops, Objects;
  }

  lemma OlderBackAt(doc: Document, public: Document, key: string)
    requires PublicCopy(doc, public) && doc.version < SPARSE_FORMAT_VERSION
    ensures SameAt(ListsBack(doc, public)["messages" := JArr(Objects(doc.messages))]["export" := doc.totals],
                   Sections(doc), key)
  {
    hide OnlyDrops, Objects;
  }

  /** Whatever a public copy dropped, the removed-facts file gives the whole original file back. */
  lemma FileIsRestored(doc: Document, public: Document, order: KeyOrder)
    requires IsKeyOrder(order) && PublicCopy(doc, public)
    ensures PatchFile(JObj(Sections(public)), Written(RemovedFrom(doc, public, order))) == Some(JObj(Sections(doc)))
  {
    hide Patch, OnlyDrops, Removed, Objects, RemovedAdmins, RemovedIdentities, RemovedAdminItems, Sections, ListsBack,
         HeaderBack, PatchFile, Written;
    var header := RemovedAdmins(doc) + Removed(doc.group, public.group, ["group"], order)
                  + Removed(doc.metadata, public.metadata, ["metadata"], order);
    var lists := RemovedIdentities(doc, public) + RemovedAdminItems(doc);
    var records := Removed(JArr(Objects(doc.messages)), JArr(Objects(public.messages)), ["messages"], order)
                   + Removed(doc.totals, public.totals, ["export"], order);
    var all := RemovedFrom(doc, public, order);
    assert all == header + lists + records;
    PatchHeader(doc, public, order);
    PatchLists(doc, public);
    PatchRecords(doc, public, order);
    PatchInParts(JObj(Sections(public)), header, lists, 0);
    PatchInParts(JObj(Sections(public)), header + lists, records, 0);
    AllBack(doc, public);
    PatchFileReadsPaths(JObj(Sections(public)), all);
  }

  // ------------------------------------------------------------------ publishing

  function ReactorCount(message: Fields): nat {
    if "reactors" in message && message["reactors"].JArr? then |message["reactors"].items| else 0
  }

  function ReactorTotal(messages: seq<Fields>): nat {
    if messages == [] then 0 else ReactorTotal(messages[..|messages| - 1]) + ReactorCount(messages[|messages| - 1])
  }

  /** All reactors of the messages, one after the other. */
  ghost function AllReactors(messages: seq<Fields>): seq<Json> {
    if messages == [] then []
    else
      var before, last := AllReactors(messages[..|messages| - 1]), messages[|messages| - 1];
      if "reactors" in last && last["reactors"].JArr? then before + last["reactors"].items else before
  }

  /** The totals count every reactor of every message once. */
  lemma {:induction false} ReactorTotalCounts(messages: seq<Fields>)
    ensures ReactorTotal(messages) == |AllReactors(messages)|
  {
    if messages != [] { ReactorTotalCounts(messages[..|messages| - 1]); }
  }

  function Totals(messages: nat, admins: nat, reactors: nat): Json {
    JObj(map["messages" := JNum(messages), "admin_events" := JNum(admins), "reactors" := JNum(reactors)])
  }

  predicate Counted(doc: Document) {
    && (forall i :: 0 <= i < |doc.messages| ==> ("reactors" in doc.messages[i] ==> doc.messages[i]["reactors"].JArr?))
    && doc.totals == Totals(|doc.messages|, if doc.admins.Some? then |doc.admins.value|
                            else 0, ReactorTotal(doc.messages))
  }

  /** The footer of a file agrees with its records. */
  lemma CountedMeans(doc: Document)
    ensures Counted(doc)
            <==> && (forall i :: 0 <= i < |doc.messages| && "reactors" in doc.messages[i] ==>
                       doc.messages[i]["reactors"].JArr?)
                 && doc.totals == JObj(map["messages" := JNum(|doc.messages|),
                                           "admin_events" := JNum(if doc.admins.None? then 0 else |doc.admins.value|),
                                           "reactors" := JNum(|AllReactors(doc.messages)|)])
  {
    ReactorTotalCounts(doc.messages);
  }

  method CountReactors(messages: seq<Fields>) returns (r: Result<nat>)
    ensures r.Ok? <==> forall i :: 0 <= i < |messages| ==> ("reactors" in messages[i] ==> messages[i]["reactors"].JArr?)
    ensures r.Ok? ==> r.value == ReactorTotal(messages)
  {
    var total := 0;
    for i := 0 to |messages|
      invariant total == ReactorTotal(messages[..i])
      invariant forall k :: 0 <= k < i ==> ("reactors" in messages[k] ==> messages[k]["reactors"].JArr?)
    {
      assert messages[..i + 1][..i] == messages[..i];
      if "reactors" in messages[i] {
        if !messages[i]["reactors"].JArr? {
          return Err("Malformed reactors");
        }
        total := total + |messages[i]["reactors"].items|;
      }
    }
    assert messages[..|messages|] == messages;
    r := Ok(total);
  }

  lemma RewrittenIsCopy(doc: Document, shown: seq<Json>, facts: seq<Fields>, public: seq<Json>, messages: seq<Fields>)
    requires |facts| == |doc.messages| == |messages| && RewrittenTo(shown, facts, public, messages)
    requires forall i :: 0 <= i < |facts| ==> OnlyDrops(JObj(doc.messages[i]), JObj(facts[i]))
    ensures forall i :: 0 <= i < |messages| ==> OnlyDrops(JObj(doc.messages[i]), JObj(messages[i]))
  {
    hide Remapped, OnlyDrops;
    forall i | 0 <= i < |messages| ensures OnlyDrops(JObj(doc.messages[i]), JObj(messages[i])) {
      RemappedOnlyDrops(JObj(doc.messages[i]), shown, public, facts[i], messages[i]);
    }
  }

  /** Every identity and every message has exactly its public part. */
  ghost predicate AllPublic(doc: Document, layout: Layout, shown: seq<Json>, facts: seq<Fields>)
    requires GuardedTables(layout.tables)
  {
    && |shown| == |doc.identities| && |facts| == |doc.messages|
    && (forall i :: 0 <= i < |shown| ==>
          PublicPart(doc.identities[i], shown[i], Keys(layout.identity), layout.tables, doc.version))
    && forall i :: 0 <= i < |facts| ==>
         PublicPart(JObj(doc.messages[i]), JObj(facts[i]), Keys(layout.message), layout.tables, doc.version)
  }

  lemma AllArePublic(doc: Document, layout: Layout)
    requires GuardedTables(layout.tables)
    ensures AllPublic(doc, layout, ShownIdentities(doc.identities, layout, doc.version), AllFacts(doc, layout))
  {
    hide PublicPart, Facts;
    var shown := ShownIdentities(doc.identities, layout, doc.version);
    forall i | 0 <= i < |shown|
      ensures PublicPart(doc.identities[i], shown[i], Keys(layout.identity), layout.tables, doc.version)
    {
      FactsArePublic(doc.identities[i], Keys(layout.identity), layout.tables, doc.version);
    }
  }

  lemma PublicOnlyDrops(value: Json, shown: Json, p: Projection, tables: Tables, version: nat)
    requires GuardedTables(tables) && PublicPart(value, shown, p, tables, version)
    ensures OnlyDrops(value, shown)
  {
  }

  /** A public export: the public part of the group, the header and every message, with references into a list of the
      public parts of the identities they name, and nothing of the admin log. `facts` are the messages before their
      references were rewritten, `shown` is what the original references name. */
  method PublishExport(doc: Document, layout: Layout, ghost order: KeyOrder)
    returns (r: Result<Document>, ghost removed: seq<Removal>, ghost shown: seq<Json>, ghost facts: seq<Fields>)
    requires GuardedTables(layout.tables) && Shaped(doc) && IsKeyOrder(order)
    ensures AllPublic(doc, layout, shown, facts)
    ensures r.Ok? <==>
              && Counted(doc)
              && (doc.version >= IDENTITY_FORMAT_VERSION ==> forall i :: 0 <= i < |facts| ==>
                  Remappable(shown, facts[i]))
    ensures r.Ok? ==>
              && PublicPart(doc.group, r.value.group, layout.group, layout.tables, doc.version)
              && PublicPart(doc.metadata, r.value.metadata, layout.header, layout.tables, doc.version)
              && r.value.totals == JObj(map["messages" := JNum(|doc.messages|), "admin_events" := JNum(0),
                                            "reactors" := JNum(|AllReactors(doc.messages)|)])
              && PublicCopy(doc, r.value)
    ensures r.Ok? ==>
              && removed == RemovedFrom(doc, r.value, order)
              && PatchFile(JObj(Sections(r.value)), Written(removed)) == Some(JObj(Sections(doc)))
    ensures r.Ok? && doc.version >= IDENTITY_FORMAT_VERSION ==>
              && RewrittenTo(shown, facts, r.value.identities, r.value.messages)
              && NoneTwice(r.value.identities) && AllFromMessages(shown, facts, r.value.identities)
    ensures r.Ok? && doc.version < IDENTITY_FORMAT_VERSION ==> r.value.messages == facts
  {
    hide Remapped, Remappable, Known, OnlyMentioned, MessageFacts, Project, Facts, OnlyDrops, AllFromMessages,
           NoneTwice, PublicPart;
    hide PatchFile, Written, Sections, RemovedFrom;
    removed, shown, facts := [], ShownIdentities(doc.identities, layout, doc.version), AllFacts(doc, layout);
    AllArePublic(doc, layout);
    var identities: seq<Json>, messages := [], [];
    if doc.version >= IDENTITY_FORMAT_VERSION {
      var collected;
      ghost var drafts;
      collected, drafts := CollectIdentities(doc, layout);
      if collected.Err? {
        return Err(collected.message), removed, shown, facts;
      }
      messages := RewriteMessages(doc, collected.value, drafts);
      identities := collected.value.identities;
    } else {
      messages := seq(|doc.messages|, i requires 0 <= i < |doc.messages| =>
                      MessageFacts(doc.messages[i], layout, doc.version));
    }
    var group := Facts(doc.group, layout.group, layout.tables, doc.version);
    var metadata := Facts(doc.metadata, layout.header, layout.tables, doc.version);
    FactsArePublic(doc.group, layout.group, layout.tables, doc.version);
    FactsArePublic(doc.metadata, layout.header, layout.tables, doc.version);
    var reactors := CountReactors(doc.messages);
    ReactorTotalCounts(doc.messages);
    if reactors.Err? {
      return Err(reactors.message), removed, shown, facts;
    }
    var admins := if doc.admins.Some? then |doc.admins.value| else 0;
    if doc.totals != Totals(|doc.messages|, admins, reactors.value) {
      return Err("Export counts do not match its records"), removed, shown, facts;
    }
    var totals := Totals(|doc.messages|, 0, reactors.value);
    var public := Document(doc.version, group, metadata, identities,
                           if doc.version >= SPARSE_FORMAT_VERSION then None else Some([]), messages, totals);
    CopyIsPublic(doc, public, layout, shown, facts);
    FileIsRestored(doc, public, order);
    removed := RemovedFrom(doc, public, order);
    r := Ok(public);
  }

  /** A file made of public parts is a public copy. */
  lemma CopyIsPublic(doc: Document, public: Document, layout: Layout, shown: seq<Json>, facts: seq<Fields>)
    requires GuardedTables(layout.tables) && Shaped(doc) && Counted(doc) && AllPublic(doc, layout, shown, facts)
    requires public.version == doc.version && |public.messages| == |facts|
    requires public.admins == (if doc.version >= SPARSE_FORMAT_VERSION then None else Some([]))
    requires PublicPart(doc.group, public.group, layout.group, layout.tables, doc.version)
    requires PublicPart(doc.metadata, public.metadata, layout.header, layout.tables, doc.version)
    requires if doc.version >= IDENTITY_FORMAT_VERSION
             then RewrittenTo(shown, facts, public.identities, public.messages) else public.messages == facts
    requires public.totals == Totals(|doc.messages|, 0, ReactorTotal(doc.messages))
    ensures PublicCopy(doc, public)
  {
    hide PublicPart, OnlyDrops, RewrittenTo;
    PublicOnlyDrops(doc.group, public.group, layout.group, layout.tables, doc.version);
    PublicOnlyDrops(doc.metadata, public.metadata, layout.header, layout.tables, doc.version);
    forall i | 0 <= i < |facts| ensures OnlyDrops(JObj(doc.messages[i]), JObj(facts[i])) {
      PublicOnlyDrops(JObj(doc.messages[i]), JObj(facts[i]), Keys(layout.message), layout.tables, doc.version);
    }
    if doc.version >= IDENTITY_FORMAT_VERSION {
      RewrittenIsCopy(doc, shown, facts, public.identities, public.messages);
    }
    TotalsOnlyDrop(|doc.messages|, if doc.admins.Some? then |doc.admins.value| else 0, ReactorTotal(doc.messages));
  }

  lemma TotalsOnlyDrop(messages: nat, admins: nat, reactors: nat)
    ensures OnlyDrops(Totals(messages, admins, reactors), Totals(messages, 0, reactors))
  {
  }
}
