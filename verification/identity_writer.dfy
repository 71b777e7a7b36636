/** The two-pass wire writer: pack once to fill the identity directory, pack again against the frozen directory. */
module IdentityWriter {
  import opened Common
  import opened JsonValues
  import opened Identities
  import opened IdentityRoundTrip

  // ------------------------------------------------------- stability of packing

  /** A frozen directory that contains what the first pass built gives the same reference and never rejects. */
  lemma InternStable(index: Index, identity: Fields, final: Index)
    requires Intern(index, false, identity).Ok? && Intern(index, false, identity).value.1 <= final
    ensures Intern(final, true, identity) == Ok((Intern(index, false, identity).value.0, final))
  {
  }

  lemma IdentityRefStable(record: Fields, prefix: string, index: Index, final: Index)
    requires prefix in {AUTHOR, ACTOR} && IdentityRef(record, prefix, index, false).Ok?
    requires IdentityRef(record, prefix, index, false).value.1 <= final
    ensures IdentityRef(record, prefix, final, true) == Ok((IdentityRef(record, prefix, index, false).value.0, final))
  {
    hide Omit, OmitFields, Snapshot, Without, Intern;
    var identity := OmitFields(Snapshot(record, prefix));
    if identity != map[] { InternStable(index, identity, final); }
  }

  lemma {:induction false} RelatedStable(users: seq<Json>, index: Index, final: Index)
    requires RelatedRefs(users, index, false).Ok? && RelatedRefs(users, index, false).value.1 <= final
    ensures RelatedRefs(users, final, true) == Ok((RelatedRefs(users, index, false).value.0, final))
  {
    hide Intern;
    if users != [] {
      var n := |users| - 1;
      RelatedStable(users[..n], index, final);
      InternStable(RelatedRefs(users[..n], index, false).value.1, users[n].fields, final);
    }
  }

  lemma {:induction false} ReactorsStable(reactors: seq<Json>, index: Index, final: Index)
    requires ReactorRefs(reactors, index, false).Ok? && ReactorRefs(reactors, index, false).value.1 <= final
    ensures ReactorRefs(reactors, final, true) == Ok((ReactorRefs(reactors, index, false).value.0, final))
  {
    hide IdentityRef;
    if reactors != [] {
      var n := |reactors| - 1;
      ReactorsStable(reactors[..n], index, final);
      IdentityRefStable(reactors[n].fields, ACTOR, ReactorRefs(reactors[..n], index, false).value.1, final);
    }
  }

  /** Event compaction reads the directory only through the reactors' own references. */
  lemma {:induction false} EventsStable(events: seq<Json>, reactors: seq<Json>, index: Index, final: Index)
    requires ReactorRefs(reactors, index, false).Ok? && ReactorRefs(reactors, index, false).value.1 <= final
    requires var refs := ReactorRefs(reactors, index, false).value; CompactEvents(events, refs.0, refs.1).Ok?
    ensures var refs := ReactorRefs(reactors, index, false).value;
            CompactEvents(events, refs.0, final) == CompactEvents(events, refs.0, refs.1)
  {
    hide ReactorRefs, Match, ReplacedBy;
    var refs := ReactorRefs(reactors, index, false).value;
    if events != [] {
      var n := |events| - 1;
      EventsStable(events[..n], reactors, index, final);
      MatchIsReplacedBy(reactors, index, false, refs.1, events[n]);
      MatchIsReplacedBy(reactors, index, false, final, events[n]);
    }
  }

  lemma PackReactorsStable(record: Fields, index: Index, final: Index)
    requires PackReactors(record, index, false).Ok? && PackReactors(record, index, false).value.1 <= final
    ensures PackReactors(record, final, true) == Ok((PackReactors(record, index, false).value.0, final))
  {
    hide ReactorRefs, CompactEvents, WithRecent, HasRecent, Recent;
    if HasArray(record, "reactors") {
      var reactors := record["reactors"].items;
      var refs := ReactorRefs(reactors, index, false).value;
      ReactorsStable(reactors, index, final);
      var result := record["reactors" := JArr(refs.0)];
      if HasRecent(result) { EventsStable(Recent(result), reactors, index, final); }
    }
  }

  /** Packing with the partly built directory and with the final frozen one write the same record. */
  lemma PackStable(kind: RecordKind, flat: Fields, index: Index, final: Index)
    requires Pack(kind, flat, index, false).Ok? && Pack(kind, flat, index, false).value.1 <= final
    ensures Pack(kind, flat, final, true) == Ok((Pack(kind, flat, index, false).value.0, final))
  {
    hide IdentityRef, PackReactors, RelatedRefs, Omit, OmitFields;
    if kind != HeaderRecord {
      var owned := IdentityRef(flat, PrefixOf(kind), index, false).value;
      var related := PackRelated(owned.0, owned.1, false).value;
      if kind == MessageRecord {
        PackReactorsStable(related.0, related.1, final);
      }
      IdentityRefStable(flat, PrefixOf(kind), index, final);
      if HasArray(owned.0, "related_users") {
        RelatedStable(owned.0["related_users"].items, owned.1, final);
      }
    }
  }

  // ---------------------------------------------------------- the directory object

  ghost predicate NoDuplicates(index: Index) {
    forall i, j :: 0 <= i < j < |index| ==> index[i] != index[j]
  }

  class IdentityIndex {
    var snapshots: Index
    var frozen: bool

    constructor ()
      ensures snapshots == [] && !frozen
    {
      snapshots, frozen := [], false;
    }

    method InternIdentity(identity: Fields) returns (r: Result<int>)
      modifies this
      ensures frozen == old(frozen)
      ensures match Intern(old(snapshots), frozen, identity)
              case Ok(v) => r == Ok(v.0) && snapshots == v.1
              case Err(_) => r.Err? && snapshots == old(snapshots)
      ensures NoDuplicates(old(snapshots)) ==> NoDuplicates(snapshots)
    {
      var snapshot := Omit(JObj(identity));
      var found := FirstAt(snapshots, snapshot);
      if found.Some? {
        return Ok(found.value);
      }
      if frozen {
        return Err("Export identities changed between publication passes");
      }
      snapshots := snapshots + [snapshot];
      r := Ok(|snapshots| - 1);
    }

    method PackOwner(record: Fields, prefix: string) returns (r: Result<Fields>)
      requires prefix != ""
      modifies this
      ensures frozen == old(frozen)
      ensures match IdentityRef(record, prefix, old(snapshots), frozen)
              case Ok(v) => r == Ok(v.0) && snapshots == v.1
              case Err(_) => r.Err?
      ensures NoDuplicates(old(snapshots)) ==> NoDuplicates(snapshots)
    {
      if Reference(prefix) in record {
        return Err("Flat identity contains a reserved reference field");
      }
      var identity := OmitFields(Snapshot(record, prefix));
      var rest := Without(record, prefix);
      if identity != map[] {
        var at := InternIdentity(identity);
        if at.Err? {
          return Err(at.message);
        }
        rest := rest[Reference(prefix) := JNum(at.value)];
      }
      r := Ok(rest);
    }

    method PackUsers(users: seq<Json>) returns (r: Result<seq<Json>>)
      modifies this
      ensures frozen == old(frozen)
      ensures match RelatedRefs(users, old(snapshots), frozen)
              case Ok(v) => r == Ok(v.0) && snapshots == v.1
              case Err(_) => r.Err?
      ensures NoDuplicates(old(snapshots)) ==> NoDuplicates(snapshots)
    {
      hide NoDuplicates, FirstAt, Omit;
      var refs := [];
      for i := 0 to |users|
        invariant frozen == old(frozen)
        invariant RelatedRefs(users[..i], old(snapshots), frozen) == Ok((refs, snapshots))
        invariant NoDuplicates(old(snapshots)) ==> NoDuplicates(snapshots)
      {
        assert users[..i + 1][..i] == users[..i];
        if !users[i].JObj? {
          RelatedFailsEarly(users, old(snapshots), frozen, i + 1);
          return Err("Related user is not an object");
        }
        var at := InternIdentity(users[i].fields);
        if at.Err? {
          RelatedFailsEarly(users, old(snapshots), frozen, i + 1);
          return Err(at.message);
        }
        refs := refs + [JNum(at.value)];
      }
      assert users[..|users|] == users;
      r := Ok(refs);
    }

    method PackReactorList(reactors: seq<Json>) returns (r: Result<seq<Json>>)
      modifies this
      ensures frozen == old(frozen)
      ensures match ReactorRefs(reactors, old(snapshots), frozen)
              case Ok(v) => r == Ok(v.0) && snapshots == v.1
              case Err(_) => r.Err?
      ensures NoDuplicates(old(snapshots)) ==> NoDuplicates(snapshots)
    {
      hide IdentityRef;
      var packed := [];
      for i := 0 to |reactors|
        invariant frozen == old(frozen)
        invariant ReactorRefs(reactors[..i], old(snapshots), frozen) == Ok((packed, snapshots))
        invariant NoDuplicates(old(snapshots)) ==> NoDuplicates(snapshots)
      {
        assert reactors[..i + 1][..i] == reactors[..i];
        if !reactors[i].JObj? {
          ReactorsFailEarly(reactors, old(snapshots), frozen, i + 1);
          return Err("Reactor is not an object");
        }
        var one := PackOwner(reactors[i].fields, ACTOR);
        if one.Err? {
          ReactorsFailEarly(reactors, old(snapshots), frozen, i + 1);
          return Err(one.message);
        }
        packed := packed + [JObj(one.value)];
      }
      assert reactors[..|reactors|] == reactors;
      r := Ok(packed);
    }

    /** Packs one record, updating the directory in place. */
    method PackRecord(kind: RecordKind, flat: Fields) returns (r: Result<Fields>)
      modifies this
      ensures frozen == old(frozen)
      ensures match Pack(kind, flat, old(snapshots), frozen)
              case Ok(v) => r == Ok(v.0) && snapshots == v.1
              case Err(_) => r.Err?
      ensures NoDuplicates(old(snapshots)) ==> NoDuplicates(snapshots)
    {
      hide IdentityRef, RelatedRefs, ReactorRefs, CompactEvents, Omit, OmitFields, NoDuplicates;
      if kind == HeaderRecord {
        return Ok(OmitFields(flat));
      }
      var owned := PackOwner(flat, PrefixOf(kind));
      if owned.Err? {
        return owned;
      }
      var result := owned.value;
      if HasArray(result, "related_users") {
        var refs := PackUsers(result["related_users"].items);
        if refs.Err? {
          return Err(refs.message);
        }
        result := result["related_users" := JArr(refs.value)];
      }
      if kind == MessageRecord && HasArray(result, "reactors") {
        var packed := PackReactorList(result["reactors"].items);
        if packed.Err? {
          return Err(packed.message);
        }
        result := result["reactors" := JArr(packed.value)];
        if HasRecent(result) {
          var events := CompactEvents(Recent(result), packed.value, snapshots);
          if events.Err? {
            return Err(events.message);
          }
          result := WithRecent(result, events.value);
        }
      }
      r := Ok(OmitFields(result));
    }
  }

  lemma {:induction false} RelatedFailsEarly(users: seq<Json>, index: Index, frozen: bool, n: nat)
    requires n <= |users| && RelatedRefs(users[..n], index, frozen).Err?
    ensures RelatedRefs(users, index, frozen).Err?
    decreases |users|
  {
    if n < |users| {
      assert users[..|users| - 1][..n] == users[..n];
      RelatedFailsEarly(users[..|users| - 1], index, frozen, n);
    } else {
      assert users[..n] == users;
    }
  }

  lemma {:induction false} ReactorsFailEarly(reactors: seq<Json>, index: Index, frozen: bool, n: nat)
    requires n <= |reactors| && ReactorRefs(reactors[..n], index, frozen).Err?
    ensures ReactorRefs(reactors, index, frozen).Err?
    decreases |reactors|
  {
    if n < |reactors| {
      assert reactors[..|reactors| - 1][..n] == reactors[..n];
      ReactorsFailEarly(reactors[..|reactors| - 1], index, frozen, n);
    } else {
      assert reactors[..n] == reactors;
    }
  }

  // ------------------------------------------------------------- the document

  datatype Section = Group | Metadata | Admins | Messages | Footer

  datatype Entry = Entry(section: Section, fields: Fields)

  datatype Document = Document(group: Fields, metadata: Fields, identities: Index,
                               admins: seq<Fields>, messages: seq<Fields>, footer: Fields)

  function Place(section: Section): nat {
    match section
    case Group => 0
    case Metadata => 1
    case Admins => 2
    case Messages => 3
    case Footer => 4
  }

  function KindOf(section: Section): RecordKind {
    match section
    case Admins => AdminRecord
    case Messages => MessageRecord
    case _ => HeaderRecord
  }

  /** Sections in order; only the two record sections may repeat. */
  ghost predicate Ordered(entries: seq<Entry>) {
    forall i, j :: 0 <= i < j < |entries| ==>
      Place(entries[i].section) <= Place(entries[j].section)
      && (entries[i].section == entries[j].section ==> KindOf(entries[i].section) != HeaderRecord)
  }

  /** Which record may follow which: the group comes first, then the header, no admin event behind a message, nothing
      behind the footer. */
  predicate MayFollow(earlier: Section, later: Section) {
    && earlier != Footer && later != Group
    && (later == Metadata ==> earlier == Group) && (later == Admins ==> earlier != Messages)
  }

  lemma PlacesFollow(earlier: Section, later: Section)
    ensures MayFollow(earlier, later)
            <==> Place(earlier) <= Place(later) && (earlier == later ==> KindOf(earlier) != HeaderRecord)
  {
  }

  lemma SectionsInOrder(entries: seq<Entry>)
    ensures Ordered(entries)
            <==> forall i, j :: 0 <= i < j < |entries| ==> MayFollow(entries[i].section, entries[j].section)
  {
    forall i, j | 0 <= i < j < |entries|
      ensures MayFollow(entries[i].section, entries[j].section)
              <==> && Place(entries[i].section) <= Place(entries[j].section)
                   && (entries[i].section == entries[j].section ==> KindOf(entries[i].section) != HeaderRecord)
    {
      PlacesFollow(entries[i].section, entries[j].section);
    }
  }

  /** The record schemas of the written format, by section, and the schema of an identity. */
  datatype Schema = Schema(record: (Section, Fields) -> bool, identity: Json -> bool)

  /** Every packed record of the two record sections fits its schema. */
  ghost predicate Accepted(schema: Schema, entries: seq<Entry>, wires: seq<Fields>)
    requires |entries| == |wires|
  {
    forall i :: 0 <= i < |entries| && KindOf(entries[i].section) != HeaderRecord ==>
      schema.record(entries[i].section, wires[i])
  }

  /** When the first peer is the group itself, only its dialog id is written a second time. */
  function CompactMetadata(group: Fields, metadata: Fields): (r: Fields)
    ensures r.Keys == metadata.Keys && forall key :: key in r && key != "peers" ==> r[key] == metadata[key]
  {
    if HasArray(metadata, "peers") && metadata["peers"].items != [] && metadata["peers"].items[0] == JObj(group) then
      metadata["peers" := JArr([JObj(map["dialog_id" := FactOf(JObj(group), "dialog_id")])]
                               + metadata["peers"].items[1..])]
    else metadata
  }

  /** A fact of an object, or null. */
  function FactOf(value: Json, key: string): Json {
    if value.JObj? && key in value.fields then value.fields[key] else JNull
  }

  /** The peer directory a reader takes from the metadata is the same with and without the compaction. */
  lemma CompactKeepsDirectory(group: Fields, metadata: Fields)
    ensures HasArray(CompactMetadata(group, metadata), "peers") == HasArray(metadata, "peers")
    ensures HasArray(metadata, "peers") ==>
              var before, after := metadata["peers"].items, CompactMetadata(group, metadata)["peers"].items;
              && |after| == |before|
              && (forall i :: 0 <= i < |after| ==> FactOf(after[i], "dialog_id") == FactOf(before[i], "dialog_id"))
              && (forall i :: 0 <= i < |after| && after[i] != before[i] ==> i == 0 && before[0] == JObj(group))
              && (before != [] && before[0] == JObj(group) ==> after[0].JObj? && after[0].fields.Keys == {"dialog_id"})
  {
  }

  function PackAll(entries: seq<Entry>, index: Index, frozen: bool): (r: Result<(seq<Fields>, Index)>)
    ensures r.Ok? ==> index <= r.value.1 && |r.value.0| == |entries|
  {
    if entries == [] then Ok(([], index))
    else
      var last := entries[|entries| - 1];
      var before :- PackAll(entries[..|entries| - 1], index, frozen);
      var packed :- Pack(KindOf(last.section), last.fields, before.1, frozen);
      Ok((before.0 + [packed.0], packed.1))
  }

  /** The wire records of one section, in stream order. */
  function Select(entries: seq<Entry>, wires: seq<Fields>, section: Section): seq<Fields>
    requires |entries| == |wires|
  {
    if entries == [] then []
    else
      var n := |entries| - 1;
      var before := Select(entries[..n], wires[..n], section);
      if entries[n].section == section then before + [wires[n]] else before
  }

  /** The positions of a section's records in the stream. */
  ghost function PositionsOf(entries: seq<Entry>, section: Section): (at: seq<nat>)
    ensures forall i, j :: 0 <= i < j < |at| ==> at[i] < at[j]
    ensures forall k :: 0 <= k < |at| ==> at[k] < |entries|
    ensures forall i :: i in at <==> 0 <= i < |entries| && entries[i].section == section
  {
    if entries == [] then []
    else
      var n := |entries| - 1;
      var before := PositionsOf(entries[..n], section);
      if entries[n].section == section then before + [n] else before
  }

  /** The records of a section are written in stream order, all of them and no other. */
  lemma {:induction false} SelectsInOrder(entries: seq<Entry>, wires: seq<Fields>, section: Section)
    requires |entries| == |wires|
    ensures var at := PositionsOf(entries, section);
            && |at| == |Select(entries, wires, section)|
            && forall k :: 0 <= k < |at| ==> Select(entries, wires, section)[k] == wires[at[k]]
  {
    if entries != [] {
      var n := |entries| - 1;
      SelectsInOrder(entries[..n], wires[..n], section);
    }
  }

  /** All reactors of the messages of a stream, one after the other. */
  ghost function AllReactors(entries: seq<Entry>): seq<Json> {
    if entries == [] then []
    else
      var before, last := AllReactors(entries[..|entries| - 1]), entries[|entries| - 1];
      match last.section
      case Messages =>
        if "reactors" in last.fields && last.fields["reactors"].JArr? then before + last.fields["reactors"].items
        else before
      case _ => before
  }

  /** The footer counts every reactor of every message once. */
  lemma {:induction false} ReactorTotalCounts(entries: seq<Entry>)
    ensures ReactorTotal(entries) == |AllReactors(entries)|
  {
    if entries != [] { ReactorTotalCounts(entries[..|entries| - 1]); }
  }

  function ReactorsIn(entry: Entry): nat {
    if entry.section == Messages && HasArray(entry.fields, "reactors") then |entry.fields["reactors"].items| else 0
  }

  function ReactorTotal(entries: seq<Entry>): nat {
    if entries == [] then 0
    else ReactorTotal(entries[..|entries| - 1]) + ReactorsIn(entries[|entries| - 1])
  }

  function Counts(entries: seq<Entry>, wires: seq<Fields>): Fields
    requires |entries| == |wires|
  {
    map["messages" := JNum(|Select(entries, wires, Messages)|),
        "admin_events" := JNum(|Select(entries, wires, Admins)|),
        "reactors" := JNum(ReactorTotal(entries))]
  }

  /** The footer counts the messages, the admin events and the reactors of the stream. */
  lemma CountsMean(entries: seq<Entry>, wires: seq<Fields>)
    requires |entries| == |wires|
    ensures Counts(entries, wires)
            == map["messages" := JNum(|PositionsOf(entries, Messages)|),
                   "admin_events" := JNum(|PositionsOf(entries, Admins)|),
                   "reactors" := JNum(|AllReactors(entries)|)]
  {
    SelectsInOrder(entries, wires, Messages);
    SelectsInOrder(entries, wires, Admins);
    ReactorTotalCounts(entries);
  }

  /** A stream both passes can write: in order, packable, fitting the schemas, with its three header records and a
      matching footer. */
  ghost predicate Writable(entries: seq<Entry>, schema: Schema) {
    && Ordered(entries) && PackAll(entries, [], false).Ok?
    && var (wires, identities) := PackAll(entries, [], false).value;
       && Accepted(schema, entries, wires)
       && |Select(entries, wires, Group)| > 0 && |Select(entries, wires, Metadata)| > 0
       && Select(entries, wires, Footer) == [Counts(entries, wires)]
       && var group, metadata := Select(entries, wires, Group)[0], Select(entries, wires, Metadata)[0];
          && schema.record(Group, group) && schema.record(Metadata, CompactMetadata(group, metadata))
          && schema.record(Footer, Counts(entries, wires))
          && forall i :: 0 <= i < |identities| ==> schema.identity(identities[i])
  }

  lemma {:induction false} PackAllStable(entries: seq<Entry>, index: Index, final: Index)
    requires PackAll(entries, index, false).Ok? && PackAll(entries, index, false).value.1 <= final
    ensures PackAll(entries, final, true) == Ok((PackAll(entries, index, false).value.0, final))
  {
    hide Pack;
    if entries != [] {
      var n := |entries| - 1;
      var before := PackAll(entries[..n], index, false).value;
      PackAllStable(entries[..n], index, final);
      PackStable(KindOf(entries[n].section), entries[n].fields, before.1, final);
    }
  }

  lemma {:induction false} PackAllFailsEarly(entries: seq<Entry>, index: Index, frozen: bool, n: nat)
    requires n <= |entries| && PackAll(entries[..n], index, frozen).Err?
    ensures PackAll(entries, index, frozen).Err?
    decreases |entries|
  {
    if n < |entries| {
      assert entries[..|entries| - 1][..n] == entries[..n];
      PackAllFailsEarly(entries[..|entries| - 1], index, frozen, n);
    } else {
      assert entries[..n] == entries;
    }
  }

  /** What was packed of a prefix stays as it was. */
  lemma {:induction false} PackAllPrefix(entries: seq<Entry>, index: Index, frozen: bool, n: nat)
    requires n <= |entries| && PackAll(entries, index, frozen).Ok?
    ensures PackAll(entries[..n], index, frozen).Ok?
    ensures PackAll(entries[..n], index, frozen).value.0 == PackAll(entries, index, frozen).value.0[..n]
    decreases |entries|
  {
    hide Pack;
    if n < |entries| {
      assert entries[..|entries| - 1][..n] == entries[..n];
      PackAllPrefix(entries[..|entries| - 1], index, frozen, n);
    } else {
      assert entries[..n] == entries;
    }
  }

  /** A stream with a record that does not fit is not accepted, whatever follows it. */
  lemma RefusedEarly(schema: Schema, entries: seq<Entry>, index: Index, frozen: bool, i: nat)
    requires i < |entries| && PackAll(entries[..i + 1], index, frozen).Ok?
    requires KindOf(entries[i].section) != HeaderRecord
    requires !schema.record(entries[i].section, PackAll(entries[..i + 1], index, frozen).value.0[i])
    ensures PackAll(entries, index, frozen).Ok? ==>
              !Accepted(schema, entries, PackAll(entries, index, frozen).value.0)
  {
    hide PackAll;
    if PackAll(entries, index, frozen).Ok? { PackAllPrefix(entries, index, frozen, i + 1); }
  }

  /** Each record of the stream is packed on its own against some earlier state of the directory. */
  lemma {:induction false} PackedAt(entries: seq<Entry>, index: Index, i: nat) returns (at: Index)
    requires PackAll(entries, index, false).Ok? && i < |entries|
    ensures var r := Pack(KindOf(entries[i].section), entries[i].fields, at, false);
            && r.Ok? && r.value.1 <= PackAll(entries, index, false).value.1
            && r.value.0 == PackAll(entries, index, false).value.0[i]
  {
    hide Pack;
    var n := |entries| - 1;
    if i == n {
      at := PackAll(entries[..n], index, false).value.1;
    } else {
      at := PackedAt(entries[..n], index, i);
    }
  }

  /** Reading the published file: every record comes back in sparse form exactly when it is faithful. */
  lemma FileReadsBack(entries: seq<Entry>, i: nat)
    requires PackAll(entries, [], false).Ok? && i < |entries| && KindOf(entries[i].section) != HeaderRecord
    ensures var file := PackAll(entries, [], false).value;
            Expand(KindOf(entries[i].section), file.0[i], file.1) == Ok(OmitFields(entries[i].fields))
            <==> Faithful(KindOf(entries[i].section), entries[i].fields)
  {
    hide Pack, Expand, Faithful, OmitFields;
    var at := PackedAt(entries, [], i);
    RoundTripExactlyWhenFaithful(KindOf(entries[i].section), entries[i].fields, at, false,
                                 PackAll(entries, [], false).value.1);
  }

  lemma NothingAccepted(schema: Schema)
    ensures Accepted(schema, [], []) && Ordered([])
  {
  }

  lemma AcceptedExtends(schema: Schema, entries: seq<Entry>, wires: seq<Fields>, i: nat)
    requires i < |entries| && |wires| == i + 1 && Accepted(schema, entries[..i], wires[..i])
    ensures Accepted(schema, entries[..i + 1], wires) <==>
              (KindOf(entries[i].section) != HeaderRecord ==> schema.record(entries[i].section, wires[i]))
  {
  }

  /** Comparing with the record before is enough to keep the whole stream in order. */
  lemma OrderExtends(entries: seq<Entry>, i: nat)
    requires i < |entries| && Ordered(entries[..i])
    ensures var fits := i == 0 || (Place(entries[i].section) >= Place(entries[i - 1].section)
                                   && (entries[i].section == entries[i - 1].section
                                       ==> KindOf(entries[i].section) != HeaderRecord));
            if fits then Ordered(entries[..i + 1]) else !Ordered(entries)
  {
    var prefix, longer := entries[..i], entries[..i + 1];
    forall k | 0 <= k < i ensures longer[k] == prefix[k] {}
    if i > 0 { assert longer[i - 1] == prefix[i - 1]; }
  }

  /** First pass: checks the order, fills the directory and counts. */
  method IndexExport(entries: seq<Entry>, index: IdentityIndex, schema: Schema)
    returns (r: Result<(seq<Fields>, nat)>)
    requires index.snapshots == [] && !index.frozen
    modifies index
    ensures !index.frozen && NoDuplicates(index.snapshots)
    ensures r.Ok? <==>
              && Ordered(entries) && PackAll(entries, [], false).Ok?
              && Accepted(schema, entries, PackAll(entries, [], false).value.0)
    ensures r.Ok? ==>
              PackAll(entries, [], false) == Ok((r.value.0, index.snapshots)) && r.value.1 == ReactorTotal(entries)
  {
    hide Pack, Accepted, Ordered;
    NothingAccepted(schema);
    var wires := [];
    var reactors := 0;
    for i := 0 to |entries|
      invariant !index.frozen && NoDuplicates(index.snapshots)
      invariant Ordered(entries[..i]) && PackAll(entries[..i], [], false) == Ok((wires, index.snapshots))
      invariant Accepted(schema, entries[..i], wires)
      invariant reactors == ReactorTotal(entries[..i])
    {
      var entry := entries[i];
      assert entries[..i + 1][..i] == entries[..i];
      OrderExtends(entries, i);
      if i > 0 && (Place(entry.section) < Place(entries[i - 1].section)
                   || (entry.section == entries[i - 1].section && KindOf(entry.section) == HeaderRecord)) {
        return Err("Invalid export record order");
      }
      var packed := index.PackRecord(KindOf(entry.section), entry.fields);
      if packed.Err? {
        PackAllFailsEarly(entries, [], false, i + 1);
        return Err(packed.message);
      }
      wires := wires + [packed.value];
      AcceptedExtends(schema, entries, wires, i);
      if KindOf(entry.section) != HeaderRecord && !schema.record(entry.section, packed.value) {
        RefusedEarly(schema, entries, [], false, i);
        return Err("Record does not fit its schema");
      }
      reactors := reactors + ReactorsIn(entry);
    }
    assert entries[..|entries|] == entries;
    r := Ok((wires, reactors));
  }

  /** Second pass: packs every record against the frozen directory. */
  method PackFrozen(entries: seq<Entry>, index: IdentityIndex, schema: Schema) returns (r: Result<seq<Fields>>)
    requires index.frozen
    modifies index
    ensures match PackAll(entries, old(index.snapshots), true)
            case Ok(v) => if Accepted(schema, entries, v.0) then r == Ok(v.0) && index.snapshots == v.1 else r.Err?
            case Err(_) => r.Err?
    ensures index.frozen
  {
    hide Pack, Accepted;
    NothingAccepted(schema);
    var wires := [];
    for i := 0 to |entries|
      invariant index.frozen
      invariant PackAll(entries[..i], old(index.snapshots), true) == Ok((wires, index.snapshots))
      invariant Accepted(schema, entries[..i], wires)
    {
      assert entries[..i + 1][..i] == entries[..i];
      var packed := index.PackRecord(KindOf(entries[i].section), entries[i].fields);
      if packed.Err? {
        PackAllFailsEarly(entries, old(index.snapshots), true, i + 1);
        return Err(packed.message);
      }
      wires := wires + [packed.value];
      AcceptedExtends(schema, entries, wires, i);
      if KindOf(entries[i].section) != HeaderRecord && !schema.record(entries[i].section, packed.value) {
        RefusedEarly(schema, entries, old(index.snapshots), true, i);
        return Err("Record does not fit its schema");
      }
    }
    assert entries[..|entries|] == entries;
    r := Ok(wires);
  }

  /** The writer over two readings of the record stream. */
  method WriteExport(first: seq<Entry>, second: seq<Entry>, schema: Schema) returns (r: Result<Document>)
    ensures first == second ==> (r.Ok? <==> Writable(first, schema))
    ensures r.Ok? ==> Writable(first, schema) && NoDuplicates(r.value.identities)
    ensures r.Ok? ==> r.value.identities == PackAll(first, [], false).value.1
    ensures r.Ok? ==>
              var wires := PackAll(first, [], false).value.0;
              && r.value.group == Select(first, wires, Group)[0] && r.value.footer == Counts(first, wires)
              && r.value.metadata == CompactMetadata(r.value.group, Select(first, wires, Metadata)[0])
    ensures r.Ok? && first == second ==>
              var wires := PackAll(first, [], false).value.0;
              r.value.admins == Select(first, wires, Admins) && r.value.messages == Select(first, wires, Messages)
  {
    hide Accepted, Ordered, PackAll, Select, CompactMetadata;
    var index := new IdentityIndex();
    var indexed := IndexExport(first, index, schema);
    if indexed.Err? {
      return Err(indexed.message);
    }
    var wires := indexed.value.0;
    var groups, footers := Select(first, wires, Group), Select(first, wires, Footer);
    var headers := Select(first, wires, Metadata);
    if groups == [] || headers == [] || footers == [] {
      return Err("Export record stream is missing a header or footer");
    }
    SingleFooter(first, wires);
    if footers[0] != map["messages" := JNum(|Select(first, wires, Messages)|),
                         "admin_events" := JNum(|Select(first, wires, Admins)|), "reactors" := JNum(indexed.value.1)] {
      return Err("Export counts do not match its records");
    }
    index.frozen := true;
    var metadata := CompactMetadata(groups[0], headers[0]);
    var identities := index.snapshots;
    if !schema.record(Group, groups[0]) || !schema.record(Metadata, metadata) || !schema.record(Footer, footers[0]) {
      return Err("Record does not fit its schema");
    }
    if exists i :: 0 <= i < |identities| && !schema.identity(identities[i]) {
      return Err("Record does not fit its schema");
    }
    PackAllStable(first, [], identities);
    var again := PackFrozen(second, index, schema);
    if again.Err? {
      return Err(again.message);
    }
    r := Ok(Document(groups[0], metadata, identities, Select(second, again.value, Admins),
                     Select(second, again.value, Messages), footers[0]));
  }

  lemma {:induction false} SingleFooter(entries: seq<Entry>, wires: seq<Fields>)
    requires Ordered(entries) && |entries| == |wires|
    ensures |Select(entries, wires, Footer)| <= 1
    ensures (forall i :: 0 <= i < |entries| ==> entries[i].section != Footer) ==> Select(entries, wires, Footer) == []
  {
    if entries != [] {
      var n := |entries| - 1;
      SingleFooter(entries[..n], wires[..n]);
      if entries[n].section == Footer {
        assert forall i :: 0 <= i < n ==> entries[..n][i].section != Footer;
      } else {
        assert (forall i :: 0 <= i < |entries| ==> entries[i].section != Footer) ==>
            forall i :: 0 <= i < n ==> entries[..n][i].section != Footer;
      }
    }
  }
}
