/** The allowlists that make a public copy of an export record. */
module PublicProjection {
  import opened Common
  import opened JsonValues
  import opened Pointers
  import opened RemovedFacts

  /** One allowlist: what may stay of a value at one position. */
  datatype Projection =
    | Scalar
    | Boolean
    | Role
    | Names(names: seq<string>)
    | Keys(children: map<string, Projection>)
    | Each(child: Projection)
    | Constructors(cases: map<string, Projection>)
    | ConstructorsOr(cases: map<string, Projection>, otherwise: Projection)
    | ObjectOrScalar(child: Projection)
    | TextOr(otherwise: Projection)
    | ReactorOr(otherwise: Projection)
    | IndexOr(otherwise: Projection)
    | TopReactors
    | Named(name: string)

  type Tables = map<string, Projection>

  /** The named tables refer to each other only below a field, a list slot or a constructor's fields. */
  predicate Guarded(p: Projection) {
    match p
    case Named(_) => false
    case Constructors(cases) => forall name :: name in cases ==> Guarded(cases[name])
    case ConstructorsOr(cases, otherwise) => Guarded(otherwise) && forall name :: name in cases ==> Guarded(cases[name])
    case ObjectOrScalar(child) => Guarded(child)
    case TextOr(otherwise) => Guarded(otherwise)
    case ReactorOr(otherwise) => Guarded(otherwise)
    case IndexOr(otherwise) => Guarded(otherwise)
    case _ => true
  }

  predicate GuardedTables(tables: Tables) {
    forall name :: name in tables ==> Guarded(tables[name])
  }

  predicate IsScalar(j: Json) {
    !j.JObj? && !j.JArr?
  }

  function ScalarOf(j: Json): Json {
    if IsScalar(j) then j else JNull
  }

  /** The constructor name of a Telegram object. */
  function Tag(j: Json): Json {
    if j.JObj? && "_" in j.fields then j.fields["_"] else JNull
  }

  const PEER: Projection := Constructors(map[
    "PeerUser" := Names(["_", "user_id"]),
    "PeerChat" := Names(["_", "chat_id"]),
    "PeerChannel" := Names(["_", "channel_id"])])

  /** Fields that are published when they are scalars. */
  function Scalars(names: seq<string>): (r: map<string, Projection>)
    ensures forall key :: key in r <==> key in names
    ensures forall key :: key in r ==> r[key] == Scalar
  {
    map key | key in names :: Scalar
  }

  const TOP_FIELDS: seq<string> := ["_", "count", "top", "anonymous"]

  lemma PeerIsWellFormed()
    ensures Guarded(PEER) && Tagged(PEER)
  {
  }

  /** A top reactor keeps its peer only when it is explicitly not anonymous. */
  function TopProjection(reactor: Json): (r: map<string, Projection>)
    ensures GuardedTables(r) && forall key :: key in r ==> Tagged(r[key])
  {
    PeerIsWellFormed();
    if reactor.JObj? && "anonymous" in reactor.fields && reactor.fields["anonymous"] == JBool(false)
    then Scalars(TOP_FIELDS)["peer_id" := PEER]
    else Scalars(TOP_FIELDS)
  }

  predicate IsTopReactor(j: Json) {
    j.JObj? && Tag(j) == JStr("MessageReactor") && "top" in j.fields && j.fields["top"] == JBool(true)
  }

  function Flag(b: bool): nat {
    if b then 1 else 2
  }

  function Project(value: Json, p: Projection, tables: Tables): Json
    requires GuardedTables(tables)
    decreases value, Flag(Guarded(p)), p
  {
    if value == JNull then JNull
    else
      match p
      case Scalar => ScalarOf(value)
      case Boolean => if value.JBool? then value else JNull
      case Role => if value in {JStr("owner"), JStr("admin"), JStr("member"), JStr("unknown")} then value else JNull
      case Names(names) =>
        if value.JObj? then
          JObj(map key | key in value.fields && key in names && IsScalar(value.fields[key]) :: value.fields[key])
        else JObj(map[])
      case Keys(children) =>
        if value.JObj? then JObj(ProjectKeys(value, children, tables)) else JObj(map[])
      case Each(child) =>
        if value.JArr? then
          JArr(seq(|value.items|, i requires 0 <= i < |value.items| => Project(value.items[i], child, tables)))
        else JArr([])
      case Constructors(cases) =>
        var tag := Tag(value);
        if tag.JStr? && tag.s in cases then Project(value, cases[tag.s], tables) else JObj(map[])
      case ConstructorsOr(cases, otherwise) =>
        var tag := Tag(value);
        if tag.JStr? && tag.s in cases then Project(value, cases[tag.s], tables) else Project(value, otherwise, tables)
      case ObjectOrScalar(child) => if value.JObj? then Project(value, child, tables) else ScalarOf(value)
      case TextOr(otherwise) => if value.JStr? then value else Project(value, otherwise, tables)
      case ReactorOr(otherwise) =>
        if IsReference(value) then value else Project(value, otherwise, tables)
      case IndexOr(otherwise) => if value.JNum? && value.n >= 0 then value else Project(value, otherwise, tables)
      case TopReactors => if value.JArr? then JArr(ProjectTop(value, tables, |value.items|)) else JArr([])
      case Named(name) => if name in tables then Project(value, tables[name], tables) else JNull
  }

  /** A child that projects to nothing is dropped, unless the original said null. */
  function ProjectKeys(value: Json, children: map<string, Projection>, tables: Tables): (r: Fields)
    requires GuardedTables(tables) && value.JObj?
    ensures forall key :: key in r ==> key in value.fields && key in children
    decreases value, 0
  {
    map key | key in value.fields && key in children
            && (value.fields[key] == JNull || Project(value.fields[key], children[key], tables) != JNull)
      :: Project(value.fields[key], children[key], tables)
  }

  /** The public entries among the first `count` top reactors. */
  function ProjectTop(value: Json, tables: Tables, count: nat): (r: seq<Json>)
    requires GuardedTables(tables) && value.JArr? && count <= |value.items|
    ensures |r| <= count
    decreases value, 0, count
  {
    if count == 0 then []
    else
      var rest := ProjectTop(value, tables, count - 1);
      var reactor := value.items[count - 1];
      if IsTopReactor(reactor) then rest + [JObj(ProjectKeys(reactor, TopProjection(reactor), tables))] else rest
  }

  // ------------------------------------------------------------------ publishing only drops keys

  lemma {:induction false} ProjectOnlyDrops(value: Json, p: Projection, tables: Tables)
    requires GuardedTables(tables)
    ensures OnlyDrops(value, Project(value, p, tables))
    decreases value, Flag(Guarded(p)), p
  {
    hide TopProjection, IsTopReactor, ProjectTop, ProjectKeys;
    if value == JNull { return; }
    match p
    case Names(names) => NamesOnlyDrop(value, names, tables);
    case Keys(children) => if value.JObj? { KeysOnlyDrop(value, children, tables); }
    case Each(child) => EachOnlyDrops(value, child, tables);
    case Constructors(cases) =>
      var tag := Tag(value);
      if tag.JStr? && tag.s in cases { ProjectOnlyDrops(value, cases[tag.s], tables); }
    case ConstructorsOr(cases, otherwise) =>
      var tag := Tag(value);
      if tag.JStr? && tag.s in cases { ProjectOnlyDrops(value, cases[tag.s], tables); }
      else { ProjectOnlyDrops(value, otherwise, tables); }
    case ObjectOrScalar(child) => if value.JObj? { ProjectOnlyDrops(value, child, tables); }
    case TextOr(otherwise) => if !value.JStr? { ProjectOnlyDrops(value, otherwise, tables); }
    case ReactorOr(otherwise) =>
      OnlyDropsItself(value);
      ProjectOnlyDrops(value, otherwise, tables);
    case IndexOr(otherwise) => if !value.JNum? { ProjectOnlyDrops(value, otherwise, tables); }
    case TopReactors => if value.JArr? { TopOnlyDrops(value, tables); }
    case Named(name) => if name in tables { ProjectOnlyDrops(value, tables[name], tables); }
    case _ =>
  }

  lemma NamesOnlyDrop(value: Json, names: seq<string>, tables: Tables)
    requires GuardedTables(tables)
    ensures OnlyDrops(value, Project(value, Names(names), tables))
  {
    if value.JObj? {
      forall key | key in Project(value, Names(names), tables).fields
        ensures OnlyDrops(value.fields[key], value.fields[key])
      {
        OnlyDropsItself(value.fields[key]);
      }
    }
  }

  lemma {:induction false} EachOnlyDrops(value: Json, child: Projection, tables: Tables)
    requires GuardedTables(tables)
    ensures OnlyDrops(value, Project(value, Each(child), tables))
    decreases value, 0
  {
    if value.JArr? {
      forall i | 0 <= i < |value.items| ensures OnlyDrops(value.items[i], Project(value.items[i], child, tables)) {
        ProjectOnlyDrops(value.items[i], child, tables);
      }
    }
  }

  lemma {:induction false} KeysOnlyDrop(value: Json, children: map<string, Projection>, tables: Tables)
    requires GuardedTables(tables) && value.JObj?
    ensures OnlyDrops(value, JObj(ProjectKeys(value, children, tables)))
    decreases value, 0
  {
    var kept := ProjectKeys(value, children, tables);
    forall key | key in kept ensures OnlyDrops(value.fields[key], kept[key]) {
      ProjectOnlyDrops(value.fields[key], children[key], tables);
    }
  }

  lemma {:induction false} OnlyDropsItself(value: Json)
    ensures OnlyDrops(value, value)
  {
    match value
    case JObj(fields) => forall key | key in fields ensures OnlyDrops(fields[key], fields[key]) {
      OnlyDropsItself(fields[key]);
    }
    case JArr(items) => forall i | 0 <= i < |items| ensures OnlyDrops(items[i], items[i]) { OnlyDropsItself(items[i]); }
    case _ =>
  }

  /** Either some top reactor was withheld and the whole list is emitted, or every entry kept its position. */
  lemma {:induction false} TopOnlyDrops(value: Json, tables: Tables)
    requires GuardedTables(tables) && value.JArr?
    ensures OnlyDrops(value, JArr(ProjectTop(value, tables, |value.items|)))
    decreases value, 0
  {
    var kept := ProjectTop(value, tables, |value.items|);
    if |kept| == |value.items| {
      forall i | 0 <= i < |kept| ensures OnlyDrops(value.items[i], kept[i]) {
        TopKeepsPositions(value, tables, |value.items|, i);
        KeysOnlyDrop(value.items[i], TopProjection(value.items[i]), tables);
      }
    }
  }

  lemma {:induction false} TopKeepsPositions(value: Json, tables: Tables, count: nat, i: nat)
    requires GuardedTables(tables) && value.JArr? && i < count <= |value.items|
    requires |ProjectTop(value, tables, count)| == count
    ensures value.items[i].JObj?
    ensures ProjectTop(value, tables, count)[i]
            == JObj(ProjectKeys(value.items[i], TopProjection(value.items[i]), tables))
    decreases count
  {
    hide Project, ProjectKeys, TopProjection;
    if i < count - 1 { TopKeepsPositions(value, tables, count - 1, i); }
  }

  /** Dropping blank facts after the projection is still only dropping keys. */
  lemma {:induction false} OmitOnlyDrops(original: Json, published: Json)
    requires OnlyDrops(original, published)
    ensures OnlyDrops(original, Omit(published))
    decreases published
  {
    if original.JObj? && published.JObj? {
      forall key | key in Omit(published).fields
        ensures key in original.fields && OnlyDrops(original.fields[key], Omit(published).fields[key])
      {
        OmitOnlyDrops(original.fields[key], published.fields[key]);
      }
    } else if original.JArr? && published.JArr? && |original.items| == |published.items| {
      forall i | 0 <= i < |original.items| ensures OnlyDrops(original.items[i], Omit(published).items[i]) {
        OmitOnlyDrops(original.items[i], published.items[i]);
      }
    }
  }

  // ------------------------------------------------------------------ what a public value may look like

  /** The allowlist read as a grammar: the public values of one position. */
  predicate Conforms(value: Json, p: Projection, tables: Tables)
    requires GuardedTables(tables)
    decreases value, Flag(Guarded(p)), p
  {
    value == JNull ||
    match p
    case Scalar => IsScalar(value)
    case Boolean => value.JBool?
    case Role => value in {JStr("owner"), JStr("admin"), JStr("member"), JStr("unknown")}
    case Names(names) =>
      value.JObj? && forall key :: key in value.fields ==> key in names && IsScalar(value.fields[key])
    case Keys(children) => KeysConform(value, children, tables)
    case Each(child) => value.JArr? && forall i :: 0 <= i < |value.items| ==> Conforms(value.items[i], child, tables)
    case Constructors(cases) =>
      value == JObj(map[]) || (Tag(value).JStr? && Tag(value).s in cases
                               && Conforms(value, cases[Tag(value).s], tables))
    case ConstructorsOr(cases, otherwise) =>
      if Tag(value).JStr? && Tag(value).s in cases then Conforms(value, cases[Tag(value).s], tables)
      else Conforms(value, otherwise, tables)
    case ObjectOrScalar(child) => IsScalar(value) || (value.JObj? && Conforms(value, child, tables))
    case TextOr(otherwise) => value.JStr? || Conforms(value, otherwise, tables)
    case ReactorOr(otherwise) => IsReference(value) || Conforms(value, otherwise, tables)
    case IndexOr(otherwise) => (value.JNum? && value.n >= 0) || Conforms(value, otherwise, tables)
    case TopReactors =>
      value.JArr? && forall i :: 0 <= i < |value.items| ==> TopConforms(value.items[i], tables)
    case Named(name) => name in tables && Conforms(value, tables[name], tables)
  }

  predicate TopConforms(reactor: Json, tables: Tables)
    requires GuardedTables(tables)
    decreases reactor, 1
  {
    IsTopReactor(reactor) && KeysConform(reactor, TopProjection(reactor), tables)
  }

  predicate KeysConform(value: Json, children: map<string, Projection>, tables: Tables)
    requires GuardedTables(tables)
    decreases value, 0
  {
    value.JObj? && forall key :: key in value.fields ==>
      key in children && Conforms(value.fields[key], children[key], tables)
  }

  /** A reactor given by its position in the record's reactor list. */
  predicate IsReference(value: Json) {
    value.JObj? && value.fields.Keys == {"reactor"} && value.fields["reactor"].JNum? && value.fields["reactor"].n >= 0
  }

  /** A constructor's allowlist keeps the constructor's name. */
  predicate KeepsTag(p: Projection) {
    match p
    case Names(names) => "_" in names
    case Keys(children) => "_" in children && children["_"] == Scalar
    case _ => false
  }

  predicate Tagged(p: Projection) {
    match p
    case Keys(children) => forall key :: key in children ==> Tagged(children[key])
    case Each(child) => Tagged(child)
    case Constructors(cases) => forall name :: name in cases ==> KeepsTag(cases[name]) && Tagged(cases[name])
    case ConstructorsOr(cases, otherwise) =>
      KeepsTag(otherwise) && Tagged(otherwise) && forall name :: name in cases ==>
        KeepsTag(cases[name]) && Tagged(cases[name])
    case ObjectOrScalar(child) => (child.Keys? || child.Names?) && Tagged(child)
    case TextOr(otherwise) => Tagged(otherwise)
    case ReactorOr(otherwise) => Tagged(otherwise)
    case IndexOr(otherwise) => Tagged(otherwise)
    case _ => true
  }

  ghost predicate TaggedTables(tables: Tables) {
    GuardedTables(tables) && forall name :: name in tables ==> Tagged(tables[name])
  }

  /** A value is published unchanged when it already conforms. */
  lemma {:induction false} ConformingIsUnchanged(value: Json, p: Projection, tables: Tables)
    requires GuardedTables(tables) && Conforms(value, p, tables)
    ensures Project(value, p, tables) == value
    decreases value, Flag(Guarded(p)), p
  {
    if value == JNull { return; }
    match p
    case Names(names) => assert Project(value, p, tables).fields == value.fields;
    case Keys(children) => KeysUnchanged(value, children, tables);
    case Each(child) =>
      forall i | 0 <= i < |value.items| ensures Project(value.items[i], child, tables) == value.items[i] {
        ConformingIsUnchanged(value.items[i], child, tables);
      }
      assert Project(value, p, tables).items == value.items;
    case Constructors(cases) => if value != JObj(map[]) { ConformingIsUnchanged(value, cases[Tag(value).s], tables); }
    case ConstructorsOr(cases, otherwise) =>
      if Tag(value).JStr? && Tag(value).s in cases { ConformingIsUnchanged(value, cases[Tag(value).s], tables); }
      else { ConformingIsUnchanged(value, otherwise, tables); }
    case ObjectOrScalar(child) => if value.JObj? { ConformingIsUnchanged(value, child, tables); }
    case TextOr(otherwise) => if !value.JStr? { ConformingIsUnchanged(value, otherwise, tables); }
    case ReactorOr(otherwise) => if !IsReference(value) { ConformingIsUnchanged(value, otherwise, tables); }
    case IndexOr(otherwise) => if !(value.JNum? && value.n >= 0) { ConformingIsUnchanged(value, otherwise, tables); }
    case TopReactors => TopUnchanged(value, tables, |value.items|);
    case Named(name) => ConformingIsUnchanged(value, tables[name], tables);
    case _ =>
  }

  lemma {:induction false} KeysUnchanged(value: Json, children: map<string, Projection>, tables: Tables)
    requires GuardedTables(tables) && KeysConform(value, children, tables)
    ensures ProjectKeys(value, children, tables) == value.fields
    decreases value, 0
  {
    forall key | key in value.fields ensures Project(value.fields[key], children[key], tables) == value.fields[key] {
      ConformingIsUnchanged(value.fields[key], children[key], tables);
    }
    assert ProjectKeys(value, children, tables).Keys == value.fields.Keys;
  }

  lemma TopIsObject(reactor: Json)
    requires IsTopReactor(reactor)
    ensures reactor.JObj?
  {
  }

  lemma {:induction false} TopUnchanged(value: Json, tables: Tables, count: nat)
    requires GuardedTables(tables) && value.JArr? && count <= |value.items|
    requires forall i :: 0 <= i < count ==> TopConforms(value.items[i], tables)
    ensures ProjectTop(value, tables, count) == value.items[..count]
    decreases value, 0, count
  {
    hide Conforms, Project, KeysConform, ProjectKeys, TopProjection, IsTopReactor;
    if count > 0 {
      TopUnchanged(value, tables, count - 1);
      var reactor := value.items[count - 1];
      KeysUnchanged(reactor, TopProjection(reactor), tables);
      assert JObj(reactor.fields) == reactor by { TopIsObject(reactor); }
      assert value.items[..count] == value.items[..count - 1] + [reactor];
    }
  }

  /** Whatever the source says, only values of the allowlist come out. */
  lemma {:induction false} ProjectionConforms(value: Json, p: Projection, tables: Tables)
    requires TaggedTables(tables) && Tagged(p)
    ensures Conforms(Project(value, p, tables), p, tables)
    decreases value, Flag(Guarded(p)), p, 1
  {
    hide TopProjection, IsTopReactor, TopConforms, ProjectTop, ProjectKeys, KeysConform, KeepsTag;
    if value == JNull { return; }
    match p
    case Keys(children) =>
      if value.JObj? { KeysProjectionConforms(value, children, tables); } else { EmptyConforms(children, tables); }
    case Names(names) => NamesConform(value, names, tables);
    case Each(child) => EachConforms(value, child, tables);
    case Constructors(cases) => ConstructorsConform(value, p, tables);
    case ConstructorsOr(cases, otherwise) => ConstructorsConform(value, p, tables);
    case ObjectOrScalar(child) => if value.JObj? { ProjectionConforms(value, child, tables); }
    case TextOr(otherwise) => if !value.JStr? { ProjectionConforms(value, otherwise, tables); }
    case ReactorOr(otherwise) => if !IsReference(value) { ProjectionConforms(value, otherwise, tables); }
    case IndexOr(otherwise) => if !(value.JNum? && value.n >= 0) { ProjectionConforms(value, otherwise, tables); }
    case TopReactors => TopListConforms(value, tables);
    case Named(name) => if name in tables { ProjectionConforms(value, tables[name], tables); }
    case _ =>
  }

  lemma {:induction false} ConstructorsConform(value: Json, p: Projection, tables: Tables)
    requires TaggedTables(tables) && Tagged(p) && (p.Constructors? || p.ConstructorsOr?)
    ensures Conforms(Project(value, p, tables), p, tables)
    decreases value, Flag(Guarded(p)), p, 0
  {
    hide TopProjection, IsTopReactor, TopConforms, ProjectTop, ProjectKeys, KeysConform, KeepsTag;
    var tag := Tag(value);
    if tag.JStr? && tag.s in p.cases {
      TaggedConforms(value, p.cases[tag.s], tables);
    } else if p.ConstructorsOr? {
      TaggedConforms(value, p.otherwise, tables);
    }
  }

  lemma NamesConform(value: Json, names: seq<string>, tables: Tables)
    requires TaggedTables(tables)
    ensures Conforms(Project(value, Names(names), tables), Names(names), tables)
  {
  }

  lemma {:induction false} EachConforms(value: Json, child: Projection, tables: Tables)
    requires TaggedTables(tables) && Tagged(child)
    ensures Conforms(Project(value, Each(child), tables), Each(child), tables)
    decreases value, 0
  {
    if value.JArr? {
      forall i | 0 <= i < |value.items| ensures Conforms(Project(value.items[i], child, tables), child, tables) {
        ProjectionConforms(value.items[i], child, tables);
      }
    }
  }

  lemma {:induction false} TopListConforms(value: Json, tables: Tables)
    requires TaggedTables(tables)
    ensures Conforms(Project(value, TopReactors, tables), TopReactors, tables)
    decreases value, 0
  {
    hide TopConforms, ProjectTop;
    if value.JArr? { TopProjectionConforms(value, tables, |value.items|); }
  }

  /** The projection of a constructor's fields keeps what says which constructor it is. */
  lemma {:induction false} TaggedConforms(value: Json, p: Projection, tables: Tables)
    requires TaggedTables(tables) && Tagged(p) && KeepsTag(p)
    ensures Conforms(Project(value, p, tables), p, tables)
    ensures Tag(value).JStr? ==> Tag(Project(value, p, tables)) == Tag(value)
    ensures !Tag(value).JStr? ==> !Tag(Project(value, p, tables)).JStr?
    decreases value, Flag(Guarded(p)), p, 2
  {
    hide Conforms, Project;
    ProjectionConforms(value, p, tables);
    TagSurvives(value, p, tables);
  }

  lemma EmptyConforms(children: map<string, Projection>, tables: Tables)
    requires GuardedTables(tables)
    ensures Conforms(JObj(map[]), Keys(children), tables)
  {
  }

  lemma {:induction false} KeysProjectionConforms(value: Json, children: map<string, Projection>, tables: Tables)
    requires TaggedTables(tables) && value.JObj? && forall key :: key in children ==> Tagged(children[key])
    ensures KeysConform(JObj(ProjectKeys(value, children, tables)), children, tables)
    ensures Conforms(JObj(ProjectKeys(value, children, tables)), Keys(children), tables)
    decreases value, 0
  {
    var kept := ProjectKeys(value, children, tables);
    forall key | key in kept ensures Conforms(kept[key], children[key], tables) {
      ProjectionConforms(value.fields[key], children[key], tables);
    }
  }

  /** A text tag stays, and no other tag becomes one. */
  lemma TagSurvives(value: Json, p: Projection, tables: Tables)
    requires GuardedTables(tables) && KeepsTag(p)
    ensures Tag(value).JStr? ==> Tag(Project(value, p, tables)) == Tag(value)
    ensures !Tag(value).JStr? ==> !Tag(Project(value, p, tables)).JStr?
  {
    hide TopProjection, ProjectTop, IsTopReactor;
    if p.Keys? && value.JObj? && "_" in value.fields { ScalarKey(value, p.children, tables, "_"); }
  }

  /** A field allowed as a scalar is kept as it is, or dropped when it is a container. */
  lemma ScalarKey(value: Json, children: map<string, Projection>, tables: Tables, key: string)
    requires GuardedTables(tables) && value.JObj? && key in value.fields && key in children && children[key] == Scalar
    ensures IsScalar(value.fields[key]) ==>
              key in ProjectKeys(value, children, tables)
                && ProjectKeys(value, children, tables)[key] == value.fields[key]
    ensures !IsScalar(value.fields[key]) ==> key !in ProjectKeys(value, children, tables)
  {
  }

  /** A public top reactor is still one, and as anonymous as it was. */
  lemma TopStaysTop(reactor: Json, tables: Tables)
    requires GuardedTables(tables) && IsTopReactor(reactor)
    ensures var kept := JObj(ProjectKeys(reactor, TopProjection(reactor), tables));
            IsTopReactor(kept) && TopProjection(kept) == TopProjection(reactor)
  {
    var children := TopProjection(reactor);
    hide Project, ProjectKeys;
    ScalarKey(reactor, children, tables, "_");
    ScalarKey(reactor, children, tables, "top");
    var kept := ProjectKeys(reactor, children, tables);
    if "anonymous" in reactor.fields { ScalarKey(reactor, children, tables, "anonymous"); }
    assert "anonymous" in kept ==> "anonymous" in reactor.fields;
  }

  lemma {:induction false} TopProjectionConforms(value: Json, tables: Tables, count: nat)
    requires TaggedTables(tables) && value.JArr? && count <= |value.items|
    ensures forall i :: 0 <= i < |ProjectTop(value, tables, count)| ==>
              TopConforms(ProjectTop(value, tables, count)[i], tables)
    decreases value, 0, count
  {
    hide Project, ProjectKeys, TopProjection, Conforms, KeysConform, IsTopReactor, TopConforms;
    if count > 0 {
      TopProjectionConforms(value, tables, count - 1);
      if IsTopReactor(value.items[count - 1]) { TopReactorConforms(value.items[count - 1], tables); }
    }
  }

  lemma {:induction false} TopReactorConforms(reactor: Json, tables: Tables)
    requires TaggedTables(tables) && IsTopReactor(reactor)
    ensures TopConforms(JObj(ProjectKeys(reactor, TopProjection(reactor), tables)), tables)
    decreases reactor, 1
  {
    hide Project, ProjectKeys, TopProjection, KeysConform;
    KeysProjectionConforms(reactor, TopProjection(reactor), tables);
    TopStaysTop(reactor, tables);
  }

  /** The allowlist and its grammar agree: exactly the conforming values are published as they are. */
  lemma UnchangedExactlyWhenConforming(value: Json, p: Projection, tables: Tables)
    requires TaggedTables(tables) && Tagged(p)
    ensures Project(value, p, tables) == value <==> Conforms(value, p, tables)
  {
    hide Project, Conforms, Tagged;
    ProjectionConforms(value, p, tables);
    if Conforms(value, p, tables) { ConformingIsUnchanged(value, p, tables); }
  }

  /** The removed-facts list is empty exactly for the values of the allowlist. */
  lemma NothingRemovedExactlyWhenConforming(value: Json, p: Projection, tables: Tables, path: Path, order: KeyOrder)
    requires TaggedTables(tables) && Tagged(p) && IsKeyOrder(order)
    ensures Removed(value, Project(value, p, tables), path, order) == [] <==> Conforms(value, p, tables)
  {
    ProjectOnlyDrops(value, p, tables);
    UnchangedExactlyWhenConforming(value, p, tables);
    NothingRemovedExactlyWhenUnchanged(value, Project(value, p, tables), path, order);
  }

  /** Publishing a public value again changes nothing. */
  lemma ProjectTwiceIsProjectOnce(value: Json, p: Projection, tables: Tables)
    requires TaggedTables(tables) && Tagged(p)
    ensures Project(Project(value, p, tables), p, tables) == Project(value, p, tables)
  {
    ProjectionConforms(value, p, tables);
    ConformingIsUnchanged(Project(value, p, tables), p, tables);
  }

  // ------------------------------------------------------------------ nothing allowed is withheld

  /** A copy that only leaves out object keys, and keeps what tells the kinds of objects apart. */
  predicate Within(copy: Json, value: Json) {
    if copy.JObj? && value.JObj? then
      && ("_" in value.fields ==> "_" in copy.fields) && (IsReference(copy) ==> copy == value)
      && forall key :: key in copy.fields ==> key in value.fields && Within(copy.fields[key], value.fields[key])
    else if copy.JArr? && value.JArr? then
      |copy.items| == |value.items| && forall i :: 0 <= i < |copy.items| ==> Within(copy.items[i], value.items[i])
    else copy == value
  }

  /** The projection is the largest public copy: every conforming copy of the value lies within it. */
  lemma {:induction false} ProjectionKeepsAllAllowed(copy: Json, value: Json, p: Projection, tables: Tables)
    requires GuardedTables(tables) && Conforms(copy, p, tables) && Within(copy, value)
    ensures Within(copy, Project(value, p, tables))
    decreases copy, Flag(Guarded(p)), p
  {
    hide IsTopReactor, TopProjection, TopConforms, ProjectTop, ProjectKeys, KeysConform;
    if value == JNull || copy == JNull { return; }
    match p
    case Names(names) => NamesKept(copy, value, names, tables);
    case Keys(children) => KeysAreObject(copy, children, tables); KeysKept(copy, value, children, tables);
    case Each(child) =>
      forall i | 0 <= i < |copy.items| ensures Within(copy.items[i], Project(value.items[i], child, tables)) {
        ProjectionKeepsAllAllowed(copy.items[i], value.items[i], child, tables);
      }
    case Constructors(cases) =>
      if copy != JObj(map[]) {
        SameTag(copy, value);
        ProjectionKeepsAllAllowed(copy, value, cases[Tag(copy).s], tables);
      } else {
        EmptyKept(value, p, tables);
      }
    case ConstructorsOr(cases, otherwise) =>
      if copy.JObj? && value.JObj? { SameTag(copy, value); }
      if Tag(copy).JStr? && Tag(copy).s in cases { ProjectionKeepsAllAllowed(copy, value, cases[Tag(copy).s], tables); }
      else { ProjectionKeepsAllAllowed(copy, value, otherwise, tables); }
    case ObjectOrScalar(child) => if copy.JObj? { ProjectionKeepsAllAllowed(copy, value, child, tables); }
    case TextOr(otherwise) => if !copy.JStr? { ProjectionKeepsAllAllowed(copy, value, otherwise, tables); }
    case ReactorOr(otherwise) => if !IsReference(value) { ProjectionKeepsAllAllowed(copy, value, otherwise, tables); }
    case IndexOr(otherwise) =>
      if !(copy.JNum? && copy.n >= 0) { ProjectionKeepsAllAllowed(copy, value, otherwise, tables); }
    case TopReactors => TopKept(copy, value, tables);
    case Named(name) => ProjectionKeepsAllAllowed(copy, value, tables[name], tables);
    case _ =>
  }

  lemma KeysAreObject(value: Json, children: map<string, Projection>, tables: Tables)
    requires GuardedTables(tables) && Conforms(value, Keys(children), tables) && value != JNull
    ensures KeysConform(value, children, tables) && value.JObj?
  {
  }

  lemma SameTag(copy: Json, value: Json)
    requires copy.JObj? && value.JObj? && Within(copy, value)
    ensures Tag(copy).JStr? || Tag(value).JStr? ==> Tag(copy) == Tag(value)
  {
  }

  lemma EmptyKept(value: Json, p: Projection, tables: Tables)
    requires GuardedTables(tables) && Within(JObj(map[]), value)
    ensures p.Constructors? ==> Within(JObj(map[]), Project(value, p, tables))
  {
  }

  lemma NamesKept(copy: Json, value: Json, names: seq<string>, tables: Tables)
    requires GuardedTables(tables) && Conforms(copy, Names(names), tables) && Within(copy, value) && copy != JNull
    ensures Within(copy, Project(value, Names(names), tables))
  {
  }

  lemma {:induction false} KeysKept(copy: Json, value: Json, children: map<string, Projection>, tables: Tables)
    requires GuardedTables(tables) && KeysConform(copy, children, tables) && Within(copy, value)
    ensures value.JObj? && Within(copy, JObj(ProjectKeys(value, children, tables)))
    decreases copy, 0
  {
    var kept := ProjectKeys(value, children, tables);
    forall key | key in copy.fields ensures key in kept && Within(copy.fields[key], kept[key]) {
      ProjectionKeepsAllAllowed(copy.fields[key], value.fields[key], children[key], tables);
      assert copy.fields[key] == JNull ==> value.fields[key] == JNull;
    }
  }

  lemma {:induction false} AllTopKept(value: Json, tables: Tables, count: nat)
    requires GuardedTables(tables) && value.JArr? && count <= |value.items|
    requires forall i :: 0 <= i < count ==> IsTopReactor(value.items[i])
    ensures |ProjectTop(value, tables, count)| == count
    decreases count
  {
    hide IsTopReactor, TopProjection, ProjectKeys;
    if count > 0 { AllTopKept(value, tables, count - 1); }
  }

  /** Scalar facts of a copy are those of the original. */
  lemma ScalarFact(copy: Json, value: Json, key: string)
    requires copy.JObj? && Within(copy, value) && key in copy.fields && IsScalar(copy.fields[key])
    ensures value.JObj? && key in value.fields && value.fields[key] == copy.fields[key]
  {
  }

  lemma TopCopyIsTop(copy: Json, value: Json)
    requires IsTopReactor(copy) && Within(copy, value)
    ensures IsTopReactor(value)
    ensures forall key :: key in TopProjection(copy) ==>
              key in TopProjection(value) && TopProjection(value)[key] == TopProjection(copy)[key]
  {
    hide Within, Scalars;
    ScalarFact(copy, value, "_");
    ScalarFact(copy, value, "top");
    if "anonymous" in copy.fields && copy.fields["anonymous"] == JBool(false) { ScalarFact(copy, value, "anonymous"); }
  }

  /** A copy of a top reactor is as public as the original, or less. */
  lemma TopCopy(copy: Json, value: Json, tables: Tables)
    requires GuardedTables(tables) && TopConforms(copy, tables) && Within(copy, value)
    ensures IsTopReactor(value) && KeysConform(copy, TopProjection(value), tables)
  {
    hide IsTopReactor, TopProjection, Within, Conforms;
    TopCopyIsTop(copy, value);
  }

  lemma {:induction false} TopKept(copy: Json, value: Json, tables: Tables)
    requires GuardedTables(tables) && Conforms(copy, TopReactors, tables) && Within(copy, value) && copy != JNull
    ensures Within(copy, Project(value, TopReactors, tables))
    decreases copy, 0
  {
    hide IsTopReactor, TopProjection, TopConforms, KeysConform, ProjectKeys;
    var n := |copy.items|;
    forall i | 0 <= i < n ensures IsTopReactor(value.items[i]) { TopCopy(copy.items[i], value.items[i], tables); }
    AllTopKept(value, tables, n);
    var kept := ProjectTop(value, tables, n);
    forall i | 0 <= i < n ensures Within(copy.items[i], kept[i]) {
      TopCopy(copy.items[i], value.items[i], tables);
      KeysKept(copy.items[i], value.items[i], TopProjection(value.items[i]), tables);
      TopKeepsPositions(value, tables, n, i);
    }
    assert Project(value, TopReactors, tables) == JArr(kept);
  }

  // ------------------------------------------------------------------ the sparse form of a public value

  lemma OmitKeepsTag(value: Json)
    ensures Tag(value).JStr? || Tag(Omit(value)).JStr? ==> Tag(Omit(value)) == Tag(value)
  {
  }

  lemma OmitKeepsReference(value: Json)
    requires IsReference(value)
    ensures Omit(value) == value
  {
    assert Omit(value).fields == value.fields;
  }

  /** Dropping blank facts of a public value leaves a public value. */
  lemma {:induction false} OmitConforms(value: Json, p: Projection, tables: Tables)
    requires GuardedTables(tables) && Conforms(value, p, tables)
    ensures Conforms(Omit(value), p, tables)
    decreases value, Flag(Guarded(p)), p
  {
    hide Omit, TopConforms, IsTopReactor, TopProjection, KeysConform;
    if value == JNull || IsScalar(value) {
      OmitKeepsScalar(value);
      return;
    }
    match p
    case Names(names) => NamesOmit(value, names, tables);
    case Keys(children) => KeysAreObject(value, children, tables); KeysOmit(value, children, tables);
    case Each(child) => EachOmit(value, child, tables);
    case Constructors(cases) =>
      if value != JObj(map[]) {
        OmitKeepsTag(value);
        OmitConforms(value, cases[Tag(value).s], tables);
      } else {
        EmptyIsSparse();
      }
    case ConstructorsOr(cases, otherwise) =>
      OmitKeepsTag(value);
      OmitConforms(value, if Tag(value).JStr? && Tag(value).s in cases then cases[Tag(value).s] else otherwise, tables);
    case ObjectOrScalar(child) =>
      OmitConforms(value, child, tables);
      OmitKeepsKind(value);
    case TextOr(otherwise) => OmitConforms(value, otherwise, tables);
    case ReactorOr(otherwise) =>
      if IsReference(value) { OmitKeepsReference(value); } else { OmitConforms(value, otherwise, tables); }
    case IndexOr(otherwise) => OmitConforms(value, otherwise, tables);
    case TopReactors => TopOmit(value, tables);
    case Named(name) => OmitConforms(value, tables[name], tables);
    case _ =>
  }

  lemma OmitKeepsScalar(value: Json)
    requires IsScalar(value)
    ensures Omit(value) == value
  {
  }

  lemma OmitKeepsKind(value: Json)
    ensures value.JObj? <==> Omit(value).JObj?
  {
  }

  lemma EmptyIsSparse()
    ensures Omit(JObj(map[])) == JObj(map[])
  {
    assert Omit(JObj(map[])).fields == map[];
  }

  lemma NamesOmit(value: Json, names: seq<string>, tables: Tables)
    requires GuardedTables(tables) && Conforms(value, Names(names), tables)
    ensures Conforms(Omit(value), Names(names), tables)
  {
  }

  lemma {:induction false} EachOmit(value: Json, child: Projection, tables: Tables)
    requires GuardedTables(tables) && Conforms(value, Each(child), tables)
    ensures Conforms(Omit(value), Each(child), tables)
    decreases value, 0
  {
    if value.JArr? {
      forall i | 0 <= i < |value.items| ensures Conforms(Omit(value.items[i]), child, tables) {
        OmitConforms(value.items[i], child, tables);
      }
    }
  }

  lemma {:induction false} KeysOmit(value: Json, children: map<string, Projection>, tables: Tables)
    requires GuardedTables(tables) && KeysConform(value, children, tables)
    ensures KeysConform(Omit(value), children, tables) && Conforms(Omit(value), Keys(children), tables)
    decreases value, 0
  {
    forall key | key in Omit(value).fields ensures Conforms(Omit(value).fields[key], children[key], tables) {
      OmitConforms(value.fields[key], children[key], tables);
    }
  }

  lemma {:induction false} TopOmit(value: Json, tables: Tables)
    requires GuardedTables(tables) && Conforms(value, TopReactors, tables)
    ensures Conforms(Omit(value), TopReactors, tables)
    decreases value, 0
  {
    hide KeysConform, IsTopReactor, TopProjection, TopConforms;
    if value.JArr? {
      forall i | 0 <= i < |value.items| ensures TopConforms(Omit(value.items[i]), tables) {
        assert TopConforms(value.items[i], tables);
        TopReactorOmit(value.items[i], tables);
      }
    }
  }

  lemma {:induction false} TopReactorOmit(reactor: Json, tables: Tables)
    requires GuardedTables(tables) && TopConforms(reactor, tables)
    ensures TopConforms(Omit(reactor), tables)
    decreases reactor, 1
  {
    hide KeysConform, Conforms;
    OmitKeepsTop(reactor);
    KeysOmit(reactor, TopProjection(reactor), tables);
  }

  lemma OmitKeepsTop(reactor: Json)
    requires IsTopReactor(reactor)
    ensures IsTopReactor(Omit(reactor)) && TopProjection(Omit(reactor)) == TopProjection(reactor)
  {
    hide Omit, Scalars;
    OmittedKey(reactor, "_");
    OmittedKey(reactor, "top");
    OmittedKey(reactor, "anonymous");
  }

  lemma OmittedKey(value: Json, key: string)
    requires value.JObj?
    ensures Omit(value).JObj?
    ensures var sparse := Omit(value).fields;
            && (key in sparse ==> key in value.fields && sparse[key] == Omit(value.fields[key]))
            && (key in value.fields && (value.fields[key].JBool? || value.fields[key].JStr?) ==>
                  key in sparse && sparse[key] == value.fields[key])
            && (key in sparse && (sparse[key].JBool? || sparse[key].JStr?) ==> sparse[key] == value.fields[key])
  {
  }

  lemma {:induction false} WithinIsPart(copy: Json, value: Json)
    requires Within(copy, value)
    ensures PartOf(copy, value)
  {
    if copy.JObj? && value.JObj? {
      forall key | key in copy.fields ensures PartOf(copy.fields[key], value.fields[key]) {
        WithinIsPart(copy.fields[key], value.fields[key]);
      }
    } else if copy.JArr? && value.JArr? {
      forall i | 0 <= i < |copy.items| ensures PartOf(copy.items[i], value.items[i]) {
        WithinIsPart(copy.items[i], value.items[i]);
      }
    }
  }

  // ------------------------------------------------------------------ nothing is made up

  /** Every fact shown is the original's fact at that place, or says nothing; list items may be withheld. */
  ghost predicate TakenFrom(shown: Json, original: Json)
    decreases shown, 0
  {
    || SaysNothing(shown)
    || if shown.JObj? && original.JObj? then
         forall key :: key in shown.fields ==>
           key in original.fields && TakenFrom(shown.fields[key], original.fields[key])
       else if shown.JArr? && original.JArr? then
         if |shown.items| == |original.items| then
           forall i :: 0 <= i < |shown.items| ==> TakenFrom(shown.items[i], original.items[i])
         else forall i :: 0 <= i < |shown.items| ==> TakenFromSome(shown.items[i], original.items)
       else shown == original
  }

  ghost predicate TakenFromSome(shown: Json, originals: seq<Json>)
    decreases shown, 1
  {
    exists j :: 0 <= j < |originals| && TakenFrom(shown, originals[j])
  }

  lemma {:induction false} TakenFromItself(value: Json)
    ensures TakenFrom(value, value)
  {
    match value
    case JObj(fields) => forall key | key in fields ensures TakenFrom(fields[key], fields[key]) {
      TakenFromItself(fields[key]);
    }
    case JArr(items) => forall i | 0 <= i < |items| ensures TakenFrom(items[i], items[i]) { TakenFromItself(items[i]); }
    case _ =>
  }

  lemma {:induction false} ProjectTakenFrom(value: Json, p: Projection, tables: Tables)
    requires GuardedTables(tables)
    ensures TakenFrom(Project(value, p, tables), value)
    decreases value, Flag(Guarded(p)), p
  {
    hide TopProjection, IsTopReactor, ProjectTop, ProjectKeys, TakenFrom;
    if value == JNull || Project(value, p, tables) == value {
      TakenFromItself(value);
      return;
    }
    NothingTakenFrom(value);
    match p
    case Names(names) => NamesTakenFrom(value, names, tables);
    case Keys(children) => if value.JObj? { KeysTakenFrom(value, children, tables); }
    case Each(child) => EachTakenFrom(value, child, tables);
    case Constructors(cases) =>
      if Tag(value).JStr? && Tag(value).s in cases { ProjectTakenFrom(value, cases[Tag(value).s], tables); }
    case ConstructorsOr(cases, otherwise) =>
      ProjectTakenFrom(value, if Tag(value).JStr? && Tag(value).s in cases then cases[Tag(value).s] else otherwise,
                       tables);
    case ObjectOrScalar(child) => if value.JObj? { ProjectTakenFrom(value, child, tables); }
    case TextOr(otherwise) => ProjectTakenFrom(value, otherwise, tables);
    case ReactorOr(otherwise) => ProjectTakenFrom(value, otherwise, tables);
    case IndexOr(otherwise) => ProjectTakenFrom(value, otherwise, tables);
    case TopReactors => if value.JArr? { TopTakenFrom(value, tables); }
    case Named(name) => if name in tables { ProjectTakenFrom(value, tables[name], tables); }
    case _ =>
  }

  lemma NothingTakenFrom(value: Json)
    ensures TakenFrom(JNull, value) && TakenFrom(JObj(map[]), value) && TakenFrom(JArr([]), value)
  {
  }

  lemma NamesTakenFrom(value: Json, names: seq<string>, tables: Tables)
    requires GuardedTables(tables)
    ensures TakenFrom(Project(value, Names(names), tables), value)
  {
    if value.JObj? {
      forall key | key in Project(value, Names(names), tables).fields
        ensures TakenFrom(value.fields[key], value.fields[key])
      {
        TakenFromItself(value.fields[key]);
      }
    }
  }

  lemma {:induction false} EachTakenFrom(value: Json, child: Projection, tables: Tables)
    requires GuardedTables(tables)
    ensures TakenFrom(Project(value, Each(child), tables), value)
    decreases value, 0
  {
    if value.JArr? {
      forall i | 0 <= i < |value.items| ensures TakenFrom(Project(value.items[i], child, tables), value.items[i]) {
        ProjectTakenFrom(value.items[i], child, tables);
      }
    }
  }

  lemma {:induction false} KeysTakenFrom(value: Json, children: map<string, Projection>, tables: Tables)
    requires GuardedTables(tables) && value.JObj?
    ensures TakenFrom(JObj(ProjectKeys(value, children, tables)), value)
    decreases value, 0
  {
    var kept := ProjectKeys(value, children, tables);
    forall key | key in kept ensures TakenFrom(kept[key], value.fields[key]) {
      ProjectTakenFrom(value.fields[key], children[key], tables);
    }
  }

  lemma TopMeans(reactor: Json)
    ensures IsTopReactor(reactor)
            <==> && reactor.JObj?
                 && "_" in reactor.fields && reactor.fields["_"] == JStr("MessageReactor")
                 && "top" in reactor.fields && reactor.fields["top"] == JBool(true)
  {
  }

  /** The positions of the top reactors among the first `count` items. */
  ghost function TopAt(items: seq<Json>, count: nat): (at: seq<nat>)
    requires count <= |items|
    ensures forall i, j :: 0 <= i < j < |at| ==> at[i] < at[j]
    ensures forall k :: 0 <= k < |at| ==> at[k] < count
    ensures forall i :: i in at <==> 0 <= i < count && IsTopReactor(items[i])
  {
    if count == 0 then []
    else if IsTopReactor(items[count - 1]) then TopAt(items, count - 1) + [count - 1]
    else TopAt(items, count - 1)
  }

  lemma {:induction false} TopPositions(value: Json, tables: Tables, count: nat)
    requires GuardedTables(tables) && value.JArr? && count <= |value.items|
    ensures var at := TopAt(value.items, count);
            && |at| == |ProjectTop(value, tables, count)|
            && forall k :: 0 <= k < |at| ==>
                 && value.items[at[k]].JObj?
                 && ProjectTop(value, tables, count)[k]
                    == JObj(ProjectKeys(value.items[at[k]], TopProjection(value.items[at[k]]), tables))
    decreases count
  {
    hide Project, ProjectKeys, TopProjection, IsTopReactor;
    if count > 0 {
      TopPositions(value, tables, count - 1);
      TopMeans(value.items[count - 1]);
    }
  }

  /** A reaction given by a reactor's position is shown as it is, whatever the allowlist says. */
  lemma PositionsAreShown(n: int, otherwise: Projection, tables: Tables)
    requires GuardedTables(tables)
    ensures var reference := JObj(map["reactor" := JNum(n)]);
            && (n >= 0 ==> Project(reference, ReactorOr(otherwise), tables) == reference)
            && (n < 0 ==> Project(reference, ReactorOr(otherwise), tables) == Project(reference, otherwise, tables))
  {
    hide Guarded, GuardedTables, ProjectTop, ProjectKeys, TopProjection;
    assert IsReference(JObj(map["reactor" := JNum(n)])) <==> n >= 0 by {
      assert JObj(map["reactor" := JNum(n)]).fields.Keys == {"reactor"};
    }
  }

  /** So is the number of an identity. */
  lemma IndexesAreShown(n: int, otherwise: Projection, tables: Tables)
    requires GuardedTables(tables)
    ensures n >= 0 ==> Project(JNum(n), IndexOr(otherwise), tables) == JNum(n)
    ensures n < 0 ==> Project(JNum(n), IndexOr(otherwise), tables) == Project(JNum(n), otherwise, tables)
  {
  }

  /** The published top reactors are the top reactors, in order, each cut down to its own allowlist. */
  lemma TopListIsTheTopOnes(value: Json, tables: Tables) returns (at: seq<nat>)
    requires GuardedTables(tables) && value.JArr?
    ensures var shown := ProjectTop(value, tables, |value.items|);
            && |at| == |shown|
            && (forall k :: 0 <= k < |at| ==> at[k] < |value.items| && value.items[at[k]].JObj?)
            && forall k :: 0 <= k < |at| ==>
                 shown[k] == JObj(ProjectKeys(value.items[at[k]], TopProjection(value.items[at[k]]), tables))
    ensures forall i, j :: 0 <= i < j < |at| ==> at[i] < at[j]
    ensures forall i :: i in at <==>
              && 0 <= i < |value.items| && value.items[i].JObj?
              && "_" in value.items[i].fields && value.items[i].fields["_"] == JStr("MessageReactor")
              && "top" in value.items[i].fields && value.items[i].fields["top"] == JBool(true)
  {
    hide Project, ProjectKeys, TopProjection, IsTopReactor, ProjectTop;
    at := TopAt(value.items, |value.items|);
    TopPositions(value, tables, |value.items|);
    forall i | 0 <= i < |value.items|
      ensures i in at <==>
                && value.items[i].JObj?
                && "_" in value.items[i].fields && value.items[i].fields["_"] == JStr("MessageReactor")
                && "top" in value.items[i].fields && value.items[i].fields["top"] == JBool(true)
    {
      TopMeans(value.items[i]);
    }
  }

  lemma {:induction false} TopTakenFrom(value: Json, tables: Tables)
    requires GuardedTables(tables) && value.JArr?
    ensures TakenFrom(JArr(ProjectTop(value, tables, |value.items|)), value)
    decreases value, 0
  {
    hide Project, ProjectKeys, TopProjection, ProjectTop;
    var kept, n := ProjectTop(value, tables, |value.items|), |value.items|;
    var at := TopAt(value.items, n);
    TopPositions(value, tables, n);
    forall k | 0 <= k < |kept| ensures TakenFrom(kept[k], value.items[at[k]]) {
      KeysTakenFrom(value.items[at[k]], TopProjection(value.items[at[k]]), tables);
    }
    if |kept| == n {
      forall k | 0 <= k < n ensures TakenFrom(kept[k], value.items[k]) { EveryPosition(at, k); }
    } else {
      forall k | 0 <= k < |kept| ensures TakenFromSome(kept[k], value.items) {
        assert TakenFrom(kept[k], value.items[at[k]]);
      }
    }
  }

  lemma {:induction false} EveryPosition(at: seq<nat>, k: nat)
    requires forall i, j :: 0 <= i < j < |at| ==> at[i] < at[j]
    requires forall i :: 0 <= i < |at| ==> at[i] < |at|
    requires k < |at|
    ensures at[k] == k
  {
    AtLeast(at, k);
    AtMost(at, k);
  }

  lemma {:induction false} AtLeast(at: seq<nat>, k: nat)
    requires (forall i, j :: 0 <= i < j < |at| ==> at[i] < at[j]) && k < |at|
    ensures at[k] >= k
  {
    if k > 0 { AtLeast(at, k - 1); }
  }

  lemma {:induction false} AtMost(at: seq<nat>, k: nat)
    requires forall i, j :: 0 <= i < j < |at| ==> at[i] < at[j]
    requires forall i :: 0 <= i < |at| ==> at[i] < |at|
    requires k < |at|
    ensures at[k] <= k
    decreases |at| - k
  {
    if k < |at| - 1 { AtMost(at, k + 1); }
  }

  /** What a published top reactor shows: its peer exactly when it says that it is not anonymous. */
  lemma TopReactorShows(reactor: Json, tables: Tables)
    requires GuardedTables(tables) && reactor.JObj?
    ensures var shown := ProjectKeys(reactor, TopProjection(reactor), tables);
            && (forall key :: key in shown ==> key in TOP_FIELDS || key == "peer_id")
            && (forall key :: key in TOP_FIELDS && key in reactor.fields && IsScalar(reactor.fields[key]) ==>
                  key in shown && shown[key] == reactor.fields[key])
            && ("peer_id" in shown <==>
                  && "peer_id" in reactor.fields && "anonymous" in reactor.fields
                  && reactor.fields["anonymous"] == JBool(false))
            && ("peer_id" in shown ==> shown["peer_id"] == Project(reactor.fields["peer_id"], PEER, tables))
  {
    hide Project, TopProjection, ProjectKeys;
    TopAllows(reactor);
    var children := TopProjection(reactor);
    forall key | key in TOP_FIELDS && key in reactor.fields && IsScalar(reactor.fields[key])
      ensures key in ProjectKeys(reactor, children, tables)
              && ProjectKeys(reactor, children, tables)[key] == reactor.fields[key]
    {
      ScalarKey(reactor, children, tables, key);
    }
    if "peer_id" in reactor.fields && "peer_id" in children { PeerKey(reactor, children, tables); }
  }

  lemma TopAllows(reactor: Json)
    ensures var children := TopProjection(reactor);
            && (forall key :: key in TOP_FIELDS ==> key in children && children[key] == Scalar)
            && (forall key :: key in children ==> key in TOP_FIELDS || key == "peer_id")
            && ("peer_id" in children ==> children["peer_id"] == PEER)
            && ("peer_id" in children <==>
                  reactor.JObj? && "anonymous" in reactor.fields && reactor.fields["anonymous"] == JBool(false))
  {
  }

  lemma PeerKey(reactor: Json, children: map<string, Projection>, tables: Tables)
    requires GuardedTables(tables) && reactor.JObj? && "peer_id" in reactor.fields
    requires "peer_id" in children && children["peer_id"] == PEER
    ensures "peer_id" in ProjectKeys(reactor, children, tables)
            && ProjectKeys(reactor, children, tables)["peer_id"] == Project(reactor.fields["peer_id"], PEER, tables)
  {
  }

  /** A fact that is left when blanks go was shown before. */
  lemma {:induction false} OmitTakenFrom(shown: Json, original: Json)
    requires TakenFrom(shown, original)
    ensures TakenFrom(Omit(shown), original)
    decreases shown
  {
    if shown.JObj? && original.JObj? && !SaysNothing(shown) {
      forall key | key in Omit(shown).fields ensures TakenFrom(Omit(shown).fields[key], original.fields[key]) {
        OmitTakenFrom(shown.fields[key], original.fields[key]);
      }
    } else if shown.JArr? && original.JArr? && !SaysNothing(shown) {
      if |shown.items| == |original.items| {
        forall i | 0 <= i < |shown.items| ensures TakenFrom(Omit(shown).items[i], original.items[i]) {
          OmitTakenFrom(shown.items[i], original.items[i]);
        }
      } else {
        forall i | 0 <= i < |shown.items| ensures TakenFromSome(Omit(shown).items[i], original.items) {
          assert TakenFromSome(shown.items[i], original.items);
          var j :| 0 <= j < |original.items| && TakenFrom(shown.items[i], original.items[j]);
          OmitTakenFrom(shown.items[i], original.items[j]);
        }
      }
    } else {
      NothingOmitted(shown);
    }
  }

  lemma NothingOmitted(shown: Json)
    ensures SaysNothing(shown) || IsScalar(shown) ==> Omit(shown) == shown
  {
    if shown == JObj(map[]) { EmptyIsSparse(); }
  }
}
