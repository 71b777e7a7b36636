/** JSON values and the sparse form every export record is written in. */
module JsonValues {
  /** Numbers are integers here; text and numbers are never confused with booleans. */
  datatype Json =
    | JNull
    | JBool(b: bool)
    | JNum(n: int)
    | JStr(s: string)
    | JArr(items: seq<Json>)
    | JObj(fields: map<string, Json>)

  type Fields = map<string, Json>

  /** The values an object property may not have in sparse form. */
  predicate Blank(j: Json) {
    j == JNull || j == JObj(map[]) || j == JArr([])
  }

  /** Drops blank object properties at every depth and keeps every array slot. */
  function Omit(j: Json): Json {
    match j
    case JObj(fields) => JObj(map key | key in fields && !Blank(Omit(fields[key])) :: Omit(fields[key]))
    case JArr(items) => JArr(seq(|items|, i requires 0 <= i < |items| => Omit(items[i])))
    case _ => j
  }

  function OmitFields(fields: Fields): (r: Fields)
    ensures Omit(JObj(fields)) == JObj(r)
    ensures forall key {:trigger key in r} :: key in r <==> key in fields && !Blank(Omit(fields[key]))
    ensures forall key {:trigger r[key]} :: key in r ==> r[key] == Omit(fields[key])
  {
    Omit(JObj(fields)).fields
  }

  /** Sparse values are those `Omit` leaves alone. */
  predicate Sparse(j: Json) {
    Omit(j) == j
  }

  lemma {:induction false} OmitIsSparse(j: Json)
    ensures Sparse(Omit(j))
  {
    match j
    case JObj(fields) =>
      var once := Omit(j).fields;
      forall key | key in once ensures Omit(once[key]) == once[key] {
        OmitIsSparse(fields[key]);
      }
      assert Omit(Omit(j)).fields.Keys == once.Keys;
    case JArr(items) =>
      forall i | 0 <= i < |items| ensures Omit(Omit(items[i])) == Omit(items[i]) {
        OmitIsSparse(items[i]);
      }
      assert Omit(Omit(j)).items == Omit(j).items;
    case _ =>
  }

  /** What is left of an object property that says nothing. */
  ghost predicate SaysNothing(j: Json) {
    j in {JNull, JObj(map[]), JArr([])}
  }

  /** No object property at any depth says nothing; array slots may. */
  ghost predicate BlankFree(j: Json) {
    match j
    case JObj(fields) => forall key :: key in fields ==> !SaysNothing(fields[key]) && BlankFree(fields[key])
    case JArr(items) => forall i :: 0 <= i < |items| ==> BlankFree(items[i])
    case _ => true
  }

  /** The value with nothing but object keys left out. */
  ghost predicate PartOf(part: Json, whole: Json) {
    if part.JObj? && whole.JObj? then
      forall key :: key in part.fields ==> key in whole.fields && PartOf(part.fields[key], whole.fields[key])
    else if part.JArr? && whole.JArr? then
      |part.items| == |whole.items| && forall i :: 0 <= i < |part.items| ==> PartOf(part.items[i], whole.items[i])
    else part == whole
  }

  lemma {:induction false} PartOfTransitive(a: Json, b: Json, c: Json)
    requires PartOf(a, b) && PartOf(b, c)
    ensures PartOf(a, c)
  {
    if a.JObj? && b.JObj? && c.JObj? {
      forall key | key in a.fields ensures PartOf(a.fields[key], c.fields[key]) {
        PartOfTransitive(a.fields[key], b.fields[key], c.fields[key]);
      }
    } else if a.JArr? && b.JArr? && c.JArr? {
      forall i | 0 <= i < |a.items| ensures PartOf(a.items[i], c.items[i]) {
        PartOfTransitive(a.items[i], b.items[i], c.items[i]);
      }
    }
  }

  lemma {:induction false} OmitIsBlankFreePart(j: Json)
    ensures BlankFree(Omit(j)) && PartOf(Omit(j), j)
  {
    match j
    case JObj(fields) =>
      forall key | key in fields ensures BlankFree(Omit(fields[key])) && PartOf(Omit(fields[key]), fields[key]) {
        OmitIsBlankFreePart(fields[key]);
      }
    case JArr(items) =>
      forall i | 0 <= i < |items| ensures BlankFree(Omit(items[i])) && PartOf(Omit(items[i]), items[i]) {
        OmitIsBlankFreePart(items[i]);
      }
    case _ =>
  }

  /** The sparse form keeps all it may: every part without blank properties lies in it. */
  lemma {:induction false} OmitIsLargest(part: Json, j: Json)
    requires BlankFree(part) && PartOf(part, j)
    ensures PartOf(part, Omit(j))
    decreases part
  {
    if part.JObj? && j.JObj? {
      forall key | key in part.fields
        ensures key in Omit(j).fields && PartOf(part.fields[key], Omit(j).fields[key])
      {
        OmitIsLargest(part.fields[key], j.fields[key]);
      }
    } else if part.JArr? && j.JArr? {
      forall i | 0 <= i < |part.items| ensures PartOf(part.items[i], Omit(j).items[i]) {
        OmitIsLargest(part.items[i], j.items[i]);
      }
    }
  }

  /** Sparse are exactly the values without blank properties. */
  lemma {:induction false} SparseExactlyWhenBlankFree(j: Json)
    ensures Sparse(j) <==> BlankFree(j)
  {
    OmitIsBlankFreePart(j);
    if BlankFree(j) { BlankFreeIsKept(j); }
  }

  lemma {:induction false} BlankFreeIsKept(j: Json)
    requires BlankFree(j)
    ensures Omit(j) == j
  {
    match j
    case JObj(fields) =>
      forall key | key in fields ensures Omit(fields[key]) == fields[key] { BlankFreeIsKept(fields[key]); }
      assert Omit(j).fields == fields;
    case JArr(items) =>
      forall i | 0 <= i < |items| ensures Omit(items[i]) == items[i] { BlankFreeIsKept(items[i]); }
      assert Omit(j).items == items;
    case _ =>
  }

  /** A part stays a part when both are written sparsely. */
  lemma PartsStaySparse(part: Json, whole: Json)
    requires PartOf(part, whole)
    ensures PartOf(Omit(part), Omit(whole))
  {
    OmitIsBlankFreePart(part);
    PartOfTransitive(Omit(part), part, whole);
    OmitIsLargest(Omit(part), whole);
  }

  /** Two objects carry the same fact, or none, under a key. */
  ghost predicate SameAt(a: Fields, b: Fields, key: string) {
    (key in a <==> key in b) && (key in a ==> a[key] == b[key])
  }

  lemma SameEverywhere(a: Fields, b: Fields)
    requires forall key :: SameAt(a, b, key)
    ensures a == b
  {
    assert forall key :: key in a <==> key in b by {
      forall key ensures key in a <==> key in b { assert SameAt(a, b, key); }
    }
    forall key | key in a ensures a[key] == b[key] { assert SameAt(a, b, key); }
  }
}
