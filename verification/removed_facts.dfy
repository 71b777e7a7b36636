/** The list of facts removed from a published record, and what patching them back gives. */
module RemovedFacts {
  import opened Common
  import opened JsonValues
  import opened Pointers

  datatype Removal = Removal(path: Path, value: Json)

  /** The order in which an object at some path lists its keys. */
  type KeyOrder = (Path, Fields) -> seq<string>

  ghost predicate Enumerates(keys: seq<string>, fields: Fields) {
    && (forall key :: key in fields <==> key in keys)
    && forall i, j :: 0 <= i < j < |keys| ==> keys[i] != keys[j]
  }

  ghost predicate IsKeyOrder(order: KeyOrder) {
    forall path: Path, fields: Fields :: Enumerates(order(path, fields), fields)
  }

  /** Missing subtrees are emitted once, at their position in the original. */
  ghost function Removed(original: Json, published: Json, path: Path, order: KeyOrder): seq<Removal>
    requires IsKeyOrder(order)
    decreases original, 1, 0
  {
    if original.JObj? && published.JObj? then
      assert Enumerates(order(path, original.fields), original.fields);
      RemovedKeys(original, published, path, order, order(path, original.fields))
    else if original.JArr? && published.JArr? then
      if |original.items| != |published.items| then [Removal(path, original)]
      else RemovedItems(original, published, path, order, |original.items|)
    else if original != published then [Removal(path, original)]
    else []
  }

  ghost function RemovedKeys(original: Json, published: Json, path: Path, order: KeyOrder,
                             keys: seq<string>): seq<Removal>
    requires IsKeyOrder(order) && original.JObj? && published.JObj?
    requires forall key :: key in keys ==> key in original.fields
    decreases original, 0, |keys|
  {
    if keys == [] then []
    else
      var n := |keys| - 1;
      RemovedKeys(original, published, path, order, keys[..n]) + RemovedAt(original, published, path, order, keys[n])
  }

  ghost function RemovedAt(original: Json, published: Json, path: Path, order: KeyOrder, key: string): seq<Removal>
    requires IsKeyOrder(order) && original.JObj? && published.JObj? && key in original.fields
    decreases original, 0, 0
  {
    if key !in published.fields then [Removal(path + [key], original.fields[key])]
    else Removed(original.fields[key], published.fields[key], path + [key], order)
  }

  ghost function RemovedItems(original: Json, published: Json, path: Path, order: KeyOrder, count: nat): seq<Removal>
    requires IsKeyOrder(order) && original.JArr? && published.JArr?
    requires count <= |original.items| == |published.items|
    decreases original, 0, count
  {
    if count == 0 then []
    else
      var i := count - 1;
      RemovedItems(original, published, path, order, i)
      + Removed(original.items[i], published.items[i], path + [Decimal(i)], order)
  }

  // ------------------------------------------------------------------ the reader

  /** Puts a value where a path points; one past the end of a list is a new last item. */
  function Put(doc: Json, path: Path, value: Json): Json
    decreases |path|
  {
    if path == [] then value
    else
      match doc
      case JObj(fields) =>
        var child := if path[0] in fields then fields[path[0]] else JNull;
        JObj(fields[path[0] := Put(child, path[1..], value)])
      case JArr(items) => (
        match ReadIndex(path[0])
        case Some(i) =>
          if i < |items| then JArr(items[i := Put(items[i], path[1..], value)])
          else if i == |items| then JArr(items + [Put(JNull, path[1..], value)])
          else doc
        case None => doc
      )
      case _ => doc
  }

  ghost predicate Under(removals: seq<Removal>, path: Path) {
    forall i :: 0 <= i < |removals| ==> path <= removals[i].path
  }

  /** Applies removals to the part of a document that stands at depth `depth`. */
  function Patch(doc: Json, removals: seq<Removal>, depth: nat): Json
    requires forall i :: 0 <= i < |removals| ==> depth <= |removals[i].path|
  {
    if removals == [] then doc
    else
      var n := |removals| - 1;
      Put(Patch(doc, removals[..n], depth), removals[n].path[depth..], removals[n].value)
  }

  /** The published side dropped object keys and nothing else: it has no key of its own. */
  predicate OnlyDrops(original: Json, published: Json) {
    if original.JObj? && published.JObj? then
      forall key :: key in published.fields ==>
        key in original.fields && OnlyDrops(original.fields[key], published.fields[key])
    else if original.JArr? && published.JArr? && |original.items| == |published.items| then
      forall i :: 0 <= i < |original.items| ==> OnlyDrops(original.items[i], published.items[i])
    else true
  }

  lemma {:induction false} RemovedUnder(original: Json, published: Json, path: Path, order: KeyOrder)
    requires IsKeyOrder(order)
    ensures Under(Removed(original, published, path, order), path)
    decreases original, 1, 0
  {
    if original.JObj? && published.JObj? {
      assert Enumerates(order(path, original.fields), original.fields);
      KeysUnder(original, published, path, order, order(path, original.fields));
    } else if original.JArr? && published.JArr? && |original.items| == |published.items| {
      ItemsUnder(original, published, path, order, |original.items|);
    }
  }

  lemma {:induction false} RemovedAtUnder(original: Json, published: Json, path: Path, order: KeyOrder, key: string)
    requires IsKeyOrder(order) && original.JObj? && published.JObj? && key in original.fields
    ensures Under(RemovedAt(original, published, path, order, key), path + [key])
    decreases original, 0, 0
  {
    if key in published.fields { RemovedUnder(original.fields[key], published.fields[key], path + [key], order); }
  }

  lemma UnderParent(removals: seq<Removal>, path: Path, token: string)
    requires Under(removals, path + [token])
    ensures Under(removals, path)
  {
  }

  lemma {:induction false} KeysUnder(original: Json, published: Json, path: Path, order: KeyOrder, keys: seq<string>)
    requires IsKeyOrder(order) && original.JObj? && published.JObj?
    requires forall key :: key in keys ==> key in original.fields
    ensures Under(RemovedKeys(original, published, path, order, keys), path)
    decreases original, 0, |keys|
  {
    if keys != [] {
      var n := |keys| - 1;
      KeysUnder(original, published, path, order, keys[..n]);
      RemovedAtUnder(original, published, path, order, keys[n]);
      UnderParent(RemovedAt(original, published, path, order, keys[n]), path, keys[n]);
    }
  }

  lemma {:induction false} ItemsUnder(original: Json, published: Json, path: Path, order: KeyOrder, count: nat)
    requires IsKeyOrder(order) && original.JArr? && published.JArr?
    requires count <= |original.items| == |published.items|
    ensures Under(RemovedItems(original, published, path, order, count), path)
    decreases original, 0, count
  {
    if count > 0 {
      var i := count - 1;
      ItemsUnder(original, published, path, order, i);
      RemovedUnder(original.items[i], published.items[i], path + [Decimal(i)], order);
      UnderParent(Removed(original.items[i], published.items[i], path + [Decimal(i)], order), path, Decimal(i));
    }
  }

  lemma {:induction false} PatchInParts(doc: Json, first: seq<Removal>, second: seq<Removal>, depth: nat)
    requires forall i :: 0 <= i < |first| ==> depth <= |first[i].path|
    requires forall i :: 0 <= i < |second| ==> depth <= |second[i].path|
    ensures Patch(doc, first + second, depth) == Patch(Patch(doc, first, depth), second, depth)
  {
    if second == [] {
      assert first + second == first;
    } else {
      var n := |second| - 1;
      assert (first + second)[..|first| + n] == first + second[..n];
      PatchInParts(doc, first, second[..n], depth);
    }
  }

  /** Removals under one key only rewrite the value under that key. */
  lemma {:induction false} PatchUnderKey(fields: Fields, removals: seq<Removal>, path: Path, key: string)
    requires key in fields && Under(removals, path + [key])
    ensures forall i :: 0 <= i < |removals| ==> |path| + 1 <= |removals[i].path|
    ensures Patch(JObj(fields), removals, |path|) == JObj(fields[key := Patch(fields[key], removals, |path| + 1)])
  {
    forall i | 0 <= i < |removals| ensures |path| + 1 <= |removals[i].path| {
      assert path + [key] <= removals[i].path;
    }
    if removals == [] {
      assert fields[key := fields[key]] == fields;
    } else {
      var n := |removals| - 1;
      PatchUnderKey(fields, removals[..n], path, key);
      var inner := Patch(fields[key], removals[..n], |path| + 1);
      var r := removals[n];
      TailOfPath(path, key, r.path);
      assert fields[key := inner][key := Put(inner, r.path[|path| + 1..], r.value)]
          == fields[key := Put(inner, r.path[|path| + 1..], r.value)];
    }
  }

  lemma TailOfPath(path: Path, token: string, whole: Path)
    requires path + [token] <= whole
    ensures |path| + 1 <= |whole| && whole[|path|..][0] == token && whole[|path|..][1..] == whole[|path| + 1..]
  {
  }

  lemma {:induction false} PatchUnderItem(items: seq<Json>, removals: seq<Removal>, path: Path, i: nat)
    requires i < |items| && Under(removals, path + [Decimal(i)])
    ensures forall k :: 0 <= k < |removals| ==> |path| + 1 <= |removals[k].path|
    ensures Patch(JArr(items), removals, |path|) == JArr(items[i := Patch(items[i], removals, |path| + 1)])
  {
    forall k | 0 <= k < |removals| ensures |path| + 1 <= |removals[k].path| {
      assert path + [Decimal(i)] <= removals[k].path;
    }
    if removals == [] {
      assert items[i := items[i]] == items;
    } else {
      var n := |removals| - 1;
      PatchUnderItem(items, removals[..n], path, i);
      var inner := Patch(items[i], removals[..n], |path| + 1);
      var r := removals[n];
      TailOfPath(path, Decimal(i), r.path);
      IndexRoundTrip(i);
      var value := Put(inner, r.path[|path| + 1..], r.value);
      assert items[i := inner][i := value] == items[i := value];
    }
  }

  // ------------------------------------------------------------------ patching restores

  /** The value a reader gets back at one position. */
  ghost function Restored(original: Json, published: Json, path: Path, order: KeyOrder): Json
    requires IsKeyOrder(order)
  {
    RemovedUnder(original, published, path, order);
    Patch(published, Removed(original, published, path, order), |path|)
  }

  /** Of the listed keys each holds what its own removals restore; the others are as published. */
  ghost predicate KeysRestored(original: Json, published: Json, path: Path, order: KeyOrder, keys: seq<string>,
                               got: Json)
    requires IsKeyOrder(order) && original.JObj? && published.JObj?
    requires forall key :: key in keys ==> key in original.fields
  {
    && got.JObj?
    && (forall key :: key in got.fields <==> key in published.fields || key in keys)
    && (forall key :: key in got.fields && key !in keys ==> got.fields[key] == published.fields[key])
    && forall key :: key in keys ==> got.fields[key] == RestoredAt(original, published, path, order, key)
  }

  ghost function RestoredAt(original: Json, published: Json, path: Path, order: KeyOrder, key: string): Json
    requires IsKeyOrder(order) && original.JObj? && published.JObj? && key in original.fields
  {
    if key in published.fields then Restored(original.fields[key], published.fields[key], path + [key], order)
    else original.fields[key]
  }

  lemma PatchOneKey(original: Json, published: Json, path: Path, order: KeyOrder, key: string, fields: Fields)
    requires IsKeyOrder(order) && original.JObj? && published.JObj? && key in original.fields
    requires key in published.fields ==> key in fields && fields[key] == published.fields[key]
    ensures Under(RemovedAt(original, published, path, order, key), path)
    ensures Patch(JObj(fields), RemovedAt(original, published, path, order, key), |path|)
         == JObj(fields[key := RestoredAt(original, published, path, order, key)])
  {
    hide Removed, Patch;
    var segment := RemovedAt(original, published, path, order, key);
    RemovedAtUnder(original, published, path, order, key);
    UnderParent(segment, path, key);
    if key in published.fields {
      PatchUnderKey(fields, segment, path, key);
      assert |path + [key]| == |path| + 1;
    } else {
      PatchMissingKey(fields, original.fields[key], path, key);
    }
  }

  lemma KeysRestoredStep(original: Json, published: Json, path: Path, order: KeyOrder, keys: seq<string>,
                         fields: Fields)
    requires IsKeyOrder(order) && original.JObj? && published.JObj?
    requires forall key :: key in keys ==> key in original.fields
    requires keys != [] && keys[|keys| - 1] !in keys[..|keys| - 1]
    requires KeysRestored(original, published, path, order, keys[..|keys| - 1], JObj(fields))
    ensures var key := keys[|keys| - 1];
            KeysRestored(original, published, path, order, keys,
                         JObj(fields[key := RestoredAt(original, published, path, order, key)]))
  {
  }

  lemma {:induction false} PatchKeys(original: Json, published: Json, path: Path, order: KeyOrder, keys: seq<string>)
    requires IsKeyOrder(order) && original.JObj? && published.JObj?
    requires forall key :: key in keys ==> key in original.fields
    requires forall i, j :: 0 <= i < j < |keys| ==> keys[i] != keys[j]
    ensures Under(RemovedKeys(original, published, path, order, keys), path)
    ensures KeysRestored(original, published, path, order, keys,
                         Patch(published, RemovedKeys(original, published, path, order, keys), |path|))
    decreases |keys|
  {
    hide Removed, RemovedAt, RestoredAt, Patch;
    KeysUnder(original, published, path, order, keys);
    if keys == [] {
      assert Patch(published, [], |path|) == published by { PatchNothing(published, |path|); }
    } else {
      var n := |keys| - 1;
      var before := RemovedKeys(original, published, path, order, keys[..n]);
      PatchKeys(original, published, path, order, keys[..n]);
      var mid := Patch(published, before, |path|);
      assert keys[n] !in keys[..n];
      PatchOneKey(original, published, path, order, keys[n], mid.fields);
      PatchInParts(published, before, RemovedAt(original, published, path, order, keys[n]), |path|);
      KeysRestoredStep(original, published, path, order, keys, mid.fields);
    }
  }

  lemma PatchNothing(doc: Json, depth: nat)
    ensures Patch(doc, [], depth) == doc
  {
  }

  lemma PatchOnce(doc: Json, removal: Removal, depth: nat)
    requires depth <= |removal.path|
    ensures Patch(doc, [removal], depth) == Put(doc, removal.path[depth..], removal.value)
  {
  }

  lemma PatchMissingKey(fields: Fields, value: Json, path: Path, key: string)
    ensures Patch(JObj(fields), [Removal(path + [key], value)], |path|) == JObj(fields[key := value])
  {
    hide Patch;
    PatchOnce(JObj(fields), Removal(path + [key], value), |path|);
    var tail := (path + [key])[|path|..];
    assert tail[0] == key && tail[1..] == [];
    assert Put(JObj(fields), tail, value)
           == JObj(fields[key := Put(if key in fields then fields[key] else JNull, tail[1..], value)]);
  }

  ghost predicate ItemsRestored(original: Json, published: Json, path: Path, order: KeyOrder, count: nat, got: Json)
    requires IsKeyOrder(order) && original.JArr? && published.JArr?
    requires count <= |original.items| == |published.items|
  {
    && got.JArr? && |got.items| == |published.items|
    && (forall i :: count <= i < |got.items| ==> got.items[i] == published.items[i])
    && forall i :: 0 <= i < count ==>
         got.items[i] == Restored(original.items[i], published.items[i], path + [Decimal(i)], order)
  }

  lemma {:induction false} PatchItems(original: Json, published: Json, path: Path, order: KeyOrder, count: nat)
    requires IsKeyOrder(order) && original.JArr? && published.JArr?
    requires count <= |original.items| == |published.items|
    ensures Under(RemovedItems(original, published, path, order, count), path)
    ensures ItemsRestored(original, published, path, order, count,
                          Patch(published, RemovedItems(original, published, path, order, count), |path|))
    decreases count
  {
    hide Removed, Patch, Decimal;
    ItemsUnder(original, published, path, order, count);
    if count == 0 {
      PatchNothing(published, |path|);
    } else {
      var i := count - 1;
      var at := path + [Decimal(i)];
      var before := RemovedItems(original, published, path, order, i);
      var segment := Removed(original.items[i], published.items[i], at, order);
      PatchItems(original, published, path, order, i);
      RemovedUnder(original.items[i], published.items[i], at, order);
      UnderParent(segment, path, Decimal(i));
      PatchInParts(published, before, segment, |path|);
      PatchUnderItem(Patch(published, before, |path|).items, segment, path, i);
      assert |at| == |path| + 1;
    }
  }

  /** Patching the removed facts back gives the original record exactly when publishing only dropped keys. */
  lemma {:induction false} PatchRestoresExactlyWhenOnlyDrops(original: Json, published: Json, path: Path,
        order: KeyOrder)
    requires IsKeyOrder(order)
    ensures Restored(original, published, path, order) == original <==> OnlyDrops(original, published)
    decreases original
  {
    hide Patch;
    RemovedUnder(original, published, path, order);
    var got := Restored(original, published, path, order);
    if original.JObj? && published.JObj? {
      var keys := order(path, original.fields);
      assert Enumerates(keys, original.fields);
      PatchKeys(original, published, path, order, keys);
      forall key | key in original.fields && key in published.fields
        ensures RestoredAt(original, published, path, order, key) == original.fields[key]
                <==> OnlyDrops(original.fields[key], published.fields[key])
      {
        PatchRestoresExactlyWhenOnlyDrops(original.fields[key], published.fields[key], path + [key], order);
      }
      ObjectRestored(original, published, path, order, keys, got);
    } else if original.JArr? && published.JArr? && |original.items| == |published.items| {
      PatchItems(original, published, path, order, |original.items|);
      forall i | 0 <= i < |original.items|
        ensures Restored(original.items[i], published.items[i], path + [Decimal(i)], order) == original.items[i]
                <==> OnlyDrops(original.items[i], published.items[i])
      {
        PatchRestoresExactlyWhenOnlyDrops(original.items[i], published.items[i], path + [Decimal(i)], order);
      }
      ArrayRestored(original, published, path, order, got);
    } else {
      PatchWhole(original, published, path);
      PatchNothing(published, |path|);
    }
  }

  lemma ObjectRestored(original: Json, published: Json, path: Path, order: KeyOrder, keys: seq<string>, got: Json)
    requires IsKeyOrder(order) && original.JObj? && published.JObj? && Enumerates(keys, original.fields)
    requires KeysRestored(original, published, path, order, keys, got)
    requires forall key :: key in original.fields && key in published.fields ==>
               (RestoredAt(original, published, path, order, key) == original.fields[key]
                <==> OnlyDrops(original.fields[key], published.fields[key]))
    ensures got == original <==> OnlyDrops(original, published)
  {
  }

  lemma ArrayRestored(original: Json, published: Json, path: Path, order: KeyOrder, got: Json)
    requires IsKeyOrder(order) && original.JArr? && published.JArr? && |original.items| == |published.items|
    requires ItemsRestored(original, published, path, order, |original.items|, got)
    requires forall i :: 0 <= i < |original.items| ==>
               (Restored(original.items[i], published.items[i], path + [Decimal(i)], order) == original.items[i]
                <==> OnlyDrops(original.items[i], published.items[i]))
    ensures got == original <==> OnlyDrops(original, published)
  {
  }

  lemma PatchWhole(original: Json, published: Json, path: Path)
    ensures Patch(published, [Removal(path, original)], |path|) == original
  {
  }

  lemma {:induction false} NothingRemovedFromItself(value: Json, path: Path, order: KeyOrder)
    requires IsKeyOrder(order)
    ensures Removed(value, value, path, order) == []
    decreases value, 1, 0
  {
    if value.JObj? {
      assert Enumerates(order(path, value.fields), value.fields);
      NoKeysRemoved(value, path, order, order(path, value.fields));
    } else if value.JArr? {
      NoItemsRemoved(value, path, order, |value.items|);
    }
  }

  lemma {:induction false} NoKeysRemoved(value: Json, path: Path, order: KeyOrder, keys: seq<string>)
    requires IsKeyOrder(order) && value.JObj? && forall key :: key in keys ==> key in value.fields
    ensures RemovedKeys(value, value, path, order, keys) == []
    decreases value, 0, |keys|
  {
    if keys != [] {
      var n := |keys| - 1;
      NoKeysRemoved(value, path, order, keys[..n]);
      NothingRemovedFromItself(value.fields[keys[n]], path + [keys[n]], order);
    }
  }

  lemma {:induction false} NoItemsRemoved(value: Json, path: Path, order: KeyOrder, count: nat)
    requires IsKeyOrder(order) && value.JArr? && count <= |value.items|
    ensures RemovedItems(value, value, path, order, count) == []
    decreases value, 0, count
  {
    if count > 0 {
      NoItemsRemoved(value, path, order, count - 1);
      NothingRemovedFromItself(value.items[count - 1], path + [Decimal(count - 1)], order);
    }
  }

  /** The removed-facts list of a record is empty exactly when the record was published unchanged. */
  lemma NothingRemovedExactlyWhenUnchanged(original: Json, published: Json, path: Path, order: KeyOrder)
    requires IsKeyOrder(order) && OnlyDrops(original, published)
    ensures Removed(original, published, path, order) == [] <==> original == published
  {
    NothingRemovedFromItself(original, path, order);
    PatchRestoresExactlyWhenOnlyDrops(original, published, path, order);
  }

  // ------------------------------------------------------------------ emitted pointers

  /** No emitted position lies inside another. */
  ghost predicate Apart(removals: seq<Removal>) {
    forall i, j :: 0 <= i < |removals| && 0 <= j < |removals| && i != j ==> !(removals[i].path <= removals[j].path)
  }

  /** Positions under different tokens of one parent never overlap. */
  lemma ApartUnderTokens(first: seq<Removal>, second: seq<Removal>, path: Path, token: string)
    requires Apart(first) && Apart(second) && Under(first, path) && Under(second, path + [token])
    requires forall i :: 0 <= i < |first| ==> |first[i].path| > |path| && first[i].path[|path|] != token
    ensures Apart(first + second)
  {
  }

  ghost predicate Tokens(removals: seq<Removal>, path: Path, tokens: set<string>) {
    forall i :: 0 <= i < |removals| ==> |removals[i].path| > |path| && removals[i].path[|path|] in tokens
  }

  lemma UnderHasToken(removals: seq<Removal>, path: Path, token: string)
    requires Under(removals, path + [token])
    ensures Tokens(removals, path, {token})
  {
  }

  /** No emitted position lies inside another, so no removed fact is written twice. */
  lemma {:induction false} RemovedApart(original: Json, published: Json, path: Path, order: KeyOrder)
    requires IsKeyOrder(order)
    ensures Apart(Removed(original, published, path, order))
    decreases original, 1, 0
  {
    if original.JObj? && published.JObj? {
      assert Enumerates(order(path, original.fields), original.fields);
      KeysApart(original, published, path, order, order(path, original.fields));
    } else if original.JArr? && published.JArr? && |original.items| == |published.items| {
      ItemsApart(original, published, path, order, |original.items|);
    }
  }

  lemma {:induction false} KeysApart(original: Json, published: Json, path: Path, order: KeyOrder, keys: seq<string>)
    requires IsKeyOrder(order) && original.JObj? && published.JObj?
    requires forall key :: key in keys ==> key in original.fields
    requires forall i, j :: 0 <= i < j < |keys| ==> keys[i] != keys[j]
    ensures Apart(RemovedKeys(original, published, path, order, keys))
    ensures Tokens(RemovedKeys(original, published, path, order, keys), path, set key | key in keys)
    decreases original, 0, |keys|
  {
    hide Removed;
    if keys != [] {
      var n := |keys| - 1;
      var key := keys[n];
      var before, segment := RemovedKeys(original, published, path, order, keys[..n]),
            RemovedAt(original, published, path, order, key);
      KeysApart(original, published, path, order, keys[..n]);
      KeysUnder(original, published, path, order, keys[..n]);
      RemovedAtUnder(original, published, path, order, key);
      if key in published.fields {
        RemovedApart(original.fields[key], published.fields[key], path + [key], order);
      }
      UnderHasToken(segment, path, key);
      ApartUnderTokens(before, segment, path, key);
    }
  }

  ghost predicate IndexToken(token: string, count: nat) {
    exists i: nat :: i < count && token == Decimal(i)
  }

  ghost predicate IndexTokens(removals: seq<Removal>, path: Path, count: nat) {
    forall r :: 0 <= r < |removals| ==> |removals[r].path| > |path| && IndexToken(removals[r].path[|path|], count)
  }

  lemma IndexTokenDiffers(token: string, count: nat)
    requires IndexToken(token, count)
    ensures token != Decimal(count) && IndexToken(token, count + 1)
  {
    var i: nat :| i < count && token == Decimal(i);
    IndexRoundTrip(i);
    IndexRoundTrip(count);
  }

  lemma IndexTokensStep(before: seq<Removal>, segment: seq<Removal>, path: Path, count: nat)
    requires IndexTokens(before, path, count) && Tokens(segment, path, {Decimal(count)})
    ensures IndexTokens(before + segment, path, count + 1)
  {
  }

  lemma {:induction false} ItemsApart(original: Json, published: Json, path: Path, order: KeyOrder, count: nat)
    requires IsKeyOrder(order) && original.JArr? && published.JArr?
    requires count <= |original.items| == |published.items|
    ensures Apart(RemovedItems(original, published, path, order, count))
    ensures IndexTokens(RemovedItems(original, published, path, order, count), path, count)
    decreases original, 0, count
  {
    hide Removed, Decimal;
    if count > 0 {
      var i := count - 1;
      var at := path + [Decimal(i)];
      var before := RemovedItems(original, published, path, order, i);
      var segment := Removed(original.items[i], published.items[i], at, order);
      ItemsApart(original, published, path, order, i);
      ItemsUnder(original, published, path, order, i);
      RemovedUnder(original.items[i], published.items[i], at, order);
      RemovedApart(original.items[i], published.items[i], at, order);
      UnderHasToken(segment, path, Decimal(i));
      forall r | 0 <= r < |before| ensures |before[r].path| > |path| && before[r].path[|path|] != Decimal(i) {
        IndexTokenDiffers(before[r].path[|path|], i);
      }
      ApartUnderTokens(before, segment, path, Decimal(i));
      IndexTokensStep(before, segment, path, i);
    }
  }

  /** One line of the removed-facts file. */
  datatype Entry = Entry(pointer: string, value: Json)

  function Written(removals: seq<Removal>): seq<Entry> {
    seq(|removals|, i requires 0 <= i < |removals| => Entry(Render(removals[i].path), removals[i].value))
  }

  /** A reader of the file: resolves each pointer against the document so far. */
  function PatchFile(doc: Json, entries: seq<Entry>): Option<Json> {
    if entries == [] then Some(doc)
    else
      var n := |entries| - 1;
      match PatchFile(doc, entries[..n])
      case None => None
      case Some(mid) =>
        match Parse(entries[n].pointer)
        case None => None
        case Some(path) => Some(Put(mid, path, entries[n].value))
  }

  lemma {:induction false} PatchFileReadsPaths(doc: Json, removals: seq<Removal>)
    ensures PatchFile(doc, Written(removals)) == Some(Patch(doc, removals, 0))
  {
    if removals != [] {
      var n := |removals| - 1;
      PatchFileReadsPaths(doc, removals[..n]);
      assert Written(removals)[..n] == Written(removals[..n]);
      PointerRoundTrip(removals[n].path);
      assert removals[n].path[0..] == removals[n].path;
    }
  }

  /** The published record and the removed-facts file together give back the original, exactly when publishing only
      dropped keys. */
  lemma FilesRestoreExactlyWhenOnlyDrops(original: Json, published: Json, order: KeyOrder)
    requires IsKeyOrder(order)
    ensures PatchFile(published, Written(Removed(original, published, [], order))) == Some(original)
            <==> OnlyDrops(original, published)
  {
    PatchFileReadsPaths(published, Removed(original, published, [], order));
    PatchRestoresExactlyWhenOnlyDrops(original, published, [], order);
  }
}
