/** The daemon's side of a chat export: one validated, filtered and byte-bounded history page. */
module ExportDaemon {
  import opened Common
  import opened TelegramPages

  type Payload = string

  /** One id of a Telegram history: a readable message, or an empty slot left by a removed one. */
  datatype Slot = Message(payload: Payload, size: nat) | Empty

  type History = map<int, Slot>

  /** A raw item of a Telegram response; `id` is None when it is not an integer. */
  datatype RawItem = RawItem(id: Option<int>, slot: Slot)

  /** A rendered message; `size` is the length of its JSON encoding. */
  datatype Item = Item(id: int, payload: Payload, size: nat)

  datatype HistoryPage = HistoryPage(items: seq<Item>, next: int, done: bool)

  const MAX_MESSAGE_ID := 0x7fff_ffff
  const RESPONSE_BYTES := 1_000_000
  const ITEM_SEPARATOR_BYTES := 2

  ghost predicate IsMessage(h: History, id: int) {
    id in h && h[id].Message?
  }

  ghost predicate NewestFirst(items: seq<Item>) {
    forall i, j :: 0 <= i < j < |items| ==> items[i].id > items[j].id
  }

  ghost predicate Delivered(items: seq<Item>, id: int) {
    exists i :: 0 <= i < |items| && items[i].id == id
  }

  /** Every item is a message of the window, with the history's own content. */
  ghost predicate Genuine(h: History, items: seq<Item>, lower: int, upper: int, before: int) {
    forall i :: 0 <= i < |items| ==>
      var item := items[i];
      IsMessage(h, item.id) && InWindow(item.id, lower, upper, before) && item.payload == h[item.id].payload
  }

  ghost predicate Exhausted(h: History, lower: int, upper: int, before: int) {
    forall id :: id in h ==> !InWindow(id, lower, upper, before)
  }

  /** The continuation lies in the window and separates what was delivered from what was not. */
  ghost predicate SplitAt(h: History, items: seq<Item>, next: int, lower: int, upper: int, before: int) {
    && InWindow(next, lower, upper, before)
    && forall id :: IsMessage(h, id) && InWindow(id, lower, upper, before) ==> (next <= id <==> Delivered(items, id))
  }

  /** A reply the client may rely on: exactly the messages from `next` up, and `done` exactly when nothing is left. */
  ghost predicate ConformingPage(h: History, page: HistoryPage, lower: int, upper: int, before: int) {
    && NewestFirst(page.items)
    && Genuine(h, page.items, lower, upper, before)
    && (page.done <==> Exhausted(h, lower, upper, before))
    && (!page.done ==> SplitAt(h, page.items, page.next, lower, upper, before))
  }

  /** Two histories that differ only by what arrived above the frozen boundary. */
  ghost predicate AgreeUpTo(h: History, live: History, upper: int) {
    forall id :: id <= upper ==> (id in h <==> id in live) && (id in h ==> h[id] == live[id])
  }

  /** The raw response carries the newest page of the live history, each id with its own content. */
  ghost predicate TelegramResponse(live: History, raw: seq<RawItem>, lower: int, upper: int, before: int, limit: nat) {
    && (forall i :: 0 <= i < |raw| ==> raw[i].id.Some?)
    && IsNewestPage(live.Keys, RawIds(raw), lower, upper, before, limit)
    && (forall i :: 0 <= i < |raw| ==> raw[i].id.value in live && raw[i].slot == live[raw[i].id.value])
  }

  function RawIds(raw: seq<RawItem>): (ids: seq<int>)
    requires forall i :: 0 <= i < |raw| ==> raw[i].id.Some?
    ensures |ids| == |raw|
    ensures forall i :: 0 <= i < |raw| ==> ids[i] == raw[i].id.value
  {
    seq(|raw|, i requires 0 <= i < |raw| => raw[i].id.value)
  }

  /** Accepts a response exactly when its ids are in range and strictly descending. */
  function OrderedPageIds(raw: seq<RawItem>, maxId: int): (r: Result<seq<int>>)
    ensures r.Ok? <==>
            && (forall i :: 0 <= i < |raw| ==> raw[i].id.Some? && 1 <= raw[i].id.value <= maxId)
            && Descending(RawIds(raw))
    ensures r.Ok? ==> r.value == RawIds(raw)
  {
    if exists i :: 0 <= i < |raw| && !(raw[i].id.Some? && 1 <= raw[i].id.value <= maxId) then
      Err("Telegram returned invalid IDs")
    else if exists i :: 0 <= i < |raw| - 1 && raw[i].id.value <= raw[i + 1].id.value then
      Err("Telegram IDs are not strictly descending")
    else
      AdjacentDescending(RawIds(raw));
      Ok(RawIds(raw))
  }

  /** Comparing neighbours is enough to compare every pair. */
  lemma {:induction false} AdjacentDescending(ids: seq<int>)
    requires forall i :: 0 <= i < |ids| - 1 ==> ids[i] > ids[i + 1]
    ensures Descending(ids)
  {
    if |ids| > 1 {
      var rest := ids[1..];
      forall i | 0 <= i < |rest| - 1 ensures rest[i] > rest[i + 1] {
        assert ids[i + 1] > ids[i + 2];
      }
      AdjacentDescending(rest);
      forall i, j | 0 <= i < j < |ids| ensures ids[i] > ids[j] {
        if i > 0 {
          assert rest[i - 1] > rest[j - 1];
        } else if j > 1 {
          assert rest[0] > rest[j - 1];
        }
      }
    }
  }

  /** The ids a response may carry: valid, strictly descending, and inside the asked window. */
  ghost predicate SoundIds(raw: seq<RawItem>, upper: int, before: int, maxId: int) {
    && (forall i :: 0 <= i < |raw| ==>
          && raw[i].id.Some? && 1 <= raw[i].id.value <= maxId && raw[i].id.value <= upper
          && (before != 0 ==> raw[i].id.value < before))
    && forall i, j :: 0 <= i < j < |raw| ==> raw[i].id.value > raw[j].id.value
  }

  function HistoryIds(raw: seq<RawItem>, upper: int, before: int, maxId: int): (r: Result<seq<int>>)
    ensures r.Ok? <==> SoundIds(raw, upper, before, maxId)
    ensures r.Ok? ==> Descending(r.value) && |r.value| == |raw|
    ensures r.Ok? ==> forall i :: 0 <= i < |raw| ==> raw[i].id == Some(r.value[i])
    ensures r.Ok? ==> forall id :: id in r.value ==> InWindow(id, 0, upper, before)
  {
    var ids :- OrderedPageIds(raw, maxId);
    assert ids != [] ==> ids[0] in RawIds(raw);
    if ids != [] && ids[0] > upper then
      Err("Telegram page exceeded its upper boundary")
    else if ids != [] && before != 0 && ids[0] >= before then
      Err("Telegram cursor did not advance")
    else
      assert forall id :: id in ids ==> id <= ids[0] by {
        forall id | id in ids ensures id <= ids[0] { LastIsOldest(ids, id); }
      }
      Ok(ids)
  }

  /** Positions, from `start` on, of the readable messages above the lower boundary. */
  function Kept(raw: seq<RawItem>, ids: seq<int>, lower: int, start: nat): (kept: seq<nat>)
    requires |raw| == |ids| && start <= |raw|
    ensures forall k :: k in kept <==> start <= k < |raw| && ids[k] > lower && raw[k].slot.Message?
    ensures forall i :: 0 <= i < |kept| ==>
              start <= kept[i] < |raw| && ids[kept[i]] > lower && raw[kept[i]].slot.Message?
    ensures forall i, j :: 0 <= i < j < |kept| ==> kept[i] < kept[j]
    decreases |raw| - start
  {
    if start == |raw| then []
    else
      var rest := Kept(raw, ids, lower, start + 1);
      if ids[start] > lower && raw[start].slot.Message? then
        var kept := [start] + rest;
        assert forall k :: k in kept <==> k == start || k in rest;
        kept
      else rest
  }

  /** The readable messages of a page above the lower boundary, in page order. */
  function Readable(raw: seq<RawItem>, ids: seq<int>, lower: int): (r: seq<Item>)
    requires |raw| == |ids|
    ensures |r| == |Kept(raw, ids, lower, 0)|
    ensures forall i :: 0 <= i < |r| ==> var k := Kept(raw, ids, lower, 0)[i];
              r[i].id == ids[k] && r[i].payload == raw[k].slot.payload && r[i].size == raw[k].slot.size
  {
    var kept := Kept(raw, ids, lower, 0);
    seq(|kept|, i requires 0 <= i < |kept| => var k := kept[i]; Item(ids[k], raw[k].slot.payload, raw[k].slot.size))
  }

  function Total(items: seq<Item>): nat {
    if items == [] then 0 else Total(items[..|items| - 1]) + items[|items| - 1].size + ITEM_SEPARATOR_BYTES
  }

  lemma {:induction false} TotalGrows(items: seq<Item>, n: nat)
    requires n <= |items|
    ensures Total(items[..n]) + ITEM_SEPARATOR_BYTES * (|items| - n) <= Total(items)
  {
    if n == |items| {
      assert items[..n] == items;
    } else {
      TotalGrows(items[..|items| - 1], n);
      assert items[..|items| - 1][..n] == items[..n];
    }
  }

  lemma SingleTotal(items: seq<Item>)
    requires items != []
    ensures Total(items[..1]) == items[0].size + ITEM_SEPARATOR_BYTES
  {
  }

  /** Keeps the longest prefix that fits the reply; an item that alone exceeds the reply is an error. */
  method BoundedPage(items: seq<Item>) returns (r: Result<seq<Item>>)
    ensures r.Err? <==> items != [] && items[0].size + ITEM_SEPARATOR_BYTES > RESPONSE_BYTES
    ensures r.Ok? ==> r.value <= items && Total(r.value) <= RESPONSE_BYTES
    ensures r.Ok? ==> forall n :: |r.value| < n <= |items| ==> Total(items[..n]) > RESPONSE_BYTES
  {
    var selected := 0;
    var used := 0;
    while selected < |items|
      invariant 0 <= selected <= |items|
      invariant used == Total(items[..selected]) <= RESPONSE_BYTES
      invariant selected > 0 ==> items[0].size + ITEM_SEPARATOR_BYTES <= RESPONSE_BYTES
    {
      var size := items[selected].size + ITEM_SEPARATOR_BYTES;
      assert items[..selected + 1][..selected] == items[..selected];
      if used + size > RESPONSE_BYTES {
        if selected == 0 {
          return Err("A Telegram item exceeds the export IPC byte limit");
        }
        forall n | selected < n <= |items| ensures Total(items[..n]) > RESPONSE_BYTES {
          TotalGrows(items[..n], selected + 1);
          assert items[..n][..selected + 1] == items[..selected + 1];
        }
        return Ok(items[..selected]);
      }
      used := used + size;
      selected := selected + 1;
    }
    assert items[..selected] == items;
    r := Ok(items);
  }

  /** The reply built from the first `n` readable messages of a validated response. */
  function PageOf(raw: seq<RawItem>, ids: seq<int>, n: nat, before: int, lower: int): HistoryPage
    requires |raw| == |ids| && Descending(ids)
    requires n <= |Readable(raw, ids, lower)| && (n == 0 ==> Readable(raw, ids, lower) == [])
  {
    var readable := Readable(raw, ids, lower);
    var eligible := ids != [] && ids[0] > lower;
    var next :=
      if n < |readable| then readable[n - 1].id
      else if eligible then OldestAbove(ids, lower)
      else before;
    HistoryPage(readable[..n], next, !eligible)
  }

  lemma DeliveredAreListed(raw: seq<RawItem>, ids: seq<int>, lower: int, n: nat, id: int)
    requires |raw| == |ids| && n <= |Readable(raw, ids, lower)|
    requires Delivered(Readable(raw, ids, lower)[..n], id)
    ensures id in ids
  {
  }

  lemma ReadableIsNewestFirst(raw: seq<RawItem>, ids: seq<int>, lower: int)
    requires |raw| == |ids| && Descending(ids)
    ensures NewestFirst(Readable(raw, ids, lower))
  {
  }

  /** Among the page's readable messages, delivery is decided by comparing with the continuation. */
  lemma DeliveredIffNewer(raw: seq<RawItem>, ids: seq<int>, n: nat, before: int, lower: int, k: nat)
    requires |raw| == |ids| && Descending(ids)
    requires n <= |Readable(raw, ids, lower)| && (n == 0 ==> Readable(raw, ids, lower) == [])
    requires k < |ids| && ids[k] > lower && raw[k].slot.Message?
    ensures var page := PageOf(raw, ids, n, before, lower);
            page.next <= ids[k] <==> Delivered(page.items, ids[k])
  {
    hide Kept, Readable, OldestAbove;
    var kept := Kept(raw, ids, lower, 0);
    var readable := Readable(raw, ids, lower);
    assert k in kept;
    var i :| 0 <= i < |kept| && kept[i] == k;
    assert readable[i].id == ids[k];
    ReadableIsNewestFirst(raw, ids, lower);
    if i < n {
      assert readable[..n][i].id == ids[k];
      if n == |kept| {
        if k > 0 { assert ids[0] > ids[k]; }
        assert ids[k] in ids;
      } else if i < n - 1 {
        assert readable[i].id > readable[n - 1].id;
      }
    } else {
      forall j | 0 <= j < n ensures readable[..n][j].id != ids[k] {
        assert readable[j].id > readable[i].id;
      }
    }
  }

  lemma PageTakesPrefix(raw: seq<RawItem>, ids: seq<int>, n: nat, before: int, lower: int)
    requires |raw| == |ids| && Descending(ids) && n <= |Readable(raw, ids, lower)|
    requires n == 0 ==> Readable(raw, ids, lower) == []
    ensures PageOf(raw, ids, n, before, lower).items == Readable(raw, ids, lower)[..n]
  {
  }

  lemma NextIsListed(raw: seq<RawItem>, ids: seq<int>, n: nat, before: int, lower: int)
    requires |raw| == |ids| && Descending(ids) && n <= |Readable(raw, ids, lower)|
    requires n == 0 ==> Readable(raw, ids, lower) == []
    requires !PageOf(raw, ids, n, before, lower).done
    ensures PageOf(raw, ids, n, before, lower).next in ids
  {
    if n < |Readable(raw, ids, lower)| {
      assert ids[Kept(raw, ids, lower, 0)[n - 1]] == PageOf(raw, ids, n, before, lower).next;
    }
  }

  /** The continuation splits the window: messages at or above it were delivered, the rest were not. */
  lemma NextIsExact(h: History, live: History, raw: seq<RawItem>, n: nat,
                    lower: int, upper: int, before: int, limit: nat)
    requires limit > 0 && 0 <= lower
    requires AgreeUpTo(h, live, upper) && TelegramResponse(live, raw, lower, upper, before, limit)
    requires n <= |Readable(raw, RawIds(raw), lower)|
    requires n == 0 ==> Readable(raw, RawIds(raw), lower) == []
    requires !PageOf(raw, RawIds(raw), n, before, lower).done
    ensures var page := PageOf(raw, RawIds(raw), n, before, lower);
            SplitAt(h, page.items, page.next, lower, upper, before)
  {
    hide Kept, Readable, OldestAbove, PageOf, Delivered;
    var ids := RawIds(raw);
    var page := PageOf(raw, ids, n, before, lower);
    NextIsListed(raw, ids, n, before, lower);
    LastIsOldest(ids, page.next);
    PageTakesPrefix(raw, ids, n, before, lower);
    forall id | IsMessage(h, id) && InWindow(id, lower, upper, before)
      ensures page.next <= id <==> Delivered(page.items, id)
    {
      if id in ids {
        var k :| 0 <= k < |ids| && ids[k] == id;
        DeliveredIffNewer(raw, ids, n, before, lower, k);
      } else {
        assert id in live.Keys && id < page.next;
        if Delivered(page.items, id) { DeliveredAreListed(raw, ids, lower, n, id); }
      }
    }
  }

  lemma ReadableIsGenuine(h: History, live: History, raw: seq<RawItem>, lower: int, upper: int, before: int, limit: nat)
    requires AgreeUpTo(h, live, upper) && TelegramResponse(live, raw, lower, upper, before, limit)
    ensures Genuine(h, Readable(raw, RawIds(raw), lower), lower, upper, before)
  {
  }

  /** A page without a single id says the window is empty. */
  lemma DoneMeansExhausted(h: History, live: History, raw: seq<RawItem>, lower: int, upper: int, before: int,
                           limit: nat)
    requires limit > 0
    requires AgreeUpTo(h, live, upper) && TelegramResponse(live, raw, lower, upper, before, limit)
    ensures raw == [] <==> Exhausted(h, lower, upper, before)
  {
    var ids := RawIds(raw);
    if raw == [] {
      forall id | id in h ensures !InWindow(id, lower, upper, before) {
        assert id in live.Keys <== id <= upper;
      }
    } else {
      assert ids[0] in ids;
      assert ids[0] in live.Keys;
      assert ids[0] in h;
    }
  }

  /** However far the byte limit trims a good response, the reply is one the client can rely on. */
  lemma TrimmedPageConforms(h: History, live: History, raw: seq<RawItem>, n: nat,
                            lower: int, upper: int, before: int, limit: nat)
    requires limit > 0 && 0 <= lower
    requires AgreeUpTo(h, live, upper) && TelegramResponse(live, raw, lower, upper, before, limit)
    requires n <= |Readable(raw, RawIds(raw), lower)|
    requires n == 0 ==> Readable(raw, RawIds(raw), lower) == []
    ensures ConformingPage(h, PageOf(raw, RawIds(raw), n, before, lower), lower, upper, before)
  {
    hide Kept, Readable, OldestAbove, SplitAt, Exhausted;
    var ids := RawIds(raw);
    ReadableIsNewestFirst(raw, ids, lower);
    ReadableIsGenuine(h, live, raw, lower, upper, before, limit);
    DoneMeansExhausted(h, live, raw, lower, upper, before, limit);
    assert raw != [] ==> ids[0] > lower by {
      if raw != [] { assert ids[0] in ids; }
    }
    if raw != [] {
      NextIsExact(h, live, raw, n, lower, upper, before, limit);
    }
  }

  // ------------------------------------------------------------------ what a request answers

  /** Position `i` of a response holds a readable message above the lower boundary. */
  ghost predicate Offers(raw: seq<RawItem>, lower: int, i: int) {
    0 <= i < |raw| && raw[i].id.Some? && raw[i].id.value > lower && raw[i].slot.Message?
  }

  /** The readable messages above the lower boundary among the first `end` items, in page order. */
  ghost function Offered(raw: seq<RawItem>, lower: int, end: nat): seq<Item>
    requires end <= |raw|
  {
    if end == 0 then []
    else
      var before := Offered(raw, lower, end - 1);
      if Offers(raw, lower, end - 1)
      then before + [Item(raw[end - 1].id.value, raw[end - 1].slot.payload, raw[end - 1].slot.size)]
      else before
  }

  /** The items are the readable messages in front of `end`, and with the one at `end` they would not fit. */
  ghost predicate CutAt(raw: seq<RawItem>, lower: int, items: seq<Item>, end: nat) {
    && end <= |raw| && items == Offered(raw, lower, end) && Total(items) <= RESPONSE_BYTES
    && (end < |raw| ==>
          Offers(raw, lower, end) && Total(items) + raw[end].slot.size + ITEM_SEPARATOR_BYTES > RESPONSE_BYTES)
  }

  /** The reply carries the readable messages from the newest on, as many as fit. */
  ghost predicate AsManyAsFit(raw: seq<RawItem>, lower: int, items: seq<Item>) {
    exists end: nat :: CutAt(raw, lower, items, end)
  }

  /** The newest readable message above the lower boundary exceeds the reply alone. */
  ghost predicate NewestTooLarge(raw: seq<RawItem>, lower: int) {
    exists end: nat :: TooLargeAt(raw, lower, end)
  }

  ghost predicate TooLargeAt(raw: seq<RawItem>, lower: int, end: nat) {
    && end < |raw| && Offered(raw, lower, end) == [] && Offers(raw, lower, end)
    && raw[end].slot.size + ITEM_SEPARATOR_BYTES > RESPONSE_BYTES
  }

  ghost predicate AboveAt(raw: seq<RawItem>, lower: int, i: int) {
    0 <= i < |raw| && raw[i].id.Some? && raw[i].id.value > lower
  }

  /** Done when no id is above the boundary; otherwise on from the last item of a trimmed page, or from the oldest id
      above the boundary. */
  ghost predicate ContinuesBelow(raw: seq<RawItem>, lower: int, before: int, page: HistoryPage) {
    && (page.done <==> forall i :: !AboveAt(raw, lower, i))
    && if |page.items| < |Offered(raw, lower, |raw|)| then
         page.items != [] && page.next == page.items[|page.items| - 1].id
       else if page.done then page.next == before
       else
         && (exists i :: AboveAt(raw, lower, i) && raw[i].id.value == page.next)
         && forall i :: AboveAt(raw, lower, i) ==> page.next <= raw[i].id.value
  }

  /** Cutting the response or cutting the list of readable messages is the same. */
  lemma {:induction false} OfferedIsReadable(raw: seq<RawItem>, ids: seq<int>, lower: int, end: nat, n: nat)
    requires |raw| == |ids| && forall i :: 0 <= i < |raw| ==> raw[i].id == Some(ids[i])
    requires end <= |raw| && n <= |Kept(raw, ids, lower, 0)|
    requires var kept := Kept(raw, ids, lower, 0);
             (forall i :: 0 <= i < n ==> kept[i] < end) && forall i :: n <= i < |kept| ==> end <= kept[i]
    ensures Offered(raw, lower, end) == Readable(raw, ids, lower)[..n]
  {
    hide Kept, Readable;
    if end > 0 {
      var last := end - 1;
      if Offers(raw, lower, last) {
        LastOffered(raw, ids, lower, end, n);
        OfferedIsReadable(raw, ids, lower, last, n - 1);
        var readable := Readable(raw, ids, lower);
        assert readable[..n] == readable[..n - 1] + [readable[n - 1]];
      } else {
        NotOffered(raw, ids, lower, last);
        OfferedIsReadable(raw, ids, lower, last, n);
      }
    }
  }

  lemma LastOffered(raw: seq<RawItem>, ids: seq<int>, lower: int, end: nat, n: nat)
    requires |raw| == |ids| && forall i :: 0 <= i < |raw| ==> raw[i].id == Some(ids[i])
    requires 0 < end <= |raw| && n <= |Kept(raw, ids, lower, 0)| && Offers(raw, lower, end - 1)
    requires var kept := Kept(raw, ids, lower, 0);
             (forall i :: 0 <= i < n ==> kept[i] < end) && forall i :: n <= i < |kept| ==> end <= kept[i]
    ensures n > 0 && Kept(raw, ids, lower, 0)[n - 1] == end - 1
    ensures forall i :: 0 <= i < n - 1 ==> Kept(raw, ids, lower, 0)[i] < end - 1
    ensures Readable(raw, ids, lower)[n - 1]
            == Item(raw[end - 1].id.value, raw[end - 1].slot.payload, raw[end - 1].slot.size)
  {
    var kept := Kept(raw, ids, lower, 0);
    hide Kept, Readable;
    assert end - 1 in kept;
    var at :| 0 <= at < |kept| && kept[at] == end - 1;
    assert at < n && kept[n - 1] < end;
  }

  lemma NotOffered(raw: seq<RawItem>, ids: seq<int>, lower: int, k: nat)
    requires |raw| == |ids| && forall i :: 0 <= i < |raw| ==> raw[i].id == Some(ids[i])
    requires k < |raw| && !Offers(raw, lower, k)
    ensures forall i :: 0 <= i < |Kept(raw, ids, lower, 0)| ==> Kept(raw, ids, lower, 0)[i] != k
  {
    hide Kept;
  }

  /** The position behind the first `n` readable messages. */
  function EndOf(raw: seq<RawItem>, ids: seq<int>, lower: int, n: nat): nat
    requires |raw| == |ids| && n <= |Kept(raw, ids, lower, 0)|
  {
    var kept := Kept(raw, ids, lower, 0);
    if n < |kept| then kept[n] else |raw|
  }

  lemma FirstReadable(raw: seq<RawItem>, ids: seq<int>, lower: int, n: nat)
    requires |raw| == |ids| && forall i :: 0 <= i < |raw| ==> raw[i].id == Some(ids[i])
    requires n <= |Readable(raw, ids, lower)|
    ensures var end := EndOf(raw, ids, lower, n);
            && end <= |raw| && Offered(raw, lower, end) == Readable(raw, ids, lower)[..n]
            && (n < |Readable(raw, ids, lower)| ==>
                  && end < |raw| && Offers(raw, lower, end)
                  && Readable(raw, ids, lower)[n].size == raw[end].slot.size)
            && (n == |Readable(raw, ids, lower)| ==> end == |raw|)
  {
    OfferedIsReadable(raw, ids, lower, EndOf(raw, ids, lower, n), n);
  }

  lemma AllReadable(raw: seq<RawItem>, ids: seq<int>, lower: int)
    requires |raw| == |ids| && forall i :: 0 <= i < |raw| ==> raw[i].id == Some(ids[i])
    ensures Offered(raw, lower, |raw|) == Readable(raw, ids, lower)
  {
    hide Kept, Readable;
    FirstReadable(raw, ids, lower, |Readable(raw, ids, lower)|);
  }

  /** A prefix that cannot be longer is what a request answers. */
  lemma LongestFitIsFull(raw: seq<RawItem>, ids: seq<int>, lower: int, items: seq<Item>)
    requires |raw| == |ids| && forall i :: 0 <= i < |raw| ==> raw[i].id == Some(ids[i])
    requires var readable := Readable(raw, ids, lower);
             && items <= readable && Total(items) <= RESPONSE_BYTES
             && forall n :: |items| < n <= |readable| ==> Total(readable[..n]) > RESPONSE_BYTES
    ensures AsManyAsFit(raw, lower, items)
  {
    hide Kept, Readable, Offered, EndOf, Offers, Total;
    var readable, n := Readable(raw, ids, lower), |items|;
    FirstReadable(raw, ids, lower, n);
    assert items == readable[..n];
    if n < |readable| { OneMoreTotal(readable, n); }
    assert CutAt(raw, lower, items, EndOf(raw, ids, lower, n));
  }

  lemma OneMoreTotal(items: seq<Item>, n: nat)
    requires n < |items|
    ensures Total(items[..n + 1]) == Total(items[..n]) + items[n].size + ITEM_SEPARATOR_BYTES
  {
    assert items[..n + 1][..n] == items[..n];
  }

  lemma FirstExceeds(raw: seq<RawItem>, ids: seq<int>, lower: int)
    requires |raw| == |ids| && forall i :: 0 <= i < |raw| ==> raw[i].id == Some(ids[i])
    ensures NewestTooLarge(raw, lower)
            <==> var readable := Readable(raw, ids, lower);
                 readable != [] && readable[0].size + ITEM_SEPARATOR_BYTES > RESPONSE_BYTES
  {
    hide Kept, Readable, EndOf;
    var readable := Readable(raw, ids, lower);
    FirstReadable(raw, ids, lower, 0);
    if readable != [] && readable[0].size + ITEM_SEPARATOR_BYTES > RESPONSE_BYTES {
      assert TooLargeAt(raw, lower, EndOf(raw, ids, lower, 0));
    }
    if NewestTooLarge(raw, lower) {
      var end: nat :| TooLargeAt(raw, lower, end);
      FirstOfferIsFirstReadable(raw, ids, lower, end);
    }
  }

  lemma FirstOfferIsFirstReadable(raw: seq<RawItem>, ids: seq<int>, lower: int, end: nat)
    requires |raw| == |ids| && forall i :: 0 <= i < |raw| ==> raw[i].id == Some(ids[i])
    requires end < |raw| && Offers(raw, lower, end) && Offered(raw, lower, end) == []
    ensures var readable := Readable(raw, ids, lower);
            readable != [] && readable[0].size == raw[end].slot.size
  {
    var kept := Kept(raw, ids, lower, 0);
    assert end in kept;
    var at :| 0 <= at < |kept| && kept[at] == end;
    if at > 0 {
      NothingOffered(raw, lower, end, kept[0]);
    }
  }

  lemma {:induction false} NothingOffered(raw: seq<RawItem>, lower: int, end: nat, i: nat)
    requires i < end <= |raw| && Offered(raw, lower, end) == []
    ensures !Offers(raw, lower, i)
  {
    if i < end - 1 { NothingOffered(raw, lower, end - 1, i); }
  }

  /** The flag and the continuation of a reply, read off the response. */
  lemma PageContinues(raw: seq<RawItem>, ids: seq<int>, n: nat, before: int, lower: int)
    requires |raw| == |ids| && Descending(ids) && forall i :: 0 <= i < |raw| ==> raw[i].id == Some(ids[i])
    requires n <= |Readable(raw, ids, lower)| && (n == 0 ==> Readable(raw, ids, lower) == [])
    ensures ContinuesBelow(raw, lower, before, PageOf(raw, ids, n, before, lower))
  {
    hide Kept, Readable, Offered, OldestAbove, AboveAt, Descending, Total;
    AllReadable(raw, ids, lower);
    NothingAbove(raw, ids, lower);
    var readable, page := Readable(raw, ids, lower), PageOf(raw, ids, n, before, lower);
    assert page.items == readable[..n];
    if n < |readable| {
      assert page.items[n - 1] == readable[n - 1];
    } else if ids != [] && ids[0] > lower {
      OldestIsAbove(raw, ids, lower);
    }
  }

  lemma NothingAbove(raw: seq<RawItem>, ids: seq<int>, lower: int)
    requires |raw| == |ids| && Descending(ids) && forall i :: 0 <= i < |raw| ==> raw[i].id == Some(ids[i])
    ensures (ids != [] && ids[0] > lower) <==> exists i :: AboveAt(raw, lower, i)
  {
    if ids != [] && ids[0] > lower {
      assert AboveAt(raw, lower, 0);
    } else {
      forall i ensures !AboveAt(raw, lower, i) { assert 0 < i < |ids| ==> ids[0] > ids[i]; }
    }
  }

  lemma OldestIsAbove(raw: seq<RawItem>, ids: seq<int>, lower: int)
    requires |raw| == |ids| && Descending(ids) && forall i :: 0 <= i < |raw| ==> raw[i].id == Some(ids[i])
    requires ids != [] && ids[0] > lower
    ensures exists i :: AboveAt(raw, lower, i) && raw[i].id.value == OldestAbove(ids, lower)
    ensures forall i :: AboveAt(raw, lower, i) ==> OldestAbove(ids, lower) <= raw[i].id.value
  {
    var oldest := OldestAbove(ids, lower);
    assert oldest in ids && oldest > lower;
    var k :| 0 <= k < |ids| && ids[k] == oldest;
    hide OldestAbove;
    assert raw[k].id == Some(oldest);
    assert AboveAt(raw, lower, k);
    forall i | AboveAt(raw, lower, i) ensures oldest <= raw[i].id.value {
      assert raw[i].id == Some(ids[i]) && ids[i] in ids;
    }
  }

  /** One history request: an error exactly for a response with unsound ids or a newest message that never fits,
      otherwise the readable messages from the newest on, as many as fit, and where to go on. */
  method ServeHistory(raw: seq<RawItem>, upper: int, before: int, lower: int) returns (r: Result<HistoryPage>)
    requires 0 <= upper <= MAX_MESSAGE_ID && 0 <= before && 0 <= lower
    ensures r.Err? <==> upper > lower && (!SoundIds(raw, upper, before, MAX_MESSAGE_ID) || NewestTooLarge(raw, lower))
    ensures upper <= lower ==> r == Ok(HistoryPage([], before, true))
    ensures r.Ok? && upper > lower ==>
              AsManyAsFit(raw, lower, r.value.items) && ContinuesBelow(raw, lower, before, r.value)
    ensures forall h, live, limit: nat :: limit > 0 && r.Ok? && upper > lower
              && AgreeUpTo(h, live, upper) && TelegramResponse(live, raw, lower, upper, before, limit)
              ==> ConformingPage(h, r.value, lower, upper, before)
  {
    hide Kept, Readable, PageOf, Offered, SoundIds, NewestTooLarge, AsManyAsFit, ContinuesBelow;
    hide ConformingPage, TelegramResponse, AgreeUpTo;
    if upper <= lower {
      return Ok(HistoryPage([], before, true));
    }
    var checked := HistoryIds(raw, upper, before, MAX_MESSAGE_ID);
    if checked.Err? {
      return Err(checked.message);
    }
    var ids := checked.value;
    var readable := Readable(raw, ids, lower);
    FirstExceeds(raw, ids, lower);
    var bounded := BoundedPage(readable);
    if bounded.Err? {
      return Err(bounded.message);
    }
    assert bounded.value == [] ==> readable == [] by {
      if bounded.value == [] && readable != [] { SingleTotal(readable); }
    }
    LongestFitIsFull(raw, ids, lower, bounded.value);
    var n := |bounded.value|;
    assert bounded.value == readable[..n];
    r := Ok(PageOf(raw, ids, n, before, lower));
    PageTakesPrefix(raw, ids, n, before, lower);
    PageContinues(raw, ids, n, before, lower);
    forall h, live, limit: nat | limit > 0 && AgreeUpTo(h, live, upper)
      && TelegramResponse(live, raw, lower, upper, before, limit)
      ensures ConformingPage(h, r.value, lower, upper, before)
    {
      ResponseIds(live, raw, ids, lower, upper, before, limit);
      TrimmedPageConforms(h, live, raw, n, lower, upper, before, limit);
    }
  }

  lemma ResponseIds(live: History, raw: seq<RawItem>, ids: seq<int>, lower: int, upper: int, before: int, limit: nat)
    requires TelegramResponse(live, raw, lower, upper, before, limit)
    requires |raw| == |ids| && forall i :: 0 <= i < |raw| ==> raw[i].id == Some(ids[i])
    ensures forall i :: 0 <= i < |raw| ==> raw[i].id.Some?
    ensures RawIds(raw) == ids
  {
  }

  /** Against Telegram's page contract no id check of the daemon ever fires. */
  lemma ContractPassesChecks(live: History, raw: seq<RawItem>, lower: int, upper: int, before: int, limit: nat)
    requires 0 <= lower && upper <= MAX_MESSAGE_ID
    requires TelegramResponse(live, raw, lower, upper, before, limit)
    ensures HistoryIds(raw, upper, before, MAX_MESSAGE_ID) == Ok(RawIds(raw))
  {
  }

  /** The smallest id above the boundary. */
  function OldestAbove(ids: seq<int>, lower: int): (id: int)
    requires Descending(ids) && ids != [] && ids[0] > lower
    ensures id in ids && id > lower
    ensures forall other :: other in ids && other > lower ==> id <= other
  {
    if |ids| > 1 && ids[|ids| - 1] <= lower then
      assert ids == ids[..|ids| - 1] + [ids[|ids| - 1]];
      OldestAbove(ids[..|ids| - 1], lower)
    else
      assert forall other :: other in ids ==> ids[|ids| - 1] <= other by {
        forall other | other in ids ensures ids[|ids| - 1] <= other { LastIsOldest(ids, other); }
      }
      ids[|ids| - 1]
  }
}
