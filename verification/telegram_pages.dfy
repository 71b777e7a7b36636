/** What Telegram promises about one bounded, newest-first page of a message history. */
module TelegramPages {
  import opened Common

  /** The newest-first order every page and every saved sequence of ids is in. */
  ghost predicate Descending(ids: seq<int>) {
    forall i, j :: 0 <= i < j < |ids| ==> ids[i] > ids[j]
  }

  /** `lower` is exclusive, `upper` inclusive, `before` exclusive with 0 for "no bound". */
  predicate InWindow(id: int, lower: int, upper: int, before: int) {
    lower < id <= upper && (before == 0 || id < before)
  }

  /** The page holds the newest `limit` messages of the window: whatever it leaves out is older than all of it. */
  ghost predicate IsNewestPage(history: set<int>, page: seq<int>, lower: int, upper: int, before: int, limit: nat) {
    && Descending(page)
    && |page| <= limit
    && (forall id :: id in page ==> id in history && InWindow(id, lower, upper, before))
    && (forall id :: id in history && InWindow(id, lower, upper, before) && id !in page ==>
          |page| == limit && (page != [] ==> id < page[|page| - 1]))
  }

  lemma LastIsOldest(ids: seq<int>, id: int)
    requires Descending(ids) && id in ids
    ensures ids[|ids| - 1] <= id <= ids[0]
  {
  }

  // ------------------------------------------------ pages of a history that moves on

  /** The page leaves out nothing between its bounds (with no upper bound: up to its own newest id), except
      below a full page. */
  ghost predicate Covers(history: set<int>, top: int, page: seq<int>, lower: int, before: int, limit: nat) {
    && Descending(page) && |page| <= limit
    && (forall id :: id in page ==> InWindow(id, lower, top, before))
    && (forall id :: id in history && lower < id && id !in page
                     && (if before == 0 then page != [] && id <= page[0] else id < before)
                     ==> |page| == limit && (page != [] ==> id < page[|page| - 1]))
  }

  lemma SearchCovers(history: set<int>, top: int, page: seq<int>, lower: int, before: int, limit: nat)
    requires IsNewestPage(history, page, lower, top, before, limit)
    requires forall id :: id in history ==> id <= top
    ensures Covers(history, top, page, lower, before, limit)
  {
  }

  /** Arrivals are newer than every page in flight, removals only shrink what must be covered. */
  lemma CoversSurvives(history: set<int>, top: int, later: set<int>, laterTop: int,
                       page: seq<int>, lower: int, before: int, limit: nat)
    requires Covers(history, top, page, lower, before, limit) && before <= top <= laterTop
    requires forall id :: id in later ==> id in history || id > top
    ensures Covers(later, laterTop, page, lower, before, limit)
  {
    forall id | id in later && lower < id && id !in page
                && (if before == 0 then page != [] && id <= page[0] else id < before)
      ensures |page| == limit && (page != [] ==> id < page[|page| - 1])
    {
      assert page != [] ==> page[0] in page;
    }
  }
}
