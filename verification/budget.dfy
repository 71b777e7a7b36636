/** Sharing an unread-message budget: tiers in order, round-robin inside a tier, a cap per chat. */
module Budget {
  import opened Common

  datatype Chat = Chat(id: int)

  /** What one chat can take at most. */
  function Want(unread: map<Chat, int>, cap: int, chat: Chat): nat
    requires chat in unread
  {
    Max(0, Min(unread[chat], cap))
  }

  function Total(chats: seq<Chat>, allocation: map<Chat, nat>): nat
    requires forall c :: c in chats ==> c in allocation
  {
    if chats == [] then 0 else Total(chats[..|chats| - 1], allocation) + allocation[chats[|chats| - 1]]
  }

  function Wants(chats: seq<Chat>, unread: map<Chat, int>, cap: int): (w: map<Chat, nat>)
    requires forall c :: c in chats ==> c in unread
    ensures forall c :: c in w <==> c in chats
    ensures forall c :: c in w ==> w[c] == Want(unread, cap, c)
  {
    map c | c in chats :: Want(unread, cap, c)
  }

  ghost predicate Distinct(chats: seq<Chat>) {
    forall i, j :: 0 <= i < j < |chats| ==> chats[i] != chats[j]
  }

  /** One tier filled to a common level: unsaturated chats hold `level`, the first `extra` chats may hold one more. */
  ghost predicate Level(chats: seq<Chat>, want: map<Chat, nat>, allocation: map<Chat, nat>, level: nat, extra: nat) {
    && (forall c :: c in chats ==> c in want && c in allocation)
    && extra <= |chats|
    && forall i :: 0 <= i < |chats| ==>
         allocation[chats[i]] == Min(want[chats[i]], if i < extra then level + 1 else level)
  }

  /** The shape inside a tier, and what it adds up to. */
  ghost predicate WaterFilled(chats: seq<Chat>, want: map<Chat, nat>, allocation: map<Chat, nat>, budget: nat) {
    && (exists level: nat, extra: nat :: Level(chats, want, allocation, level, extra))
    && (forall c :: c in chats ==> c in want && c in allocation)
    && Total(chats, allocation) == Min(budget, Total(chats, want))
  }

  lemma {:induction false} TotalMonotone(chats: seq<Chat>, a: map<Chat, nat>, b: map<Chat, nat>)
    requires forall c :: c in chats ==> c in a && c in b && a[c] <= b[c]
    ensures Total(chats, a) <= Total(chats, b)
    ensures (exists c :: c in chats && a[c] < b[c]) ==> Total(chats, a) < Total(chats, b)
  {
    if chats != [] {
      var n := |chats| - 1;
      TotalMonotone(chats[..n], a, b);
      if c :| c in chats && a[c] < b[c] {
        assert c in chats[..n] || c == chats[n];
      }
    }
  }

  lemma {:induction false} TotalAgrees(chats: seq<Chat>, a: map<Chat, nat>, b: map<Chat, nat>)
    requires forall c :: c in chats ==> c in a && c in b && a[c] == b[c]
    ensures Total(chats, a) == Total(chats, b)
  {
    if chats != [] {
      TotalAgrees(chats[..|chats| - 1], a, b);
    }
  }

  /** Giving one more unit to one chat of a duplicate-free list adds one to the total. */
  lemma {:induction false} TotalBump(chats: seq<Chat>, a: map<Chat, nat>, i: nat)
    requires Distinct(chats) && i < |chats| && forall c :: c in chats ==> c in a
    ensures Total(chats, a[chats[i] := a[chats[i]] + 1]) == Total(chats, a) + 1
  {
    var n := |chats| - 1;
    var b := a[chats[i] := a[chats[i]] + 1];
    if i < n {
      TotalBump(chats[..n], a, i);
    } else {
      TotalAgrees(chats[..n], a, b);
    }
  }

  /** Nothing outside the tier is touched, and every unit given is taken from the budget. */
  ghost predicate Moved(chats: seq<Chat>, before: map<Chat, nat>, after: map<Chat, nat>, budget: nat, left: nat) {
    && after.Keys == before.Keys
    && (forall c :: c in before && c !in chats ==> after[c] == before[c])
    && (forall c :: c in chats ==> c in after)
    && Total(chats, after) + left == budget
  }

  /** Serving the chat at position `i` moves the water line one chat further. */
  lemma ServeOne(chats: seq<Chat>, want: map<Chat, nat>, a: map<Chat, nat>, level: nat, i: nat)
    requires Distinct(chats) && i < |chats| && Level(chats, want, a, level, i)
    ensures a[chats[i]] < want[chats[i]] ==> Level(chats, want, a[chats[i] := a[chats[i]] + 1], level, i + 1)
    ensures a[chats[i]] >= want[chats[i]] ==> Level(chats, want, a, level, i + 1) && a[chats[i]] == want[chats[i]]
  {
  }

  lemma GiveOne(chats: seq<Chat>, before: map<Chat, nat>, after: map<Chat, nat>, budget: nat, left: nat, i: nat)
    requires Distinct(chats) && i < |chats| && Moved(chats, before, after, budget, left) && left > 0
    ensures Moved(chats, before, after[chats[i] := after[chats[i]] + 1], budget, left - 1)
  {
    TotalBump(chats, after, i);
  }

  /** One round: every chat that is not saturated takes one unit, in ranked order, while the budget lasts. */
  method Round(chats: seq<Chat>, unread: map<Chat, int>, allocation: map<Chat, nat>, remaining: nat, cap: int,
               ghost budget: nat, ghost level: nat)
    returns (filled: map<Chat, nat>, left: nat, advanced: bool)
    requires Distinct(chats) && remaining > 0 && forall c :: c in chats ==> c in unread
    requires Moved(chats, allocation, allocation, budget, remaining)
    requires Level(chats, Wants(chats, unread, cap), allocation, level, 0)
    ensures Moved(chats, allocation, filled, budget, left)
    ensures advanced <==> left < remaining
    ensures !advanced ==> left == remaining && forall c :: c in chats ==> filled[c] == Wants(chats, unread, cap)[c]
    ensures exists extra: nat :: Level(chats, Wants(chats, unread, cap), filled, level, extra)
    ensures left > 0 ==> Level(chats, Wants(chats, unread, cap), filled, level + 1, 0)
  {
    hide Level, Total, Wants, Distinct;
    ghost var want := Wants(chats, unread, cap);
    filled, left, advanced := allocation, remaining, false;
    var i := 0;
    while i < |chats| && left > 0
      invariant i <= |chats|
      invariant Moved(chats, allocation, filled, budget, left)
      invariant Level(chats, want, filled, level, i)
      invariant advanced <==> left < remaining
      invariant !advanced ==> filled == allocation && left == remaining
      invariant !advanced ==> forall k :: 0 <= k < i ==> filled[chats[k]] == want[chats[k]]
    {
      var chat := chats[i];
      ServeOne(chats, want, filled, level, i);
      if filled[chat] < Min(unread[chat], cap) {
        GiveOne(chats, allocation, filled, budget, left, i);
        filled := filled[chat := filled[chat] + 1];
        left := left - 1;
        advanced := true;
      }
      i := i + 1;
    }
    if left > 0 {
      NextLevel(chats, want, filled, level);
    }
  }

  /** Repeats rounds over a tier until the budget is spent or every chat is saturated. */
  method AllocateTier(chats: seq<Chat>, unread: map<Chat, int>, allocation: map<Chat, nat>, budget: nat, cap: int)
    returns (filled: map<Chat, nat>, remaining: nat)
    requires Distinct(chats) && forall c :: c in chats ==> c in unread && c in allocation && allocation[c] == 0
    ensures filled.Keys == allocation.Keys
    ensures forall c :: c in allocation && c !in chats ==> filled[c] == allocation[c]
    ensures WaterFilled(chats, Wants(chats, unread, cap), filled, budget)
    ensures remaining == budget - Total(chats, filled)
  {
    hide Total, Wants;
    ghost var want := Wants(chats, unread, cap);
    filled, remaining := allocation, budget;
    ghost var level := 0;
    ZeroTotal(chats, filled);
    assert Level(chats, want, filled, 0, 0);
    while remaining > 0
      invariant Moved(chats, allocation, filled, budget, remaining)
      invariant remaining > 0 ==> Level(chats, want, filled, level, 0)
      invariant exists extra: nat :: Level(chats, want, filled, level, extra)
      decreases remaining
    {
      var left, advanced;
      filled, left, advanced := Round(chats, unread, filled, remaining, cap, budget, level);
      remaining := left;
      if !advanced {
        TotalAgrees(chats, filled, want);
        break;
      }
      level := if remaining > 0 then level + 1 else level;
    }
    LevelBelowWant(chats, want, filled);
    TotalMonotone(chats, filled, want);
  }

  lemma LevelBelowWant(chats: seq<Chat>, want: map<Chat, nat>, allocation: map<Chat, nat>)
    requires exists level: nat, extra: nat :: Level(chats, want, allocation, level, extra)
    ensures forall c :: c in chats ==> c in want && c in allocation && allocation[c] <= want[c]
  {
  }

  lemma {:induction false} ZeroTotal(chats: seq<Chat>, a: map<Chat, nat>)
    requires forall c :: c in chats ==> c in a && a[c] == 0
    ensures Total(chats, a) == 0
  {
    if chats != [] { ZeroTotal(chats[..|chats| - 1], a); }
  }

  /** A full round raises the level by one. */
  lemma NextLevel(chats: seq<Chat>, want: map<Chat, nat>, allocation: map<Chat, nat>, level: nat)
    requires Level(chats, want, allocation, level, |chats|)
    ensures Level(chats, want, allocation, level + 1, 0)
  {
  }

  // ------------------------------------------------------------------ all tiers

  /** The chats of one tier, in ranked order. */
  function TierChats(order: seq<Chat>, tiers: map<Chat, int>, tier: int): (r: seq<Chat>)
    requires forall c :: c in order ==> c in tiers
    ensures forall c :: c in r <==> c in order && tiers[c] == tier
  {
    if order == [] then []
    else
      var n := |order| - 1;
      var before := TierChats(order[..n], tiers, tier);
      if tiers[order[n]] == tier then before + [order[n]] else before
  }

  lemma {:induction false} TierChatsDistinct(order: seq<Chat>, tiers: map<Chat, int>, tier: int)
    requires Distinct(order) && forall c :: c in order ==> c in tiers
    ensures Distinct(TierChats(order, tiers, tier))
  {
    if order != [] {
      TierChatsDistinct(order[..|order| - 1], tiers, tier);
    }
  }

  /** One tier has one water line. */
  ghost predicate TierLevelled(order: seq<Chat>, want: map<Chat, nat>, tiers: map<Chat, int>, a: map<Chat, nat>,
                               tier: int)
    requires forall c :: c in order ==> c in tiers
  {
    exists level: nat, extra: nat :: Level(TierChats(order, tiers, tier), want, a, level, extra)
  }

  /** Exact water-filling: the whole usable budget, strict tier priority, one water line per tier. */
  ghost predicate Fair(order: seq<Chat>, want: map<Chat, nat>, tiers: map<Chat, int>, limit: int, a: map<Chat, nat>) {
    && (forall c :: c in order ==> c in want && c in tiers && c in a)
    && (forall c :: c in a ==> c in order)
    && Total(order, a) == Min(Max(0, limit), Total(order, want))
    && (forall c, d :: c in order && d in order && a[c] > 0 && tiers[d] < tiers[c] ==> a[d] == want[d])
    && forall tier: int :: TierLevelled(order, want, tiers, a, tier)
  }

  /** Two water lines of one tier: one lies below the other everywhere. */
  lemma LevelsCompare(chats: seq<Chat>, want: map<Chat, nat>, a: map<Chat, nat>, b: map<Chat, nat>)
    requires exists level: nat, extra: nat :: Level(chats, want, a, level, extra)
    requires exists level: nat, extra: nat :: Level(chats, want, b, level, extra)
    ensures forall c :: c in chats ==> c in want && c in a && c in b && a[c] <= want[c] && b[c] <= want[c]
    ensures (forall c :: c in chats ==> a[c] <= b[c]) || (forall c :: c in chats ==> b[c] <= a[c])
  {
  }

  lemma FairNeverCross(order: seq<Chat>, want: map<Chat, nat>, tiers: map<Chat, int>, limit: int,
                       a: map<Chat, nat>, b: map<Chat, nat>, c: Chat, d: Chat)
    requires Fair(order, want, tiers, limit, a) && Fair(order, want, tiers, limit, b) && c in order && d in order
    ensures !(a[c] < b[c] && a[d] > b[d])
  {
    assert TierLevelled(order, want, tiers, a, tiers[c]) && TierLevelled(order, want, tiers, b, tiers[c]);
    assert TierLevelled(order, want, tiers, a, tiers[d]) && TierLevelled(order, want, tiers, b, tiers[d]);
    LevelsCompare(TierChats(order, tiers, tiers[c]), want, a, b);
    LevelsCompare(TierChats(order, tiers, tiers[d]), want, a, b);
    assert c in TierChats(order, tiers, tiers[c]) && d in TierChats(order, tiers, tiers[d]);
  }

  /** The three clauses leave exactly one allocation, so they say everything the function computes. */
  lemma FairIsUnique(order: seq<Chat>, want: map<Chat, nat>, tiers: map<Chat, int>, limit: int, a: map<Chat, nat>,
                     b: map<Chat, nat>)
    requires Fair(order, want, tiers, limit, a) && Fair(order, want, tiers, limit, b)
    ensures a == b
  {
    hide Level, TierChats;
    if a != b {
      var c :| c in order && a[c] != b[c];
      forall d | d in order ensures a[c] < b[c] ==> a[d] <= b[d] {
        FairNeverCross(order, want, tiers, limit, a, b, c, d);
      }
      forall d | d in order ensures a[c] > b[c] ==> a[d] >= b[d] {
        FairNeverCross(order, want, tiers, limit, a, b, d, c);
      }
      if a[c] < b[c] { TotalMonotone(order, a, b); } else { TotalMonotone(order, b, a); }
    }
  }

  /** Only one tier changed, so the whole total moved by that tier's total. */
  lemma {:induction false} TotalSplit(order: seq<Chat>, tiers: map<Chat, int>, tier: int, a: map<Chat, nat>,
                                      b: map<Chat, nat>)
    requires forall c :: c in order ==> c in tiers && c in a && c in b
    requires forall c :: c in order && tiers[c] != tier ==> a[c] == b[c]
    ensures Total(order, b) - Total(order, a)
            == Total(TierChats(order, tiers, tier), b) - Total(TierChats(order, tiers, tier), a)
  {
    if order != [] {
      var n := |order| - 1;
      TotalSplit(order[..n], tiers, tier, a, b);
      var before := TierChats(order[..n], tiers, tier);
      if tiers[order[n]] == tier { assert (before + [order[n]])[..|before|] == before; }
    }
  }

  /** Tiers below `next` have been served: completely, unless the budget ran out; the others hold nothing yet. */
  ghost predicate Served(order: seq<Chat>, want: map<Chat, nat>, tiers: map<Chat, int>, limit: nat,
                         a: map<Chat, nat>, remaining: nat, next: int) {
    && (forall c :: c in order ==> c in want && c in tiers && c in a)
    && (forall c :: c in a ==> c in order)
    && (forall c :: c in order && tiers[c] >= next ==> a[c] == 0)
    && (remaining > 0 ==> forall c :: c in order && tiers[c] < next ==> a[c] == want[c])
    && Total(order, a) + remaining == limit
    && (forall c, d :: c in order && d in order && a[c] > 0 && tiers[d] < tiers[c] ==> a[d] == want[d])
    && forall tier: int :: TierLevelled(order, want, tiers, a, tier)
  }

  lemma ServedAtStart(order: seq<Chat>, want: map<Chat, nat>, tiers: map<Chat, int>, limit: nat, a: map<Chat, nat>,
                      next: int)
    requires forall c :: c in order ==> c in want && c in tiers && c in a && a[c] == 0
    requires forall c :: c in a ==> c in order
    requires forall c :: c in order ==> tiers[c] >= next
    ensures Served(order, want, tiers, limit, a, limit, next)
  {
    ZeroTotal(order, a);
    forall tier: int ensures TierLevelled(order, want, tiers, a, tier) {
      assert Level(TierChats(order, tiers, tier), want, a, 0, 0);
    }
  }

  /** Filling the next tier keeps all of it. */
  lemma ServedAfterTier(order: seq<Chat>, want: map<Chat, nat>, tiers: map<Chat, int>, limit: nat, a: map<Chat, nat>,
                        remaining: nat, tier: int, b: map<Chat, nat>)
    requires Served(order, want, tiers, limit, a, remaining, tier) && remaining > 0
    requires b.Keys == a.Keys && forall c :: c in order && tiers[c] != tier ==> b[c] == a[c]
    requires WaterFilled(TierChats(order, tiers, tier), want, b, remaining)
    ensures Served(order, want, tiers, limit, b, remaining - Total(TierChats(order, tiers, tier), b), tier + 1)
  {
    hide TierChats, TierLevelled, Level, Total;
    var chats := TierChats(order, tiers, tier);
    TotalSplit(order, tiers, tier, a, b);
    ZeroTotal(chats, a);
    SaturatedOrSpent(chats, want, b, remaining);
    forall t: int ensures TierLevelled(order, want, tiers, b, t) {
      assert TierLevelled(order, want, tiers, a, t);
      if t == tier {
        FilledIsLevelled(order, want, tiers, b, tier, remaining);
      } else {
        SameTierLevelled(order, want, tiers, a, b, t);
      }
    }
  }

  lemma FilledIsLevelled(order: seq<Chat>, want: map<Chat, nat>, tiers: map<Chat, int>, b: map<Chat, nat>,
                         tier: int, budget: nat)
    requires forall c :: c in order ==> c in tiers
    requires WaterFilled(TierChats(order, tiers, tier), want, b, budget)
    ensures TierLevelled(order, want, tiers, b, tier)
  {
  }

  lemma SameTierLevelled(order: seq<Chat>, want: map<Chat, nat>, tiers: map<Chat, int>, a: map<Chat, nat>,
                         b: map<Chat, nat>, tier: int)
    requires forall c :: c in order ==> c in tiers && c in a && c in b && (tiers[c] == tier ==> a[c] == b[c])
    requires TierLevelled(order, want, tiers, a, tier)
    ensures TierLevelled(order, want, tiers, b, tier)
  {
    hide TierChats;
    var level: nat, extra: nat :| Level(TierChats(order, tiers, tier), want, a, level, extra);
    assert Level(TierChats(order, tiers, tier), want, b, level, extra);
  }

  /** A tier that leaves budget over has all it wants. */
  lemma SaturatedOrSpent(chats: seq<Chat>, want: map<Chat, nat>, b: map<Chat, nat>, budget: nat)
    requires WaterFilled(chats, want, b, budget)
    ensures forall c :: c in chats ==> c in want && c in b
    ensures Total(chats, b) <= budget
    ensures Total(chats, b) < budget ==> forall c :: c in chats ==> b[c] == want[c]
  {
    LevelBelowWant(chats, want, b);
    if Total(chats, b) < budget && exists c :: c in chats && b[c] < want[c] { TotalMonotone(chats, b, want); }
  }

  lemma ServedIsFair(order: seq<Chat>, want: map<Chat, nat>, tiers: map<Chat, int>, limit: nat, a: map<Chat, nat>,
                     remaining: nat, next: int)
    requires Served(order, want, tiers, limit, a, remaining, next)
    requires remaining == 0 || forall c :: c in order ==> tiers[c] < next
    ensures Fair(order, want, tiers, limit, a)
  {
    hide TierChats;
    forall c | c in order ensures a[c] <= want[c] {
      assert TierLevelled(order, want, tiers, a, tiers[c]);
      LevelBelowWant(TierChats(order, tiers, tiers[c]), want, a);
      assert c in TierChats(order, tiers, tiers[c]);
    }
    TotalMonotone(order, a, want);
    if remaining > 0 { TotalAgrees(order, a, want); }
  }

  /** `sorted` holds every tier that occurs, ascending. */
  ghost predicate Ascending(order: seq<Chat>, tiers: map<Chat, int>, sorted: seq<int>) {
    Increasing(sorted) && forall c :: c in order ==> c in tiers && HasTier(sorted, tiers[c])
  }

  /** No chat lies between `next` and the tier at position `k`. */
  ghost predicate Reached(order: seq<Chat>, tiers: map<Chat, int>, sorted: seq<int>, k: nat, next: int)
    requires forall c :: c in order ==> c in tiers
  {
    && k <= |sorted|
    && (k < |sorted| ==> next <= sorted[k])
    && forall c :: c in order && tiers[c] >= next ==> k < |sorted| && tiers[c] >= sorted[k]
  }

  ghost predicate Increasing(sorted: seq<int>) {
    forall p, q :: 0 <= p < q < |sorted| ==> sorted[p] < sorted[q]
  }

  ghost predicate HasTier(sorted: seq<int>, tier: int) {
    exists k :: 0 <= k < |sorted| && sorted[k] == tier
  }

  function Inserted(sorted: seq<int>, at: nat, tier: int): seq<int>
    requires at <= |sorted|
  {
    sorted[..at] + [tier] + sorted[at..]
  }

  lemma InsertedHas(sorted: seq<int>, at: nat, tier: int, other: int)
    requires at <= |sorted| && (other == tier || HasTier(sorted, other))
    ensures HasTier(Inserted(sorted, at, tier), other)
  {
    var wider := Inserted(sorted, at, tier);
    if other == tier {
      assert wider[at] == other;
    } else {
      var k :| 0 <= k < |sorted| && sorted[k] == other;
      assert wider[if k < at then k else k + 1] == other;
    }
  }

  /** The distinct tiers in ascending order. */
  method SortedTiers(order: seq<Chat>, tiers: map<Chat, int>) returns (sorted: seq<int>)
    requires forall c :: c in order ==> c in tiers
    ensures Ascending(order, tiers, sorted)
  {
    hide HasTier, Inserted;
    sorted := [];
    for i := 0 to |order|
      invariant Increasing(sorted)
      invariant forall n :: 0 <= n < i ==> HasTier(sorted, tiers[order[n]])
    {
      var tier := tiers[order[i]];
      var at := 0;
      while at < |sorted| && sorted[at] < tier
        invariant at <= |sorted| && forall k :: 0 <= k < at ==> sorted[k] < tier
      {
        at := at + 1;
      }
      if at < |sorted| && sorted[at] == tier {
        TierAt(sorted, at);
      } else {
        forall n | 0 <= n <= i ensures HasTier(Inserted(sorted, at, tier), tiers[order[n]]) {
          InsertedHas(sorted, at, tier, tiers[order[n]]);
        }
        InsertedIncreases(sorted, at, tier);
        sorted := Inserted(sorted, at, tier);
      }
    }
    AllTiersListed(order, tiers, sorted);
  }

  lemma TierAt(sorted: seq<int>, at: nat)
    requires at < |sorted|
    ensures HasTier(sorted, sorted[at])
  {
  }

  lemma InsertedIncreases(sorted: seq<int>, at: nat, tier: int)
    requires Increasing(sorted) && at <= |sorted| && (forall k :: 0 <= k < at ==> sorted[k] < tier)
    requires at < |sorted| ==> tier < sorted[at]
    ensures Increasing(Inserted(sorted, at, tier))
  {
  }

  lemma AllTiersListed(order: seq<Chat>, tiers: map<Chat, int>, sorted: seq<int>)
    requires Increasing(sorted) && forall c :: c in order ==> c in tiers
    requires forall n :: 0 <= n < |order| ==> HasTier(sorted, tiers[order[n]])
    ensures Ascending(order, tiers, sorted)
  {
  }

  lemma FirstReached(order: seq<Chat>, tiers: map<Chat, int>, sorted: seq<int>)
    requires order != [] && Ascending(order, tiers, sorted)
    ensures |sorted| > 0 && Reached(order, tiers, sorted, 0, sorted[0])
    ensures forall c :: c in order ==> tiers[c] >= sorted[0]
  {
    assert order[0] in order;
    forall c | c in order ensures tiers[c] >= sorted[0] {
      var k :| 0 <= k < |sorted| && sorted[k] == tiers[c];
      assert k == 0 || sorted[0] < sorted[k];
    }
  }

  /** No chat lies between two consecutive tiers. */
  lemma NextReached(order: seq<Chat>, tiers: map<Chat, int>, sorted: seq<int>, k: nat)
    requires k < |sorted| && Ascending(order, tiers, sorted)
    ensures Reached(order, tiers, sorted, k + 1, sorted[k] + 1)
  {
  }

  lemma SkipEmptyTiers(order: seq<Chat>, want: map<Chat, nat>, tiers: map<Chat, int>, limit: nat, a: map<Chat, nat>,
                       remaining: nat, next: int, sorted: seq<int>, k: nat)
    requires Served(order, want, tiers, limit, a, remaining, next)
    requires k < |sorted| && Reached(order, tiers, sorted, k, next)
    ensures Served(order, want, tiers, limit, a, remaining, sorted[k])
    ensures forall c :: c in order && tiers[c] == sorted[k] ==> c in a && a[c] == 0
  {
  }

  lemma AllReached(order: seq<Chat>, want: map<Chat, nat>, tiers: map<Chat, int>, limit: nat, a: map<Chat, nat>,
                   remaining: nat, next: int, sorted: seq<int>)
    requires Served(order, want, tiers, limit, a, remaining, next)
    requires Reached(order, tiers, sorted, |sorted|, next)
    ensures Fair(order, want, tiers, limit, a)
  {
    ServedIsFair(order, want, tiers, limit, a, remaining, next);
  }

  lemma SameWants(order: seq<Chat>, chats: seq<Chat>, unread: map<Chat, int>, cap: int, a: map<Chat, nat>, budget: nat)
    requires (forall c :: c in order ==> c in unread) && forall c :: c in chats ==> c in order
    requires WaterFilled(chats, Wants(chats, unread, cap), a, budget)
    ensures WaterFilled(chats, Wants(order, unread, cap), a, budget)
  {
    var narrow, wide := Wants(chats, unread, cap), Wants(order, unread, cap);
    TotalAgrees(chats, narrow, wide);
    var level: nat, extra: nat :| Level(chats, narrow, a, level, extra);
    assert Level(chats, wide, a, level, extra);
  }

  lemma NothingToGive(order: seq<Chat>, want: map<Chat, nat>, tiers: map<Chat, int>, limit: int, a: map<Chat, nat>)
    requires forall c :: c in order ==> c in want && c in tiers && c in a && a[c] == 0
    requires forall c :: c in a ==> c in order
    requires order == [] || limit <= 0 || forall c :: c in order ==> want[c] == 0
    ensures Fair(order, want, tiers, limit, a)
  {
    ZeroTotal(order, a);
    if limit > 0 { ZeroTotal(order, want); }
    forall tier: int ensures TierLevelled(order, want, tiers, a, tier) {
      assert Level(TierChats(order, tiers, tier), want, a, 0, 0);
    }
  }

  method ZeroAllocation(order: seq<Chat>) returns (a: map<Chat, nat>)
    ensures forall c :: c in a <==> c in order
    ensures forall c :: c in a ==> a[c] == 0
  {
    a := map c | c in order :: 0;
  }

  // ------------------------------------------------------------------ in plain terms

  /** A chat takes no more than it has unread and no more than the cap, and with budget left over it takes all that. */
  ghost predicate Capped(order: seq<Chat>, unread: map<Chat, int>, cap: int, limit: int, a: map<Chat, nat>)
    requires forall c :: c in order ==> c in unread && c in a
  {
    forall c :: c in order ==>
      if unread[c] <= 0 || cap <= 0 then a[c] == 0
      else a[c] <= unread[c] && a[c] <= cap && (Total(order, a) < limit ==> a[c] == unread[c] || a[c] == cap)
  }

  /** Within a tier a later chat holds more, or an earlier one more than one more, only beside a chat that has all it
      can take. */
  ghost predicate SharedInOrder(order: seq<Chat>, unread: map<Chat, int>, tiers: map<Chat, int>, cap: int,
                                a: map<Chat, nat>)
    requires forall c :: c in order ==> c in unread && c in tiers && c in a
  {
    forall p, q :: 0 <= p < q < |order| && tiers[order[p]] == tiers[order[q]] ==>
      SharedBetween(a[order[p]], unread[order[p]], a[order[q]], unread[order[q]], cap)
  }

  ghost predicate SharedBetween(earlier: nat, earlierUnread: int, later: nat, laterUnread: int, cap: int) {
    && (later > earlier ==> earlier == earlierUnread || earlier == cap || earlierUnread <= 0)
    && (earlier > later + 1 ==> later == laterUnread || later == cap || laterUnread <= 0)
  }

  lemma FairIsCapped(order: seq<Chat>, unread: map<Chat, int>, cap: int, tiers: map<Chat, int>, limit: int,
                     a: map<Chat, nat>)
    requires (forall c :: c in order ==> c in unread) && Fair(order, Wants(order, unread, cap), tiers, limit, a)
    ensures Capped(order, unread, cap, limit, a)
  {
    hide TierChats, Total, Level;
    var want := Wants(order, unread, cap);
    forall c | c in order ensures a[c] <= want[c] {
      assert TierLevelled(order, want, tiers, a, tiers[c]);
      LevelBelowWant(TierChats(order, tiers, tiers[c]), want, a);
      assert c in TierChats(order, tiers, tiers[c]);
    }
    if Total(order, a) < limit {
      forall c | c in order ensures a[c] == want[c] {
        if a[c] != want[c] { TotalMonotone(order, a, want); }
      }
    }
  }

  /** A tier lists its chats in ranked order. */
  lemma {:induction false} TierInOrder(order: seq<Chat>, tiers: map<Chat, int>, p: nat, q: nat) returns (i: nat, j: nat)
    requires (forall c :: c in order ==> c in tiers) && p < q < |order| && tiers[order[p]] == tiers[order[q]]
    ensures var chats := TierChats(order, tiers, tiers[order[p]]);
            i < j < |chats| && chats[i] == order[p] && chats[j] == order[q]
  {
    var n := |order| - 1;
    var tier := tiers[order[p]];
    var before := TierChats(order[..n], tiers, tier);
    if q < n {
      i, j := TierInOrder(order[..n], tiers, p, q);
    } else {
      assert order[p] == order[..n][p];
      i :| 0 <= i < |before| && before[i] == order[p];
      j := |before|;
    }
  }

  lemma FairIsSharedInOrder(order: seq<Chat>, unread: map<Chat, int>, cap: int, tiers: map<Chat, int>, limit: int,
                            a: map<Chat, nat>)
    requires (forall c :: c in order ==> c in unread) && Fair(order, Wants(order, unread, cap), tiers, limit, a)
    ensures SharedInOrder(order, unread, tiers, cap, a)
  {
    hide TierChats, Total, Level;
    var want := Wants(order, unread, cap);
    forall p, q | 0 <= p < q < |order| && tiers[order[p]] == tiers[order[q]]
      ensures SharedBetween(a[order[p]], unread[order[p]], a[order[q]], unread[order[q]], cap)
    {
      var i, j := TierInOrder(order, tiers, p, q);
      var chats := TierChats(order, tiers, tiers[order[p]]);
      assert TierLevelled(order, want, tiers, a, tiers[order[p]]);
      var level: nat, extra: nat :| Level(chats, want, a, level, extra);
      LevelShares(chats, want, a, level, extra, i, j);
    }
  }

  lemma LevelShares(chats: seq<Chat>, want: map<Chat, nat>, a: map<Chat, nat>, level: nat, extra: nat, i: nat, j: nat)
    requires Level(chats, want, a, level, extra) && i < j < |chats|
    ensures chats[i] in want && chats[j] in want && chats[i] in a && chats[j] in a
    ensures a[chats[i]] <= want[chats[i]] && a[chats[j]] <= want[chats[j]]
    ensures a[chats[j]] > a[chats[i]] ==> a[chats[i]] == want[chats[i]]
    ensures a[chats[i]] > a[chats[j]] + 1 ==> a[chats[j]] == want[chats[j]]
  {
  }

  /** The whole allocation; `order` is the ranked order of the chats. */
  method AllocateMessageBudget(order: seq<Chat>, unread: map<Chat, int>, limit: int, tiers: map<Chat, int>, cap: int)
    returns (allocation: map<Chat, nat>)
    requires Distinct(order) && forall c :: c in order ==> c in unread && c in tiers
    ensures Fair(order, Wants(order, unread, cap), tiers, limit, allocation)
    ensures (forall c :: c in order ==> c in allocation) && Capped(order, unread, cap, limit, allocation)
    ensures SharedInOrder(order, unread, tiers, cap, allocation)
  {
    allocation := FairAllocation(order, unread, limit, tiers, cap);
    FairIsCapped(order, unread, cap, tiers, limit, allocation);
    FairIsSharedInOrder(order, unread, cap, tiers, limit, allocation);
  }

  method FairAllocation(order: seq<Chat>, unread: map<Chat, int>, limit: int, tiers: map<Chat, int>, cap: int)
    returns (allocation: map<Chat, nat>)
    requires Distinct(order) && forall c :: c in order ==> c in unread && c in tiers
    ensures Fair(order, Wants(order, unread, cap), tiers, limit, allocation)
  {
    hide Served, Fair, Total, WaterFilled, TierChats, Distinct, Ascending, Reached, Level, TierLevelled;
    ghost var want := Wants(order, unread, cap);
    allocation := ZeroAllocation(order);
    if order == [] || limit <= 0 || cap <= 0 {
      NothingToGive(order, want, tiers, limit, allocation);
      return;
    }
    hide Wants, Want;
    ghost var keys := allocation.Keys;
    var remaining: nat := limit;
    var sorted := SortedTiers(order, tiers);
    FirstReached(order, tiers, sorted);
    ghost var next := sorted[0];
    ServedAtStart(order, want, tiers, limit, allocation, next);
    for k := 0 to |sorted|
      invariant Served(order, want, tiers, limit, allocation, remaining, next) && remaining > 0
      invariant allocation.Keys == keys
      invariant Reached(order, tiers, sorted, k, next)
    {
      var tier := sorted[k];
      SkipEmptyTiers(order, want, tiers, limit, allocation, remaining, next, sorted, k);
      var chats := TierChats(order, tiers, tier);
      TierChatsDistinct(order, tiers, tier);
      var filled, left := AllocateTier(chats, unread, allocation, remaining, cap);
      SameWants(order, chats, unread, cap, filled, remaining);
      ServedAfterTier(order, want, tiers, limit, allocation, remaining, tier, filled);
      allocation, remaining := filled, left;
      next := tier + 1;
      if remaining == 0 {
        ServedIsFair(order, want, tiers, limit, allocation, remaining, next);
        return;
      }
      NextReached(order, tiers, sorted, k);
    }
    AllReached(order, want, tiers, limit, allocation, remaining, next, sorted);
  }
}
