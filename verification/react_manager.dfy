/** The non-painting logic of HistoryView::Reactions::Manager: which
    reactions the button offers, the "already reacted by others" limit,
    hover selection and the layout of the frame caches. */
module ReactManager {
  import opened Common
  import opened Geometry

  type Emoji = string
  type MsgId = nat

  /** One entry of the full list of reactions (`_list`). */
  datatype Icon = Icon(emoji: Emoji, premium: bool)

  /** Everything applyListFilters reads besides the list itself. */
  datatype Filters = Filters(
    hasContext: bool,             // _buttonContext is set
    uniqueLimit: int,             // _uniqueLimit.current()
    notMineCount: int,            // _buttonAlreadyNotMineCount
    already: set<Emoji>,          // _buttonAlreadyList
    allowed: Option<set<Emoji>>,  // _filter, None when every emoji is allowed
    favorite: Emoji,
    allowSendingPremium: bool,
    premiumPossible: bool)

  /** The group reached its limit of distinct reactions: only emoji that are
      already on the message may be added. */
  predicate UniqueLimitApplies(f: Filters) {
    f.hasContext && f.uniqueLimit > 0 && f.notMineCount >= f.uniqueLimit
  }

  /** The filters let this emoji through. */
  predicate Passes(f: Filters, e: Emoji) {
    if UniqueLimitApplies(f) then e in f.already
    else f.allowed.None? || e in f.allowed.value
  }

  /** A premium emoji the user may not send and that is not on the message
      yet: it can only stand behind the premium lock. */
  predicate NeedsPremium(f: Filters, icon: Icon) {
    icon.premium && !f.allowSendingPremium && icon.emoji !in f.already
  }

  predicate Offered(f: Filters, icon: Icon) {
    Passes(f, icon.emoji) && !NeedsPremium(f, icon)
  }

  /** Reference definition: positions in `list[..n]` of the icons offered
      as themselves, in list order. */
  function OfferedUpTo(list: seq<Icon>, f: Filters, n: nat): (r: seq<nat>)
    requires n <= |list|
    ensures forall k :: 0 <= k < |r| ==> r[k] < n && Offered(f, list[r[k]])
    ensures forall k, l :: 0 <= k < l < |r| ==> r[k] < r[l]
    decreases n
  {
    if n == 0 then []
    else OfferedUpTo(list, f, n - 1) + (if Offered(f, list[n - 1]) then [n - 1] else [])
  }

  /** Nothing offered is left out: every offered position below n is in
      the list. */
  lemma {:induction false} OfferedUpToComplete(list: seq<Icon>, f: Filters, n: nat, j: nat)
    requires j < n <= |list| && Offered(f, list[j])
    ensures j in OfferedUpTo(list, f, n)
    decreases n
  {
    if j < n - 1 {
      OfferedUpToComplete(list, f, n - 1, j);
    }
  }

  /** Reference definition: the last position in `list[..n]` that needs the
      premium lock, when premium is possible at all. */
  function LockUpTo(list: seq<Icon>, f: Filters, n: nat): (r: Option<nat>)
    requires n <= |list|
    ensures r.Some? ==>
      r.value < n && f.premiumPossible && Passes(f, list[r.value].emoji) && NeedsPremium(f, list[r.value])
    ensures r.Some? ==> forall j :: r.value < j < n ==> !(Passes(f, list[j].emoji) && NeedsPremium(f, list[j]))
    ensures r.None? && f.premiumPossible ==> forall j :: 0 <= j < n ==> !(Passes(f, list[j].emoji) && NeedsPremium(f, list[j]))
    decreases n
  {
    if n == 0 then None
    else if f.premiumPossible && Passes(f, list[n - 1].emoji) && NeedsPremium(f, list[n - 1]) then Some(n - 1)
    else LockUpTo(list, f, n - 1)
  }

  /** Position in `offered` of the last icon whose emoji is the favourite,
      or -1. */
  function FavoriteAt(list: seq<Icon>, offered: seq<nat>, favorite: Emoji): (r: int)
    ensures -1 <= r < |offered|
    ensures r >= 0 ==> IsFavorite(list, offered[r], favorite)
    ensures r >= 0 ==> forall k :: r < k < |offered| ==> !IsFavorite(list, offered[k], favorite)
    ensures r == -1 ==> forall k :: 0 <= k < |offered| ==> !IsFavorite(list, offered[k], favorite)
    decreases |offered|
  {
    if |offered| == 0 then -1
    else if IsFavorite(list, offered[|offered| - 1], favorite) then |offered| - 1
    else FavoriteAt(list, offered[..|offered| - 1], favorite)
  }

  predicate IsFavorite(list: seq<Icon>, j: nat, favorite: Emoji) {
    j < |list| && list[j].emoji == favorite
  }

  lemma FavoriteAtSnoc(list: seq<Icon>, offered: seq<nat>, j: nat, favorite: Emoji)
    ensures FavoriteAt(list, offered + [j], favorite)
      == if IsFavorite(list, j, favorite) then |offered| else FavoriteAt(list, offered, favorite)
  {
    assert (offered + [j])[..|offered|] == offered;
  }

  /** std::rotate(first, first + p, first + p + 1) for p > 0: the element
      at p moves to the front, the ones before it shift back by one. */
  function ToFront<T>(s: seq<T>, p: int): (r: seq<T>)
    requires p < |s|
    ensures |r| == |s| && multiset(r) == multiset(s)
    ensures p > 0 ==> r[0] == s[p] && r[1..] == s[..p] + s[p + 1..]
    ensures p <= 0 ==> r == s
  {
    if p > 0 then
      assert s == s[..p] + [s[p]] + s[p + 1..];
      [s[p]] + s[..p] + s[p + 1..]
    else s
  }

  /** Reference definition of the filtered list: the offered icons with
      the favourite moved to the front, then the premium lock if any. */
  function Filtered(list: seq<Icon>, f: Filters): seq<nat> {
    var offered := OfferedUpTo(list, f, |list|);
    var lock := LockUpTo(list, f, |list|);
    ToFront(offered, FavoriteAt(list, offered, f.favorite)) + (if lock.Some? then [lock.value] else [])
  }

  lemma FilterStep(list: seq<Icon>, f: Filters, j: nat)
    requires j < |list|
    ensures OfferedUpTo(list, f, j + 1) == OfferedUpTo(list, f, j) + (if Offered(f, list[j]) then [j] else [])
    ensures LockUpTo(list, f, j + 1)
      == if f.premiumPossible && Passes(f, list[j].emoji) && NeedsPremium(f, list[j]) then Some(j) else LockUpTo(list, f, j)
  {
  }

  /** The loop of Manager::applyListFilters: the offered icons in list
      order, the premium lock, and where the favourite sits among them. */
  method CollectIcons(list: seq<Icon>, f: Filters) returns (offered: seq<nat>, lock: Option<nat>, favoriteIndex: int)
    ensures offered == OfferedUpTo(list, f, |list|)
    ensures lock == LockUpTo(list, f, |list|)
    ensures favoriteIndex == FavoriteAt(list, offered, f.favorite)
  {
    offered := [];
    lock := None;
    favoriteIndex := -1;
    var j := 0;
    while j < |list|
      invariant 0 <= j <= |list|
      invariant offered == OfferedUpTo(list, f, j)
      invariant lock == LockUpTo(list, f, j)
      invariant favoriteIndex == FavoriteAt(list, offered, f.favorite)
    {
      FilterStep(list, f, j);
      FavoriteAtSnoc(list, offered, j, f.favorite);
      // the icon passes the unique-limit or allowed filter, and is either
      // offered as itself or stands behind the premium lock
      if Passes(f, list[j].emoji) {
        if NeedsPremium(f, list[j]) {
          if f.premiumPossible {
            lock := Some(j);
          }
        } else {
          if IsFavorite(list, j, f.favorite) {
            favoriteIndex := |offered|;
          }
          offered := offered + [j];
        }
      }
      j := j + 1;
    }
  }

  /** Manager::applyListFilters, the list half: which icons the button
      shows, in order, and which one (if any) carries the premium lock. */
  method ApplyListFilters(list: seq<Icon>, f: Filters) returns (icons: seq<nat>, lock: Option<nat>)
    ensures lock == LockUpTo(list, f, |list|)
    ensures icons == Filtered(list, f)
  {
    var offered, favoriteIndex;
    offered, lock, favoriteIndex := CollectIcons(list, f);
    FilteredFrom(list, f, offered, favoriteIndex, lock);
    icons := ToFront(offered, favoriteIndex) + (if lock.Some? then [lock.value] else []);
  }

  lemma FilteredFrom(list: seq<Icon>, f: Filters, offered: seq<nat>, favoriteIndex: int, lock: Option<nat>)
    requires offered == OfferedUpTo(list, f, |list|) && lock == LockUpTo(list, f, |list|)
    requires favoriteIndex == FavoriteAt(list, offered, f.favorite)
    ensures Filtered(list, f) == ToFront(offered, favoriteIndex) + (if lock.Some? then [lock.value] else [])
  {
  }

  /** Every shown icon passes the filters: under the unique limit only emoji
      already on the message, otherwise only allowed emoji. */
  lemma FilteredPassesFilters(list: seq<Icon>, f: Filters)
    ensures forall k :: 0 <= k < |Filtered(list, f)| ==>
      Filtered(list, f)[k] < |list| && Passes(f, list[Filtered(list, f)[k]].emoji)
    ensures UniqueLimitApplies(f) ==> forall k :: 0 <= k < |Filtered(list, f)| ==>
      list[Filtered(list, f)[k]].emoji in f.already
  {
    forall k | 0 <= k < |Filtered(list, f)|
      ensures Filtered(list, f)[k] < |list| && Passes(f, list[Filtered(list, f)[k]].emoji)
    {
      FilteredAt(list, f, k);
    }
  }

  lemma FilteredAt(list: seq<Icon>, f: Filters, k: nat)
    requires k < |Filtered(list, f)|
    ensures Filtered(list, f)[k] < |list| && Passes(f, list[Filtered(list, f)[k]].emoji)
  {
    var offered := OfferedUpTo(list, f, |list|);
    if k < |offered| {
      FilteredFrontAt(list, f, offered, k);
    } else {
      FilteredLockAt(list, f, offered, k);
    }
  }

  /** The first shown icons are the offered ones, favourite first. */
  lemma FilteredFrontAt(list: seq<Icon>, f: Filters, offered: seq<nat>, k: nat)
    requires offered == OfferedUpTo(list, f, |list|) && k < |offered|
    ensures k < |Filtered(list, f)| && Filtered(list, f)[k] < |list| && Offered(f, list[Filtered(list, f)[k]])
  {
    var p := FavoriteAt(list, offered, f.favorite);
    var front := ToFront(offered, p);
    var lock := LockUpTo(list, f, |list|);
    assert Filtered(list, f) == front + (if lock.Some? then [lock.value] else []);
    ToFrontAt(offered, p, k);
    assert Filtered(list, f)[k] == offered[ToFrontSource(p, k)];
  }

  /** The shown list is the offered icons, then the lock if any. */
  lemma FilteredParts(list: seq<Icon>, f: Filters)
    ensures var offered := OfferedUpTo(list, f, |list|);
      var lock := LockUpTo(list, f, |list|);
      && |Filtered(list, f)| == |offered| + (if lock.Some? then 1 else 0)
      && (lock.Some? ==> Filtered(list, f)[|offered|] == lock.value)
  {
    var offered := OfferedUpTo(list, f, |list|);
    var front := ToFront(offered, FavoriteAt(list, offered, f.favorite));
    var lock := LockUpTo(list, f, |list|);
    assert Filtered(list, f) == front + (if lock.Some? then [lock.value] else []);
  }

  /** The icon after the offered ones is the premium lock. */
  lemma FilteredLockAt(list: seq<Icon>, f: Filters, offered: seq<nat>, k: nat)
    requires offered == OfferedUpTo(list, f, |list|) && |offered| <= k < |Filtered(list, f)|
    ensures Filtered(list, f)[k] < |list| && Passes(f, list[Filtered(list, f)[k]].emoji)
  {
    FilteredParts(list, f);
  }

  /** No icon is shown twice. */
  lemma FilteredDistinct(list: seq<Icon>, f: Filters)
    ensures forall k, l :: 0 <= k < l < |Filtered(list, f)| ==> Filtered(list, f)[k] != Filtered(list, f)[l]
  {
    var offered := OfferedUpTo(list, f, |list|);
    var p := FavoriteAt(list, offered, f.favorite);
    var front := ToFront(offered, p);
    var icons := Filtered(list, f);
    forall k, l | 0 <= k < l < |icons| ensures icons[k] != icons[l] {
      if l < |front| {
        assert icons[k] == front[k] && icons[l] == front[l];
        DistinctAfterToFront(offered, p, k, l);
      } else {
        LockNotInFront(list, f, offered, p, k);
      }
    }
  }

  /** The lock, when there is one, is not among the icons offered as
      themselves. */
  lemma LockNotInFront(list: seq<Icon>, f: Filters, offered: seq<nat>, p: int, k: int)
    requires offered == OfferedUpTo(list, f, |list|) && p < |offered|
    requires 0 <= k < |offered| && LockUpTo(list, f, |list|).Some?
    ensures ToFront(offered, p)[k] != LockUpTo(list, f, |list|).value
  {
    ToFrontAt(offered, p, k);
    var lock := LockUpTo(list, f, |list|).value;
    assert !Offered(f, list[lock]);
  }

  /** Only the last icon may need premium: at most one premium lock, always
      at the end. */
  lemma FilteredLockLast(list: seq<Icon>, f: Filters)
    ensures forall k :: 0 <= k < |Filtered(list, f)| - 1 ==> Filtered(list, f)[k] < |list| && !NeedsPremium(f, list[Filtered(list, f)[k]])
    ensures LockUpTo(list, f, |list|).Some? ==> Filtered(list, f)[|Filtered(list, f)| - 1] == LockUpTo(list, f, |list|).value
  {
    var offered := OfferedUpTo(list, f, |list|);
    FilteredParts(list, f);
    forall k | 0 <= k < |Filtered(list, f)| - 1 ensures Filtered(list, f)[k] < |list| && !NeedsPremium(f, list[Filtered(list, f)[k]]) {
      FilteredFrontAt(list, f, offered, k);
    }
  }

  /** If the favourite is offered at all, it is shown first. */
  lemma FilteredFavoriteFirst(list: seq<Icon>, f: Filters)
    requires exists k :: 0 <= k < |OfferedUpTo(list, f, |list|)| && IsFavorite(list, OfferedUpTo(list, f, |list|)[k], f.favorite)
    ensures |Filtered(list, f)| > 0 && list[Filtered(list, f)[0]].emoji == f.favorite
  {
    var offered := OfferedUpTo(list, f, |list|);
    var p := FavoriteAt(list, offered, f.favorite);
    assert p >= 0;
    var front := ToFront(offered, p);
    assert Filtered(list, f)[0] == front[0];
  }

  /** Where ToFront takes its k-th element from. */
  function ToFrontSource(p: int, k: int): int {
    if p <= 0 then k else if k == 0 then p else if k - 1 < p then k - 1 else k
  }

  lemma ToFrontAt<T>(s: seq<T>, p: int, k: int)
    requires p < |s| && 0 <= k < |s|
    ensures 0 <= ToFrontSource(p, k) < |s| && ToFront(s, p)[k] == s[ToFrontSource(p, k)]
  {
    if p > 0 && k > 0 {
      assert ToFront(s, p)[k] == (s[..p] + s[p + 1..])[k - 1];
    }
  }

  lemma DistinctAfterToFront(s: seq<nat>, p: int, k: int, l: int)
    requires p < |s| && forall a, b :: 0 <= a < b < |s| ==> s[a] < s[b]
    requires 0 <= k < l < |s|
    ensures ToFront(s, p)[k] != ToFront(s, p)[l]
  {
    var r := ToFront(s, p);
    if p > 0 {
      var rest := s[..p] + s[p + 1..];
      assert r[1..] == rest;
      if k == 0 {
        assert r[l] == rest[l - 1];
        if l - 1 < p { assert rest[l - 1] == s[l - 1]; } else { assert rest[l - 1] == s[l]; }
      } else {
        assert r[k] == rest[k - 1] && r[l] == rest[l - 1];
        if l - 1 < p {
          assert rest[k - 1] == s[k - 1] && rest[l - 1] == s[l - 1];
        } else if k - 1 < p {
          assert rest[k - 1] == s[k - 1] && rest[l - 1] == s[l];
        } else {
          assert rest[k - 1] == s[k] && rest[l - 1] == s[l];
        }
      }
    }
  }

  /** The selection kept across a change of the offered list: the old
      index if the list did not change; otherwise the old index while it
      still fits (a -1 is never "less than the size", because the source
      compares it as an unsigned value), and nothing if the selected icon was
      hidden on the way. */
  function KeptSelection(oldIcons: seq<nat>, newIcons: seq<nat>, selected: int, selectedWasHidden: bool): (r: int)
    requires -1 <= selected < |oldIcons|
    ensures -1 <= r
    ensures r >= 0 ==> r < |newIcons|
    ensures oldIcons == newIcons && !selectedWasHidden ==> r == selected
    ensures selectedWasHidden ==> r == -1
    ensures oldIcons != newIcons && !selectedWasHidden ==> (r == selected <==> selected < |newIcons|)
  {
    if selectedWasHidden then -1
    else if oldIcons == newIcons then selected
    else if 0 <= selected < |newIcons| then selected
    else -1
  }

  /** Emoji on the message that someone besides the user reacted with. */
  function NotMine(reactions: map<Emoji, int>, my: Emoji): set<Emoji> {
    set e | e in reactions && !(e == my && reactions[e] == 1)
  }

  /** Result of updateUniqueLimit: the new already-list and not-mine count,
      and whether the list must be filtered again. */
  datatype UniqueLimit = UniqueLimit(already: set<Emoji>, notMineCount: int, refilter: bool)

  /** Manager::updateUniqueLimit for `item`, whose reactions and own choice
      are given. */
  function UpdateUniqueLimit(context: MsgId, item: MsgId, reactions: map<Emoji, int>, my: Emoji,
                             already: set<Emoji>, notMineCount: int): (r: UniqueLimit)
    ensures item != context ==> r == UniqueLimit(already, notMineCount, false)
    ensures item == context ==> r.already == reactions.Keys && r.notMineCount == |NotMine(reactions, my)|
    ensures item == context ==> (r.refilter <==> already != reactions.Keys || notMineCount != r.notMineCount)
  {
    if item != context then UniqueLimit(already, notMineCount, false)
    else
      var list := reactions.Keys;
      var myIsUnique := my in reactions && reactions[my] == 1;
      var count := |list| - (if myIsUnique then 1 else 0);
      assert count == |NotMine(reactions, my)| by {
        if myIsUnique {
          assert NotMine(reactions, my) == list - {my};
        } else {
          assert NotMine(reactions, my) == list;
        }
      }
      UniqueLimit(list, count, already != list || notMineCount != count)
  }

  /** The filters once updateUniqueLimit's result is stored in them. */
  function WithUniqueLimit(f: Filters, r: UniqueLimit): Filters {
    f.(already := r.already, notMineCount := r.notMineCount)
  }

  /** What updateUniqueLimit means for the button: once its result is in
      the filters, the limit applies exactly when the emoji others reacted
      with reach it (the user's own sole reaction does not count), and then
      only emoji already on the message are shown. When no refilter is
      asked for, the filters are unchanged, so the shown list is too. */
  lemma UniqueLimitFollowsOthers(list: seq<Icon>, f: Filters, context: MsgId, reactions: map<Emoji, int>, my: Emoji)
    requires f.hasContext
    ensures var g := WithUniqueLimit(f, UpdateUniqueLimit(context, context, reactions, my, f.already, f.notMineCount));
      UniqueLimitApplies(g) <==> 0 < f.uniqueLimit <= |NotMine(reactions, my)|
    ensures var g := WithUniqueLimit(f, UpdateUniqueLimit(context, context, reactions, my, f.already, f.notMineCount));
      UniqueLimitApplies(g) ==> forall k :: 0 <= k < |Filtered(list, g)| ==>
        Filtered(list, g)[k] < |list| && list[Filtered(list, g)[k]].emoji in reactions
    ensures var r := UpdateUniqueLimit(context, context, reactions, my, f.already, f.notMineCount);
      !r.refilter ==> Filtered(list, WithUniqueLimit(f, r)) == Filtered(list, f)
  {
    var r := UpdateUniqueLimit(context, context, reactions, my, f.already, f.notMineCount);
    var g := WithUniqueLimit(f, r);
    assert g.already == reactions.Keys;
    FilteredPassesFilters(list, g);
    if !r.refilter {
      assert g == f;
    }
  }

  /** std::round of twice/2: halves are rounded away from zero. */
  function RoundHalf(twice: int): (r: int)
    ensures twice >= 0 ==> 2 * r - 1 <= twice <= 2 * r
    ensures twice < 0 ==> 2 * r <= twice <= 2 * r + 1
  {
    if twice % 2 == 0 then twice / 2
    else if twice > 0 then (twice + 1) / 2
    else -((-twice + 1) / 2)
  }

  /** Manager::computeButtonLink, the index half: with `count` icons shown,
      the row under a pointer `top` pixels into the strip (measured from
      the end it grows from) and scrolled by `scroll`. None clears the
      selection. */
  function HoveredIndex(count: int, top: int, scroll: int, cornerHeight: int, between: int): (r: Option<int>)
    requires cornerHeight > 0 && between >= 0
    ensures r.None? <==> count <= 0
    ensures r.Some? ==> 0 <= r.value < count
  {
    if count <= 0 then None
    else
      var shifted := top + scroll;
      var oneHeight := cornerHeight + between;
      Some(Clamp(CDiv(RoundHalf(2 * shifted + between), oneHeight), 0, count - 1))
  }

  /** The pointer at the top of row k hovers row k. */
  lemma RowTopHoversRow(count: int, k: int, scroll: int, cornerHeight: int, between: int)
    requires cornerHeight > 0 && between >= 0 && 0 <= k < count
    ensures HoveredIndex(count, k * (cornerHeight + between) - scroll, scroll, cornerHeight, between) == Some(k)
  {
    var oneHeight := cornerHeight + between;
    var shifted := k * oneHeight;
    var rounded := RoundHalf(2 * shifted + between);
    assert shifted <= rounded < shifted + oneHeight;
    DivInRow(rounded, k, oneHeight);
  }

  lemma DivInRow(x: int, k: int, d: int)
    requires d > 0 && k >= 0 && k * d <= x < k * d + d
    ensures CDiv(x, d) == k
  {
    MulLeq(d, 0, k);
    DivUnique(x, k, x - k * d, d);
  }

  /** Selection flags of the shown icons (`_icons[j]->selected`) and the
      selected index (`_selectedIcon`). */
  datatype Selection = Selection(flags: seq<bool>, selected: int)

  /** Only the icon at `selected` carries the flag, if it is in range. */
  predicate SelectionConsistent(s: Selection) {
    forall j :: 0 <= j < |s.flags| ==> (s.flags[j] <==> j == s.selected)
  }

  /** Manager::setSelectedIcon: clear the old icon's flag when the index
      changes, then flag the new one; an index out of range flags nothing. */
  function SetSelectedIcon(s: Selection, index: int): (r: Selection)
    ensures r.selected == index && |r.flags| == |s.flags|
    ensures SelectionConsistent(s) ==> SelectionConsistent(r)
    ensures forall j :: 0 <= j < |s.flags| && j != index && j != s.selected ==> r.flags[j] == s.flags[j]
  {
    var cleared := if s.selected != index && 0 <= s.selected < |s.flags| then s.flags[s.selected := false] else s.flags;
    var flagged := if 0 <= index < |cleared| then cleared[index := true] else cleared;
    Selection(flagged, index)
  }

  /** Selecting twice is selecting once. */
  lemma SetSelectedIconIdempotent(s: Selection, index: int)
    ensures SetSelectedIcon(SetSelectedIcon(s, index), index) == SetSelectedIcon(s, index)
  {
  }

  /** kFramesCount, kDivider and kCacheColumsCount. */
  const FramesCount: int := 32
  const Divider: int := 4
  const CacheColumns: int := 2

  /** Manager::cacheRect: frame `frame` of column `column` in the cache
      image, at device pixel ratio `ratio`. */
  function CacheRect(outer: Size, ratio: int, frame: int, column: int): Rect
    requires 0 <= frame < FramesCount && 0 <= column < CacheColumns
  {
    var cx := Divider * column + frame % Divider;
    var cy := frame / Divider;
    Rect(ratio * (outer.w * cx), ratio * (outer.h * cy), ratio * outer.w, ratio * outer.h)
  }

  /** The `_cacheParts` image as sized in the Manager constructor. */
  function CachePartsImage(outer: Size, ratio: int): Rect {
    Rect(0, 0, outer.w * Divider * CacheColumns * ratio, outer.h * FramesCount / Divider * ratio)
  }

  /** The `_cacheBg` image: one column only. */
  function CacheBgImage(outer: Size, ratio: int): Rect {
    Rect(0, 0, outer.w * Divider * ratio, outer.h * FramesCount / Divider * ratio)
  }

  /** A cache rectangle is cell (cx, cy) of a grid of ratio-scaled outer
      sizes, with cx < 8 and cy < 8. */
  lemma CacheRectIsCell(outer: Size, ratio: int, frame: int, column: int)
    requires 0 <= frame < FramesCount && 0 <= column < CacheColumns
    ensures var cw := ratio * outer.w;
      var ch := ratio * outer.h;
      var cx := Divider * column + frame % Divider;
      var cy := frame / Divider;
      && 0 <= cx < Divider * CacheColumns && 0 <= cy < FramesCount / Divider
      && (column == 0 ==> cx < Divider)
      && CacheRect(outer, ratio, frame, column) == Rect(cw * cx, ch * cy, cw, ch)
  {
  }

  lemma ImagesAreGrids(outer: Size, ratio: int)
    ensures CachePartsImage(outer, ratio) == Rect(0, 0, (ratio * outer.w) * 8, (ratio * outer.h) * 8)
    ensures CacheBgImage(outer, ratio) == Rect(0, 0, (ratio * outer.w) * 4, (ratio * outer.h) * 8)
  {
    var w := outer.w;
    var h := outer.h;
    assert w * Divider * CacheColumns == 8 * w;
    assert h * FramesCount / Divider == 8 * h;
    assert (8 * w) * ratio == (ratio * w) * 8;
    assert (8 * h) * ratio == (ratio * h) * 8;
    assert (4 * w) * ratio == (ratio * w) * 4;
  }

  /** Distinct (frame, column) pairs get disjoint cache rectangles, all
      inside the parts image; column 0 also fits the background image. */
  lemma CacheRectsDisjoint(outer: Size, ratio: int, f1: int, c1: int, f2: int, c2: int)
    requires outer.w > 0 && outer.h > 0 && ratio > 0
    requires 0 <= f1 < FramesCount && 0 <= c1 < CacheColumns
    requires 0 <= f2 < FramesCount && 0 <= c2 < CacheColumns
    ensures Within(CacheRect(outer, ratio, f1, c1), CachePartsImage(outer, ratio))
    ensures c1 == 0 ==> Within(CacheRect(outer, ratio, f1, c1), CacheBgImage(outer, ratio))
    ensures (f1, c1) != (f2, c2) ==> Disjoint(CacheRect(outer, ratio, f1, c1), CacheRect(outer, ratio, f2, c2))
  {
    var cw := ratio * outer.w;
    var ch := ratio * outer.h;
    assert cw > 0 && ch > 0;
    var x1 := Divider * c1 + f1 % Divider;
    var y1 := f1 / Divider;
    var x2 := Divider * c2 + f2 % Divider;
    var y2 := f2 / Divider;
    CacheRectIsCell(outer, ratio, f1, c1);
    CacheRectIsCell(outer, ratio, f2, c2);
    ImagesAreGrids(outer, ratio);
    CellWithin(cw, x1, 8);
    CellWithin(ch, y1, 8);
    if c1 == 0 {
      CellWithin(cw, x1, 4);
    }
    if (f1, c1) != (f2, c2) {
      if x1 != x2 {
        CellsApart(cw, x1, x2);
      } else {
        assert y1 != y2;
        CellsApart(ch, y1, y2);
      }
    }
  }

  /** The caches a Manager keeps per animation frame. */
  datatype FrameCaches = FrameCaches(
    validBg: seq<bool>,
    validShadow: seq<bool>,
    validEmoji: seq<bool>,
    validOverlayMask: seq<bool>,
    validOverlayShadow: seq<bool>)

  predicate AllInvalid(s: seq<bool>) { |s| == FramesCount && forall j :: 0 <= j < |s| ==> !s[j] }

  /** The manager's initial state: nothing cached, no icon selected, no
      "not mine" reactions, and the unique limit it was constructed with. */
  datatype ManagerStart = ManagerStart(caches: FrameCaches, selectedIcon: int, uniqueLimit: int, notMineCount: int)

  function InitialManager(uniqueLimit: int): (m: ManagerStart)
    ensures AllInvalid(m.caches.validBg) && AllInvalid(m.caches.validShadow) && AllInvalid(m.caches.validEmoji)
    ensures AllInvalid(m.caches.validOverlayMask) && AllInvalid(m.caches.validOverlayShadow)
    ensures m.selectedIcon == -1 && m.uniqueLimit == uniqueLimit && m.notMineCount == 0
  {
    var none := seq(FramesCount, _ => false);
    ManagerStart(FrameCaches(none, none, none, none, none), -1, uniqueLimit, 0)
  }

  /** Manager::setShadowColor: a new colour invalidates every frame that
      has a shadow in it; emoji and overlay masks stay valid. */
  function SetShadowColor(c: FrameCaches, oldShadow: nat, shadow: nat): (r: FrameCaches)
    requires |c.validBg| == FramesCount && |c.validShadow| == FramesCount && |c.validOverlayShadow| == FramesCount
    ensures shadow == oldShadow ==> r == c
    ensures shadow != oldShadow ==>
      AllInvalid(r.validBg) && AllInvalid(r.validShadow) && AllInvalid(r.validOverlayShadow)
      && r.validEmoji == c.validEmoji && r.validOverlayMask == c.validOverlayMask
  {
    if shadow == oldShadow then c
    else
      var none := seq(FramesCount, _ => false);
      c.(validBg := none, validShadow := none, validOverlayShadow := none)
  }

  /** The shadow colour each frame of the shadowed caches was drawn with. */
  datatype ShadowDrawn = ShadowDrawn(bg: seq<nat>, shadow: seq<nat>, overlayShadow: seq<nat>)

  /** Every valid frame of a shadowed cache was drawn with `shadow`. */
  predicate ShadowCurrent(c: FrameCaches, drawn: ShadowDrawn, shadow: nat) {
    && |c.validBg| == FramesCount && |c.validShadow| == FramesCount && |c.validOverlayShadow| == FramesCount
    && |drawn.bg| == FramesCount && |drawn.shadow| == FramesCount && |drawn.overlayShadow| == FramesCount
    && (forall j :: 0 <= j < FramesCount && c.validBg[j] ==> drawn.bg[j] == shadow)
    && (forall j :: 0 <= j < FramesCount && c.validShadow[j] ==> drawn.shadow[j] == shadow)
    && (forall j :: 0 <= j < FramesCount && c.validOverlayShadow[j] ==> drawn.overlayShadow[j] == shadow)
  }

  /** setShadowColor keeps the caches honest: a frame it leaves valid shows
      the new colour, whatever colour came before. */
  lemma SetShadowColorKeepsCachesCurrent(c: FrameCaches, drawn: ShadowDrawn, oldShadow: nat, shadow: nat)
    requires ShadowCurrent(c, drawn, oldShadow)
    ensures ShadowCurrent(SetShadowColor(c, oldShadow, shadow), drawn, shadow)
  {
  }

  /** The button bookkeeping Manager::remove touches. */
  datatype Buttons = Buttons(activeEffectAreas: map<MsgId, Rect>, buttonContext: MsgId, hasButton: bool)

  /** Manager::remove: forget the item's effect area, and its button when
      it owns the current one. */
  function Remove(b: Buttons, context: MsgId): (r: Buttons)
    ensures context !in r.activeEffectAreas
    ensures forall m :: m in b.activeEffectAreas && m != context ==> m in r.activeEffectAreas && r.activeEffectAreas[m] == b.activeEffectAreas[m]
    ensures r.activeEffectAreas.Keys <= b.activeEffectAreas.Keys
    ensures b.buttonContext == context ==> r.buttonContext == 0 && !r.hasButton
    ensures b.buttonContext != context ==> r.buttonContext == b.buttonContext && r.hasButton == b.hasButton
  {
    var areas := b.activeEffectAreas - {context};
    if b.buttonContext == context then Buttons(areas, 0, false) else b.(activeEffectAreas := areas)
  }

  /** Removing messages one after another: the order does not matter and
      removing a message twice is the same as once. */
  lemma RemoveCommutes(b: Buttons, x: MsgId, y: MsgId)
    ensures Remove(Remove(b, x), y) == Remove(Remove(b, y), x)
    ensures Remove(Remove(b, x), x) == Remove(b, x)
  {
    var a := b.activeEffectAreas;
    assert a - {x} - {y} == a - {y} - {x};
    assert a - {x} - {x} == a - {x};
  }
}
