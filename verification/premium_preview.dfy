/** The logic of the premium preview box: the sections it pages through,
    the balanced grid of premium reactions, hover selection in that grid,
    the per-window registry of preloaded previews and the accounts label. */
module PremiumPreviewBox {
  import opened Common
  import opened Geometry

  type Emoji = string

  /** PremiumPreview, in declaration order. */
  datatype Section =
    | MoreUpload | FasterDownload | VoiceToText | NoAds | Reactions
    | Stickers | AdvancedChatManagement | ProfileBadge | AnimatedUserpics

  /** PremiumPreview::kCount. */
  const SectionCount: int := 9

  /** The enum's underlying value. */
  function SectionIndex(s: Section): (i: int)
    ensures 0 <= i < SectionCount
  {
    match s
    case MoreUpload => 0
    case FasterDownload => 1
    case VoiceToText => 2
    case NoAds => 3
    case Reactions => 4
    case Stickers => 5
    case AdvancedChatManagement => 6
    case ProfileBadge => 7
    case AnimatedUserpics => 8
  }

  /** The section with a given underlying value. */
  function SectionAt(i: int): (s: Section)
    requires 0 <= i < SectionCount
    ensures SectionIndex(s) == i
  {
    if i == 0 then MoreUpload
    else if i == 1 then FasterDownload
    else if i == 2 then VoiceToText
    else if i == 3 then NoAds
    else if i == 4 then Reactions
    else if i == 5 then Stickers
    else if i == 6 then AdvancedChatManagement
    else if i == 7 then ProfileBadge
    else AnimatedUserpics
  }

  /** ReactionDisableType. */
  datatype DisableType = NotDisabled | Group | Channel

  // ---------------------------------------------------------------------
  // Paging between sections

  /** The `move` lambda of PreviewBox: `(now + kCount + delta) % kCount`
      cast back to the enum. The cast is only a section when C++'s
      remainder is not negative, which holds for every delta the arrows and
      the timer pass (-1 and 1); None stands for an out-of-range enum value. */
  function Move(now: Section, delta: int): (r: Option<Section>)
    ensures SectionIndex(now) + SectionCount + delta >= 0 ==>
      r.Some? && SectionIndex(r.value) == (SectionIndex(now) + delta) % SectionCount
    ensures r.None? ==> SectionIndex(now) + SectionCount + delta < 0
  {
    var raw := CMod(SectionIndex(now) + SectionCount + delta, SectionCount);
    if raw >= 0 then Some(SectionAt(raw)) else None
  }

  /** The arrows page cyclically: forward from the last section is the
      first one, back from the first is the last one, and going forward
      then back returns to where one was. */
  lemma MoveCycles(s: Section)
    ensures Move(AnimatedUserpics, 1) == Some(MoreUpload)
    ensures Move(MoreUpload, -1) == Some(AnimatedUserpics)
    ensures Move(s, 1).Some? && Move(Move(s, 1).value, -1) == Some(s)
    ensures Move(s, -1).Some? && Move(Move(s, -1).value, 1) == Some(s)
  {
    MoveStep(s, 1);
    MoveStep(s, -1);
    MoveStep(Move(s, 1).value, -1);
    MoveStep(Move(s, -1).value, 1);
    MoveStep(AnimatedUserpics, 1);
    MoveStep(MoreUpload, -1);
    SectionIndexInjective(Move(Move(s, 1).value, -1).value, s);
    SectionIndexInjective(Move(Move(s, -1).value, 1).value, s);
    SectionIndexInjective(Move(AnimatedUserpics, 1).value, MoreUpload);
    SectionIndexInjective(Move(MoreUpload, -1).value, AnimatedUserpics);
  }

  /** One step of either arrow lands on the neighbouring value, wrapping
      at both ends. */
  lemma MoveStep(now: Section, delta: int)
    requires delta == 1 || delta == -1
    ensures Move(now, delta).Some?
    ensures var i := SectionIndex(now) + delta;
      SectionIndex(Move(now, delta).value) ==
        if i < 0 then SectionCount - 1 else if i == SectionCount then 0 else i
  {
    var raw := SectionIndex(now) + SectionCount + delta;
    assert SectionCount <= raw - SectionIndex(now) + 1 <= SectionCount + 2;
    assert CMod(raw, SectionCount) == raw % SectionCount;
    if raw < SectionCount {
      assert raw % SectionCount == raw;
    } else if raw < 2 * SectionCount {
      assert raw % SectionCount == raw - SectionCount;
    } else {
      assert raw % SectionCount == 0;
    }
  }

  /** Distinct sections have distinct underlying values. */
  lemma SectionIndexInjective(a: Section, b: Section)
    ensures SectionIndex(a) == SectionIndex(b) ==> a == b
  {
  }

  // ---------------------------------------------------------------------
  // The preload registry

  type ControllerId = nat

  /** Descriptor: documents and callbacks are identified by number, None
      for a null pointer or an empty function. */
  datatype Descriptor = Descriptor(
    section: Section,
    requestedSticker: Option<nat>,
    disabled: map<Emoji, DisableType>,
    fromSettings: bool,
    hiddenCallback: Option<nat>)

  /** operator== on Descriptor: every field but the hidden callback. */
  predicate SameDescriptor(a: Descriptor, b: Descriptor) {
    a.section == b.section && a.requestedSticker == b.requestedSticker
    && a.disabled == b.disabled && a.fromSettings == b.fromSettings
  }

  /** Descriptor equality is equality up to the hidden callback. */
  lemma SameDescriptorIgnoresOnlyCallback(a: Descriptor, b: Descriptor)
    ensures SameDescriptor(a, b) <==> a.(hiddenCallback := b.hiddenCallback) == b
  {
  }

  /** One entry of Preloads(): the descriptor, the media view created for
      its sticker (a sticker's media view is named by the sticker), and a
      weak pointer to the window, None once the window is gone. */
  datatype Preload = Preload(descriptor: Descriptor, media: Option<nat>, controller: Option<ControllerId>)

  /** Live entries of the registry that belong to another window, in order. */
  function Others(list: seq<Preload>, c: ControllerId): (r: seq<Preload>)
    ensures |r| <= |list|
    ensures forall k :: 0 <= k < |r| ==> r[k].controller.Some? && r[k].controller != Some(c) && r[k] in list
    ensures forall k :: 0 <= k < |list| && list[k].controller.Some? && list[k].controller != Some(c) ==> list[k] in r
    ensures Subsequence(r, list)
    decreases |list|
  {
    if list == [] then []
    else
      var rest := Others(list[1..], c);
      assert forall k :: 1 <= k < |list| ==> list[k] == list[1..][k - 1];
      if list[0].controller.Some? && list[0].controller != Some(c) then
        assert ([list[0]] + rest)[1..] == rest;
        [list[0]] + rest
      else
        assert rest != [] ==> rest[0] != list[0];
        rest
  }

  /** Number of entries of window c. */
  function CountFor(list: seq<Preload>, c: ControllerId): nat
    decreases |list|
  {
    if list == [] then 0
    else (if list[0].controller == Some(c) then 1 else 0) + CountFor(list[1..], c)
  }

  /** No expired entry is left. */
  predicate NoExpired(list: seq<Preload>) {
    forall k :: 0 <= k < |list| ==> list[k].controller.Some?
  }

  /** Every entry's media view is that of its descriptor's sticker. */
  predicate MediaMatches(list: seq<Preload>) {
    forall k :: 0 <= k < |list| ==> list[k].media == list[k].descriptor.requestedSticker
  }

  /** The registry's invariant: one entry per window at most, each with
      the media of its own descriptor. */
  ghost predicate Registry(list: seq<Preload>) {
    (forall c :: CountFor(list, c) <= 1) && MediaMatches(list)
  }

  /** The entry of window c, if the scan finds one. */
  function EntryFor(list: seq<Preload>, c: ControllerId): (r: Option<Preload>)
    ensures r.None? <==> CountFor(list, c) == 0
    ensures r.Some? ==> r.value in list && r.value.controller == Some(c)
    decreases |list|
  {
    if list == [] then None
    else if list[0].controller == Some(c) then Some(list[0])
    else EntryFor(list[1..], c)
  }

  /** The loop of Show(controller, descriptor): drop the expired entries it
      passes; at the window's entry either stop (an equal descriptor) or
      replace the descriptor and its media; otherwise append a new entry. */
  function Record(list: seq<Preload>, c: ControllerId, d: Descriptor): (r: seq<Preload>)
    ensures CountFor(list, c) <= 1 ==> CountFor(r, c) == 1
    ensures forall x :: x != c ==> CountFor(r, x) <= CountFor(list, x)
    ensures Others(r, c) == Others(list, c)
    ensures EntryFor(r, c).Some? && SameDescriptor(EntryFor(r, c).value.descriptor, d)
    ensures EntryFor(list, c).Some? && SameDescriptor(EntryFor(list, c).value.descriptor, d) ==>
      EntryFor(r, c) == EntryFor(list, c)
    ensures !(EntryFor(list, c).Some? && SameDescriptor(EntryFor(list, c).value.descriptor, d)) ==>
      EntryFor(r, c) == Some(Preload(d, d.requestedSticker, Some(c)))
    ensures EntryFor(list, c).None? ==> NoExpired(r)
    ensures MediaMatches(list) ==> MediaMatches(r)
    decreases |list|
  {
    if list == [] then [Preload(d, d.requestedSticker, Some(c))]
    else if list[0].controller.None? then Record(list[1..], c, d)
    else if list[0].controller == Some(c) then
      if SameDescriptor(list[0].descriptor, d) then list
      else
        var added := Preload(d, d.requestedSticker, Some(c));
        ConsList(added, list[1..]);
        [added] + list[1..]
    else
      var rest := Record(list[1..], c, d);
      ConsList(list[0], rest);
      [list[0]] + rest
  }

  /** The list facts of an entry put in front of a registry. */
  lemma ConsList(h: Preload, t: seq<Preload>)
    ensures ([h] + t)[0] == h && ([h] + t)[1..] == t
    ensures MediaMatches([h] + t) <==> h.media == h.descriptor.requestedSticker && MediaMatches(t)
    ensures NoExpired([h] + t) <==> h.controller.Some? && NoExpired(t)
  {
    var l := [h] + t;
    assert forall k :: 1 <= k < |l| ==> l[k] == t[k - 1];
    if MediaMatches(t) && h.media == h.descriptor.requestedSticker {
      forall k | 0 <= k < |l| ensures l[k].media == l[k].descriptor.requestedSticker {
        if k > 0 {
          assert l[k] == t[k - 1];
        }
      }
    }
    if MediaMatches(l) {
      forall k | 0 <= k < |t| ensures t[k].media == t[k].descriptor.requestedSticker {
        assert t[k] == l[k + 1];
      }
    }
    if NoExpired(t) && h.controller.Some? {
      forall k | 0 <= k < |l| ensures l[k].controller.Some? {
        if k > 0 {
          assert l[k] == t[k - 1];
        }
      }
    }
    if NoExpired(l) {
      forall k | 0 <= k < |t| ensures t[k].controller.Some? {
        assert t[k] == l[k + 1];
      }
    }
  }

  /** What Show(controller, descriptor) did: the new registry, and whether
      it showed the "premium unavailable" box instead. */
  datatype ShowResult = ShowResult(list: seq<Preload>, unavailable: bool)

  /** Show(controller, descriptor): without premium nothing is recorded. */
  function ShowDescriptor(list: seq<Preload>, c: ControllerId, d: Descriptor, premiumPossible: bool): (r: ShowResult)
    ensures !premiumPossible ==> r == ShowResult(list, true)
    ensures premiumPossible ==> !r.unavailable && r.list == Record(list, c, d)
    ensures premiumPossible && Registry(list) ==> Registry(r.list)
  {
    if !premiumPossible then ShowResult(list, true)
    else
      var recorded := Record(list, c, d);
      assert Registry(list) ==> Registry(recorded) by {
        if Registry(list) {
          forall x ensures CountFor(recorded, x) <= 1 {
            if x != c {
              assert CountFor(list, x) <= 1;
            } else {
              assert CountFor(list, c) <= 1;
            }
          }
        }
      }
      ShowResult(recorded, false)
  }

  /** What Show(controller, back) did: the new registry, and the entry it
      opened the box with, if any. */
  datatype BackResult = BackResult(list: seq<Preload>, shown: Option<Preload>)

  /** Show(controller, back): drop the expired entries passed; at the
      window's entry, show it, erase it and stop. */
  function ShowBack(list: seq<Preload>, c: ControllerId): (r: BackResult)
    ensures r.shown == EntryFor(list, c)
    ensures CountFor(list, c) <= 1 ==> CountFor(r.list, c) == 0
    ensures forall x :: x != c ==> CountFor(r.list, x) <= CountFor(list, x)
    ensures Others(r.list, c) == Others(list, c)
    ensures r.shown.None? ==> NoExpired(r.list)
    ensures MediaMatches(list) ==> MediaMatches(r.list)
    decreases |list|
  {
    if list == [] then BackResult([], None)
    else if list[0].controller.None? then ShowBack(list[1..], c)
    else if list[0].controller == Some(c) then BackResult(list[1..], Some(list[0]))
    else
      var rest := ShowBack(list[1..], c);
      ConsList(list[0], rest.list);
      BackResult([list[0]] + rest.list, rest.shown)
  }

  /** Opening the preview after it was preloaded shows the descriptor that
      was recorded (up to its hidden callback), with its sticker's media,
      and leaves the window with no entry and every other window's entries
      as they were. */
  lemma {:induction false} PreloadThenShow(list: seq<Preload>, c: ControllerId, d: Descriptor)
    requires Registry(list)
    ensures var after := ShowBack(ShowDescriptor(list, c, d, true).list, c);
      && after.shown.Some?
      && SameDescriptor(after.shown.value.descriptor, d)
      && after.shown.value.media == d.requestedSticker
      && CountFor(after.list, c) == 0
      && Others(after.list, c) == Others(list, c)
      && Registry(after.list)
  {
    var recorded := ShowDescriptor(list, c, d, true).list;
    assert Registry(recorded);
    var after := ShowBack(recorded, c);
    var entry := EntryFor(recorded, c).value;
    assert entry in recorded;
    var k :| 0 <= k < |recorded| && recorded[k] == entry;
    assert entry.media == entry.descriptor.requestedSticker;
    forall x ensures CountFor(after.list, x) <= 1 {
      assert CountFor(recorded, x) <= 1;
    }
  }

  // ---------------------------------------------------------------------
  // The grid of premium reactions

  /** kReactionsPerRow. */
  const ReactionsPerRow: int := 5

  /** The numbers ReactionsPreview derives from the count of premium
      reactions: rows, the longest row, how many rows are one shorter, how
      many are full length, and how many reactions the full rows hold. */
  datatype Shape = Shape(rows: int, inrowmax: int, inrowless: int, inrowmore: int, inmaxrows: int)

  /** The source divides by `rows`, so the grid needs at least one premium
      reaction. */
  function GridShape(count: int): (g: Shape)
    requires count >= 1
    // as few rows as five per row allows
    ensures g.rows >= 1 && (g.rows - 1) * ReactionsPerRow < count <= g.rows * ReactionsPerRow
    ensures 1 <= g.inrowmax <= ReactionsPerRow
    ensures 0 <= g.inrowless < g.rows && g.inrowmore == g.rows - g.inrowless
    ensures g.inrowless > 0 ==> g.inrowmax >= 2
    // the full rows and the shorter rows hold every reaction
    ensures g.inmaxrows == g.inrowmore * g.inrowmax
    ensures g.inmaxrows + g.inrowless * (g.inrowmax - 1) == count
  {
    var rows := (count + ReactionsPerRow - 1) / ReactionsPerRow;
    var inrowmax := (count + rows - 1) / rows;
    var inrowless := inrowmax * rows - count;
    var inrowmore := rows - inrowless;
    var inmaxrows := inrowmore * inrowmax;
    ShapeFacts(count, rows, inrowmax);
    assert inmaxrows + inrowless * (inrowmax - 1) == count by {
      assert inmaxrows + inrowless * inrowmax == rows * inrowmax;
    }
    Shape(rows, inrowmax, inrowless, inrowmore, inmaxrows)
  }

  lemma ShapeFacts(count: int, rows: int, inrowmax: int)
    requires count >= 1 && rows == (count + 4) / 5 && inrowmax == (count + rows - 1) / rows
    ensures rows >= 1 && (rows - 1) * 5 < count <= rows * 5
    ensures 1 <= inrowmax <= 5
    ensures count <= inrowmax * rows < count + rows
    ensures inrowmax == 1 ==> inrowmax * rows == count
  {
    assert rows >= 1 && rows <= count;
    var m := (count + rows - 1) % rows;
    assert count + rows - 1 == inrowmax * rows + m;
    if inrowmax > 5 {
      MulLeq(rows, 6, inrowmax);
    } else if inrowmax < 1 {
      MulLeq(rows, inrowmax, 0);
    }
  }

  /** Where ReactionsPreview puts the premium reaction with a given index:
      its row, its column and the length of its row. */
  datatype Cell = Cell(row: int, column: int, inrow: int)

  function Place(count: int, index: int): (r: Cell)
    requires count >= 1 && 0 <= index < count
    ensures 0 <= r.row < GridShape(count).rows
    ensures r.inrow == RowLength(GridShape(count), r.row) && 0 <= r.column < r.inrow
    ensures RowStart(GridShape(count), r.row) + r.column == index
  {
    PlaceInCell(GridShape(count), index);
    PlaceIn(GridShape(count), index)
  }

  /** What placing needs of a shape: a positive longest row, shorter rows
      only when the longest holds two, and full rows holding `inmaxrows`. */
  predicate Placeable(g: Shape) {
    && g.inrowmax >= 1 && g.inrowless >= 0 && g.inrowmore >= 0
    && g.rows == g.inrowmore + g.inrowless
    && g.inmaxrows == g.inrowmore * g.inrowmax
    && (g.inrowless > 0 ==> g.inrowmax >= 2)
  }

  /** How many reactions a shape holds. */
  function Capacity(g: Shape): int {
    g.inmaxrows + g.inrowless * (g.inrowmax - 1)
  }

  lemma GridShapePlaceable(count: int)
    requires count >= 1
    ensures Placeable(GridShape(count)) && Capacity(GridShape(count)) == count
  {
  }

  /** The layout loop's row and column for an index: the full rows first,
      then the shorter ones. */
  function PlaceIn(g: Shape, index: int): Cell
    requires Placeable(g) && 0 <= index < Capacity(g)
  {
    if index < g.inmaxrows then
      var inrow := g.inrowmax;
      Cell(index / inrow, index % inrow, inrow)
    else
      var inrow := g.inrowmax - 1;
      var t := index - g.inmaxrows;
      Cell(g.inrowmore + t / inrow, t % inrow, inrow)
  }

  lemma PlaceInCell(g: Shape, index: int)
    requires Placeable(g) && 0 <= index < Capacity(g)
    ensures var r := PlaceIn(g, index);
      && 0 <= r.row < g.rows
      && r.inrow == RowLength(g, r.row) && 0 <= r.column < r.inrow
      && RowStart(g, r.row) + r.column == index
  {
    if index < g.inmaxrows {
      DivSplit(index, g.inrowmax, g.inrowmore);
    } else {
      DivSplit(index - g.inmaxrows, g.inrowmax - 1, g.inrowless);
    }
  }

  /** Rows before `inrowmore` are full, the rest one shorter. */
  function RowLength(g: Shape, row: int): int {
    if row < g.inrowmore then g.inrowmax else g.inrowmax - 1
  }

  /** The index of the first reaction of a row. */
  function RowStart(g: Shape, row: int): int {
    if row < g.inrowmore then row * g.inrowmax else g.inmaxrows + (row - g.inrowmore) * (g.inrowmax - 1)
  }

  /** Dividing x < n * d by d gives a quotient below n and a remainder
      below d that add back up to x. */
  lemma DivSplit(x: int, d: int, n: int)
    requires d > 0 && 0 <= x < n * d
    ensures 0 <= x / d < n && 0 <= x % d < d
    ensures (x / d) * d + x % d == x
  {
    if x / d >= n {
      MulLeq(d, n, x / d);
    }
  }

  /** Rows hold one to five reactions, and lengths only ever drop by one,
      from the full rows to the shorter ones. */
  lemma RowsBalanced(count: int, row1: int, row2: int)
    requires count >= 1 && 0 <= row1 <= row2 < GridShape(count).rows
    ensures 1 <= RowLength(GridShape(count), row2) <= RowLength(GridShape(count), row1) <= ReactionsPerRow
    ensures RowLength(GridShape(count), row1) - RowLength(GridShape(count), row2) <= 1
  {
  }

  /** Every cell of the grid is taken by exactly one reaction: the index
      at a row's start plus a column is placed back in that cell. */
  lemma PlaceOnto(count: int, row: int, column: int)
    requires count >= 1 && 0 <= row < GridShape(count).rows && 0 <= column < RowLength(GridShape(count), row)
    ensures 0 <= RowStart(GridShape(count), row) + column < count
    ensures Place(count, RowStart(GridShape(count), row) + column) == Cell(row, column, RowLength(GridShape(count), row))
  {
    GridShapePlaceable(count);
    PlaceInOnto(GridShape(count), row, column);
  }

  /** PlaceOnto for any placeable shape. */
  lemma PlaceInOnto(g: Shape, row: int, column: int)
    requires Placeable(g) && 0 <= row < g.rows && 0 <= column < RowLength(g, row)
    ensures 0 <= RowStart(g, row) + column < Capacity(g)
    ensures PlaceIn(g, RowStart(g, row) + column) == Cell(row, column, RowLength(g, row))
  {
    if row < g.inrowmore {
      var d := g.inrowmax;
      IndexInRows(row, column, d, g.inrowmore);
    } else {
      var d := g.inrowmax - 1;
      IndexInRows(row - g.inrowmore, column, d, g.inrowless);
      assert 0 <= g.inrowless * d;
    }
  }

  /** Column `column` of row `row`, d to a row, is the index whose
      quotient and remainder by d give the row and column back. */
  lemma IndexInRows(row: int, column: int, d: int, n: int)
    requires 0 <= row < n && 0 <= column < d
    ensures 0 <= row * d + column < n * d
    ensures (row * d + column) / d == row && (row * d + column) % d == column
  {
    RowFits(row, column, d, n);
    DivUnique(row * d + column, row, column, d);
  }

  /** Column `column` of row `row`, d to a row, lies within n rows. */
  lemma RowFits(row: int, column: int, d: int, n: int)
    requires 0 <= row < n && 0 <= column < d
    ensures 0 <= row * d + column < n * d
  {
    MulLeq(d, 0, row);
    MulLeq(d, row + 1, n);
    assert d * (row + 1) == row * d + d;
  }

  /** Different reactions never share a cell. */
  lemma PlaceInjective(count: int, i: int, j: int)
    requires count >= 1 && 0 <= i < count && 0 <= j < count && i != j
    ensures Place(count, i) != Place(count, j)
  {
  }

  /** What ReactionsPreview reads of a Data::Reaction: its emoji, whether it
      is premium, and whether both its center icon and around animation
      are present. */
  datatype GridReaction = GridReaction(emoji: Emoji, premium: bool, hasIcons: bool)

  /** One ReactionPreview placed in the grid; `slot` is its index among the
      premium reactions. */
  datatype Entry = Entry(emoji: Emoji, disable: DisableType, cell: Cell, slot: int)

  /** Premium reactions among the first n of the list. */
  function PremiumCount(list: seq<GridReaction>, n: nat): (r: nat)
    requires n <= |list|
    ensures r <= n
  {
    if n == 0 then 0 else PremiumCount(list, n - 1) + (if list[n - 1].premium then 1 else 0)
  }

  lemma {:induction false} PremiumCountGrows(list: seq<GridReaction>, n: nat, m: nat)
    requires n <= m <= |list|
    ensures PremiumCount(list, n) <= PremiumCount(list, m)
    ensures n < m && list[n].premium ==> PremiumCount(list, n) < PremiumCount(list, m)
    decreases m - n
  {
    if n < m {
      PremiumCountGrows(list, n + 1, m);
    }
  }

  /** The disable type the `disabled` map gives an emoji. */
  function DisableOf(disabled: map<Emoji, DisableType>, e: Emoji): DisableType {
    if e in disabled then disabled[e] else NotDisabled
  }

  /** Reference definition of the grid for the first n reactions: each
      premium reaction with both icons, in list order, in the cell of its
      index among all premium reactions (the ones without icons still use
      up an index). */
  function EntriesUpTo(list: seq<GridReaction>, disabled: map<Emoji, DisableType>, n: nat): (r: seq<Entry>)
    requires n <= |list| && PremiumCount(list, |list|) >= 1
    ensures forall k :: 0 <= k < |r| ==> 0 <= r[k].slot < PremiumCount(list, n)
    ensures forall k, l :: 0 <= k < l < |r| ==> r[k].slot < r[l].slot
    ensures forall k :: 0 <= k < |r| ==>
      0 <= r[k].slot < PremiumCount(list, |list|) && r[k].cell == Place(PremiumCount(list, |list|), r[k].slot)
    decreases n
  {
    if n == 0 then []
    else
      var prev := EntriesUpTo(list, disabled, n - 1);
      var reaction := list[n - 1];
      if reaction.premium && reaction.hasIcons then
        var slot := PremiumCount(list, n - 1);
        PremiumCountGrows(list, n - 1, |list|);
        PremiumCountGrows(list, n - 1, n);
        var r := prev + [Entry(reaction.emoji, DisableOf(disabled, reaction.emoji), Place(PremiumCount(list, |list|), slot), slot)];
        assert forall k :: 0 <= k < |prev| ==> r[k] == prev[k];
        assert r[|prev|].slot == slot;
        r
      else
        PremiumCountGrows(list, n - 1, n);
        prev
  }

  /** The last disable type other than NotDisabled among the entries. */
  function LastDisable(entries: seq<Entry>): (r: DisableType)
    ensures r != NotDisabled ==> exists k :: 0 <= k < |entries| && entries[k].disable == r
    ensures r == NotDisabled <==> forall k :: 0 <= k < |entries| ==> entries[k].disable == NotDisabled
  {
    if entries == [] then NotDisabled
    else if entries[|entries| - 1].disable != NotDisabled then entries[|entries| - 1].disable
    else LastDisable(entries[..|entries| - 1])
  }

  /** The loop of ReactionsPreview that lays out the premium reactions,
      and the disable type that picks the note under the grid. */
  method ReactionsGrid(list: seq<GridReaction>, disabled: map<Emoji, DisableType>)
    returns (entries: seq<Entry>, disableType: DisableType)
    requires PremiumCount(list, |list|) >= 1
    ensures entries == EntriesUpTo(list, disabled, |list|)
    ensures disableType == LastDisable(entries)
  {
    var count := PremiumCount(list, |list|);
    var index := 0;
    entries := [];
    disableType := NotDisabled;
    var j := 0;
    while j < |list|
      invariant 0 <= j <= |list|
      invariant index == PremiumCount(list, j)
      invariant entries == EntriesUpTo(list, disabled, j)
      invariant disableType == LastDisable(entries)
    {
      var reaction := list[j];
      if reaction.premium {
        PremiumCountGrows(list, j, |list|);
        var cell := Place(count, index);
        index := index + 1;
        if reaction.hasIcons {
          var disable := DisableOf(disabled, reaction.emoji);
          if disable != NotDisabled {
            disableType := disable;
          }
          assert entries + [Entry(reaction.emoji, disable, cell, index - 1)] == EntriesUpTo(list, disabled, j + 1);
          entries := entries + [Entry(reaction.emoji, disable, cell, index - 1)];
        }
      }
      j := j + 1;
    }
  }

  /** No two reactions of the grid share a cell, and every cell lies in
      the grid. */
  lemma GridCellsDistinct(list: seq<GridReaction>, disabled: map<Emoji, DisableType>)
    requires PremiumCount(list, |list|) >= 1
    ensures var entries := EntriesUpTo(list, disabled, |list|);
      forall k, l :: 0 <= k < l < |entries| ==> entries[k].cell != entries[l].cell
    ensures var entries := EntriesUpTo(list, disabled, |list|);
      forall k :: 0 <= k < |entries| ==>
        0 <= entries[k].cell.row < GridShape(PremiumCount(list, |list|)).rows
        && 0 <= entries[k].cell.column < entries[k].cell.inrow <= ReactionsPerRow
  {
    var count := PremiumCount(list, |list|);
    var entries := EntriesUpTo(list, disabled, |list|);
    forall k, l | 0 <= k < l < |entries| ensures entries[k].cell != entries[l].cell {
      PlaceInjective(count, entries[k].slot, entries[l].slot);
    }
    forall k | 0 <= k < |entries|
      ensures 0 <= entries[k].cell.column < entries[k].cell.inrow <= ReactionsPerRow
    {
      RowsBalanced(count, entries[k].cell.row, entries[k].cell.row);
    }
  }

  /** ComputeX: the horizontal centre of a column in a row of `columns`
      reactions, for the style's box width and column pitch `skip`. */
  function ComputeX(column: int, columns: int, boxWidth: int, skip: int): int
    requires skip > 0
  {
    var left := CDiv(boxWidth - columns * skip, 2);
    left + column * skip + skip / 2
  }

  /** A row's columns are `skip` apart, and the row is centred in the box:
      the space left of its first column and right of its last differ by at
      most one pixel. */
  lemma ComputeXCentred(column: int, columns: int, boxWidth: int, skip: int)
    requires skip > 0 && 0 <= column && columns >= 1
    ensures ComputeX(column + 1, columns, boxWidth, skip) - ComputeX(column, columns, boxWidth, skip) == skip
    ensures var leftSpace := ComputeX(0, columns, boxWidth, skip) - skip / 2;
      var rightSpace := boxWidth - (ComputeX(columns - 1, columns, boxWidth, skip) - skip / 2 + skip);
      Abs(rightSpace - leftSpace) <= 1
  {
    var full := columns * skip;
    assert (columns - 1) * skip + skip == full;
    assert (column + 1) * skip == column * skip + skip;
  }

  /** ComputeY: the vertical centre of a row among `rows`; more than three
      rows are centred on half of `infoTop`, fewer on `middle`. */
  function ComputeY(row: int, rows: int, infoTop: int, middle: int, skip: int): int
    requires skip > 0 && rows >= 0
  {
    var centre := if rows > 3 then CDiv(infoTop, 2) else middle;
    var top := centre - (rows * skip) / 2;
    top + row * skip + skip / 2
  }

  /** Rows are `skip` apart and the block of rows is centred on its middle
      line, the lower half taking the odd pixel. */
  lemma ComputeYCentred(row: int, rows: int, infoTop: int, middle: int, skip: int)
    requires skip > 0 && 0 <= row && rows >= 1
    ensures ComputeY(row + 1, rows, infoTop, middle, skip) - ComputeY(row, rows, infoTop, middle, skip) == skip
    ensures var centre := if rows > 3 then CDiv(infoTop, 2) else middle;
      var top := ComputeY(0, rows, infoTop, middle, skip) - skip / 2;
      var bottom := ComputeY(rows - 1, rows, infoTop, middle, skip) - skip / 2 + skip;
      0 <= (bottom - centre) - (centre - top) <= 1
  {
    var full := rows * skip;
    MulLeq(skip, 0, rows);
    assert (rows - 1) * skip + skip == full;
    assert (row + 1) * skip == row * skip + skip;
  }

  // ---------------------------------------------------------------------
  // Hover selection in the grid

  /** What the hover logic reads of a ReactionPreview. */
  datatype HoverEntry = HoverEntry(geometry: Rect, disabled: bool)

  predicate Hits(e: HoverEntry, p: Point) { e.geometry.Contains(p) && !e.disabled }

  /** The `lookup` lambda: the first enabled entry under the point, or -1. */
  function Lookup(entries: seq<HoverEntry>, p: Point): (r: int)
    ensures -1 <= r < |entries|
    ensures r >= 0 ==> Hits(entries[r], p) && forall k :: 0 <= k < r ==> !Hits(entries[k], p)
    ensures r == -1 <==> forall k :: 0 <= k < |entries| ==> !Hits(entries[k], p)
    decreases |entries|
  {
    if entries == [] then -1
    else if Hits(entries[0], p) then 0
    else
      var rest := Lookup(entries[1..], p);
      if rest == -1 then -1 else rest + 1
  }

  /** The hover state: `state->selected` and each entry's over flag. */
  datatype Hover = Hover(selected: int, over: seq<bool>)

  predicate HoverConsistent(h: Hover) {
    forall j :: 0 <= j < |h.over| ==> (h.over[j] <==> j == h.selected)
  }

  /** What `select` did: the new hover state, and the cursor it set (true
      for the pointer, false for the default), None when left alone. */
  datatype SelectResult = SelectResult(hover: Hover, cursor: Option<bool>)

  /** The `select` lambda. It indexes the entries with both the old and
      the new selection whenever they are not negative. */
  function Select(h: Hover, index: int): (r: SelectResult)
    requires h.selected < |h.over| && index < |h.over|
    ensures r.hover.selected == index && |r.hover.over| == |h.over|
    ensures HoverConsistent(h) ==> HoverConsistent(r.hover)
    ensures index == h.selected ==> r.hover == h
    ensures forall j :: 0 <= j < |h.over| && j != index && j != h.selected ==> r.hover.over[j] == h.over[j]
    // the cursor changes exactly when the pointer enters or leaves the entries
    ensures r.cursor.Some? <==> (h.selected >= 0) != (index >= 0)
    ensures r.cursor.Some? ==> r.cursor.value == (index >= 0)
  {
    var wasInside := h.selected >= 0;
    var nowInside := index >= 0;
    var over :=
      if h.selected != index then
        var cleared := if wasInside then h.over[h.selected := false] else h.over;
        if nowInside then cleared[index := true] else cleared
      else h.over;
    var cursor := if wasInside != nowInside then Some(nowInside) else None;
    SelectResult(Hover(index, over), cursor)
  }

  /** Selecting what is selected changes nothing, the second time round. */
  lemma SelectIdempotent(h: Hover, index: int)
    requires h.selected < |h.over| && index < |h.over|
    ensures Select(Select(h, index).hover, index) == SelectResult(Select(h, index).hover, None)
  {
  }

  // ---------------------------------------------------------------------
  // The accounts limit label

  /** The accounts entry of DoubledLimitsPreviewBox: `premiumMax` is
      Main::Domain::kPremiumMaxAccounts, `nextMax` one more than the
      current account limit. */
  function AccountsLabel(nextMax: nat, premiumMax: nat): (s: string)
    ensures |s| >= 1
  {
    if nextMax >= premiumMax then Decimal(premiumMax) else Decimal(nextMax) + "+"
  }

  /** Reads a label back: the number, and whether a '+' follows it. */
  function ReadLabel(s: string): (r: (nat, bool))
    requires |s| >= 1
  {
    var plus := s[|s| - 1] == '+';
    var digits := if plus then s[..|s| - 1] else s;
    if forall i :: 0 <= i < |digits| ==> '0' <= digits[i] <= '9' then (ParseDecimal(digits), plus) else (0, plus)
  }

  /** The label shows the smaller of the two limits, with a '+' exactly
      when the next limit is still below the premium maximum. */
  lemma AccountsLabelReadsBack(nextMax: nat, premiumMax: nat)
    ensures ReadLabel(AccountsLabel(nextMax, premiumMax)) == (Min(nextMax, premiumMax), nextMax < premiumMax)
  {
    var s := AccountsLabel(nextMax, premiumMax);
    if nextMax >= premiumMax {
      DecimalRoundTrip(premiumMax);
      assert s[|s| - 1] != '+';
    } else {
      DecimalRoundTrip(nextMax);
      assert s[..|s| - 1] == Decimal(nextMax);
    }
  }
}
