/** Applying a server snapshot of a message's reactions
    (MessageReactions::change) and the cheaper "would it change" test. */
module ReactionsSync {
  import opened Common
  import opened MessageReactions

  /** One ReactionCount of the snapshot. */
  datatype ReactionCount = ReactionCount(reaction: Emoji, count: int, chosen: bool)

  /** One MessagePeerReaction of the snapshot's recent list. */
  datatype PeerReaction = PeerReaction(reaction: Emoji, peer: PeerId, unread: bool, big: bool)

  /** Emoji mentioned by a snapshot. */
  function Reactions(counts: seq<ReactionCount>): set<Emoji> {
    set c | c in counts :: c.reaction
  }

  /** The count the snapshot assigns to `e`: its last entry for `e` wins. */
  function LastCount(counts: seq<ReactionCount>, e: Emoji): int
    requires e in Reactions(counts)
    decreases |counts|
  {
    assert counts[0] in counts;
    if e in Reactions(counts[1..]) then LastCount(counts[1..], e) else counts[0].count
  }

  /** The first entry the snapshot marks as chosen, if any. */
  function ChosenEntry(counts: seq<ReactionCount>): (r: Option<Emoji>)
    ensures r.Some? ==> r.value in Reactions(counts)
    ensures r.None? <==> forall i :: 0 <= i < |counts| ==> !counts[i].chosen
    decreases |counts|
  {
    if counts == [] then None
    else if counts[0].chosen then Some(counts[0].reaction)
    else
      var rest := ChosenEntry(counts[1..]);
      assert forall i :: 1 <= i < |counts| ==> counts[i] == counts[1..][i - 1];
      assert forall c :: c in counts[1..] ==> c in counts;
      rest
  }

  /** Reference meaning of the chosen-flag pass for a well-formed snapshot:
      the snapshot's chosen entry if it has one; otherwise the previous
      choice is dropped if the snapshot mentions it, and kept if not. */
  function ChosenAfter(before: Emoji, counts: seq<ReactionCount>): Emoji {
    match ChosenEntry(counts)
    case Some(e) => e
    case None => if before in Reactions(counts) then "" else before
  }

  /** Some count of the snapshot differs from the one held, an absent emoji
      reading as 0. */
  predicate CountsDiffer(list: map<Emoji, int>, counts: seq<ReactionCount>) {
    exists i :: 0 <= i < |counts| && counts[i].count != CountOf(list, counts[i].reaction)
  }

  /** What the server sends: distinct non-empty emoji with positive counts,
      at most one of them chosen. */
  ghost predicate WellFormed(counts: seq<ReactionCount>) {
    && (forall i, j :: 0 <= i < j < |counts| ==> counts[i].reaction != counts[j].reaction)
    && (forall i :: 0 <= i < |counts| ==> counts[i].reaction != "" && counts[i].count >= 1)
    && (forall i, j :: 0 <= i < j < |counts| && counts[i].chosen ==> !counts[j].chosen)
  }

  /** One step of the chosen-flag pass: an entry flagged chosen becomes the
      choice; an unflagged entry naming the current choice clears it. */
  function FollowFlag(chosen: Emoji, c: ReactionCount): Emoji {
    if c.chosen && chosen != c.reaction then c.reaction
    else if !c.chosen && chosen == c.reaction then ""
    else chosen
  }

  /** Whether the chosen-flag step reports a change: either branch of the
      source's test does, even when the choice it assigns is the one held
      (an unflagged empty emoji while nothing is chosen). */
  predicate FlagFires(chosen: Emoji, c: ReactionCount) {
    (c.chosen && chosen != c.reaction) || (!c.chosen && chosen == c.reaction)
  }

  /** For a non-empty emoji the step reports a change exactly when the
      choice moves. */
  lemma FlagFiresIffMoved(chosen: Emoji, c: ReactionCount)
    requires c.reaction != ""
    ensures FlagFires(chosen, c) <==> FollowFlag(chosen, c) != chosen
  {
  }

  /** State carried through the loop over the snapshot's counts. */
  datatype CountPass = CountPass(chosen: Emoji, list: map<Emoji, int>, existing: set<Emoji>, changed: bool)

  /** The loop over the snapshot's counts: flip the choice to follow the
      `chosen` flags (unless told to ignore them), overwrite each count
      (`_list[reaction]` inserts a 0 first) and collect the emoji seen. */
  function ApplyCounts(acc: CountPass, counts: seq<ReactionCount>, ignoreChosen: bool): (r: CountPass)
    ensures r.existing == acc.existing + Reactions(counts)
    ensures r.list.Keys == acc.list.Keys + Reactions(counts)
    ensures forall e :: e in r.list ==>
      r.list[e] == (if e in Reactions(counts) then LastCount(counts, e) else acc.list[e])
    ensures ignoreChosen ==> r.chosen == acc.chosen
    ensures r.chosen == acc.chosen || r.chosen == "" || r.chosen in Reactions(counts)
    ensures acc.changed ==> r.changed
    decreases |counts|
  {
    if counts == [] then acc
    else
      var c := counts[0];
      var chosen := if ignoreChosen then acc.chosen else FollowFlag(acc.chosen, c);
      var was := CountOf(acc.list, c.reaction);
      var next := CountPass(chosen, acc.list[c.reaction := c.count], acc.existing + {c.reaction},
                            acc.changed || (!ignoreChosen && FlagFires(acc.chosen, c)) || was != c.count);
      ReactionsCons(counts);
      ApplyCounts(next, counts[1..], ignoreChosen)
  }

  /** The emoji of a non-empty snapshot: its head's and those of the rest. */
  lemma ReactionsCons(counts: seq<ReactionCount>)
    requires counts != []
    ensures Reactions(counts) == {counts[0].reaction} + Reactions(counts[1..])
  {
    assert counts[0] in counts;
    assert forall d :: d in counts[1..] ==> d in counts;
    assert forall d :: d in counts ==> d == counts[0] || d in counts[1..];
  }

  /** Counted emoji that the snapshot's recent list mentions. */
  function Mentioned(recent: seq<PeerReaction>, counted: set<Emoji>): (r: set<Emoji>)
    ensures r <= counted
    decreases |recent|
  {
    if recent == [] then {}
    else (if recent[0].reaction in counted then {recent[0].reaction} else {}) + Mentioned(recent[1..], counted)
  }

  /** The snapshot's recent list, grouped by emoji and restricted to emoji
      that are counted; order within a group follows the snapshot. */
  function ParseRecent(acc: map<Emoji, seq<RecentReaction>>, recent: seq<PeerReaction>, counted: set<Emoji>)
    : (r: map<Emoji, seq<RecentReaction>>)
    requires acc.Keys <= counted
    ensures r.Keys == acc.Keys + Mentioned(recent, counted)
    ensures forall e :: e in r ==> r[e] == RecentOf(acc, e) + Grouped(recent, e)
    decreases |recent|
  {
    if recent == [] then acc
    else
      var x := recent[0];
      var next :=
        if x.reaction in counted then acc[x.reaction := RecentOf(acc, x.reaction) + [RecentReaction(x.peer, x.unread, x.big)]]
        else acc;
      var r := ParseRecent(next, recent[1..], counted);
      forall e | e in r ensures r[e] == RecentOf(acc, e) + Grouped(recent, e) {
        ParseRecentStep(acc, next, x, recent, counted, e);
      }
      r
  }

  lemma ParseRecentStep(acc: map<Emoji, seq<RecentReaction>>, next: map<Emoji, seq<RecentReaction>>,
                        x: PeerReaction, recent: seq<PeerReaction>, counted: set<Emoji>, e: Emoji)
    requires recent != [] && x == recent[0] && e in counted
    requires next == if x.reaction in counted then acc[x.reaction := RecentOf(acc, x.reaction) + [RecentReaction(x.peer, x.unread, x.big)]] else acc
    ensures RecentOf(next, e) + Grouped(recent[1..], e) == RecentOf(acc, e) + Grouped(recent, e)
  {
  }

  /** Reference definition of one group: the snapshot's reactors for `e`,
      in order, when `e` is counted. */
  function Grouped(recent: seq<PeerReaction>, e: Emoji): seq<RecentReaction>
    decreases |recent|
  {
    if recent == [] then []
    else (if recent[0].reaction == e then [RecentReaction(recent[0].peer, recent[0].unread, recent[0].big)] else [])
         + Grouped(recent[1..], e)
  }

  /** The counts half of change(): the loop over the snapshot, then the
      erasure of emoji it did not mention (detected, as in the source, by
      the map having more keys than the set of emoji seen). */
  datatype Tallied = Tallied(chosen: Emoji, list: map<Emoji, int>, pruned: bool, changed: bool)

  function FirstPass(s: State, counts: seq<ReactionCount>, ignoreChosen: bool): CountPass {
    ApplyCounts(CountPass(s.chosen, s.list, {}, false), counts, ignoreChosen)
  }

  /** Erase every emoji the loop did not see; the choice is cleared if its
      emoji went with them. */
  function Prune(pass: CountPass): (t: Tallied)
    requires pass.existing <= pass.list.Keys
    ensures t.list.Keys == pass.existing
    ensures forall e :: e in t.list ==> t.list[e] == pass.list[e]
    ensures t.pruned <==> pass.list.Keys != pass.existing
    ensures !t.pruned ==> t.chosen == pass.chosen
    ensures t.chosen == pass.chosen || t.chosen == ""
    ensures (pass.chosen == "" || pass.chosen in pass.list) ==> t.chosen == "" || t.chosen in t.list
    ensures t.changed == pass.changed
  {
    var pruned := |pass.list.Keys| != |pass.existing|;
    var list := if pruned then (map e | e in pass.list && e in pass.existing :: pass.list[e]) else pass.list;
    var chosen := if pruned && pass.chosen != "" && pass.chosen !in list then "" else pass.chosen;
    assert pruned <==> pass.list.Keys != pass.existing by {
      if pass.list.Keys != pass.existing {
        StrictSuperset(pass.existing, pass.list.Keys);
      }
    }
    Tallied(chosen, list, pruned, pass.changed)
  }

  function Tally(s: State, counts: seq<ReactionCount>, ignoreChosen: bool): (t: Tallied)
    ensures t.list.Keys == Reactions(counts)
    ensures forall e :: e in t.list ==> t.list[e] == LastCount(counts, e)
    ensures t.pruned <==> !(s.list.Keys <= Reactions(counts))
    ensures !t.pruned ==> t.chosen == FirstPass(s, counts, ignoreChosen).chosen
    ensures t.changed == FirstPass(s, counts, ignoreChosen).changed
    ensures (s.chosen == "" || s.chosen in s.list) ==> t.chosen == "" || t.chosen in t.list
    ensures ignoreChosen ==> t.chosen == s.chosen || t.chosen == ""
  {
    var pass := FirstPass(s, counts, ignoreChosen);
    assert pass.existing == Reactions(counts);
    Prune(pass)
  }

  /** Result of change(): the new state and whether anything was reported
      as changed. */
  datatype ChangeResult = ChangeResult(state: State, changed: bool)

  /** MessageReactions::change. While the user's own choice is still being
      sent the snapshot is ignored. */
  function Change(s: State, counts: seq<ReactionCount>, recent: seq<PeerReaction>, ignoreChosen: bool, sending: bool)
    : (r: ChangeResult)
    ensures sending ==> r == ChangeResult(s, false)
    // afterwards the counts are exactly the snapshot's
    ensures !sending ==> r.state.list.Keys == Reactions(counts)
    ensures !sending ==> forall e :: e in r.state.list ==> r.state.list[e] == LastCount(counts, e)
    // the recent lists are the snapshot's, restricted to counted emoji
    ensures !sending ==> r.state.recent.Keys == Mentioned(recent, r.state.list.Keys)
    ensures !sending ==> forall e :: e in r.state.recent ==> r.state.recent[e] == Grouped(recent, e) && |r.state.recent[e]| > 0
    // the choice is never left pointing at an uncounted emoji
    ensures !sending && (s.chosen == "" || s.chosen in s.list) ==> r.state.chosen == "" || r.state.chosen in r.state.list
    ensures !sending && ignoreChosen ==> r.state.chosen == s.chosen || r.state.chosen == ""
  {
    if sending then ChangeResult(s, false)
    else
      var t := Tally(s, counts, ignoreChosen);
      var parsed := ParseRecent(map[], recent, t.list.Keys);
      ParsedFromEmpty(recent, t.list.Keys);
      ChangeResult(State(t.chosen, t.list, parsed), t.changed || t.pruned || s.recent != parsed)
  }

  /** Parsing into an empty map groups exactly the mentioned, counted
      emoji, and no group is empty. */
  lemma ParsedFromEmpty(recent: seq<PeerReaction>, counted: set<Emoji>)
    ensures ParseRecent(map[], recent, counted).Keys == Mentioned(recent, counted)
    ensures forall e :: e in ParseRecent(map[], recent, counted) ==>
      ParseRecent(map[], recent, counted)[e] == Grouped(recent, e) && |ParseRecent(map[], recent, counted)[e]| > 0
  {
    var parsed := ParseRecent(map[], recent, counted);
    var empty: map<Emoji, seq<RecentReaction>> := map[];
    assert empty.Keys + Mentioned(recent, counted) == Mentioned(recent, counted);
    forall e | e in parsed ensures parsed[e] == Grouped(recent, e) && |parsed[e]| > 0 {
      assert RecentOf(empty, e) == [];
      GroupedNonEmpty(recent, e, counted);
    }
  }

  lemma StrictSuperset(a: set<Emoji>, b: set<Emoji>)
    requires a <= b && a != b
    ensures |a| < |b|
  {
    var x :| x in b && x !in a;
    assert a <= b - {x};
    SubsetCard(a, b - {x});
  }

  lemma {:induction false} SubsetCard(a: set<Emoji>, b: set<Emoji>)
    requires a <= b
    ensures |a| <= |b|
    decreases |b|
  {
    if a != {} {
      var x :| x in a;
      SubsetCard(a - {x}, b - {x});
    }
  }

  lemma {:induction false} GroupedNonEmpty(recent: seq<PeerReaction>, e: Emoji, counted: set<Emoji>)
    requires e in Mentioned(recent, counted)
    ensures |Grouped(recent, e)| > 0
    decreases |recent|
  {
    if recent[0].reaction != e {
      GroupedNonEmpty(recent[1..], e, counted);
    }
  }

  /** With distinct emoji, the count held for an emoji is its one entry's. */
  lemma {:induction false} LastCountOfEntry(counts: seq<ReactionCount>, i: int)
    requires 0 <= i < |counts|
    requires forall a, b :: 0 <= a < b < |counts| ==> counts[a].reaction != counts[b].reaction
    ensures counts[i].reaction in Reactions(counts)
    ensures LastCount(counts, counts[i].reaction) == counts[i].count
    decreases |counts|
  {
    assert counts[i] in counts;
    if i != 0 {
      assert counts[1..][i - 1] == counts[i];
      LastCountOfEntry(counts[1..], i - 1);
    }
  }

  lemma EntryOf(counts: seq<ReactionCount>, e: Emoji) returns (i: int)
    requires e in Reactions(counts)
    ensures 0 <= i < |counts| && counts[i].reaction == e
  {
    var d :| d in counts && d.reaction == e;
    i :| 0 <= i < |counts| && counts[i] == d;
  }

  lemma WellFormedTail(counts: seq<ReactionCount>)
    requires counts != [] && WellFormed(counts)
    ensures WellFormed(counts[1..])
    ensures counts[0].reaction !in Reactions(counts[1..])
    ensures counts[0].chosen ==> ChosenEntry(counts[1..]).None?
  {
    if counts[0].chosen {
      forall k | 0 <= k < |counts[1..]| ensures !counts[1..][k].chosen {
        assert counts[1..][k] == counts[k + 1];
      }
    }
  }

  /** Updating one emoji's count does not change whether the rest of a
      snapshot disagrees with the held counts, when the rest never names it. */
  lemma CountsDifferStep(list: map<Emoji, int>, counts: seq<ReactionCount>)
    requires counts != []
    requires counts[0].reaction !in Reactions(counts[1..])
    ensures CountsDiffer(list, counts) ==
      (counts[0].count != CountOf(list, counts[0].reaction)
       || CountsDiffer(list[counts[0].reaction := counts[0].count], counts[1..]))
  {
    var c := counts[0];
    var rest := counts[1..];
    var updated := list[c.reaction := c.count];
    forall k | 0 <= k < |rest| ensures CountOf(updated, rest[k].reaction) == CountOf(list, rest[k].reaction) {
      assert rest[k] in rest;
    }
    if CountsDiffer(list, counts) && c.count == CountOf(list, c.reaction) {
      var i :| 0 <= i < |counts| && counts[i].count != CountOf(list, counts[i].reaction);
      assert rest[i - 1] == counts[i];
    }
    if CountsDiffer(updated, rest) {
      var k :| 0 <= k < |rest| && rest[k].count != CountOf(updated, rest[k].reaction);
      assert counts[k + 1] == rest[k];
    }
  }

  /** The reference choice is unaffected by consuming one entry, and a
      choice that moved at this step never moves back. */
  lemma ChoiceStep(before: Emoji, counts: seq<ReactionCount>)
    requires counts != [] && WellFormed(counts)
    ensures ChosenAfter(before, counts) == ChosenAfter(FollowFlag(before, counts[0]), counts[1..])
    ensures (FollowFlag(before, counts[0]) != before || ChosenAfter(before, counts) != FollowFlag(before, counts[0]))
            == (ChosenAfter(before, counts) != before)
  {
    var c := counts[0];
    var rest := counts[1..];
    WellFormedTail(counts);
    assert c in counts;
    assert Reactions(counts) == {c.reaction} + Reactions(rest) by {
      assert forall d :: d in counts ==> d == c || d in rest;
      assert forall d :: d in rest ==> d in counts;
    }
  }

  /** The counts loop ends with the choice the reference ChosenAfter gives. */
  lemma {:induction false} ApplyCountsChosen(acc: CountPass, counts: seq<ReactionCount>)
    requires WellFormed(counts)
    ensures ApplyCounts(acc, counts, false).chosen == ChosenAfter(acc.chosen, counts)
    decreases |counts|
  {
    if counts != [] {
      var c := counts[0];
      var next := CountPass(FollowFlag(acc.chosen, c), acc.list[c.reaction := c.count], acc.existing + {c.reaction},
                            acc.changed || FlagFires(acc.chosen, c) || CountOf(acc.list, c.reaction) != c.count);
      assert ApplyCounts(acc, counts, false) == ApplyCounts(next, counts[1..], false);
      WellFormedTail(counts);
      ApplyCountsChosen(next, counts[1..]);
      ChoiceStep(acc.chosen, counts);
    }
  }

  /** The counts loop reports a change exactly when the choice moved or some
      count differs. Flips never cancel out because each emoji appears once
      and at most one is chosen. */
  lemma {:induction false} ApplyCountsChanged(acc: CountPass, counts: seq<ReactionCount>, ignoreChosen: bool)
    requires WellFormed(counts)
    ensures ApplyCounts(acc, counts, ignoreChosen).changed ==
      (acc.changed || ApplyCounts(acc, counts, ignoreChosen).chosen != acc.chosen || CountsDiffer(acc.list, counts))
    decreases |counts|
  {
    if counts != [] {
      var c := counts[0];
      var chosen := if ignoreChosen then acc.chosen else FollowFlag(acc.chosen, c);
      var next := CountPass(chosen, acc.list[c.reaction := c.count], acc.existing + {c.reaction},
                            acc.changed || (!ignoreChosen && FlagFires(acc.chosen, c)) || CountOf(acc.list, c.reaction) != c.count);
      assert ApplyCounts(acc, counts, ignoreChosen) == ApplyCounts(next, counts[1..], ignoreChosen);
      WellFormedTail(counts);
      FlagFiresIffMoved(acc.chosen, c);
      ApplyCountsChanged(next, counts[1..], ignoreChosen);
      CountsDifferStep(acc.list, counts);
      if !ignoreChosen {
        ApplyCountsChosen(next, counts[1..]);
        ApplyCountsChosen(acc, counts);
        ChoiceStep(acc.chosen, counts);
      }
    }
  }

  /** When nothing has to be erased, the snapshot's counts differ from the
      held ones exactly when some entry disagrees. */
  lemma CountsMatchSnapshot(held: map<Emoji, int>, counts: seq<ReactionCount>, after: map<Emoji, int>)
    requires WellFormed(counts)
    requires held.Keys <= Reactions(counts) && after.Keys == Reactions(counts)
    requires forall e :: e in after ==> after[e] == LastCount(counts, e)
    ensures after != held <==> CountsDiffer(held, counts)
  {
    if CountsDiffer(held, counts) {
      var i :| 0 <= i < |counts| && counts[i].count != CountOf(held, counts[i].reaction);
      LastCountOfEntry(counts, i);
      assert after[counts[i].reaction] != CountOf(held, counts[i].reaction);
    } else {
      forall e | e in Reactions(counts) ensures e in held && held[e] == after[e] {
        var i := EntryOf(counts, e);
        LastCountOfEntry(counts, i);
      }
      assert after == held;
    }
  }

  /** The counts half of change() reports a change exactly when the choice
      or the counts end up different. */
  lemma TallyReportsDifference(s: State, counts: seq<ReactionCount>, ignoreChosen: bool)
    requires WellFormed(counts)
    ensures (Tally(s, counts, ignoreChosen).changed || Tally(s, counts, ignoreChosen).pruned)
            <==> (Tally(s, counts, ignoreChosen).list != s.list || Tally(s, counts, ignoreChosen).chosen != s.chosen)
  {
    var t := Tally(s, counts, ignoreChosen);
    ApplyCountsChanged(CountPass(s.chosen, s.list, {}, false), counts, ignoreChosen);
    if t.pruned {
      assert t.list.Keys != s.list.Keys;
    } else {
      CountsMatchSnapshot(s.list, counts, t.list);
    }
  }

  /** change() reports a change exactly when the state it leaves differs
      from the one it was given, for any well-formed snapshot. */
  lemma ChangeReportsDifference(s: State, counts: seq<ReactionCount>, recent: seq<PeerReaction>, ignoreChosen: bool)
    requires WellFormed(counts)
    ensures Change(s, counts, recent, ignoreChosen, false).changed <==> Change(s, counts, recent, ignoreChosen, false).state != s
  {
    TallyReportsDifference(s, counts, ignoreChosen);
  }

  /** Outside well-formed snapshots the report and the state can disagree:
      an unflagged empty emoji, while nothing is chosen, takes the source's
      "clear the choice" branch and reports a change although nothing
      moves. */
  lemma EmptyEmojiReportsChange()
    ensures var s := State("", map["" := 0], map[]);
            var r := Change(s, [ReactionCount("", 0, false)], [], false, false);
            r.changed && r.state == s
  {
    var s := State("", map["" := 0], map[]);
    var c := ReactionCount("", 0, false);
    var pass := CountPass("", map["" := 0], {""}, true);
    assert FlagFires("", c) && FollowFlag("", c) == "";
    assert s.list[c.reaction := c.count] == pass.list;
    assert [c][1..] == [];
    assert FirstPass(s, [c], false) == pass;
    assert Tally(s, [c], false) == Tallied("", pass.list, false, true);
    assert ParseRecent(map[], [], pass.list.Keys) == map[];
  }

  /** Applying a well-formed snapshot leaves a valid state behind. */
  lemma ChangeKeepsValid(s: State, counts: seq<ReactionCount>, recent: seq<PeerReaction>, ignoreChosen: bool)
    requires Valid(s) && WellFormed(counts)
    ensures Valid(Change(s, counts, recent, ignoreChosen, false).state)
  {
    var r := Change(s, counts, recent, ignoreChosen, false).state;
    forall e | e in r.list ensures r.list[e] >= 1 {
      var i := EntryOf(counts, e);
      LastCountOfEntry(counts, i);
    }
  }

  // ---- checkIfChanged ----

  /** The order base::flat_map iterates emoji keys in: lexicographic, a
      proper prefix first, comparing characters by code point. QString's
      operator< compares UTF-16 code units instead, which agrees with this
      except that a character from U+E000 to U+FFFF sorts after a
      supplementary one there (U+FE0F against U+1F3FB, say). */
  predicate StrLess(a: string, b: string)
    decreases |a|
  {
    |b| > 0 && (|a| == 0 || a[0] < b[0] || (a[0] == b[0] && StrLess(a[1..], b[1..])))
  }

  lemma {:induction false} StrLessTransitive(a: string, b: string, c: string)
    requires StrLess(a, b) && StrLess(b, c)
    ensures StrLess(a, c)
    decreases |a|
  {
    if |a| > 0 && a[0] == b[0] && b[0] == c[0] {
      StrLessTransitive(a[1..], b[1..], c[1..]);
    }
  }

  /** `m` is a least element of `keys`. */
  ghost predicate IsLeast(m: Emoji, keys: set<Emoji>) {
    m in keys && forall k :: k in keys ==> !StrLess(k, m)
  }

  /** Every non-empty finite set of strings has a least element. */
  lemma {:induction false} LeastExists(keys: set<Emoji>)
    requires keys != {}
    ensures exists m :: IsLeast(m, keys)
    decreases |keys|
  {
    var x :| x in keys;
    if keys - {x} == {} {
      assert keys == {x};
      StrLessIrreflexive(x);
      assert IsLeast(x, keys);
    } else {
      LeastExists(keys - {x});
      var m :| IsLeast(m, keys - {x});
      if StrLess(x, m) {
        forall k | k in keys ensures !StrLess(k, x) {
          if k == x {
            StrLessIrreflexive(x);
          } else {
            assert k in keys - {x};
            if StrLess(k, x) {
              StrLessTransitive(k, x, m);
            }
          }
        }
        assert IsLeast(x, keys);
      } else {
        forall k | k in keys ensures !StrLess(k, m) {
          if k != x {
            assert k in keys - {x};
          }
        }
        assert IsLeast(m, keys);
      }
    }
  }

  lemma {:induction false} StrLessIrreflexive(a: string)
    ensures !StrLess(a, a)
    decreases |a|
  {
    if |a| > 0 {
      StrLessIrreflexive(a[1..]);
    }
  }

  /** The keys of a flat_map in iteration order. */
  ghost function KeyOrder(keys: set<Emoji>): (r: seq<Emoji>)
    ensures |r| == |keys|
    ensures forall k :: k in r <==> k in keys
    decreases |keys|
  {
    if keys == {} then []
    else
      LeastExists(keys);
      var m :| IsLeast(m, keys);
      [m] + KeyOrder(keys - {m})
  }

  /** The inner comparison of checkIfChanged: two recent lists match when
      they have the same length and agree on peer and big, position by
      position; the unread flag is ignored. */
  predicate SamePeersAndBig(a: seq<RecentReaction>, b: seq<RecentReaction>) {
    |a| == |b| && forall i :: 0 <= i < |a| ==> a[i].peer == b[i].peer && a[i].big == b[i].big
  }

  /** The outer comparison as written: ranges::equal walks both maps in key
      order, but its predicate looks only at the values, never the emoji. */
  ghost predicate RecentMatchAsWritten(a: map<Emoji, seq<RecentReaction>>, b: map<Emoji, seq<RecentReaction>>) {
    var ka := KeyOrder(a.Keys);
    var kb := KeyOrder(b.Keys);
    |ka| == |kb| && forall i :: 0 <= i < |ka| ==> SamePeersAndBig(a[ka[i]], b[kb[i]])
  }

  /** The comparison checkIfChanged evidently means: the same emoji, each
      with a matching list. */
  predicate RecentMatch(a: map<Emoji, seq<RecentReaction>>, b: map<Emoji, seq<RecentReaction>>) {
    a.Keys == b.Keys && forall e :: e in a ==> SamePeersAndBig(a[e], b[e])
  }

  /** The count test shared by both versions: some count differs, or the
      held map names an emoji the snapshot does not. */
  predicate CountsChanged(s: State, counts: seq<ReactionCount>) {
    CountsDiffer(s.list, counts) || !(s.list.Keys <= Reactions(counts))
  }

  /** MessageReactions::checkIfChanged as written. */
  ghost function CheckIfChangedAsWritten(s: State, counts: seq<ReactionCount>, recent: seq<PeerReaction>, sending: bool)
    : (changed: bool)
    ensures sending ==> !changed
    ensures !sending && CountsChanged(s, counts) ==> changed
  {
    if sending then false
    else if CountsChanged(s, counts) then true
    else !RecentMatchAsWritten(s.recent, ParseRecent(map[], recent, s.list.Keys))
  }

  /** MessageReactions::checkIfChanged with the emoji compared as well. */
  function CheckIfChanged(s: State, counts: seq<ReactionCount>, recent: seq<PeerReaction>, sending: bool)
    : (changed: bool)
    ensures sending ==> !changed
    ensures !sending && CountsChanged(s, counts) ==> changed
  {
    if sending then false
    else if CountsChanged(s, counts) then true
    else !RecentMatch(s.recent, ParseRecent(map[], recent, s.list.Keys))
  }

  /** The corrected test predicts change(): it answers true exactly when
      change() would alter the counts or the recent reactors (unread flags
      aside). */
  lemma CheckIfChangedPredictsChange(s: State, counts: seq<ReactionCount>, recent: seq<PeerReaction>, ignoreChosen: bool)
    requires WellFormed(counts)
    ensures CheckIfChanged(s, counts, recent, false) <==>
      (Change(s, counts, recent, ignoreChosen, false).state.list != s.list
       || !RecentMatch(s.recent, Change(s, counts, recent, ignoreChosen, false).state.recent))
  {
    var t := Tally(s, counts, ignoreChosen);
    if !t.pruned {
      CountsMatchSnapshot(s.list, counts, t.list);
    }
  }

  /** The as-written test misses a reactor moving to another emoji: here
      peer 7's reaction moves from "A" to "B" with both counts unchanged;
      checkIfChanged answers false while change() rewrites the recent map. */
  lemma CheckIfChangedMissesMovedReactor()
    ensures var s := State("", map["A" := 1, "B" := 1], map["A" := [RecentReaction(7, false, false)]]);
            var counts := [ReactionCount("A", 1, false), ReactionCount("B", 1, false)];
            var recent := [PeerReaction("B", 7, false, false)];
            WellFormed(counts)
            && !CheckIfChangedAsWritten(s, counts, recent, false)
            && CheckIfChanged(s, counts, recent, false)
            && Change(s, counts, recent, false, false).state.recent != s.recent
  {
    var s := State("", map["A" := 1, "B" := 1], map["A" := [RecentReaction(7, false, false)]]);
    var counts := [ReactionCount("A", 1, false), ReactionCount("B", 1, false)];
    var recent := [PeerReaction("B", 7, false, false)];
    assert s.list.Keys == {"A", "B"};
    MovedReactorWellFormed();
    MovedReactorParsed();
    MovedReactorCountsKept();
    MovedReactorComparisons();
    MovedReactorChanged();
  }

  lemma MovedReactorWellFormed()
    ensures WellFormed([ReactionCount("A", 1, false), ReactionCount("B", 1, false)])
  {
    var counts := [ReactionCount("A", 1, false), ReactionCount("B", 1, false)];
    assert counts[0].reaction != counts[1].reaction by {
      assert counts[0].reaction[0] != counts[1].reaction[0];
    }
  }

  /** Before and after the move: the as-written comparison sees two lists
      of one matching reactor, the corrected one sees different emoji. */
  lemma MovedReactorComparisons()
    ensures RecentMatchAsWritten(map["A" := [RecentReaction(7, false, false)]], map["B" := [RecentReaction(7, false, false)]])
    ensures !RecentMatch(map["A" := [RecentReaction(7, false, false)]], map["B" := [RecentReaction(7, false, false)]])
  {
    var a := map["A" := [RecentReaction(7, false, false)]];
    var b := map["B" := [RecentReaction(7, false, false)]];
    assert a.Keys == {"A"} && b.Keys == {"B"};
    MovedReactorKeyOrders();
    assert "A" !in b by {
      assert "A"[0] != "B"[0];
    }
  }

  /** The moved reactor's snapshot names "B" only. */
  lemma MovedReactorMentioned()
    ensures Mentioned([PeerReaction("B", 7, false, false)], {"A", "B"}) == {"B"}
    ensures Grouped([PeerReaction("B", 7, false, false)], "B") == [RecentReaction(7, false, false)]
  {
    var recent := [PeerReaction("B", 7, false, false)];
    assert recent[1..] == [];
  }

  /** The moved reactor's snapshot parses to "B" alone. */
  lemma MovedReactorParsed()
    ensures ParseRecent(map[], [PeerReaction("B", 7, false, false)], {"A", "B"})
      == map["B" := [RecentReaction(7, false, false)]]
  {
    var acc: map<Emoji, seq<RecentReaction>> := map[];
    var parsed := ParseRecent(acc, [PeerReaction("B", 7, false, false)], {"A", "B"});
    MovedReactorMentioned();
    assert acc.Keys == {};
    assert parsed.Keys == {"B"};
    assert RecentOf(acc, "B") == [];
    assert parsed["B"] == [RecentReaction(7, false, false)];
  }

  /** The moved reactor's snapshot keeps both counts. */
  lemma MovedReactorCountsKept()
    ensures Reactions([ReactionCount("A", 1, false), ReactionCount("B", 1, false)]) == {"A", "B"}
    ensures !CountsChanged(State("", map["A" := 1, "B" := 1], map["A" := [RecentReaction(7, false, false)]]),
                           [ReactionCount("A", 1, false), ReactionCount("B", 1, false)])
  {
    var counts := [ReactionCount("A", 1, false), ReactionCount("B", 1, false)];
    assert Reactions(counts) == {"A", "B"};
    assert counts[0].reaction == "A";
  }

  /** change() keeps only "B" in the recent map. */
  lemma MovedReactorChanged()
    ensures Change(State("", map["A" := 1, "B" := 1], map["A" := [RecentReaction(7, false, false)]]),
                   [ReactionCount("A", 1, false), ReactionCount("B", 1, false)],
                   [PeerReaction("B", 7, false, false)], false, false).state.recent.Keys == {"B"}
  {
    MovedReactorCountsKept();
    MovedReactorMentioned();
  }

  /** A single key is its own order. */
  lemma MovedReactorKeyOrders()
    ensures KeyOrder({"A"}) == ["A"] && KeyOrder({"B"}) == ["B"]
  {
  }
}
