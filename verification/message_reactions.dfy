/** Per-message reaction bookkeeping (Data::MessageReactions): the user's
    chosen emoji, an emoji -> count map and an emoji -> recent-reactor map. */
module MessageReactions {
  import opened Common

  type Emoji = string
  type PeerId = nat

  /** Data::Reaction, one entry of the server's list of available
      reactions; documents are identified by number. */
  datatype Reaction = Reaction(
    emoji: Emoji,
    title: string,
    staticIcon: nat,
    appearAnimation: nat,
    selectAnimation: nat,
    centerIcon: Option<nat>,
    aroundAnimation: Option<nat>,
    active: bool,
    premium: bool)

  /** A Reaction built from its required fields only: the optional documents
      start out null and both flags start out false. */
  function NewReaction(emoji: Emoji, title: string, staticIcon: nat, appear: nat, select: nat): (r: Reaction)
    ensures r.emoji == emoji && r.title == title
    ensures r.staticIcon == staticIcon && r.appearAnimation == appear && r.selectAnimation == select
    ensures r.centerIcon.None? && r.aroundAnimation.None?
    ensures !r.active && !r.premium
  {
    Reaction(emoji, title, staticIcon, appear, select, None, None, false, false)
  }

  /** One reactor in an emoji's recent list. Dafny's structural equality on
      this datatype is the source's field-wise operator==. */
  datatype RecentReaction = RecentReaction(peer: PeerId, unread: bool, big: bool)

  /** The whole per-message state; the empty string stands for "no choice". */
  datatype State = State(
    chosen: Emoji,
    list: map<Emoji, int>,
    recent: map<Emoji, seq<RecentReaction>>)

  /** A freshly constructed MessageReactions. */
  function Initial(): (s: State)
    ensures s.chosen == "" && |s.list| == 0 && |s.recent| == 0
  {
    State("", map[], map[])
  }

  /** The invariant add/remove keep: counts are positive, the chosen emoji
      (if any) has a count, and recent lists exist only, and only non-empty,
      for counted emoji. */
  ghost predicate Valid(s: State) {
    && (forall e :: e in s.list ==> s.list[e] >= 1)
    && (s.chosen == "" || s.chosen in s.list)
    && s.recent.Keys <= s.list.Keys
    && (forall e :: e in s.recent ==> |s.recent[e]| > 0)
  }

  /** `_list[e]` read without inserting: absent emoji count 0. */
  function CountOf(m: map<Emoji, int>, e: Emoji): int {
    if e in m then m[e] else 0
  }

  function RecentOf(m: map<Emoji, seq<RecentReaction>>, e: Emoji): seq<RecentReaction> {
    if e in m then m[e] else []
  }

  predicate IsEmpty(s: State) { |s.list| == 0 }

  /** ranges::remove by peer, then erase: drops every entry of `peer`. */
  function RemovePeer(l: seq<RecentReaction>, peer: PeerId): (r: seq<RecentReaction>)
    ensures forall x :: x in r ==> x in l && x.peer != peer
    ensures forall x :: x in l && x.peer != peer ==> x in r
    ensures |r| <= |l|
    ensures (forall x :: x in l ==> x.peer != peer) ==> r == l
    decreases |l|
  {
    if l == [] then []
    else if l[0].peer == peer then RemovePeer(l[1..], peer)
    else [l[0]] + RemovePeer(l[1..], peer)
  }

  /** Result of add(): the new state, and the emoji sent to the server
      (None when add returned early and sent nothing). */
  datatype AddResult = AddResult(state: State, sent: Option<Emoji>)

  /** Take back the current choice: one reaction fewer for it, and the user
      leaves its recent list. */
  function Withdraw(s: State, self: PeerId): State
    requires s.chosen in s.list
  {
    var e := s.chosen;
    var count := s.list[e] - 1;
    var removed := count == 0;
    var list := if removed then s.list - {e} else s.list[e := count];
    var recent :=
      if e in s.recent then
        var kept := RemovePeer(s.recent[e], self);
        if |kept| == 0 || removed then s.recent - {e} else s.recent[e := kept]
      else s.recent;
    s.(list := list, recent := recent)
  }

  /** Count one more reaction for `e`; the user becomes the front of its
      recent list only when the item can show reactions. */
  function Put(s: State, e: Emoji, self: PeerId, canViewReactions: bool): State {
    var recent :=
      if canViewReactions then s.recent[e := [RecentReaction(self, false, false)] + RecentOf(s.recent, e)]
      else s.recent;
    s.(list := s.list[e := CountOf(s.list, e) + 1], recent := recent)
  }

  /** MessageReactions::add. The precondition is the source's Assert that the
      previous choice is counted. */
  function Add(s: State, reaction: Emoji, self: PeerId, canViewReactions: bool): (r: AddResult)
    requires s.chosen == "" || s.chosen in s.list
    // choosing the current emoji again changes nothing and sends nothing
    ensures reaction == s.chosen ==> r == AddResult(s, None)
    ensures reaction != s.chosen ==> r.sent == Some(reaction) && r.state.chosen == reaction
    // the previous choice loses exactly one reaction and the user's recent entries
    ensures reaction != s.chosen && s.chosen != "" ==>
      && (s.list[s.chosen] == 1 ==> s.chosen !in r.state.list && s.chosen !in r.state.recent)
      && (s.list[s.chosen] != 1 ==> s.chosen in r.state.list && r.state.list[s.chosen] == s.list[s.chosen] - 1)
      && (s.chosen in r.state.recent ==>
            s.chosen in s.recent && r.state.recent[s.chosen] == RemovePeer(s.recent[s.chosen], self)
            && |r.state.recent[s.chosen]| > 0)
      && (s.chosen !in r.state.recent && s.chosen in s.recent && s.list[s.chosen] != 1 ==>
            RemovePeer(s.recent[s.chosen], self) == [])
    // the new choice gains exactly one reaction
    ensures reaction != s.chosen && reaction != "" ==>
      && reaction in r.state.list
      && r.state.list[reaction] == CountOf(s.list, reaction) + 1
      && (canViewReactions ==>
            reaction in r.state.recent
            && r.state.recent[reaction] == [RecentReaction(self, false, false)] + RecentOf(s.recent, reaction))
      && (!canViewReactions ==>
            (reaction in r.state.recent <==> reaction in s.recent)
            && RecentOf(r.state.recent, reaction) == RecentOf(s.recent, reaction))
    // no other emoji is touched
    ensures forall e :: e != s.chosen && e != reaction ==>
      && (e in r.state.list <==> e in s.list) && CountOf(r.state.list, e) == CountOf(s.list, e)
      && (e in r.state.recent <==> e in s.recent) && RecentOf(r.state.recent, e) == RecentOf(s.recent, e)
  {
    if s.chosen == reaction then AddResult(s, None)
    else
      var withdrawn := if s.chosen == "" then s else Withdraw(s, self);
      var switched := withdrawn.(chosen := reaction);
      var added := if reaction == "" then switched else Put(switched, reaction, self, canViewReactions);
      AddResult(added, Some(reaction))
  }

  /** MessageReactions::remove, which is add of the empty emoji. */
  function Remove(s: State, self: PeerId, canViewReactions: bool): (r: AddResult)
    requires s.chosen == "" || s.chosen in s.list
    ensures r.state.chosen == ""
    ensures s.chosen == "" ==> r.sent.None? && r.state == s
    ensures s.chosen != "" ==> r.sent == Some("")
  {
    Add(s, "", self, canViewReactions)
  }

  /** add and remove keep the invariant the source's Assert relies on. */
  lemma AddPreservesValid(s: State, reaction: Emoji, self: PeerId, canViewReactions: bool)
    requires Valid(s)
    ensures Valid(Add(s, reaction, self, canViewReactions).state)
  {
    var r := Add(s, reaction, self, canViewReactions).state;
    forall e | e in r.list ensures r.list[e] >= 1 {
      if e != s.chosen && e != reaction {
        assert CountOf(r.list, e) == CountOf(s.list, e);
      }
    }
    forall e | e in r.recent ensures e in r.list && |r.recent[e]| > 0 {
      if e != s.chosen && e != reaction {
        assert RecentOf(r.recent, e) == RecentOf(s.recent, e);
      }
    }
  }

  /** Reacting and then taking the reaction back restores the message, as
      long as the user was not already listed among the emoji's reactors. */
  lemma RemoveUndoesAdd(s: State, reaction: Emoji, self: PeerId, canViewReactions: bool)
    requires Valid(s) && s.chosen == "" && reaction != ""
    requires forall x :: x in RecentOf(s.recent, reaction) ==> x.peer != self
    ensures Remove(Add(s, reaction, self, canViewReactions).state, self, canViewReactions).state == s
  {
    var a := Add(s, reaction, self, canViewReactions).state;
    var b := Remove(a, self, canViewReactions).state;
    assert b.list == s.list by {
      forall e ensures (e in b.list <==> e in s.list) && CountOf(b.list, e) == CountOf(s.list, e) {
        if e == reaction {
          assert CountOf(b.list, e) == CountOf(s.list, e);
        }
      }
    }
    assert b.recent == s.recent by {
      forall e ensures (e in b.recent <==> e in s.recent) && RecentOf(b.recent, e) == RecentOf(s.recent, e) {
        if e == reaction && canViewReactions {
          var l := [RecentReaction(self, false, false)] + RecentOf(s.recent, reaction);
          assert a.recent[reaction] == l;
          assert RemovePeer(l, self) == RemovePeer(RecentOf(s.recent, reaction), self);
        }
      }
    }
  }

  /** MessageReactions::hasUnread: some recent reactor is still unread. */
  predicate HasUnread(s: State) {
    exists e, i :: e in s.recent && 0 <= i < |s.recent[e]| && s.recent[e][i].unread
  }

  function ClearUnread(l: seq<RecentReaction>): (r: seq<RecentReaction>)
    ensures |r| == |l|
    ensures forall i :: 0 <= i < |l| ==> r[i] == l[i].(unread := false)
  {
    seq(|l|, i requires 0 <= i < |l| => l[i].(unread := false))
  }

  /** MessageReactions::markRead: every unread flag is cleared; peers, the
      big flag, the counts and the choice are kept. */
  function MarkRead(s: State): (r: State)
    ensures !HasUnread(r)
    ensures r.chosen == s.chosen && r.list == s.list
    ensures r.recent.Keys == s.recent.Keys
    ensures forall e, i :: e in s.recent && 0 <= i < |s.recent[e]| ==>
      |r.recent[e]| == |s.recent[e]| && r.recent[e][i].peer == s.recent[e][i].peer
      && r.recent[e][i].big == s.recent[e][i].big
  {
    State(s.chosen, s.list, map e | e in s.recent :: ClearUnread(s.recent[e]))
  }

  /** Marking read twice is the same as marking read once, and it keeps the
      invariant. */
  lemma MarkReadIdempotent(s: State)
    ensures MarkRead(MarkRead(s)) == MarkRead(s)
    ensures Valid(s) ==> Valid(MarkRead(s))
  {
    var once := MarkRead(s);
    var twice := MarkRead(once);
    forall e | e in once.recent ensures twice.recent[e] == once.recent[e] {
      assert |twice.recent[e]| == |once.recent[e]|;
      forall i | 0 <= i < |once.recent[e]| ensures twice.recent[e][i] == once.recent[e][i] {
      }
    }
  }
}
