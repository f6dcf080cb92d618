/** The scheduling half of Data::Reactions: grouping items by their last
    reactions refresh, a queue of repaint deadlines served by one timer,
    and the set of items waiting for a reactions poll. */
module ReactionPolling {
  import opened Common

  type ItemId = nat

  /** kPollEach: an item's reactions are refreshed 20 seconds after the
      (rounded-up) last refresh. */
  const PollEach: int := 20000

  /** The scheduling fields of Data::Reactions. The repaint timer is kept as
      its absolute deadline, None while it is not armed. */
  datatype Scheduler = Scheduler(
    repaintItems: map<ItemId, int>,
    repaintTimer: Option<int>,
    pollItems: set<ItemId>,
    pollingItems: set<ItemId>,
    pollRequestActive: bool)

  function Idle(): (s: Scheduler)
    ensures |s.repaintItems| == 0 && s.repaintTimer.None?
    ensures s.pollItems == {} && s.pollingItems == {} && !s.pollRequestActive
  {
    Scheduler(map[], None, {}, {}, false)
  }

  /** The timer fires no later than the earliest repaint deadline. */
  ghost predicate TimerCovers(s: Scheduler) {
    forall i :: i in s.repaintItems ==> s.repaintTimer.Some? && s.repaintTimer.value <= s.repaintItems[i]
  }

  /** `((last + 999) / 1000) * 1000` with C++'s truncating division. For a
      non-negative time this rounds up to the next whole second; because the
      division truncates, every time from -1998 to 0 groups to 0. */
  function GroupBySecond(last: int): (g: int)
    ensures g % 1000 == 0
    ensures last >= 0 ==> last <= g < last + 1000
    ensures g == 0 <==> -1998 <= last <= 0
  {
    CDiv(last + 999, 1000) * 1000
  }

  /** Result of poll(): the new state, and whether pollCollected was
      queued on the main thread by this call. */
  datatype PollResult = PollResult(state: Scheduler, collectQueued: bool)

  /** Reactions::poll(item, now) for an item last refreshed at `last`. */
  function Poll(s: Scheduler, item: ItemId, last: int, peerIsUser: bool, now: int): (r: PollResult)
    // a never-refreshed item, or a private chat, is left alone
    ensures GroupBySecond(last) == 0 || peerIsUser ==> r == PollResult(s, false)
    // while the refresh is in the future only a repaint is scheduled, and an
    // existing deadline is never overwritten
    ensures GroupBySecond(last) != 0 && !peerIsUser && GroupBySecond(last) + PollEach > now ==>
      && !r.collectQueued
      && r.state.pollItems == s.pollItems && r.state.pollingItems == s.pollingItems
      && (item in s.repaintItems ==> r.state == s)
      && (item !in s.repaintItems ==>
            r.state.repaintItems == s.repaintItems[item := GroupBySecond(last) + PollEach]
            && r.state.repaintTimer.Some?
            && r.state.repaintTimer.value <= GroupBySecond(last) + PollEach
            && (s.repaintTimer.Some? ==> r.state.repaintTimer.value <= s.repaintTimer.value))
    // once it is due the item joins the poll set, unless already being polled
    ensures GroupBySecond(last) != 0 && !peerIsUser && GroupBySecond(last) + PollEach <= now ==>
      && r.state.repaintItems == s.repaintItems && r.state.repaintTimer == s.repaintTimer
      && (item in s.pollingItems ==> r == PollResult(s, false))
      && (item !in s.pollingItems ==>
            r.state.pollItems == s.pollItems + {item}
            && r.collectQueued == (s.pollItems == {} && !s.pollRequestActive))
    // the timer stays ahead of every pending repaint
    ensures TimerCovers(s) ==> TimerCovers(r.state)
  {
    var grouped := GroupBySecond(last);
    if grouped == 0 || peerIsUser then PollResult(s, false)
    else
      var left := grouped + PollEach - now;
      if left > 0 then
        if item in s.repaintItems then PollResult(s, false)
        else
          var timer :=
            if s.repaintTimer.None? || s.repaintTimer.value - now > left then Some(now + left)
            else s.repaintTimer;
          PollResult(s.(repaintItems := s.repaintItems[item := grouped + PollEach], repaintTimer := timer), false)
      else if item in s.pollingItems then PollResult(s, false)
      else
        PollResult(s.(pollItems := s.pollItems + {item}), s.pollItems == {} && !s.pollRequestActive)
  }

  /** Reactions::repaintCollected, run when the repaint timer fires at
      `now` (crl::now() never goes below zero, so a zero `closest` means "no
      pending deadline" exactly). Returns the items repainted. */
  method RepaintCollected(s: Scheduler, now: int) returns (r: Scheduler, repainted: set<ItemId>)
    requires now >= 0
    ensures repainted == set i | i in s.repaintItems && s.repaintItems[i] <= now
    ensures r.repaintItems == map i | i in s.repaintItems && s.repaintItems[i] > now :: s.repaintItems[i]
    ensures r.repaintTimer.None? <==> |r.repaintItems| == 0
    ensures r.repaintTimer.Some? ==>
      (exists i :: i in r.repaintItems && r.repaintItems[i] == r.repaintTimer.value)
    ensures TimerCovers(r)
    ensures r.pollItems == s.pollItems && r.pollingItems == s.pollingItems
    ensures r.pollRequestActive == s.pollRequestActive
  {
    var pending := s.repaintItems.Keys;
    var kept: map<ItemId, int> := map[];
    var closest := 0;
    repainted := {};
    while pending != {}
      invariant pending <= s.repaintItems.Keys
      invariant forall i :: i in kept <==> i in s.repaintItems && i !in pending && s.repaintItems[i] > now
      invariant forall i :: i in kept ==> kept[i] == s.repaintItems[i]
      invariant forall i :: i in repainted <==> i in s.repaintItems && i !in pending && s.repaintItems[i] <= now
      invariant closest == 0 <==> kept == map[]
      invariant closest != 0 ==> exists i :: i in kept && kept[i] == closest
      invariant forall i :: i in kept ==> closest <= kept[i]
      decreases |pending|
    {
      var i :| i in pending;
      var deadline := s.repaintItems[i];
      if deadline <= now {
        repainted := repainted + {i};
      } else {
        if closest == 0 || deadline < closest {
          closest := deadline;
        }
        kept := kept[i := deadline];
      }
      pending := pending - {i};
    }
    assert kept == map i | i in s.repaintItems && s.repaintItems[i] > now :: s.repaintItems[i];
    var timer := if closest != 0 then Some(closest) else None;
    r := s.(repaintItems := kept, repaintTimer := timer);
  }
}
