/** The top of a profile page (Info::Profile::Cover): the status line under
    the name, the badge next to it, how much room the name gets, and the
    photo upload overlay. */
module ProfileCover {
  import opened Common

  /** What the status line says. Counts are rendered by plural phrases. */
  datatype StatusText =
    | MembersOnline(members: int, online: int)   // lng_chat_status_members_online
    | Members(count: int)                        // lng_chat_status_members
    | Subscribers(count: int)                    // lng_chat_status_subscribers
    | GroupStatus                                // lng_group_status
    | ChannelStatus                              // lng_channel_status
    | Unaccessible                               // lng_chat_status_unaccessible
    | UserOnline(text: string)                   // Data::OnlineTextFull

  /** ChatStatusText: "N members, M online" only when more than one member
      is online and no more than the whole group; otherwise the member (or
      subscriber) count when it is known; otherwise a plain label. */
  function ChatStatusText(fullCount: int, onlineCount: int, isGroup: bool): (t: StatusText)
    ensures t.MembersOnline? <==> 1 < onlineCount <= fullCount
    ensures t.MembersOnline? ==> t == MembersOnline(fullCount, onlineCount)
    ensures !(1 < onlineCount <= fullCount) && fullCount > 0 ==>
      t == (if isGroup then Members(fullCount) else Subscribers(fullCount))
    ensures (t == GroupStatus || t == ChannelStatus) <==> fullCount <= 0 && !(1 < onlineCount <= fullCount)
    ensures t == GroupStatus ==> isGroup
    ensures t == ChannelStatus ==> !isGroup
  {
    if onlineCount > 1 && onlineCount <= fullCount then MembersOnline(fullCount, onlineCount)
    else if fullCount > 0 then (if isGroup then Members(fullCount) else Subscribers(fullCount))
    else if isGroup then GroupStatus
    else ChannelStatus
  }

  /** The kinds of peer a profile can show, with what the cover reads. The
      user's online text comes from Data::OnlineTextFull and
      Data::OnlineTextActive, which are not part of this model. */
  datatype Peer =
    | User(isSelf: bool, onlineText: string, onlineActive: bool)
    | Chat(amIn: bool, count: int, participants: nat, chatCanEdit: bool)
    | Channel(megagroup: bool, membersCount: int, canViewMembers: bool, channelCanEdit: bool)

  /** How the status line reacts to clicks: not at all, as an inert link
      (a user who is online), or as a link to the members section. */
  datatype StatusLink = NoStatusLink | OnlineLink | MembersLink

  datatype Status = Status(text: StatusText, link: StatusLink)

  /** Cover::refreshStatusText for the current online count. */
  function RefreshStatus(peer: Peer, onlineCount: int): (s: Status)
    // only megagroups whose members can be viewed link to the member list
    ensures s.link == MembersLink <==> peer.Channel? && peer.megagroup && peer.canViewMembers
    ensures s.link == OnlineLink <==> peer.User? && peer.onlineActive
    ensures peer.User? ==> s.text == UserOnline(peer.onlineText)
    // a basic group one has left says so and nothing else
    ensures peer.Chat? && !peer.amIn ==> s == Status(Unaccessible, NoStatusLink)
    // a basic group counts at least its known participants
    ensures peer.Chat? && peer.amIn ==>
      s.text == ChatStatusText(Max(peer.count, peer.participants), onlineCount, true)
    // a channel always counts at least one member
    ensures peer.Channel? ==>
      s.text == ChatStatusText(Max(peer.membersCount, 1), onlineCount, peer.megagroup)
  {
    match peer
    case User(_, text, active) => Status(UserOnline(text), if active then OnlineLink else NoStatusLink)
    case Chat(amIn, count, participants, _) =>
      if !amIn then Status(Unaccessible, NoStatusLink)
      else Status(ChatStatusText(Max(count, participants), onlineCount, true), NoStatusLink)
    case Channel(megagroup, membersCount, canViewMembers, _) =>
      var link := if megagroup && canViewMembers then MembersLink else NoStatusLink;
      Status(ChatStatusText(Max(membersCount, 1), onlineCount, megagroup), link)
  }

  /** A channel always shows a number, never the plain label: members for
      a megagroup, subscribers for a broadcast channel. */
  lemma ChannelsAlwaysCount(peer: Peer, onlineCount: int)
    requires peer.Channel?
    ensures RefreshStatus(peer, onlineCount).text.MembersOnline?
      || RefreshStatus(peer, onlineCount).text.Members?
      || RefreshStatus(peer, onlineCount).text.Subscribers?
    ensures RefreshStatus(peer, onlineCount).text.Members? ==> peer.megagroup
    ensures RefreshStatus(peer, onlineCount).text.Subscribers? ==> !peer.megagroup
  {
  }

  /** The count shown for a basic group is never below its participant
      list, and it is the plain label exactly when both are zero or less. */
  lemma BasicGroupCount(count: int, participants: nat, onlineCount: int)
    ensures var s := RefreshStatus(Chat(true, count, participants, false), onlineCount);
      && (s.text.Members? ==> s.text.count >= participants && s.text.count >= count)
      && (s.text.MembersOnline? ==> s.text.members >= participants)
      && (s.text == GroupStatus <==> count <= 0 && participants == 0)
  {
  }

  /** Cover::refreshUploadPhotoOverlay: the change-photo overlay is offered
      where the information can be edited, and on one's own profile. */
  function UploadPhotoOverlay(peer: Peer): (shown: bool)
    ensures peer.User? ==> (shown <==> peer.isSelf)
    ensures peer.Chat? ==> (shown <==> peer.chatCanEdit)
    ensures peer.Channel? ==> (shown <==> peer.channelCanEdit)
  {
    match peer
    case User(isSelf, _, _) => isSelf
    case Chat(_, _, _, canEdit) => canEdit
    case Channel(_, _, _, canEdit) => canEdit
  }

  /** The overlay when the cover is set up: a chat or channel subscribes to
      its rights and is refreshed at once, one's own profile is refreshed
      once, and any other user's profile never is, so it stays off. */
  function OverlayOnSetup(peer: Peer): (shown: bool)
    ensures shown == UploadPhotoOverlay(peer)
  {
    if !peer.User? || peer.isSelf then UploadPhotoOverlay(peer) else false
  }

  /** A rights change of the peer: only chats and channels listen. */
  function OverlayOnRights(shown: bool, peer: Peer): bool {
    if peer.User? then shown else UploadPhotoOverlay(peer)
  }

  /** The same peer seen again after a change: the same kind, and for a
      user the same account. */
  predicate SamePeer(a: Peer, b: Peer) {
    (a.User? && b.User? && a.isSelf == b.isSelf) || (a.Chat? && b.Chat?) || (a.Channel? && b.Channel?)
  }

  /** The overlay after set-up and a run of rights changes. */
  function OverlayAfter(peer: Peer, changes: seq<Peer>): bool
    decreases |changes|
  {
    if changes == [] then OverlayOnSetup(peer)
    else OverlayOnRights(OverlayAfter(peer, changes[..|changes| - 1]), changes[|changes| - 1])
  }

  /** However the peer's rights change, the overlay is offered exactly when
      the peer as it now is allows changing the photo. */
  lemma {:induction false} OverlayTracksRights(peer: Peer, changes: seq<Peer>)
    requires forall i :: 0 <= i < |changes| ==> SamePeer(peer, changes[i])
    ensures OverlayAfter(peer, changes) == UploadPhotoOverlay(if changes == [] then peer else changes[|changes| - 1])
    decreases |changes|
  {
    if changes != [] {
      var before := changes[..|changes| - 1];
      OverlayTracksRights(peer, before);
    }
  }

  // ----------------------------------------------------------------- badge

  datatype Badge = NoBadge | Verified | Premium | Scam | Fake

  /** The badge a cover shows for the badge a peer has: a premium star only
      where premium is possible. */
  function ShownBadge(badge: Badge, premiumPossible: bool): (b: Badge)
    ensures b == Premium ==> premiumPossible
    ensures badge != Premium ==> b == badge
    ensures badge == Premium ==> b == (if premiumPossible then Premium else NoBadge)
  {
    if badge == Premium && !premiumPossible then NoBadge else badge
  }

  /** The icon of the check widget. */
  datatype CheckIcon = VerifiedCheck | PremiumStar

  /** The widget next to the name: a check (verified tick or premium star;
      only the star can be clicked) or a scam/fake label. */
  datatype BadgeWidget =
    | CheckWidget(icon: CheckIcon, clickable: bool, checkWidth: int)
    | ScamWidget(fake: bool, scamWidth: int, scamHeight: int)

  /** The style values the badge widgets take their size from. */
  datatype BadgeStyle = BadgeStyle(
    verifiedWidth: int,   // st::infoVerifiedCheck
    premiumWidth: int,    // st::infoPremiumStar
    scamWidth: int,       // Ui::ScamBadgeSize(false)
    scamHeight: int,
    fakeWidth: int,       // Ui::ScamBadgeSize(true)
    fakeHeight: int,
    skip: int)            // st::infoVerifiedCheckPosition.x()

  /** The cover's badge and the one widget (at most) drawing it. */
  datatype Cover = Cover(badge: Badge, widget: Option<BadgeWidget>)

  /** A new cover: no badge, no widget. */
  function NewCover(): (c: Cover)
    ensures c.badge == NoBadge && c.widget.None?
    ensures WidgetMatches(c)
  {
    Cover(NoBadge, None)
  }

  /** The widget agrees with the badge. */
  predicate WidgetMatches(c: Cover) {
    match c.badge
    case NoBadge => c.widget.None?
    case Verified => c.widget.Some? && c.widget.value.CheckWidget? && c.widget.value.icon == VerifiedCheck && !c.widget.value.clickable
    case Premium => c.widget.Some? && c.widget.value.CheckWidget? && c.widget.value.icon == PremiumStar && c.widget.value.clickable
    case Scam => c.widget.Some? && c.widget.value.ScamWidget? && !c.widget.value.fake
    case Fake => c.widget.Some? && c.widget.value.ScamWidget? && c.widget.value.fake
  }

  /** Cover::setBadge: a different badge destroys the old widget and
      creates the one it needs. */
  function SetBadge(c: Cover, badge: Badge, st: BadgeStyle): (r: Cover)
    ensures c.badge == badge ==> r == c
    ensures c.badge != badge ==> r.badge == badge && WidgetMatches(r)
    ensures WidgetMatches(c) ==> WidgetMatches(r)
    ensures c.badge != badge && r.widget.Some? && r.widget.value.ScamWidget? ==>
      r.widget.value.scamWidth == (if badge == Fake then st.fakeWidth else st.scamWidth) + 2 * st.skip
      && r.widget.value.scamHeight == (if badge == Fake then st.fakeHeight else st.scamHeight) + 2 * st.skip
    ensures c.badge != badge && r.widget.Some? && r.widget.value.CheckWidget? ==>
      r.widget.value.checkWidth == (if badge == Verified then st.verifiedWidth else st.premiumWidth)
  {
    if c.badge == badge then c
    else
      var widget :=
        match badge
        case NoBadge => None
        case Verified => Some(CheckWidget(VerifiedCheck, false, st.verifiedWidth))
        case Premium => Some(CheckWidget(PremiumStar, true, st.premiumWidth))
        case Scam => Some(ScamWidget(false, st.scamWidth + 2 * st.skip, st.scamHeight + 2 * st.skip))
        case Fake => Some(ScamWidget(true, st.fakeWidth + 2 * st.skip, st.fakeHeight + 2 * st.skip));
      Cover(badge, widget)
  }

  /** Badges from a peer, in order: the widget always matches the last one
      shown, and setting it again changes nothing. */
  function SetBadges(c: Cover, badges: seq<Badge>, premiumPossible: bool, st: BadgeStyle): Cover
    decreases |badges|
  {
    if badges == [] then c
    else SetBadges(SetBadge(c, ShownBadge(badges[0], premiumPossible), st), badges[1..], premiumPossible, st)
  }

  lemma {:induction false} SetBadgesShowLast(c: Cover, badges: seq<Badge>, premiumPossible: bool, st: BadgeStyle)
    requires WidgetMatches(c) && badges != []
    ensures SetBadges(c, badges, premiumPossible, st).badge == ShownBadge(badges[|badges| - 1], premiumPossible)
    ensures WidgetMatches(SetBadges(c, badges, premiumPossible, st))
    ensures !premiumPossible ==> SetBadges(c, badges, premiumPossible, st).badge != Premium
    decreases |badges|
  {
    var next := SetBadge(c, ShownBadge(badges[0], premiumPossible), st);
    if |badges| > 1 {
      SetBadgesShowLast(next, badges[1..], premiumPossible, st);
    }
  }

  /** Setting the badge the cover already has is a no-op. */
  lemma SetBadgeIdempotent(c: Cover, badge: Badge, st: BadgeStyle)
    ensures SetBadge(SetBadge(c, badge, st), badge, st) == SetBadge(c, badge, st)
  {
  }

  // ------------------------------------------------------------------ name

  /** The style values of the name line. */
  datatype NameStyle = NameStyle(nameLeft: int, nameRight: int, nameTop: int, skip: int)

  function WidgetWidth(w: BadgeWidget): int {
    if w.CheckWidget? then w.checkWidth else w.scamWidth
  }

  /** refreshNameGeometry's width for the name: the cover's width less the
      side insets, and less the badge and its gap when there is one. */
  function NameWidth(c: Cover, newWidth: int, st: NameStyle): (w: int)
    ensures c.widget.None? ==> w == newWidth - st.nameLeft - st.nameRight
    ensures c.widget.Some? ==> w == newWidth - st.nameLeft - st.nameRight - st.skip - WidgetWidth(c.widget.value)
  {
    var base := newWidth - st.nameLeft - st.nameRight;
    if c.widget.Some? then base - (st.skip + WidgetWidth(c.widget.value)) else base
  }

  /** Where refreshNameGeometry puts the badge, given the width the name
      label took: a check sits one gap after the name, a scam label right
      after it (its own padding is the gap), vertically centred on it. */
  function BadgePosition(c: Cover, st: NameStyle, checkTop: int, labelWidth: int, labelHeight: int): (p: Option<(int, int)>)
    ensures p.None? <==> c.widget.None?
    ensures c.widget.Some? && c.widget.value.CheckWidget? ==>
      p == Some((st.nameLeft + labelWidth + st.skip, st.nameTop + checkTop))
    ensures c.widget.Some? && c.widget.value.ScamWidget? ==>
      p == Some((st.nameLeft + labelWidth, st.nameTop + CDiv(labelHeight - c.widget.value.scamHeight, 2)))
  {
    match c.widget
    case None => None
    case Some(CheckWidget(_, _, _)) => Some((st.nameLeft + labelWidth + st.skip, st.nameTop + checkTop))
    case Some(ScamWidget(_, _, height)) =>
      Some((st.nameLeft + labelWidth, st.nameTop + CDiv(labelHeight - height, 2)))
  }

  /** A name that takes no more than the width it was given leaves its
      badge clear of it and inside the right inset. */
  lemma BadgeFitsBesideName(c: Cover, newWidth: int, st: NameStyle, checkTop: int, labelWidth: int, labelHeight: int)
    requires c.widget.Some? && st.skip >= 0
    requires 0 <= labelWidth <= NameWidth(c, newWidth, st)
    ensures var p := BadgePosition(c, st, checkTop, labelWidth, labelHeight).value;
      && p.0 >= st.nameLeft + labelWidth
      && p.0 + WidgetWidth(c.widget.value) <= newWidth - st.nameRight
  {
  }
}
