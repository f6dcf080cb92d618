/** A row of a group's member list on its profile page
    (Info::Profile::MemberListRow): the remove action on its right, the
    admin or creator icon after the name, and a bot's status line. */
module MemberRows {
  import opened Common
  import opened Geometry

  /** MemberListRow::Rights. */
  datatype Rights = Normal | Admin | Creator

  /** MemberListRow::Type. */
  datatype RowType = RowType(rights: Rights, canRemove: bool, adminRank: string)

  /** What the status line of a row says: the generic PeerListRow status,
      or one of the two bot phrases. */
  datatype RowStatus = PeerStatus | BotReadsAll | BotNotReadsAll

  /** A row: its type and the action link text PeerListRowWithLink shows. */
  datatype Row = Row(rowType: RowType, actionLink: string)

  /** The MemberListRow constructor: the admin rank is the action link. */
  function NewRow(t: RowType): (r: Row)
    ensures r.rowType == t && r.actionLink == t.adminRank
  {
    Row(t, t.adminRank)
  }

  /** MemberListRow::setType: the type is replaced and the link follows it. */
  function SetType(row: Row, t: RowType): (r: Row)
    ensures r.rowType == t && r.actionLink == t.adminRank
  {
    row.(rowType := t, actionLink := t.adminRank)
  }

  /** A retyped row is the row built with the new type: nothing of the old
      type survives, and retyping twice keeps only the last. */
  lemma SetTypeForgetsOld(row: Row, a: RowType, b: RowType)
    ensures SetType(row, a) == NewRow(a)
    ensures SetType(SetType(row, a), b) == SetType(row, b)
  {
  }

  /** MemberListRow::rightActionDisabled. */
  function RightActionDisabled(row: Row): (disabled: bool)
    ensures disabled <==> !row.rowType.canRemove
  {
    !row.rowType.canRemove
  }


  /** The size the base class gives its action and the remove icon's style. */
  datatype ActionStyle = ActionStyle(
    baseMargins: Margins,      // PeerListRowWithLink::rightActionMargins()
    baseWidth: int,            // PeerListRowWithLink::rightActionSize()
    baseHeight: int,
    removeWidth: int,          // st::infoMembersRemoveIcon
    removeHeight: int,
    removeMargins: Margins,    // st::infoMembersRemoveIconMargins
    adminIconWidth: int,       // st::infoMembersAdminIcon
    creatorIconWidth: int)     // st::infoMembersCreatorIcon

  /** MemberListRow::rightActionMargins: none around the remove icon, the
      link's own otherwise. */
  function RightActionMargins(row: Row, st: ActionStyle): (m: Margins)
    ensures row.rowType.canRemove ==> m == Margins(0, 0, 0, 0)
    ensures !row.rowType.canRemove ==> m == st.baseMargins
  {
    if row.rowType.canRemove then Margins(0, 0, 0, 0) else st.baseMargins
  }

  /** MemberListRow::rightActionSize: the remove icon with its margins
      added, or the link's size. */
  function RightActionSize(row: Row, st: ActionStyle): (size: (int, int))
    ensures row.rowType.canRemove ==>
      size == (st.removeWidth + st.removeMargins.left + st.removeMargins.right,
               st.removeHeight + st.removeMargins.top + st.removeMargins.bottom)
    ensures !row.rowType.canRemove ==> size == (st.baseWidth, st.baseHeight)
  {
    if row.rowType.canRemove then
      (st.removeWidth + st.removeMargins.left + st.removeMargins.right,
       st.removeHeight + st.removeMargins.top + st.removeMargins.bottom)
    else (st.baseWidth, st.baseHeight)
  }

  /** What rightActionPaint draws. */
  datatype ActionPaint = RemoveIcon(over: bool, x: int, y: int) | LinkAction

  /** MemberListRow::rightActionPaint at (x, y): the remove icon only on a
      selected removable row, shifted into its margins. */
  function RightActionPaint(row: Row, st: ActionStyle, x: int, y: int, selected: bool, actionSelected: bool): (p: ActionPaint)
    ensures p.RemoveIcon? <==> row.rowType.canRemove && selected
    ensures p.RemoveIcon? ==>
      p == RemoveIcon(actionSelected, x + st.removeMargins.left, y + st.removeMargins.top)
  {
    if row.rowType.canRemove && selected then
      RemoveIcon(actionSelected, x + st.removeMargins.left, y + st.removeMargins.top)
    else LinkAction
  }

  /** The remove action's size, margins and painting agree: a removable
      row reserves the icon with its own margins and no outer margin, and
      when selected draws the icon inside that area; a row that cannot
      remove keeps the link's action, its size and its margins. */
  lemma RemoveIconInsideAction(row: Row, st: ActionStyle, x: int, y: int, selected: bool, actionSelected: bool)
    requires st.removeMargins.left >= 0 && st.removeMargins.top >= 0
    requires st.removeMargins.right >= 0 && st.removeMargins.bottom >= 0
    ensures var size := RightActionSize(row, st);
      var p := RightActionPaint(row, st, x, y, selected, actionSelected);
      && (!RightActionDisabled(row) ==> RightActionMargins(row, st) == Margins(0, 0, 0, 0))
      && (!RightActionDisabled(row) && selected ==>
            && p.RemoveIcon? && p.over == actionSelected
            && x <= p.x && p.x + st.removeWidth <= x + size.0
            && y <= p.y && p.y + st.removeHeight <= y + size.1)
      && (RightActionDisabled(row) ==>
            p == LinkAction && size == (st.baseWidth, st.baseHeight) && RightActionMargins(row, st) == st.baseMargins)
      && (!selected ==> p == LinkAction)
  {
  }

  /** MemberListRow::nameIconWidth. */
  function NameIconWidth(row: Row, st: ActionStyle): (w: int)
    ensures row.rowType.rights == Admin ==> w == st.adminIconWidth
    ensures row.rowType.rights == Creator ==> w == st.creatorIconWidth
    ensures row.rowType.rights == Normal ==> w == 0
  {
    match row.rowType.rights
    case Admin => st.adminIconWidth
    case Creator => st.creatorIconWidth
    case Normal => 0
  }

  datatype NameIcon = AdminIcon(over: bool) | CreatorIcon(over: bool)

  /** MemberListRow::paintNameIcon: the admin icon for admins, the creator
      icon for everyone else (a Normal row reports no width for it). */
  function PaintNameIcon(row: Row, selected: bool): (icon: NameIcon)
    ensures icon.AdminIcon? <==> row.rowType.rights == Admin
    ensures icon.over == selected
  {
    if row.rowType.rights == Admin then AdminIcon(selected) else CreatorIcon(selected)
  }

  /** The width a row reserves for its name icon is the width of the icon
      it paints: the admin icon's for admins, the creator icon's for
      creators, and none for a normal member. */
  lemma NameIconMatchesWidth(row: Row, st: ActionStyle, selected: bool)
    ensures row.rowType.rights != Normal ==>
      NameIconWidth(row, st) == (if PaintNameIcon(row, selected).AdminIcon? then st.adminIconWidth else st.creatorIconWidth)
    ensures row.rowType.rights == Normal ==> NameIconWidth(row, st) == 0
  {
  }

  /** MemberListRow::refreshStatus for a user who is a bot (with whether it
      reads all history) or not. */
  function RefreshStatus(row: Row, bot: Option<bool>): (s: RowStatus)
    ensures bot.None? <==> s == PeerStatus
    ensures bot.Some? ==> (s == BotReadsAll <==> bot.value || row.rowType.rights != Normal)
  {
    if bot.Some? then (if bot.value || row.rowType.rights != Normal then BotReadsAll else BotNotReadsAll)
    else PeerStatus
  }

  /** A row's type decides a bot's status: once promoted it reads all
      history whatever its own setting, once demoted it falls back to that
      setting, and a user who is not a bot keeps the generic status. */
  lemma PromotedBotsReadAll(row: Row, t: RowType, readsAllHistory: bool)
    ensures t.rights != Normal ==> RefreshStatus(SetType(row, t), Some(readsAllHistory)) == BotReadsAll
    ensures t.rights == Normal ==>
      RefreshStatus(SetType(row, t), Some(readsAllHistory)) == (if readsAllHistory then BotReadsAll else BotNotReadsAll)
    ensures RefreshStatus(SetType(row, t), None) == PeerStatus
  {
  }
}
