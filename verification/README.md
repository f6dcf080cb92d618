# Premium and reactions core of Telegram Desktop, modelled in Dafny

This project models the logic behind Telegram Desktop's message reactions and the
Premium screens that use them. Every module is pure: state goes in and state comes out.
Each module follows one source file:

- **`MessageReactions` and `ReactionsSync`** (data/data_message_reactions): the reactions held on one message.
  - `MessageReactions` covers the user's own `add` and `remove`, `hasUnread` and `markRead`.
  - `ReactionsSync` covers applying a server snapshot (`change`) and the cheap test that predicts whether a snapshot changes anything (`checkIfChanged`).
- **`ReactionPolling`** (data/data_message_reactions): the poll and repaint scheduling of `Data::Reactions`.
- **`ReactButton`** (history/view/history_view_react_button): the expanding reaction button. This covers its parameters, wheel scrolling, expand direction, geometry, and how it follows the pointer with its state and timers.
- **`ReactManager`** (history/view/history_view_react_button): the reaction button manager. It covers:
  - which icons the button offers and in what order (`applyListFilters`), and the kept selection;
  - the unique-reaction limit, the hovered row, the selected icon;
  - the frame caches, and forgetting a message.
- **`PremiumPreviewBox`** (boxes/premium_preview_box): the Premium preview box.
  - The sections and paging between them.
  - The per-window preload registry behind `Show`.
  - The grid of premium reactions: its shape, cells and centring, the hover lookup and selection.
  - The accounts label of the doubled-limits box.
- **`SettingsPremium`** (settings/settings_premium): the Premium settings section.
  - The entry map and the fallback row order, `ResolveRef` and `LookupPremiumRef`.
  - The rows built from the configured order, and what a row click opens.
  - The mini stars of the top bar.
  - The price fallback and the subscribe bar.
- **`PremiumGraphics`** (ui/effects/premium_graphics): the counter bubble, the limit line and its labels, and the row of accounts with its columns and gradients.
- **`StickerView`** (history/view/media/history_view_sticker): the sticker view.
  - Its size and mirroring.
  - The one-shot flags that decide when a play-once animation signals its end and when the premium effect starts.
  - The player hand-over between views, and its click link.
- **`ProfileCover`** (info/profile/info_profile_cover): the profile cover's status line, upload overlay, badge widget and name geometry.
- **`MemberRows`** (info/profile/info_profile_members_controllers): a member row's remove action, its name icon and a bot's status.
- **`Common`** and **`Geometry`**: shared pieces.
  - `Common` holds `Option`, C++'s truncating `/` and `%`, clamping and decimal text.
  - `Geometry` holds `QPoint`, `QSize` and a half-open `QRect`.

**How the source's machinery is represented:**

| In the source | In the model |
|---|---|
| Style values (`st::…`) | integer parameters |
| Localised phrases (`tr::…`) | data constructors that name the phrase and carry its count |
| Random draws (`base::RandomIndex(n)`) | parameters known to lie in `[0, n)` |
| The clock | a `now` parameter |
| The repaint timer | an optional deadline |

Two places where the model follows the code rather than the documentation:

- **The react-button header.** `history_view_react_button.h` is older than its `.cpp`. For example, it lacks the premium lock of `applyListFilters`. Wherever they differ, the model follows the `.cpp`.
- **The `move` lambda of the preview box.** It computes `(now + kCount + delta) % kCount` with C++'s truncating remainder and casts the result back to the enum. For the deltas the box passes (±1) this is a cycle over the sections. For a delta below `-(now + kCount)` the result is not an enum value, and the model's `Move` returns `None` there.

## Model

| member | source | states |
|---|---|---|
| MessageReactions.NewReaction | Telegram/SourceFiles/data/data_message_reactions.h:21-33 | A reaction built from its required documents has no centre icon or around animation, and is neither active nor premium. |
| MessageReactions.Initial | Telegram/SourceFiles/data/data_message_reactions.cpp:505-507 | A new message's reactions have no choice, no counts and no recent reactors. |
| MessageReactions.RemovePeer | Telegram/SourceFiles/data/data_message_reactions.cpp:525-527 | Erasing a peer from a recent list keeps exactly the other peers' entries. The list is unchanged when the peer is absent. |
| MessageReactions.Add | Telegram/SourceFiles/data/data_message_reactions.cpp:509-544 | Re-choosing the current emoji changes nothing and sends nothing. Otherwise the new emoji is sent and chosen. The old choice loses one count and the user's recent entries, and is erased when its count reaches zero or its recent list empties. The new choice gains one count, and the user goes to the front of its recent list when the item can view reactions. No other emoji changes. |
| MessageReactions.Remove | Telegram/SourceFiles/data/data_message_reactions.cpp:546-548 | Removing clears the choice, sends the empty emoji when there was a choice, and does nothing otherwise. |
| MessageReactions.AddPreservesValid | Telegram/SourceFiles/data/data_message_reactions.cpp:509-544 | `add` keeps the invariant its Assert relies on. Counts stay positive, the choice stays counted, and recent lists stay non-empty and only for counted emoji. |
| MessageReactions.RemoveUndoesAdd | Telegram/SourceFiles/data/data_message_reactions.cpp:509-548 | Reacting and then removing the reaction restores the message exactly. This assumes no prior choice and that the user was not already among the emoji's recent reactors. |
| MessageReactions.MarkRead | Telegram/SourceFiles/data/data_message_reactions.cpp:682-697 | After markRead `hasUnread` is false. Counts, choice, emoji and each reactor's peer and big flag are kept. |
| MessageReactions.MarkReadIdempotent | Telegram/SourceFiles/data/data_message_reactions.cpp:691-697 | Marking read twice equals marking read once, and it keeps the invariant. |
| ReactionsSync.ChosenEntry | Telegram/SourceFiles/data/data_message_reactions.cpp:615-626 | The snapshot's chosen entry is one of its emoji, and there is none exactly when no entry is flagged chosen. |
| ReactionsSync.ApplyCounts | Telegram/SourceFiles/data/data_message_reactions.cpp:613-635 | The counts loop records every emoji seen and gives each the snapshot's count, with a 0 inserted first. Unseen emoji keep theirs. With ignoreChosen the choice is untouched. Otherwise it ends as before, empty, or a snapshot emoji. A change once flagged stays flagged, and the flag is raised whenever either branch of the choice test fires, even when the choice does not move. |
| ReactionsSync.ApplyCountsChosen | Telegram/SourceFiles/data/data_message_reactions.cpp:618-626 | For a well-formed snapshot the loop ends with the chosen entry if there is one. Otherwise it drops a previous choice the snapshot mentions and keeps one it does not. |
| ReactionsSync.ApplyCountsChanged | Telegram/SourceFiles/data/data_message_reactions.cpp:613-635 | For a well-formed snapshot the loop's `changed` flag is set exactly when the choice moved or some count differs. With non-empty emoji, a branch of the choice test fires exactly when it moves the choice. |
| ReactionsSync.Mentioned | Telegram/SourceFiles/data/data_message_reactions.cpp:650-661 | The emoji the recent list groups are only counted ones. |
| ReactionsSync.ParseRecent | Telegram/SourceFiles/data/data_message_reactions.cpp:649-661 | Parsing the recent list keeps, for each counted emoji it mentions, that emoji's reactors in snapshot order, appended to what was there. |
| ReactionsSync.ParsedFromEmpty | Telegram/SourceFiles/data/data_message_reactions.cpp:649-661 | Parsed from empty, the recent map has exactly the mentioned counted emoji, each with a non-empty group. |
| ReactionsSync.Prune | Telegram/SourceFiles/data/data_message_reactions.cpp:636-648 | Erasing unseen emoji leaves exactly the seen ones with their counts. It reports a change exactly when something was erased, and clears the choice only when its emoji went. |
| ReactionsSync.Tally | Telegram/SourceFiles/data/data_message_reactions.cpp:613-648 | After the counts half, the counts are exactly the snapshot's. Pruning happens exactly when an old emoji is missing from the snapshot, and the choice never points at an uncounted emoji. |
| ReactionsSync.Change | Telegram/SourceFiles/data/data_message_reactions.cpp:604-667 | While sending, nothing changes. Otherwise the counts become the snapshot's and the recent lists the snapshot's groups of counted emoji. The choice stays counted or empty, and ignoreChosen only ever clears it. |
| ReactionsSync.TallyReportsDifference | Telegram/SourceFiles/data/data_message_reactions.cpp:613-648 | For a well-formed snapshot the counts half reports a change exactly when the counts or the choice end up different. |
| ReactionsSync.EmptyEmojiReportsChange | Telegram/SourceFiles/data/data_message_reactions.cpp:613-635 | A snapshot holding only an unchosen empty emoji, applied to a message whose choice is empty, reports a change although nothing moves. |
| ReactionsSync.ChangeReportsDifference | Telegram/SourceFiles/data/data_message_reactions.cpp:604-667 | For a well-formed snapshot `change` returns true exactly when the state it leaves differs from the one it was given. |
| ReactionsSync.ChangeKeepsValid | Telegram/SourceFiles/data/data_message_reactions.cpp:604-667 | Applying a well-formed snapshot keeps the message's invariant. |
| ReactionsSync.KeyOrder | Telegram/SourceFiles/data/data_message_reactions.cpp:593-601 | The flat_map's iteration order lists each key exactly once. |
| ReactionsSync.CheckIfChangedAsWritten | Telegram/SourceFiles/data/data_message_reactions.cpp:550-602 | As written, the test answers false while sending and true whenever a count differs or an emoji is gone. |
| ReactionsSync.CheckIfChanged | Telegram/SourceFiles/data/data_message_reactions.cpp:550-602 | The corrected test, which also compares emoji, answers false while sending and true whenever a count differs or an emoji is gone. |
| ReactionsSync.CheckIfChangedPredictsChange | Telegram/SourceFiles/data/data_message_reactions.cpp:550-667 | For a well-formed snapshot the corrected test is true exactly when `change` alters the counts or the recent reactors (unread flags aside). |
| ReactionsSync.CheckIfChangedMissesMovedReactor | Telegram/SourceFiles/data/data_message_reactions.cpp:593-601 | A reactor moving from one emoji to another with unchanged counts passes the as-written test unnoticed, while `change` rewrites the recent map. |
| ReactionPolling.Idle | Telegram/SourceFiles/data/data_message_reactions.h:122-126 | A new scheduler has no repaint deadlines, no armed timer and no items to poll. |
| ReactionPolling.GroupBySecond | Telegram/SourceFiles/data/data_message_reactions.cpp:388-391 | Grouping rounds a non-negative time up to a whole second. Because C++ division truncates, every time from -1998 to 0 groups to 0. |
| ReactionPolling.Poll | Telegram/SourceFiles/data/data_message_reactions.cpp:387-410 | A never-refreshed item or a private chat is left alone. Before the refresh is due, only a repaint deadline is added, never overwriting one, and the timer is moved earlier when needed. Once due, the item joins the poll set unless it is already being polled, and collection is queued exactly when nothing was pending. The timer stays ahead of every deadline. |
| ReactionPolling.RepaintCollected | Telegram/SourceFiles/data/data_message_reactions.cpp:418-435 | Exactly the due items are repainted and dropped. The timer is re-armed at the earliest remaining deadline, or left off when none remains. |
| ReactButton.DefaultParameters | Telegram/SourceFiles/history/view/history_view_react_button.h:52-60 | Default parameters show one reaction in an empty visible range, with the pointer neither outside nor leaving. |
| ReactButton.Translated | Telegram/SourceFiles/history/view/history_view_react_button.h:45-50 | Translation moves the centre and the pointer by the delta and keeps everything else. |
| ReactButton.TranslatedInverse | Telegram/SourceFiles/history/view/history_view_react_button.h:45-50 | Translating back by the opposite delta restores the parameters. |
| ReactButton.NewButton | Telegram/SourceFiles/history/view/history_view_react_button.h:112-125 | The member defaults, with the constructor's initialisers (history_view_react_button.cpp:98-103), before the constructor's applyParameters call: hidden, collapsed to the outer size at the origin, growing up, collapsing by scroll, with its scroll in range. |
| ReactButton.FollowPointer | Telegram/SourceFiles/history/view/history_view_react_button.cpp:175-215 | The pointer half of applyParameters never hides the button, and never expands it either: the button stays Inside exactly when it was Inside and the pointer is still in the strip or its active area. Otherwise it is Active exactly when the pointer is in the active area, and Shown otherwise. A pointer waiting in an unexpanded strip is remembered and keeps the 25 ms expand timer; the timer restarts only when the pointer moved or the button was hidden, and is cancelled otherwise. The hide timer runs exactly for a shown button with the pointer outside: 0 ms after being expanded, 300 ms otherwise. |
| ReactButton.ConstructedButtonShows | Telegram/SourceFiles/history/view/history_view_react_button.cpp:95-106 | A constructed button is shown or active, never hidden or expanded. Its expand timer starts exactly when the pointer is already in the strip, and its hide timer exactly when the pointer is outside and away from the active area. |
| ReactButton.RestingPointerKeepsCountdown | Telegram/SourceFiles/history/view/history_view_react_button.cpp:189-201 | A pointer resting in the strip leaves the expand countdown running and the state unchanged on the next call. A pointer that moved restarts the countdown. |
| ReactButton.ConsumeWheel | Telegram/SourceFiles/history/view/history_view_react_button.cpp:146-169 | A wheel event is consumed exactly inside an expanded scrollable strip, and only for a mostly vertical delta. It then changes only the scroll, which stays within `[0, scrollMax]`, moves at most two rows in the wheel's direction, and repaints the strip. |
| ReactButton.UpdateExpandDirection | Telegram/SourceFiles/history/view/history_view_react_button.cpp:218-235 | The full list's height is one row per extra reaction plus padding, and the strip is capped at the maximum added height. The scroll is clamped into range. With two or more reactions the strip grows down exactly when growing up would leave the visible area and growing down would not. |
| ReactButton.UpdateGeometry | Telegram/SourceFiles/history/view/history_view_react_button.cpp:237-259 | The strip grows from the collapsed rect on its expand side only. A fully collapsed strip outside the Inside state forgets its scroll. Old and new geometry are repainted exactly when the geometry changed. |
| ReactButton.ChosenTruthOnlyFromContextAndNull | Telegram/SourceFiles/history/view/history_view_react_button.h:162-171 | A Chosen is true exactly when it has a context and a non-null emoji. The emoji's text and the geometry do not matter. |
| ReactManager.OfferedUpTo | Telegram/SourceFiles/history/view/history_view_react_button.cpp:464-514 | The icons offered as themselves are in list order and pass the filters without needing premium. |
| ReactManager.OfferedUpToComplete | Telegram/SourceFiles/history/view/history_view_react_button.cpp:464-514 | No offered icon is left out. |
| ReactManager.LockUpTo | Telegram/SourceFiles/history/view/history_view_react_button.cpp:464-514 | The premium lock is the last filtered icon that needs premium, and exists only when premium is possible. |
| ReactManager.FavoriteAt | Telegram/SourceFiles/history/view/history_view_react_button.cpp:464-514 | The favourite's position is the last offered icon with the favourite emoji, or -1 when none has it. |
| ReactManager.ToFront | Telegram/SourceFiles/history/view/history_view_react_button.cpp:505-510 | std::rotate moves the element at p to the front and shifts those before it back by one, so the result is a permutation. |
| ReactManager.CollectIcons | Telegram/SourceFiles/history/view/history_view_react_button.cpp:464-514 | The filtering loop computes the offered icons, the lock and the favourite's position the reference definitions give. |
| ReactManager.ApplyListFilters | Telegram/SourceFiles/history/view/history_view_react_button.cpp:464-514 | The icons shown are the offered icons with the favourite rotated to the front, then the lock if there is one. |
| ReactManager.FilteredPassesFilters | Telegram/SourceFiles/history/view/history_view_react_button.cpp:464-514 | Every shown icon passes the filters. Under the unique limit, only emoji already on the message are shown. |
| ReactManager.FilteredDistinct | Telegram/SourceFiles/history/view/history_view_react_button.cpp:464-514 | No icon is shown twice. |
| ReactManager.FilteredLockLast | Telegram/SourceFiles/history/view/history_view_react_button.cpp:464-514 | Only the last shown icon may need premium, and the lock, when there is one, is last. |
| ReactManager.FilteredFavoriteFirst | Telegram/SourceFiles/history/view/history_view_react_button.cpp:464-514 | When the favourite is offered, it is shown first. |
| ReactManager.KeptSelection | Telegram/SourceFiles/history/view/history_view_react_button.cpp:594-613 | An unchanged list keeps the selection. A changed list keeps it exactly while it fits the new icons, because -1 compared as unsigned never fits. A hidden selected icon clears it. |
| ReactManager.UpdateUniqueLimit | Telegram/SourceFiles/history/view/history_view_react_button.cpp:636-665 | Another message changes nothing. For the button's own message, the already-list becomes its emoji and the count becomes the emoji others reacted with, with a refilter exactly when either changed. |
| ReactManager.UniqueLimitFollowsOthers | Telegram/SourceFiles/history/view/history_view_react_button.cpp:464-665 | Once the update is in the filters, the unique limit applies exactly when the emoji others reacted with reach it; the user's own sole reaction does not count. Then only emoji already on the message are shown. When no refilter is asked for, the shown list is the same. |
| ReactManager.RoundHalf | Telegram/SourceFiles/history/view/history_view_react_button.cpp:836-838 | std::round of a half rounds it away from zero. |
| ReactManager.HoveredIndex | Telegram/SourceFiles/history/view/history_view_react_button.cpp:825-846 | The hovered index is a valid row when there are icons, and there is none when there are none. |
| ReactManager.RowTopHoversRow | Telegram/SourceFiles/history/view/history_view_react_button.cpp:825-846 | A pointer at the top of row k hovers row k. |
| ReactManager.SetSelectedIcon | Telegram/SourceFiles/history/view/history_view_react_button.cpp:849-885 | Selection moves the selected flag to the new index, keeps exactly one flag consistent with the index, and leaves other icons alone. |
| ReactManager.SetSelectedIconIdempotent | Telegram/SourceFiles/history/view/history_view_react_button.cpp:849-885 | Selecting twice is selecting once. |
| ReactManager.CacheRectIsCell | Telegram/SourceFiles/history/view/history_view_react_button.cpp:1463-1469 | A cache rect is one ratio-scaled outer-size cell of an 8×8 grid, and column 0 lies in its first four columns. |
| ReactManager.ImagesAreGrids | Telegram/SourceFiles/history/view/history_view_react_button.cpp:365-375 | The parts image is 8×8 cells and the background image 4×8. |
| ReactManager.CacheRectsDisjoint | Telegram/SourceFiles/history/view/history_view_react_button.cpp:1463-1469 | Distinct frame and column pairs get disjoint rects inside the parts image. Column 0 fits the background image. |
| ReactManager.InitialManager | Telegram/SourceFiles/history/view/history_view_react_button.cpp:346-358 | A new manager has every cache frame invalid, no selection and no not-mine count, and the unique limit it is constructed with. |
| ReactManager.SetShadowColor | Telegram/SourceFiles/history/view/history_view_react_button.cpp:1453-1461 | The same colour changes nothing. A new one invalidates every shadowed frame and keeps the emoji and overlay masks. |
| ReactManager.SetShadowColorKeepsCachesCurrent | Telegram/SourceFiles/history/view/history_view_react_button.cpp:1453-1461 | If every valid shadowed frame was drawn with the old colour, every frame still valid after the change was drawn with the new one. |
| ReactManager.Remove | Telegram/SourceFiles/history/view/history_view_react_button.cpp:918-924 | Removing a message forgets its effect area and keeps the others. It drops the button only when the message owns it. |
| ReactManager.RemoveCommutes | Telegram/SourceFiles/history/view/history_view_react_button.cpp:918-924 | Removing two messages gives the same result in either order, and removing one twice is the same as once. |
| PremiumPreviewBox.SectionIndex | Telegram/SourceFiles/boxes/premium_preview_box.h:32-44 | Every section's underlying value lies in `[0, kCount)`. |
| PremiumPreviewBox.SectionAt | Telegram/SourceFiles/boxes/premium_preview_box.h:32-44 | The cast from a value in range gives the section with that value. |
| PremiumPreviewBox.Move | Telegram/SourceFiles/boxes/premium_preview_box.cpp:1260-1265 | Moving by a delta lands on the value `(now + delta) mod kCount` whenever the C++ remainder is non-negative. |
| PremiumPreviewBox.MoveStep | Telegram/SourceFiles/boxes/premium_preview_box.cpp:1260-1265 | One arrow step lands on the neighbouring section, wrapping at both ends. |
| PremiumPreviewBox.MoveCycles | Telegram/SourceFiles/boxes/premium_preview_box.cpp:1260-1265 | Paging is cyclic: forward then back returns to the start, and the last and first sections are neighbours. |
| PremiumPreviewBox.SameDescriptorIgnoresOnlyCallback | Telegram/SourceFiles/boxes/premium_preview_box.cpp:70-75 | Descriptor equality is field equality up to the hidden callback. |
| PremiumPreviewBox.Others | Telegram/SourceFiles/boxes/premium_preview_box.cpp:94-103 | The entries kept are exactly the list's live entries of other windows: each kept entry is one of them, each of them is kept, and they keep their order in the list. |
| PremiumPreviewBox.EntryFor | Telegram/SourceFiles/boxes/premium_preview_box.cpp:1551-1589 | A window's entry is found exactly when the registry has one for it. |
| PremiumPreviewBox.Record | Telegram/SourceFiles/boxes/premium_preview_box.cpp:1558-1589 | Recording leaves the window exactly one entry, holding the descriptor with its sticker media. An equal descriptor is kept as it was. Other windows' entries are untouched, and expired entries passed over are dropped. |
| PremiumPreviewBox.ShowDescriptor | Telegram/SourceFiles/boxes/premium_preview_box.cpp:1551-1589 | Without premium, nothing is recorded and the box reports it unavailable. Otherwise the descriptor is recorded and the registry stays well-formed. |
| PremiumPreviewBox.ShowBack | Telegram/SourceFiles/boxes/premium_preview_box.cpp:1535-1549 | Showing with a background opens the window's entry if any, erases it, and leaves other windows' entries untouched. |
| PremiumPreviewBox.PreloadThenShow | Telegram/SourceFiles/boxes/premium_preview_box.cpp:1535-1589 | Preloading and then opening shows the recorded descriptor with its sticker. The window is left with no entry and the others as they were. |
| PremiumPreviewBox.GridShape | Telegram/SourceFiles/boxes/premium_preview_box.cpp:989-994 | The grid uses as few rows as five per row allows, rows hold one to five reactions, and full plus shorter rows hold every reaction. |
| PremiumPreviewBox.Place | Telegram/SourceFiles/boxes/premium_preview_box.cpp:1001-1007 | Each index is placed in a row of the grid, at a column of that row, and the row's start plus the column gives the index back. |
| PremiumPreviewBox.RowsBalanced | Telegram/SourceFiles/boxes/premium_preview_box.cpp:989-1007 | Row lengths lie between one and five and only drop, by at most one, from the full rows to the shorter ones. |
| PremiumPreviewBox.PlaceOnto | Telegram/SourceFiles/boxes/premium_preview_box.cpp:1001-1007 | Every cell of the grid is taken by the reaction whose index is its row's start plus its column. |
| PremiumPreviewBox.PlaceInjective | Telegram/SourceFiles/boxes/premium_preview_box.cpp:1001-1007 | Different reactions never share a cell. |
| PremiumPreviewBox.PremiumCountGrows | Telegram/SourceFiles/boxes/premium_preview_box.cpp:989 | The premium count grows with the prefix, and strictly past a premium reaction. |
| PremiumPreviewBox.EntriesUpTo | Telegram/SourceFiles/boxes/premium_preview_box.cpp:997-1025 | The grid's entries take increasing premium indices, each in the cell of its index. Reactions without icons still use up an index. |
| PremiumPreviewBox.LastDisable | Telegram/SourceFiles/boxes/premium_preview_box.cpp:1012-1018 | The note's disable type is one an entry has, and None exactly when no entry is disabled. |
| PremiumPreviewBox.ReactionsGrid | Telegram/SourceFiles/boxes/premium_preview_box.cpp:989-1025 | The layout loop produces the reference entries and the last disable type among them. |
| PremiumPreviewBox.GridCellsDistinct | Telegram/SourceFiles/boxes/premium_preview_box.cpp:989-1025 | No two grid entries share a cell, and every cell lies in the grid. |
| PremiumPreviewBox.ComputeXCentred | Telegram/SourceFiles/boxes/premium_preview_box.cpp:77-83 | Columns are one skip apart and the row is centred in the box to within a pixel. |
| PremiumPreviewBox.ComputeYCentred | Telegram/SourceFiles/boxes/premium_preview_box.cpp:85-93 | Rows are one skip apart. The block is centred on its middle line, or on half of the info top when there are more than three rows, with the odd pixel below. |
| PremiumPreviewBox.Lookup | Telegram/SourceFiles/boxes/premium_preview_box.cpp:1081-1090 | Lookup finds the first enabled entry under the point, or -1 exactly when none is under it. |
| PremiumPreviewBox.Select | Telegram/SourceFiles/boxes/premium_preview_box.cpp:1091-1108 | Selection moves the over flag to the new entry, keeps flags consistent, and changes nothing when re-selecting. The cursor changes exactly when the pointer enters or leaves the entries. |
| PremiumPreviewBox.SelectIdempotent | Telegram/SourceFiles/boxes/premium_preview_box.cpp:1091-1108 | Selecting the selected entry again changes nothing and sets no cursor. |
| PremiumPreviewBox.AccountsLabelReadsBack | Telegram/SourceFiles/boxes/premium_preview_box.cpp:1768-1771 | The accounts label reads back as the smaller of the two limits, followed by '+' exactly when the next limit is below the premium maximum. |
| Common.DecimalRoundTrip | Telegram/SourceFiles/boxes/premium_preview_box.cpp:1769-1771 | The decimal text of a number parses back to that number. |
| SettingsPremium.FindKey | Telegram/SourceFiles/settings/settings_premium.cpp:87-179 | Finding a ref in the entry map returns the entry whose key is that ref. |
| SettingsPremium.FindKeyInverse | Telegram/SourceFiles/settings/settings_premium.cpp:87-179 | Every key's name finds that key, so no two keys share a name. |
| SettingsPremium.FallbackAt | Telegram/SourceFiles/settings/settings_premium.cpp:72-85 | Each position of the fallback order names the key at that position, and the key sits nowhere else. |
| SettingsPremium.FallbackOrderListsEveryEntry | Telegram/SourceFiles/settings/settings_premium.cpp:72-179 | The fallback order names each of the ten entries exactly once. |
| SettingsPremium.FirstRefFor | Telegram/SourceFiles/settings/settings_premium.cpp:1082-1089 | The scan returns the ref of a key with the section, or empty exactly when no key has it. |
| SettingsPremium.SectionKey | Telegram/SourceFiles/settings/settings_premium.cpp:87-179 | Every preview section has an entry that opens it. |
| SettingsPremium.EntrySectionInjective | Telegram/SourceFiles/settings/settings_premium.cpp:87-179 | No two entries open the same section. |
| SettingsPremium.LookupPremiumRefInverse | Telegram/SourceFiles/settings/settings_premium.cpp:1082-1089 | LookupPremiumRef names the section's one entry, which finds back that entry and is never the doubled-limits key. |
| SettingsPremium.FeatureRows | Telegram/SourceFiles/settings/settings_premium.cpp:833-839 | The rows come from keys of the configured order that have entries. |
| SettingsPremium.FeatureRowsAppend | Telegram/SourceFiles/settings/settings_premium.cpp:833-839 | The rows keep the configured order: the rows of a concatenation are the concatenated rows. |
| SettingsPremium.FeatureRowsKeepKnownKeys | Telegram/SourceFiles/settings/settings_premium.cpp:833-839 | Every known key in the order gets its row. |
| SettingsPremium.FeatureRowsOfNames | Telegram/SourceFiles/settings/settings_premium.cpp:833-839 | An order of entry names gives one row per entry, in that order. |
| SettingsPremium.FallbackRows | Telegram/SourceFiles/settings/settings_premium.cpp:825-839 | With the fallback order, every entry gets a row in the fallback sequence. |
| SettingsPremium.RowClick | Telegram/SourceFiles/settings/settings_premium.cpp:761-816 | A row with a section opens that section's preview. The doubled-limits row opens its box, with a subscribe button referring back to "double_limits" exactly for non-premium users. |
| SettingsPremium.StaysPausedAfterHide | Telegram/SourceFiles/settings/settings_premium.cpp:761-801 | The click pauses the stars and the glare, and only the hide callback resumes them. After the opened box hides, they stay paused exactly in two cases. One is a premium user's doubled-limits box, whose close button does not call that callback. The other is a section row clicked while premium is not possible: the preview then shows the unavailable box and drops the descriptor carrying the callback (Telegram/SourceFiles/boxes/premium_preview_box.cpp:1551-1557). |
| SettingsPremium.RowClickRoundTrip | Telegram/SourceFiles/settings/settings_premium.cpp:761-771 | Clicking the row of a section's entry opens that section's preview. |
| SettingsPremium.RandomInterval | Telegram/SourceFiles/settings/settings_premium.cpp:320-322 | The drawn value lies in the interval, offset from its start by the random index. |
| SettingsPremium.NewStar | Telegram/SourceFiles/settings/settings_premium.cpp:395-404 | A new star is born now and dies 1500 to 3499 ms later. Its angle lies in one of the four ranges, its size is 10 to 29, its alpha 40 to 99 percent, and its sine factor 10 to 199 percent in either direction. |
| SettingsPremium.PlaceStar | Telegram/SourceFiles/settings/settings_premium.cpp:405-411 | The star list grows by at most one and holds the new star. No star still alive at the birth is replaced, and the list grows exactly when every star is alive. |
| SettingsPremium.CreateStar | Telegram/SourceFiles/settings/settings_premium.cpp:395-412 | The scan over the stars places the new star exactly where `PlaceStar` says. |
| SettingsPremium.Tick | Telegram/SourceFiles/settings/settings_premium.cpp:300-304 | Once the next birth time has passed and the stars are not paused, one star is created and the next birth is 150 to 349 ms later. Otherwise nothing changes. |
| SettingsPremium.RunKeepsSchedule | Telegram/SourceFiles/settings/settings_premium.cpp:300-412 | Over any run of callbacks, paused stars are never born, births come after the scheduled time, the schedule only moves forward and stays 150 ms past the last birth, and each birth adds at most one star. |
| SettingsPremium.RunSpacesBirths | Telegram/SourceFiles/settings/settings_premium.cpp:300-304 | Over any run of callbacks, consecutive stars are born more than 150 ms apart. |
| SettingsPremium.ResolveRefMergesOnlySettings | Telegram/SourceFiles/settings/settings_premium.cpp:197-199 | Two refs resolve alike exactly when they are equal or are the empty ref and "settings". |
| SettingsPremium.CostShowsServerPriceIffValid | Telegram/SourceFiles/settings/settings_premium.cpp:1109-1116 | The server's price is shown unchanged exactly when it is positive and has a currency. All invalid prices show the same fallback. |
| SettingsPremium.SubscribeBar | Telegram/SourceFiles/settings/settings_premium.cpp:1004-1022 | The bar is shown, with the padded button height, exactly to users who could buy premium and have not. Otherwise it has height 0. The button sits at the left and top paddings. |
| SettingsPremium.SubscribeButtonInsideBar | Telegram/SourceFiles/settings/settings_premium.cpp:1004-1022 | A shown bar holds the button between its top and bottom paddings. With a positive button it takes space exactly when shown, and a premium user's bar takes none. |
| PremiumGraphics.ProcessTextFactory | Telegram/SourceFiles/ui/effects/premium_graphics.cpp:41-46 | The factory renders every number with the phrase when one is given, otherwise as digits. |
| PremiumGraphics.ListLineFactory | Telegram/SourceFiles/ui/effects/premium_graphics.cpp:846-853 | The list line's factory shows the custom right text for the right number and digits for every other number. |
| PremiumGraphics.NewBubble | Telegram/SourceFiles/ui/effects/premium_graphics.cpp:115-139 | A new bubble has no counter, shows the text for 0, and is painted by neither the bubble nor the widget. |
| PremiumGraphics.SetCounter | Telegram/SourceFiles/ui/effects/premium_graphics.cpp:171-176 | The counter takes the value, and the text is replaced only when the value changes. The text keeps following the counter. |
| PremiumGraphics.SetCounterIdempotent | Telegram/SourceFiles/ui/effects/premium_graphics.cpp:171-176 | Setting the same counter twice is setting it once. |
| PremiumGraphics.SetCountersShowLast | Telegram/SourceFiles/ui/effects/premium_graphics.cpp:171-176 | After any run of counters the bubble holds the last value and shows its text, whatever came before. |
| PremiumGraphics.PaintGuards | Telegram/SourceFiles/ui/effects/premium_graphics.cpp:391-394 | The widget paints only what the bubble would. The two differ exactly on a counter of 0. |
| PremiumGraphics.SetTailEdge | Telegram/SourceFiles/ui/effects/premium_graphics.cpp:178-180 | The tail edge is clamped into [0, 1]: kept inside, the nearer end outside. |
| PremiumGraphics.TailStaysUnderBubble | Telegram/SourceFiles/ui/effects/premium_graphics.cpp:178-207 | Whatever edge is set, the tail lies in the right half of the bubble, at the edge's position when the edge is in [0, 1]. |
| PremiumGraphics.BubbleRadiusFromBody | Telegram/SourceFiles/ui/effects/premium_graphics.cpp:146-148 | The radius depends on the body alone: two pixels less than half of it, so the rounded ends fit. |
| PremiumGraphics.TextTop | Telegram/SourceFiles/ui/effects/premium_graphics.cpp:128 | The text is centred vertically in the body, to within a pixel. |
| PremiumGraphics.BubbleWidthMonotone | Telegram/SourceFiles/ui/effects/premium_graphics.cpp:150-169 | A wider number widens the bubble by exactly the difference, so countMaxWidth covers every narrower number. |
| PremiumGraphics.NewLine | Telegram/SourceFiles/ui/effects/premium_graphics.cpp:476-485 | Each label of a new line is empty exactly when its number is 0. |
| PremiumGraphics.AddLimitRow | Telegram/SourceFiles/ui/effects/premium_graphics.cpp:638-648 | The limit row labels both numbers with the phrase, except a zero, which gets no label. |
| PremiumGraphics.ListLine | Telegram/SourceFiles/ui/effects/premium_graphics.cpp:841-853 | The custom right text replaces every label whose number is the right number, the left one included when the numbers are equal. |
| PremiumGraphics.Resize | Telegram/SourceFiles/ui/effects/premium_graphics.cpp:495-504 | An empty size is ignored. Otherwise the halves add up to the width, and the right half is at most one pixel wider. |
| PremiumGraphics.ResizeForgetsHistory | Telegram/SourceFiles/ui/effects/premium_graphics.cpp:495-504 | The halves depend on the last non-empty width alone. |
| PremiumGraphics.AddAccountsRow | Telegram/SourceFiles/ui/effects/premium_graphics.cpp:705-721 | Exactly the account whose index is the group's value starts checked. |
| PremiumGraphics.GroupChanged | Telegram/SourceFiles/ui/effects/premium_graphics.cpp:779-783 | After the group changes, exactly the account at the new value is checked. |
| PremiumGraphics.ClickAccount | Telegram/SourceFiles/ui/effects/premium_graphics.cpp:754-756 | Clicking an account checks it alone and sets the group to its index. |
| PremiumGraphics.ClickSelectedIsNoOp | Telegram/SourceFiles/ui/effects/premium_graphics.cpp:754-756 | Clicking the selected account changes nothing. |
| PremiumGraphics.ColumnWidth | Telegram/SourceFiles/ui/effects/premium_graphics.cpp:761-762 | Columns split the width evenly, leaving less than one column per account unused. |
| PremiumGraphics.ColumnsTile | Telegram/SourceFiles/ui/effects/premium_graphics.cpp:761-767 | The columns lie within the row and do not overlap. |
| PremiumGraphics.BadgeCenter | Telegram/SourceFiles/ui/effects/premium_graphics.cpp:768 | Each badge is centred inside its column. |
| PremiumGraphics.CheckboxGradientLeft | Telegram/SourceFiles/ui/effects/premium_graphics.cpp:761-775 | Each checkbox gradient is centred on its column, or half a pixel left of centre when the slack is odd. |
| PremiumGraphics.GradientLeftAsWrittenCentres | Telegram/SourceFiles/ui/effects/premium_graphics.cpp:770-775 | For int-sized widths, the size_t arithmetic gives the left edge plus half the slack rounded down, whether the photo fits or overhangs. The photo's centre is on the column's centre or half a pixel left of it. |
| PremiumGraphics.GradientLeftAgreesWhenFitting | Telegram/SourceFiles/ui/effects/premium_graphics.cpp:770-775 | When the photo fits its column, the size_t arithmetic gives the same edge as signed arithmetic. |
| PremiumGraphics.GradientLeftOffByOneWhenOverhanging | Telegram/SourceFiles/ui/effects/premium_graphics.cpp:770-775 | When the photo overhangs by an odd number of pixels, the size_t edge is one pixel left of the signed one: the two round the odd half pixel opposite ways. |
| PremiumGraphics.GradientLeftRoundingExample | Telegram/SourceFiles/ui/effects/premium_graphics.cpp:770-775 | For a 10-pixel column under a 13-pixel photo, the size_t edge is -2 and the signed one -1. |
| PremiumGraphics.GradientLeftAsWritten | Telegram/SourceFiles/ui/effects/premium_graphics.cpp:770-775 | The written edge, narrowed to 32 bits, is the centred edge when the photo fits. When it overhangs, it is the left edge minus half the overhang rounded up. |
| StickerView.StickerSize | Telegram/SourceFiles/history/view/media/history_view_sticker.cpp:150-153 | The sticker size is a square capped at 512. |
| StickerView.EmojiSize | Telegram/SourceFiles/history/view/media/history_view_sticker.cpp:172-175 | The emoji size is a square capped at 256. |
| StickerView.InitSize | Telegram/SourceFiles/history/view/media/history_view_sticker.cpp:112-121 | Emoji and dice get the emoji size, other stickers the document's size. |
| StickerView.CurrentSize | Telegram/SourceFiles/history/view/media/history_view_sticker.cpp:123-128 | The size is measured on first use and kept afterwards. |
| StickerView.CurrentSizeSticks | Telegram/SourceFiles/history/view/media/history_view_sticker.cpp:123-128 | Once measured non-empty, the size is returned again whatever the style says later. |
| StickerView.MirrorHorizontal | Telegram/SourceFiles/history/view/media/history_view_sticker.cpp:345-352 | Only a sticker with the premium effect is mirrored. |
| StickerView.MirrorFacesTail | Telegram/SourceFiles/history/view/media/history_view_sticker.cpp:345-352 | A premium-effect sticker is mirrored exactly when it is not drawn on the right, so never an outgoing one in a narrow chat. |
| StickerView.CheckPremiumEffectStart | Telegram/SourceFiles/history/view/media/history_view_sticker.cpp:455-460 | The effect starts exactly when it has not played and the sticker has it, and then the flag is set. |
| StickerView.PremiumEffectRestartsAfterReset | Telegram/SourceFiles/history/view/media/history_view_sticker.cpp:199-202 | After a reset or a click, the effect starts again exactly when the sticker has it. |
| StickerView.ClickReplaysOnce | Telegram/SourceFiles/history/view/media/history_view_sticker.cpp:199-414 | A play-once animation that has already played signals no loop end. After a click or a reset, the next painted frame signals it again. |
| StickerView.PlayOnce | Telegram/SourceFiles/history/view/media/history_view_sticker.cpp:247-256 | Dice with a value play once, the rolling dice loops, and others play once when emoji or when looping is off. |
| StickerView.PaintLottie | Telegram/SourceFiles/history/view/media/history_view_sticker.cpp:204-268 | A cached final dice frame ends playback logic. The loop signal fires only for play-once animations, only once, and sets its flag. The effect starts only when it has not played. A paused player is not advanced. A dice caches its final frame two frames from the end. |
| StickerView.PaintPlaying | Telegram/SourceFiles/history/view/media/history_view_sticker.cpp:233-268 | While playing, a paint signals at most the loop's end and then the effect start, each under its own condition. |
| StickerView.OneShotsFireOnce | Telegram/SourceFiles/history/view/media/history_view_sticker.cpp:204-268 | Over any run of paints, the loop signal and the effect start each fire at most once until reset, and not at all when already played. |
| StickerView.LoopingNeverSignalsLoop | Telegram/SourceFiles/history/view/media/history_view_sticker.cpp:247-256 | A looping animation never signals a loop's end and is advanced exactly when not paused. |
| StickerView.UnloadLottie | Telegram/SourceFiles/history/view/media/history_view_sticker.cpp:487-500 | Unloading drops the player. A dice without its final frame will play again. A loaded premium sticker cancels its effect. |
| StickerView.UnloadLottieIdempotent | Telegram/SourceFiles/history/view/media/history_view_sticker.cpp:487-500 | Unloading twice is unloading once, and the second time signals nothing. |
| StickerView.Fresh | Telegram/SourceFiles/history/view/media/history_view_sticker.cpp:61-70 | A new view has no player, no link, no size, and clear flags. |
| StickerView.NewSticker | Telegram/SourceFiles/history/view/media/history_view_sticker.cpp:61-90 | A new view takes the replaced view's player when it matches, and then starts the premium effect at once if it has one. |
| StickerView.HandOverMovesPlayer | Telegram/SourceFiles/history/view/media/history_view_sticker.cpp:79-88 | A hand-over never duplicates the player: exactly one of the two views holds it afterwards. |
| StickerView.RefreshLink | Telegram/SourceFiles/history/view/media/history_view_sticker.cpp:363-401 | An existing link is kept. Emoji get the emoji click. Stickers with a set get the premium click or show-set. A large setless sticker opens its document unless sending or failed. Otherwise there is no link. |
| StickerView.RefreshLinkIdempotent | Telegram/SourceFiles/history/view/media/history_view_sticker.cpp:363-401 | Once made, a link is kept whatever the message's state later. |
| ProfileCover.ChatStatusText | Telegram/SourceFiles/info/profile/info_profile_cover.cpp:48-70 | The status shows members and online exactly when more than one but no more than all are online. Otherwise it shows the member or subscriber count when positive, and otherwise the plain label. |
| ProfileCover.RefreshStatus | Telegram/SourceFiles/info/profile/info_profile_cover.cpp:255-302 | Users show their online text, linked while active. A basic group one has left says so. A basic group counts at least its participants, and a channel at least one member. Only viewable megagroups link to members. |
| ProfileCover.ChannelsAlwaysCount | Telegram/SourceFiles/info/profile/info_profile_cover.cpp:283-291 | A channel always shows a count: members for a megagroup, subscribers for a broadcast. |
| ProfileCover.BasicGroupCount | Telegram/SourceFiles/info/profile/info_profile_cover.cpp:275-282 | A basic group's count is never below its participants, and it shows the plain label exactly when both are zero. |
| ProfileCover.ShownBadge | Telegram/SourceFiles/info/profile/info_profile_cover.cpp:177-184 | A premium badge shows only where premium is possible, and other badges as they are. |
| ProfileCover.NewCover | Telegram/SourceFiles/info/profile/info_profile_cover.cpp:85-128 | A new cover has no badge and no widget. |
| ProfileCover.SetBadge | Telegram/SourceFiles/info/profile/info_profile_cover.cpp:198-253 | The same badge changes nothing. A different one makes the matching widget with its style's size. |
| ProfileCover.SetBadgesShowLast | Telegram/SourceFiles/info/profile/info_profile_cover.cpp:177-253 | After any run of badges the cover shows the last one (downgraded without premium), with a matching widget. |
| ProfileCover.SetBadgeIdempotent | Telegram/SourceFiles/info/profile/info_profile_cover.cpp:198-253 | Setting the same badge twice is setting it once. |
| ProfileCover.OverlayOnSetup | Telegram/SourceFiles/info/profile/info_profile_cover.cpp:166-196 | The overlay chosen when the cover is set up is offered on one's own profile and where the chat or channel can be edited. |
| ProfileCover.OverlayTracksRights | Telegram/SourceFiles/info/profile/info_profile_cover.cpp:166-196 | However the rights change afterwards, the overlay shown is the one the latest rights call for. |
| ProfileCover.BadgeFitsBesideName | Telegram/SourceFiles/info/profile/info_profile_cover.cpp:307-338 | A name within its width leaves the badge clear of it and inside the right inset. |
| MemberRows.RemoveIconInsideAction | Telegram/SourceFiles/info/profile/info_profile_members_controllers.cpp:32-73 | A removable row has no margins, and when selected paints the remove icon inside its action area, highlighted with the action. A disabled row paints the link with the link's size and margins. An unselected row paints the link. |
| MemberRows.SetTypeForgetsOld | Telegram/SourceFiles/info/profile/info_profile_members_controllers.cpp:19-30 | A retyped row equals a new row of that type, and only the last retype counts. |
| MemberRows.NameIconMatchesWidth | Telegram/SourceFiles/info/profile/info_profile_members_controllers.cpp:75-103 | An admin or creator row reserves exactly the width of the icon it paints, admin or creator, and an ordinary member reserves none. |
| MemberRows.PromotedBotsReadAll | Telegram/SourceFiles/info/profile/info_profile_members_controllers.cpp:27-115 | After retyping, a bot that is an admin or creator reads all history, and any other bot reads it exactly when it says so. A user who is not a bot gets the generic status. |

## Left out

**Not modelled at all:**

- Painting, anti-aliasing, gradients (`ComputeGradient`), images and pixmaps (`paintPixmap`, `paintPath`, the dice frame cache image), float animations and the bubble's deflection. These draw pixels; the state they read is modelled.
- Lottie playback and frame decoding: `setupLottie`, `readyToDrawLottie`, `lottieCreated`. The frame index, frame count and pause state are inputs to `PaintLottie`.
- Integer widths. C++ `int`, `crl::time` and `size_t` values are unbounded integers here, so overflow is not modelled. The one exception is the `size_t` arithmetic of the checkbox gradient (Telegram/SourceFiles/ui/effects/premium_graphics.cpp:770-775), which is written out.
- UTF-16 ordering of strings. Emoji keys are ordered by code point (`StrLess`), while QString compares UTF-16 code units. The two orders differ only between a character from U+E000 to U+FFFF and a supplementary one, and the order matters only for which recent lists `CheckIfChangedAsWritten` pairs up when the two key sets differ.
- rpl streams, `crl::on_main`, and the clock. Timers are optional deadlines, and times are parameters.
- MTP requests and parsing. Snapshots arrive already decoded as lists of counts and reactors. `pollCollected` and the sending of requests are outside this model.
- Localisation and `FillAmountAndCurrency`. Phrases are constructors carrying their counts, and the price is the pair of amount and currency.
- Style constants. They are parameters, and `kStickerSideSize` is taken as 512 because its declaration is not part of this model.
- Helpers declared elsewhere, which become parameters: `DownscaledSize`, `Data::OnlineTextFull` and `OnlineTextActive`, `ScamBadgeSize`, `RadiobuttonGroup`, `PremiumEffectSize` and its multiplier.
- The preview box's bottom note text. The disable type that picks it is modelled.
- The MiniStars `paint`, and the prefill when animations are disabled. The prefill loop draws its spacing at random from negative times, with no state beyond `createStar`.
- Several react-button operations that only drive animations and copy data: `clearStateForHidden`, `expandAnimationScroll`, `applyState`, and `applyList`'s copy of the reaction list. `applyParameters` is modelled only in its pointer half (`FollowPointer`): which state it picks, and what it does to the expand and hide timers. Its move of the collapsed rect to the new centre, its expand-direction update, and the height and collapse type that `applyState` sets while animating are not modelled.
- The Assert on `iconContainers` in the settings section. It checks the view's own bookkeeping.

**Preconditions the model adds, and why:**

- `setTailEdge` with a NaN edge. Edges are real numbers here.
- A grid with no premium reactions. The source divides by `rows`, which is 0 then, so `GridShape` requires at least one.
- An accounts row with no accounts. The source divides by `count`, so `ColumnWidth` requires at least one.
- `CheckboxGradientLeft` takes a row width and photo width below 2^31, because both are `int` in the source, and an account index below the count, the loop's bound.

**Contracts stated weaker than the source:**

- PremiumGraphics.SetCounter: when the value is -1 and the counter was never set, the text is constrained only to follow the counter. The source's text is then the initial text for 0 or the factory's text for -1, depending on the history.
- PremiumPreviewBox.Move: returns None for a delta below `-(now + kCount)`, where C++'s remainder is negative. The source casts that value to the enum, which names no section.
- StickerView.InitSize: sets only the size. For a dice with a value, the source also calls `readyToDrawLottie`, which may start loading the animation. That call belongs to Lottie playback, which is not modelled.
- ReactManager.KeptSelection: takes as an input whether the selected icon was hidden while filtering. It does not derive this from `clearStateForHidden`.
- ReactionsSync.Change: the change-iff-difference property (`ChangeReportsDifference`) and the prediction by `checkIfChanged` are proved only for well-formed snapshots. A well-formed snapshot has distinct, non-empty emoji, positive counts and at most one chosen entry. Nothing is stated for other snapshots.

## Findings

| source | as written | input that shows it | evidently intended | confidence | as-written member | corrected member |
|---|---|---|---|---|---|---|
| Telegram/SourceFiles/data/data_message_reactions.cpp:593-601 | `checkIfChanged` compares the recent maps with `ranges::equal` over their pairs, but its lambda compares only the reactor lists and never the emoji keys. | Held: counts A:1, B:1, with peer 7 recent under A. Snapshot: counts A:1, B:1, with peer 7 recent under B. The test answers "unchanged", but `change` moves the reactor from A to B. | The emoji of each recent list is compared too, so the test answers true exactly when `change` would alter counts or reactors. | not executed | ReactionsSync.CheckIfChangedMissesMovedReactor | ReactionsSync.CheckIfChangedPredictsChange |
