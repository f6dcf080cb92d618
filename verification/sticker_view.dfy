/** The sticker shown inside a message (HistoryView::Sticker): its size,
    whether it plays the premium effect and is mirrored, the play-once and
    one-shot flags driven by painting, the click link it gets, and the
    hand-over of its Lottie player to the view that replaces it. */
module StickerView {
  import opened Common
  import opened Geometry

  /** kMaxSizeFixed and kMaxEmojiSizeFixed. */
  const MaxSizeFixed: int := 512
  const MaxEmojiSizeFixed: int := 256

  /** kStickerSideSize, the side a sticker is expected to fit in. Its
      declaration is not part of this model; the comment beside its only use
      speaks of stickers that fit in 512x512. */
  const StickerSideSize: int := 512

  /** What the view needs to know about the sticker part of a document. */
  datatype StickerInfo = StickerInfo(hasSet: bool, isLottie: bool)

  /** The DocumentData a view shows, reduced to what the view reads. */
  datatype Document = Document(
    id: nat,
    premiumSticker: bool,
    sticker: Option<StickerInfo>,
    dimensions: Size)

  /** A Lottie player, known by identity. */
  type Player = nat

  /** The click handler a sticker links to. */
  datatype Link = NoLink | EmojiClick | PremiumClick | ShowSet | OpenDocument

  /** What the view asks of its delegate and the data session. */
  datatype Event =
    | StartPremium(fromReplaced: bool)
    | CancelPremium
    | StartStickerLoop
    | StartInteraction
    | Repaint

  datatype Sticker = Sticker(
    document: Document,
    replacements: Option<nat>,   // the colour replacements, by identity
    skipPremiumEffect: bool,
    isEmoji: bool,               // the message has no media of its own
    diceIndex: int,              // -1 when the sticker is not a dice
    lottie: Option<Player>,
    lastDiceFrame: bool,         // the final dice frame is cached
    nextLastDiceFrame: bool,
    lottieOncePlayed: bool,
    premiumEffectPlayed: bool,
    link: Link,
    size: Size)

  /** Sticker::hasPremiumEffect. */
  predicate HasPremiumEffect(s: Sticker) {
    !s.skipPremiumEffect && s.document.premiumSticker
  }

  // ------------------------------------------------------------------ size

  /** Sticker::Size(): a square capped at 512 pixels. */
  function StickerSize(maxStickerSize: int): (r: Size)
    ensures r.w == r.h
    ensures r.w <= MaxSizeFixed && r.w <= maxStickerSize
    ensures r.w == MaxSizeFixed || r.w == maxStickerSize
  {
    var side := Min(maxStickerSize, MaxSizeFixed);
    Size(side, side)
  }

  /** Sticker::EmojiSize(): a square capped at 256 pixels. */
  function EmojiSize(maxAnimatedEmojiSize: int): (r: Size)
    ensures r.w == r.h
    ensures r.w <= MaxEmojiSizeFixed && r.w <= maxAnimatedEmojiSize
    ensures r.w == MaxEmojiSizeFixed || r.w == maxAnimatedEmojiSize
  {
    var side := Min(maxAnimatedEmojiSize, MaxEmojiSizeFixed);
    Size(side, side)
  }

  /** Sticker::initSize. `documentSize` is the document's dimensions
      downscaled into StickerSize (DownscaledSize is not part of this
      model). */
  function InitSize(s: Sticker, maxAnimatedEmojiSize: int, documentSize: Size): (r: Sticker)
    ensures s.isEmoji || s.diceIndex >= 0 ==> r.size == EmojiSize(maxAnimatedEmojiSize)
    ensures !s.isEmoji && s.diceIndex < 0 ==> r.size == documentSize
    ensures r == s.(size := r.size)
  {
    if s.isEmoji || s.diceIndex >= 0 then s.(size := EmojiSize(maxAnimatedEmojiSize))
    else s.(size := documentSize)
  }

  /** Sticker::size(): measured on first use, kept afterwards. */
  function CurrentSize(s: Sticker, maxAnimatedEmojiSize: int, documentSize: Size): (r: (Sticker, Size))
    ensures r.1 == r.0.size
    ensures !s.size.IsEmpty() ==> r.0 == s
    ensures s.size.IsEmpty() ==> r.0 == InitSize(s, maxAnimatedEmojiSize, documentSize)
  {
    if s.size.IsEmpty() then
      var t := InitSize(s, maxAnimatedEmojiSize, documentSize);
      (t, t.size)
    else (s, s.size)
  }

  /** Once a non-empty size has been measured, later calls return it again
      whatever the style then says. */
  lemma CurrentSizeSticks(s: Sticker, a: int, b: int, da: Size, db: Size)
    requires !CurrentSize(s, a, da).1.IsEmpty()
    ensures CurrentSize(CurrentSize(s, a, da).0, b, db) == CurrentSize(s, a, da)
  {
  }

  /** Sticker::mirrorHorizontal, given whether the message uses the outgoing
      layout and whether the chat is wide. */
  function MirrorHorizontal(s: Sticker, outLayout: bool, chatWide: bool): (m: bool)
    ensures m ==> HasPremiumEffect(s)
  {
    if !HasPremiumEffect(s) then false
    else
      var rightAligned := outLayout && !chatWide;
      !rightAligned
  }

  /** The premium effect faces the message's tail: a premium sticker is
      mirrored exactly when it is not drawn on the right, and a sticker
      without the effect never is. */
  lemma MirrorFacesTail(s: Sticker, outLayout: bool, chatWide: bool)
    ensures MirrorHorizontal(s, outLayout, chatWide) <==>
      !s.skipPremiumEffect && s.document.premiumSticker && (!outLayout || chatWide)
    ensures MirrorHorizontal(s, true, false) == false
  {
  }

  // ------------------------------------------------------------- one-shots

  /** The effect of an operation: the new view and the signals it sent. */
  datatype Step = Step(sticker: Sticker, events: seq<Event>)

  /** Sticker::checkPremiumEffectStart. */
  function CheckPremiumEffectStart(s: Sticker): (r: Step)
    ensures r.sticker.premiumEffectPlayed == (s.premiumEffectPlayed || HasPremiumEffect(s))
    ensures r.events == [] || r.events == [StartPremium(false)]
    ensures r.events != [] <==> !s.premiumEffectPlayed && HasPremiumEffect(s)
    ensures r.sticker == s.(premiumEffectPlayed := r.sticker.premiumEffectPlayed)
  {
    if !s.premiumEffectPlayed && HasPremiumEffect(s) then Step(s.(premiumEffectPlayed := true), [StartPremium(false)])
    else Step(s, [])
  }

  /** Sticker::stickerClearLoopPlayed. */
  function ClearLoopPlayed(s: Sticker): (r: Sticker)
    ensures !r.lottieOncePlayed && !r.premiumEffectPlayed
    ensures r == s.(lottieOncePlayed := false, premiumEffectPlayed := false)
  {
    s.(lottieOncePlayed := false, premiumEffectPlayed := false)
  }

  /** Sticker::premiumStickerClicked: the effect may start again. */
  function PremiumStickerClicked(s: Sticker): (r: Step)
    ensures !r.sticker.premiumEffectPlayed && r.events == [Repaint]
    ensures r.sticker == s.(premiumEffectPlayed := false)
  {
    Step(s.(premiumEffectPlayed := false), [Repaint])
  }

  /** Sticker::emojiStickerClicked: an interaction starts when a player is
      loaded, and the emoji may play once more. */
  function EmojiStickerClicked(s: Sticker): (r: Step)
    ensures !r.sticker.lottieOncePlayed && r.sticker == s.(lottieOncePlayed := false)
    ensures s.lottie.Some? ==> r.events == [StartInteraction, Repaint]
    ensures s.lottie.None? ==> r.events == [Repaint]
  {
    Step(s.(lottieOncePlayed := false), (if s.lottie.Some? then [StartInteraction] else []) + [Repaint])
  }

  /** The premium effect starts again after a reset exactly when the
      sticker has the effect. */
  lemma PremiumEffectRestartsAfterReset(s: Sticker)
    ensures CheckPremiumEffectStart(ClearLoopPlayed(s)).events == (if HasPremiumEffect(s) then [StartPremium(false)] else [])
    ensures CheckPremiumEffectStart(PremiumStickerClicked(s).sticker).events == (if HasPremiumEffect(s) then [StartPremium(false)] else [])
  {
  }

  /** A click or a reset re-arms a play-once animation: the next shown
      frame signals the loop's end again, where without them a played
      animation stays silent. (The frame must not be a dice's last.) */
  lemma ClickReplaysOnce(s: Sticker, f: Frame)
    requires s.lottie.Some? && !s.lastDiceFrame && !s.nextLastDiceFrame
    requires PlayOnce(s.diceIndex, s.isEmoji, f.loopAnimatedStickers)
    requires !f.paused && f.frameShown && !(s.diceIndex > 0 && f.atTheEnd)
    ensures StartStickerLoop in PaintLottie(EmojiStickerClicked(s).sticker, f).events
    ensures StartStickerLoop in PaintLottie(ClearLoopPlayed(s), f).events
    ensures s.lottieOncePlayed ==> StartStickerLoop !in PaintLottie(s, f).events
  {
  }

  /** Whether an animation plays once instead of looping: dice with a value
      always do, the rolling dice (index 0) never does, other stickers do
      when they are emoji or looping is switched off in the settings. */
  function PlayOnce(diceIndex: int, isEmoji: bool, loopAnimatedStickers: bool): (once: bool)
    ensures diceIndex > 0 ==> once
    ensures diceIndex == 0 ==> !once
    ensures diceIndex < 0 ==> (once <==> isEmoji || !loopAnimatedStickers)
  {
    if diceIndex > 0 then true
    else if diceIndex == 0 then false
    else isEmoji || !loopAnimatedStickers
  }

  /** What one paintLottie call sees: the frame the player gave, the
      player's frame count, whether GIFs are paused, the loop setting,
      whether the player is at its end, and what markFrameShown answers. */
  datatype Frame = Frame(
    index: int,
    count: int,
    paused: bool,
    loopAnimatedStickers: bool,
    atTheEnd: bool,
    frameShown: bool)

  /** The result of one paintLottie: the new view, its signals, and whether
      markFrameShown was called on the player. */
  datatype Paint = Paint(sticker: Sticker, events: seq<Event>, marked: bool)

  /** Sticker::paintLottie, the state it updates and the signals it sends
      (drawing the frame is not modelled). */
  function PaintLottie(s: Sticker, f: Frame): (r: Paint)
    requires s.lottie.Some? || s.lastDiceFrame
    // a cached final dice frame ends all playback logic
    ensures s.lastDiceFrame || s.nextLastDiceFrame ==>
      r == Paint(s.(lastDiceFrame := true, nextLastDiceFrame := false), [], false)
    // the sticker-loop signal fires only for play-once animations, only
    // once, and sets the played flag
    ensures StartStickerLoop in r.events ==>
      && !s.lottieOncePlayed && r.sticker.lottieOncePlayed
      && PlayOnce(s.diceIndex, s.isEmoji, f.loopAnimatedStickers)
      && !f.paused && f.frameShown && r.marked
    ensures s.lottieOncePlayed ==> r.sticker.lottieOncePlayed && StartStickerLoop !in r.events
    ensures StartPremium(false) in r.events ==> !s.premiumEffectPlayed && HasPremiumEffect(s)
    ensures r.sticker.premiumEffectPlayed == (s.premiumEffectPlayed || (HasPremiumEffect(s) && !s.lastDiceFrame && !s.nextLastDiceFrame))
    // the player is only advanced while not paused
    ensures f.paused ==> !r.marked
    // a dice caches its final frame when it is two frames from the end
    ensures !s.lastDiceFrame && !s.nextLastDiceFrame ==>
      (r.sticker.nextLastDiceFrame <==> !f.paused && s.diceIndex > 0 && f.index + 2 == f.count)
    ensures forall e :: e in r.events ==> e == StartStickerLoop || e == StartPremium(false)
  {
    if s.nextLastDiceFrame || s.lastDiceFrame then
      Paint(s.(lastDiceFrame := true, nextLastDiceFrame := false), [], false)
    else PaintPlaying(s, f)
  }

  /** The part of paintLottie that runs while the player is still in use:
      advance the frame, flag a play-once loop's end, start the effect. */
  function PaintPlaying(s: Sticker, f: Frame): (r: Paint)
    requires !s.lastDiceFrame && !s.nextLastDiceFrame
    ensures r.events == [] || r.events == [StartStickerLoop] || r.events == [StartPremium(false)]
      || r.events == [StartStickerLoop, StartPremium(false)]
    ensures r.events != [] && r.events[0] == StartStickerLoop ==>
      && !s.lottieOncePlayed && r.sticker.lottieOncePlayed
      && PlayOnce(s.diceIndex, s.isEmoji, f.loopAnimatedStickers)
      && !f.paused && f.frameShown && r.marked
    ensures s.lottieOncePlayed ==> r.sticker.lottieOncePlayed
    ensures r.events != [] && r.events[|r.events| - 1] == StartPremium(false) ==>
      !s.premiumEffectPlayed && HasPremiumEffect(s)
    ensures r.sticker.premiumEffectPlayed == (s.premiumEffectPlayed || HasPremiumEffect(s))
    ensures f.paused ==> !r.marked
    ensures r.sticker.nextLastDiceFrame <==> !f.paused && s.diceIndex > 0 && f.index + 2 == f.count
    ensures !r.sticker.lastDiceFrame
    ensures r.sticker.lottie == s.lottie
  {
    var nextLast := !f.paused && s.diceIndex > 0 && f.index + 2 == f.count;
    var once := PlayOnce(s.diceIndex, s.isEmoji, f.loopAnimatedStickers);
    var lastDice := s.diceIndex > 0 && f.atTheEnd;
    var switchToNext := !once || (!lastDice && (f.index != 0 || !s.lottieOncePlayed));
    var marked := !f.paused && switchToNext;
    var loop := marked && f.frameShown && once && !s.lottieOncePlayed;
    // checkPremiumEffectStart, inlined
    var premium := !s.premiumEffectPlayed && HasPremiumEffect(s);
    var next := s.(nextLastDiceFrame := nextLast,
                   lottieOncePlayed := s.lottieOncePlayed || loop,
                   premiumEffectPlayed := s.premiumEffectPlayed || premium);
    if loop && premium then Paint(next, [StartStickerLoop, StartPremium(false)], marked)
    else if loop then Paint(next, [StartStickerLoop], marked)
    else if premium then Paint(next, [StartPremium(false)], marked)
    else Paint(next, [], marked)
  }

  /** How many times `e` occurs in `events`. */
  function Occurrences(events: seq<Event>, e: Event): nat {
    if events == [] then 0
    else (if events[0] == e then 1 else 0) + Occurrences(events[1..], e)
  }

  lemma {:induction false} OccurrencesAppend(a: seq<Event>, b: seq<Event>, e: Event)
    ensures Occurrences(a + b, e) == Occurrences(a, e) + Occurrences(b, e)
    decreases |a|
  {
    if a == [] {
      assert a + b == b;
    } else {
      assert (a + b)[1..] == a[1..] + b;
      OccurrencesAppend(a[1..], b, e);
    }
  }

  /** A run of paints, and everything they signalled. */
  function PaintRun(s: Sticker, frames: seq<Frame>): (r: Paint)
    requires s.lottie.Some?
    ensures r.sticker.lottie == s.lottie
    decreases |frames|
  {
    if frames == [] then Paint(s, [], false)
    else
      var first := PaintLottie(s, frames[0]);
      var rest := PaintRun(first.sticker, frames[1..]);
      Paint(rest.sticker, first.events + rest.events, rest.marked)
  }

  /** However many frames are painted, the sticker-loop signal and the
      premium effect each fire at most once until their flag is reset, and
      not at all when it was already set. */
  lemma {:induction false} OneShotsFireOnce(s: Sticker, frames: seq<Frame>)
    requires s.lottie.Some?
    ensures Occurrences(PaintRun(s, frames).events, StartStickerLoop) <= (if s.lottieOncePlayed then 0 else 1)
    ensures Occurrences(PaintRun(s, frames).events, StartPremium(false)) <= (if s.premiumEffectPlayed then 0 else 1)
    ensures s.lottieOncePlayed ==> PaintRun(s, frames).sticker.lottieOncePlayed
    ensures s.premiumEffectPlayed ==> PaintRun(s, frames).sticker.premiumEffectPlayed
    decreases |frames|
  {
    if frames != [] {
      var first := PaintLottie(s, frames[0]);
      var rest := PaintRun(first.sticker, frames[1..]);
      OneShotsFireOnce(first.sticker, frames[1..]);
      OccurrencesAppend(first.events, rest.events, StartStickerLoop);
      OccurrencesAppend(first.events, rest.events, StartPremium(false));
      OneEventAtMostOnce(first.events, StartStickerLoop);
      OneEventAtMostOnce(first.events, StartPremium(false));
      if StartStickerLoop in first.events {
        assert first.sticker.lottieOncePlayed;
      } else {
        NotInNoOccurrence(first.events, StartStickerLoop);
      }
      if StartPremium(false) in first.events {
        assert first.sticker.premiumEffectPlayed;
      } else {
        NotInNoOccurrence(first.events, StartPremium(false));
      }
    }
  }

  lemma OneEventAtMostOnce(events: seq<Event>, e: Event)
    requires |events| <= 2 && (|events| == 2 ==> events[0] != events[1])
    ensures Occurrences(events, e) <= 1
  {
    if |events| == 2 {
      assert events[1..][1..] == [];
      assert Occurrences(events[1..], e) == (if events[1] == e then 1 else 0);
      assert Occurrences(events, e) == (if events[0] == e then 1 else 0) + Occurrences(events[1..], e);
    } else if |events| == 1 {
      assert events[1..] == [];
      assert Occurrences(events, e) == (if events[0] == e then 1 else 0) + Occurrences(events[1..], e);
    }
  }

  lemma {:induction false} NotInNoOccurrence(events: seq<Event>, e: Event)
    requires e !in events
    ensures Occurrences(events, e) == 0
    decreases |events|
  {
    if events != [] {
      NotInNoOccurrence(events[1..], e);
    }
  }

  /** A looping animation never reports the end of a play-once loop. */
  lemma LoopingNeverSignalsLoop(s: Sticker, f: Frame)
    requires s.lottie.Some? && !PlayOnce(s.diceIndex, s.isEmoji, f.loopAnimatedStickers)
    ensures StartStickerLoop !in PaintLottie(s, f).events
    ensures !s.lastDiceFrame && !s.nextLastDiceFrame ==> PaintLottie(s, f).marked == !f.paused
  {
  }

  // ---------------------------------------------------------------- player

  /** Sticker::unloadLottie: the player is dropped; a dice that has not
      cached its final frame yet will play again, and the premium effect is
      cancelled. */
  function UnloadLottie(s: Sticker): (r: Step)
    ensures r.sticker.lottie.None?
    ensures s.lottie.None? ==> r == Step(s, [])
    ensures s.lottie.Some? && s.diceIndex > 0 && !s.lastDiceFrame ==>
      !r.sticker.nextLastDiceFrame && !r.sticker.lottieOncePlayed
    ensures !(s.lottie.Some? && s.diceIndex > 0 && !s.lastDiceFrame) ==>
      r.sticker == s.(lottie := None)
    ensures r.events == (if s.lottie.Some? && HasPremiumEffect(s) then [CancelPremium] else [])
    ensures r.sticker.premiumEffectPlayed == s.premiumEffectPlayed && r.sticker.link == s.link && r.sticker.size == s.size
  {
    if s.lottie.None? then Step(s, [])
    else
      var reset :=
        if s.diceIndex > 0 && !s.lastDiceFrame then s.(nextLastDiceFrame := false, lottieOncePlayed := false)
        else s;
      Step(reset.(lottie := None), if HasPremiumEffect(s) then [CancelPremium] else [])
  }

  /** Unloading twice is unloading once, and the second time says nothing. */
  lemma UnloadLottieIdempotent(s: Sticker)
    ensures UnloadLottie(UnloadLottie(s).sticker) == Step(UnloadLottie(s).sticker, [])
  {
  }

  /** Sticker::stickerTakeLottie: the player moves to the caller only when
      it shows the same document with the same colour replacements. */
  function TakeLottie(s: Sticker, document: Document, replacements: Option<nat>): (r: (Sticker, Option<Player>))
    ensures document.id == s.document.id && replacements == s.replacements ==>
      r.1 == s.lottie && r.0 == s.(lottie := None)
    ensures !(document.id == s.document.id && replacements == s.replacements) ==>
      r.1.None? && r.0 == s
  {
    if document.id == s.document.id && replacements == s.replacements then (s.(lottie := None), s.lottie)
    else (s, None)
  }

  /** A new Sticker view: nothing loaded, no link, no size, the one-shot
      flags clear, the dice index as set. */
  function Fresh(document: Document, replacements: Option<nat>, skipPremiumEffect: bool, isEmoji: bool, diceIndex: int): (s: Sticker)
    ensures s.lottie.None? && s.link == NoLink && s.size.IsEmpty()
    ensures !s.lottieOncePlayed && !s.premiumEffectPlayed && !s.lastDiceFrame && !s.nextLastDiceFrame
  {
    Sticker(document, replacements, skipPremiumEffect, isEmoji, diceIndex, None, false, false, false, false, NoLink, Size(0, 0))
  }

  /** The result of constructing a view in place of another: the new view,
      the replaced one afterwards, and the signals sent. */
  datatype Construction = Construction(sticker: Sticker, replaced: Option<Sticker>, events: seq<Event>)

  /** The Sticker constructor's hand-over: when the replaced view is a
      sticker holding a player for the same document and replacements, the
      new view takes the player and starts the premium effect at once. */
  function NewSticker(document: Document, replacements: Option<nat>, skipPremiumEffect: bool, isEmoji: bool,
                      diceIndex: int, replacing: Option<Sticker>): (r: Construction)
    ensures var blank := Fresh(document, replacements, skipPremiumEffect, isEmoji, diceIndex);
      r.sticker == blank.(lottie := r.sticker.lottie, premiumEffectPlayed := r.sticker.premiumEffectPlayed)
    ensures r.sticker.premiumEffectPlayed <==> r.sticker.lottie.Some? && HasPremiumEffect(r.sticker)
    ensures r.events == (if r.sticker.lottie.Some? && HasPremiumEffect(r.sticker) then [StartPremium(true)] else [])
    ensures replacing.None? ==> r.sticker.lottie.None? && r.replaced.None?
    ensures replacing.Some? ==> r.replaced.Some? && r.replaced.value == replacing.value.(lottie := r.replaced.value.lottie)
  {
    var blank := Fresh(document, replacements, skipPremiumEffect, isEmoji, diceIndex);
    if replacing.None? then Construction(blank, None, [])
    else
      var (after, taken) := TakeLottie(replacing.value, document, replacements);
      var s := blank.(lottie := taken);
      if taken.Some? && HasPremiumEffect(s) then
        Construction(s.(premiumEffectPlayed := true), Some(after), [StartPremium(true)])
      else Construction(s, Some(after), [])
  }

  /** The player is never duplicated by a hand-over: afterwards exactly the
      views that held it before hold it, one of them being the new view
      exactly when the document and replacements match. */
  lemma {:induction false} HandOverMovesPlayer(document: Document, replacements: Option<nat>, skip: bool, isEmoji: bool,
                                               dice: int, previous: Sticker)
    ensures var r := NewSticker(document, replacements, skip, isEmoji, dice, Some(previous));
      var matching := document.id == previous.document.id && replacements == previous.replacements;
      && (matching ==> r.sticker.lottie == previous.lottie && r.replaced.value.lottie.None?)
      && (!matching ==> r.sticker.lottie.None? && r.replaced.value.lottie == previous.lottie)
      && !(r.sticker.lottie.Some? && r.replaced.value.lottie.Some?)
  {
    var matching := document.id == previous.document.id && replacements == previous.replacements;
    var (after, taken) := TakeLottie(previous, document, replacements);
    assert matching ==> taken == previous.lottie && after.lottie.None?;
    assert !matching ==> taken.None? && after == previous;
  }

  // ------------------------------------------------------------------ link

  /** Sticker::refreshLink for a message that is or is not being sent and
      has or has not failed. */
  function RefreshLink(s: Sticker, sending: bool, failed: bool): (r: Sticker)
    ensures s.link != NoLink ==> r == s
    ensures s.link == NoLink ==> r == s.(link := r.link)
    ensures s.link == NoLink && s.isEmoji ==> r.link == EmojiClick
    ensures s.link == NoLink && !s.isEmoji && s.document.sticker.Some? && s.document.sticker.value.hasSet ==>
      r.link == (if HasPremiumEffect(s) then PremiumClick else ShowSet)
    ensures s.link == NoLink && r.link == OpenDocument ==>
      && !s.isEmoji && s.document.sticker.Some? && !s.document.sticker.value.hasSet
      && (s.document.dimensions.w > StickerSideSize || s.document.dimensions.h > StickerSideSize)
      && !sending && !failed
    ensures r.link == NoLink <==>
      s.link == NoLink && !s.isEmoji
      && (s.document.sticker.None?
          || (!s.document.sticker.value.hasSet
              && ((s.document.dimensions.w <= StickerSideSize && s.document.dimensions.h <= StickerSideSize) || sending || failed)))
  {
    if s.link != NoLink then s
    else if s.isEmoji then s.(link := EmojiClick)
    else if s.document.sticker.Some? && s.document.sticker.value.hasSet then
      s.(link := if HasPremiumEffect(s) then PremiumClick else ShowSet)
    else if s.document.sticker.Some?
      && (s.document.dimensions.w > StickerSideSize || s.document.dimensions.h > StickerSideSize)
      && !sending && !failed then
      s.(link := OpenDocument)
    else s
  }

  /** Once a link exists it is kept, whatever the message's state is later. */
  lemma RefreshLinkIdempotent(s: Sticker, sending: bool, failed: bool, sending2: bool, failed2: bool)
    ensures RefreshLink(RefreshLink(s, sending, failed), sending2, failed2).link == RefreshLink(s, sending, failed).link
      || RefreshLink(s, sending, failed).link == NoLink
    ensures RefreshLink(RefreshLink(s, sending, failed), sending, failed) == RefreshLink(s, sending, failed)
  {
  }
}
