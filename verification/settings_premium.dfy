/** The decisions of the Premium settings section: the feature entries and
    their ref keys, the order of the feature rows, the falling mini stars
    of the top bar, the price fallback and the subscribe bar. */
module SettingsPremium {
  import opened Common
  import opened PremiumPreviewBox

  // ---------------------------------------------------------------------
  // Feature entries and ref keys

  /** The keys of EntryMap, in the order a base::flat_map iterates them
      (ascending string order). */
  datatype EntryKey =
    | AdvancedChatManagementKey | AnimatedUserpicsKey | DoubleLimitsKey | FasterDownloadKey
    | MoreUploadKey | NoAdsKey | PremiumStickersKey | ProfileBadgeKey | UniqueReactionsKey
    | VoiceToTextKey

  /** The ref string of each key. */
  function KeyName(k: EntryKey): string {
    match k
    case AdvancedChatManagementKey => "advanced_chat_management"
    case AnimatedUserpicsKey => "animated_userpics"
    case DoubleLimitsKey => "double_limits"
    case FasterDownloadKey => "faster_download"
    case MoreUploadKey => "more_upload"
    case NoAdsKey => "no_ads"
    case PremiumStickersKey => "premium_stickers"
    case ProfileBadgeKey => "profile_badge"
    case UniqueReactionsKey => "unique_reactions"
    case VoiceToTextKey => "voice_to_text"
  }

  /** EntryMap, reduced to what the logic reads: each entry's preview
      section, None for the doubled-limits entry that has no section of its
      own. Icons, titles and descriptions are left to the view. */
  function EntrySection(k: EntryKey): Option<Section> {
    match k
    case AdvancedChatManagementKey => Some(AdvancedChatManagement)
    case AnimatedUserpicsKey => Some(AnimatedUserpics)
    case DoubleLimitsKey => None
    case FasterDownloadKey => Some(FasterDownload)
    case MoreUploadKey => Some(MoreUpload)
    case NoAdsKey => Some(NoAds)
    case PremiumStickersKey => Some(Stickers)
    case ProfileBadgeKey => Some(ProfileBadge)
    case UniqueReactionsKey => Some(Reactions)
    case VoiceToTextKey => Some(VoiceToText)
  }

  /** EntryMap's iteration order. */
  function EntryKeys(): seq<EntryKey> {
    [AdvancedChatManagementKey, AnimatedUserpicsKey, DoubleLimitsKey, FasterDownloadKey, MoreUploadKey,
     NoAdsKey, PremiumStickersKey, ProfileBadgeKey, UniqueReactionsKey, VoiceToTextKey]
  }

  /** EntryMap().find(ref): the entry whose key is the string, if any. */
  function FindKey(ref: string): (r: Option<EntryKey>)
    ensures r.Some? ==> KeyName(r.value) == ref
  {
    if ref == "advanced_chat_management" then Some(AdvancedChatManagementKey)
    else if ref == "animated_userpics" then Some(AnimatedUserpicsKey)
    else if ref == "double_limits" then Some(DoubleLimitsKey)
    else if ref == "faster_download" then Some(FasterDownloadKey)
    else if ref == "more_upload" then Some(MoreUploadKey)
    else if ref == "no_ads" then Some(NoAdsKey)
    else if ref == "premium_stickers" then Some(PremiumStickersKey)
    else if ref == "profile_badge" then Some(ProfileBadgeKey)
    else if ref == "unique_reactions" then Some(UniqueReactionsKey)
    else if ref == "voice_to_text" then Some(VoiceToTextKey)
    else None
  }

  /** Every key's name finds that key back, so no two keys share a name,
      and a string that finds nothing is no key's name. */
  lemma FindKeyInverse(k: EntryKey, ref: string)
    ensures FindKey(KeyName(k)) == Some(k)
    ensures FindKey(ref).None? ==> ref != KeyName(k)
  {
    match k
    case AdvancedChatManagementKey =>
    case AnimatedUserpicsKey =>
    case DoubleLimitsKey =>
    case FasterDownloadKey =>
    case MoreUploadKey =>
    case NoAdsKey =>
    case PremiumStickersKey =>
    case ProfileBadgeKey =>
    case UniqueReactionsKey =>
    case VoiceToTextKey =>
  }

  /** FallbackOrder: the row order used when the server sends none. */
  function FallbackOrder(): seq<string> {
    ["double_limits", "more_upload", "faster_download", "voice_to_text", "no_ads",
     "unique_reactions", "premium_stickers", "advanced_chat_management", "profile_badge", "animated_userpics"]
  }

  function FallbackKeys(): seq<EntryKey> {
    [DoubleLimitsKey, MoreUploadKey, FasterDownloadKey, VoiceToTextKey, NoAdsKey,
     UniqueReactionsKey, PremiumStickersKey, AdvancedChatManagementKey, ProfileBadgeKey, AnimatedUserpicsKey]
  }

  /** Where a key sits in the fallback order. */
  function FallbackIndex(k: EntryKey): (i: int)
    ensures 0 <= i < |FallbackKeys()| && FallbackKeys()[i] == k
  {
    match k
    case DoubleLimitsKey => 0
    case MoreUploadKey => 1
    case FasterDownloadKey => 2
    case VoiceToTextKey => 3
    case NoAdsKey => 4
    case UniqueReactionsKey => 5
    case PremiumStickersKey => 6
    case AdvancedChatManagementKey => 7
    case ProfileBadgeKey => 8
    case AnimatedUserpicsKey => 9
  }

  /** Each position of the fallback order holds the name of the key at the
      same position, and that key sits nowhere else. */
  lemma FallbackAt(i: int)
    requires 0 <= i < 10
    ensures |FallbackOrder()| == |FallbackKeys()| == 10
    ensures FallbackOrder()[i] == KeyName(FallbackKeys()[i])
    ensures FallbackIndex(FallbackKeys()[i]) == i
  {
  }

  /** The fallback order names each of the ten entries exactly once. */
  lemma FallbackOrderListsEveryEntry(k: EntryKey)
    ensures |FallbackOrder()| == 10
    ensures forall i :: 0 <= i < 10 ==> FindKey(FallbackOrder()[i]).Some?
    ensures forall i, j :: 0 <= i < j < 10 ==> FallbackOrder()[i] != FallbackOrder()[j]
    ensures KeyName(k) in FallbackOrder()
  {
    FallbackAt(0);
    forall i | 0 <= i < 10 ensures FindKey(FallbackOrder()[i]).Some? {
      FallbackAt(i);
      FindKeyInverse(FallbackKeys()[i], "");
    }
    forall i, j | 0 <= i < j < 10 ensures FallbackOrder()[i] != FallbackOrder()[j] {
      FallbackAt(i);
      FallbackAt(j);
      FindKeyInverse(FallbackKeys()[i], "");
      FindKeyInverse(FallbackKeys()[j], "");
    }
    FallbackAt(FallbackIndex(k));
  }

  /** ResolveRef: an empty ref stands for the settings section. */
  function ResolveRef(ref: string): (r: string)
    ensures |r| > 0
    ensures ref != "" ==> r == ref
    ensures ref == "" ==> r == "settings"
  {
    if ref == "" then "settings" else ref
  }

  /** The ref the section keeps and sends with its statistics: two origins
      are reported alike only when they are the same, or when one is the
      empty ref and the other the settings section it stands for. */
  lemma ResolveRefMergesOnlySettings(a: string, b: string)
    ensures ResolveRef(a) == ResolveRef(b) <==>
      a == b || (a == "" && b == "settings") || (a == "settings" && b == "")
  {
  }

  /** The scan of LookupPremiumRef: the first key in iteration order whose
      entry has the section, as its ref string, or the empty string. */
  function FirstRefFor(keys: seq<EntryKey>, section: Section): (r: string)
    ensures r == "" <==> forall i :: 0 <= i < |keys| ==> EntrySection(keys[i]) != Some(section)
    ensures r != "" ==> exists i :: 0 <= i < |keys| && EntrySection(keys[i]) == Some(section) && KeyName(keys[i]) == r
    decreases |keys|
  {
    if keys == [] then ""
    else if EntrySection(keys[0]) == Some(section) then KeyName(keys[0])
    else FirstRefFor(keys[1..], section)
  }

  /** LookupPremiumRef. */
  function LookupPremiumRef(section: Section): string {
    FirstRefFor(EntryKeys(), section)
  }

  /** The entry that opens each preview section. */
  function SectionKey(section: Section): (k: EntryKey)
    ensures EntrySection(k) == Some(section)
  {
    match section
    case MoreUpload => MoreUploadKey
    case FasterDownload => FasterDownloadKey
    case VoiceToText => VoiceToTextKey
    case NoAds => NoAdsKey
    case Reactions => UniqueReactionsKey
    case Stickers => PremiumStickersKey
    case AdvancedChatManagement => AdvancedChatManagementKey
    case ProfileBadge => ProfileBadgeKey
    case AnimatedUserpics => AnimatedUserpicsKey
  }

  /** No two entries open the same section. */
  lemma EntrySectionInjective(a: EntryKey, b: EntryKey)
    requires EntrySection(a).Some? && EntrySection(a) == EntrySection(b)
    ensures a == b
  {
  }

  /** LookupPremiumRef names the section's own entry. */
  lemma LookupNamesSectionKey(section: Section)
    ensures LookupPremiumRef(section) == KeyName(SectionKey(section))
  {
    var key := SectionKey(section);
    var keys := EntryKeys();
    assert key in keys;
    var i :| 0 <= i < |keys| && EntrySection(keys[i]) == Some(section) && KeyName(keys[i]) == LookupPremiumRef(section);
    EntrySectionInjective(keys[i], key);
  }

  /** Every section has exactly one entry, LookupPremiumRef names it, and
      the name is never the doubled-limits key, which has no section. */
  lemma LookupPremiumRefInverse(section: Section, k: EntryKey)
    ensures FindKey(LookupPremiumRef(section)) == Some(SectionKey(section))
    ensures EntrySection(k) == Some(section) ==> KeyName(k) == LookupPremiumRef(section)
    ensures LookupPremiumRef(section) != "double_limits"
  {
    var key := SectionKey(section);
    LookupNamesSectionKey(section);
    if EntrySection(k) == Some(section) {
      EntrySectionInjective(k, key);
    }
    FindKeyInverse(key, "");
    FindKeyInverse(DoubleLimitsKey, "");
  }

  // ---------------------------------------------------------------------
  // Feature rows

  /** The feature rows: the configured order of keys (premium_promo_order,
      or the fallback order), skipping keys that have no entry. */
  function FeatureRows(order: seq<string>): (r: seq<EntryKey>)
    ensures |r| <= |order|
    ensures forall k :: 0 <= k < |r| ==> exists i :: 0 <= i < |order| && FindKey(order[i]) == Some(r[k])
    decreases |order|
  {
    if order == [] then []
    else
      var rest := FeatureRows(order[1..]);
      match FindKey(order[0])
      case Some(key) => [key] + rest
      case None => rest
  }

  /** Rows keep the configured order: the rows of two lists one after the
      other are the rows of each, one after the other. */
  lemma {:induction false} FeatureRowsAppend(a: seq<string>, b: seq<string>)
    ensures FeatureRows(a + b) == FeatureRows(a) + FeatureRows(b)
    decreases |a|
  {
    if a == [] {
      assert a + b == b;
    } else {
      assert (a + b)[1..] == a[1..] + b;
      FeatureRowsAppend(a[1..], b);
    }
  }

  /** A key the entries know gives one row, any other key none. */
  lemma FeatureRowsSingle(key: string)
    ensures FindKey(key).Some? ==> FeatureRows([key]) == [FindKey(key).value]
    ensures FindKey(key).None? ==> FeatureRows([key]) == []
  {
    assert [key][1..] == [];
  }

  /** Every key the entries know, wherever it appears in the order, gets
      its row. */
  lemma {:induction false} FeatureRowsKeepKnownKeys(order: seq<string>, i: int)
    requires 0 <= i < |order| && FindKey(order[i]).Some?
    ensures FindKey(order[i]).value in FeatureRows(order)
    decreases |order|
  {
    if i > 0 {
      FeatureRowsKeepKnownKeys(order[1..], i - 1);
    }
  }

  /** The names of a list of entries, in order. */
  function Names(keys: seq<EntryKey>): (r: seq<string>)
    ensures |r| == |keys|
    ensures forall i :: 0 <= i < |keys| ==> r[i] == KeyName(keys[i])
  {
    seq(|keys|, i requires 0 <= i < |keys| => KeyName(keys[i]))
  }

  /** Listing entries by name gives one row per entry, in that order. */
  lemma {:induction false} FeatureRowsOfNames(keys: seq<EntryKey>)
    ensures FeatureRows(Names(keys)) == keys
    decreases |keys|
  {
    if keys != [] {
      assert Names(keys)[1..] == Names(keys[1..]);
      FeatureRowsOfNames(keys[1..]);
      FindKeyInverse(keys[0], "");
    }
  }

  /** With the fallback order every entry gets a row, in that order. */
  lemma FallbackRows()
    ensures FeatureRows(FallbackOrder()) == FallbackKeys()
  {
    assert FallbackOrder() == Names(FallbackKeys());
    FeatureRowsOfNames(FallbackKeys());
  }

  /** What clicking a feature row opens. */
  datatype ClickAction =
    | PreviewToBuy(section: Section)
    // the doubled-limits box, with a close button for premium users and
    // otherwise a subscribe button whose ref is given
    | DoubledLimits(subscribeRef: Option<string>)

  /** The row's click handler. It also pauses the stars and the glare; see
      PausedAfterHide for when they resume. */
  function RowClick(key: EntryKey, premium: bool): (a: ClickAction)
    ensures a.PreviewToBuy? <==> key != DoubleLimitsKey
    ensures a.PreviewToBuy? ==> EntrySection(key) == Some(a.section)
    ensures a.DoubledLimits? ==> (a.subscribeRef.Some? <==> !premium)
    ensures a.DoubledLimits? && !premium ==> FindKey(a.subscribeRef.value) == Some(key)
  {
    match EntrySection(key)
    case Some(section) => PreviewToBuy(section)
    case None => DoubledLimits(if premium then None else Some("double_limits"))
  }

  /** Whether the stars and the subscribe button's glare are still paused
      once the box a click opened has been hidden. The click pauses them and
      only the `hidden` callback resumes them.
      - The section preview gets the callback in its descriptor. But where
        premium is not possible, ShowDescriptor shows the unavailable box
        and drops the descriptor, so the callback never runs.
      - The doubled-limits box calls it from boxClosing, but only when it
        carries a subscribe button, so a premium user's box leaves them
        paused. */
  function PausedAfterHide(a: ClickAction, premiumPossible: bool): bool
  {
    match a
    case PreviewToBuy(_) => !premiumPossible
    case DoubledLimits(subscribeRef) => subscribeRef.None?
  }

  /** After the box a row opened is hidden, the stars stay paused exactly
      when a premium user opened the doubled-limits box, or a section row
      was clicked while premium is not possible. */
  lemma StaysPausedAfterHide(key: EntryKey, premium: bool, premiumPossible: bool)
    ensures PausedAfterHide(RowClick(key, premium), premiumPossible) <==>
      (key == DoubleLimitsKey && premium) || (key != DoubleLimitsKey && !premiumPossible)
  {
    if key == DoubleLimitsKey {
      assert RowClick(key, premium).DoubledLimits?;
    } else {
      assert RowClick(key, premium).PreviewToBuy?;
    }
  }

  /** The row of the entry LookupPremiumRef names for a section opens
      that section's preview. */
  lemma RowClickRoundTrip(section: Section, premium: bool)
    ensures RowClick(SectionKey(section), premium) == PreviewToBuy(section)
  {
    assert SectionKey(section) != DoubleLimitsKey;
  }

  // ---------------------------------------------------------------------
  // Mini stars

  /** MiniStars::Interval: the values from, from + 1, ..., from + length - 1. */
  datatype Interval = Interval(from: int, length: int)

  const LifeLength: Interval := Interval(150, 200)
  const DeathTime: Interval := Interval(1500, 2000)
  const StarSize: Interval := Interval(10, 20)
  const StarAlpha: Interval := Interval(40, 60)
  const SinFactor: Interval := Interval(10, 190)

  /** The four angle ranges a star may fly along. */
  function AvailableAngles(): seq<Interval> {
    [Interval(-10, 40), Interval(180 + 10 - 40, 40), Interval(180 + 15, 50), Interval(-15 - 50, 50)]
  }

  /** randomInterval, with base::RandomIndex(length) given as `random`,
      which base::RandomIndex draws from [0, length). */
  function RandomInterval(interval: Interval, random: int): (r: int)
    requires 0 <= random < interval.length
    ensures interval.from <= r < interval.from + interval.length
    ensures r - interval.from == random
  {
    interval.from + random
  }

  /** MiniStar with its fractions kept in hundredths: alpha and sinFactor
      are the drawn percentages (sinFactor signed). */
  datatype MiniStar = MiniStar(birthTime: int, deathTime: int, angle: int, size: int, alphaPercent: int, sinFactorPercent: int)

  /** The random indexes createStar draws. */
  datatype StarDraws = StarDraws(death: int, angleRange: int, angle: int, size: int, alpha: int, sinFactor: int, negative: bool)

  predicate ValidDraws(d: StarDraws) {
    && 0 <= d.death < DeathTime.length
    && 0 <= d.angleRange < |AvailableAngles()|
    && 0 <= d.angle < AvailableAngles()[d.angleRange].length
    && 0 <= d.size < StarSize.length
    && 0 <= d.alpha < StarAlpha.length
    && 0 <= d.sinFactor < SinFactor.length
  }

  /** An angle inside one of the available ranges. */
  predicate AngleAvailable(angle: int) {
    exists k :: 0 <= k < |AvailableAngles()|
      && AvailableAngles()[k].from <= angle < AvailableAngles()[k].from + AvailableAngles()[k].length
  }

  /** The star createStar makes at `now`. */
  function NewStar(now: int, d: StarDraws): (star: MiniStar)
    requires ValidDraws(d)
    ensures star.birthTime == now
    ensures now + 1500 <= star.deathTime < now + 3500
    ensures AngleAvailable(star.angle)
    ensures 10 <= star.size < 30 && 40 <= star.alphaPercent < 100
    ensures 10 <= Abs(star.sinFactorPercent) < 200
  {
    var range := AvailableAngles()[d.angleRange];
    var sin := RandomInterval(SinFactor, d.sinFactor);
    MiniStar(now, now + RandomInterval(DeathTime, d.death), d.angle + range.from,
      RandomInterval(StarSize, d.size), RandomInterval(StarAlpha, d.alpha), if d.negative then -sin else sin)
  }

  /** Reference definition: the first star already dead at `birth`, or
      the number of stars. */
  function FirstDead(stars: seq<MiniStar>, birth: int): (i: int)
    ensures 0 <= i <= |stars|
    ensures forall k :: 0 <= k < i ==> birth <= stars[k].deathTime
    ensures i < |stars| ==> birth > stars[i].deathTime
    decreases |stars|
  {
    if stars == [] then 0
    else if birth > stars[0].deathTime then 0
    else 1 + FirstDead(stars[1..], birth)
  }

  /** Where createStar puts a new star: in the place of the first star
      already dead at its birth, or at the end. No star still alive is
      ever replaced, and the list grows only when none is dead. */
  function PlaceStar(stars: seq<MiniStar>, star: MiniStar): (r: seq<MiniStar>)
    ensures |stars| <= |r| <= |stars| + 1
    ensures star in r
    ensures forall k :: 0 <= k < |stars| && star.birthTime <= stars[k].deathTime ==> r[k] == stars[k]
    ensures |r| == |stars| + 1 <==> forall k :: 0 <= k < |stars| ==> star.birthTime <= stars[k].deathTime
  {
    var i := FirstDead(stars, star.birthTime);
    if i < |stars| then
      assert stars[i := star][i] == star;
      stars[i := star]
    else
      assert (stars + [star])[|stars|] == star;
      stars + [star]
  }

  /** createStar's scan over the stars, stopping at the first dead one. */
  method CreateStar(stars: seq<MiniStar>, star: MiniStar) returns (r: seq<MiniStar>)
    ensures r == PlaceStar(stars, star)
  {
    var i := 0;
    while i < |stars|
      invariant 0 <= i <= |stars|
      invariant forall k :: 0 <= k < i ==> star.birthTime <= stars[k].deathTime
    {
      if star.birthTime > stars[i].deathTime {
        FirstDeadIs(stars, star.birthTime, i);
        r := stars[i := star];
        return;
      }
      i := i + 1;
    }
    FirstDeadIs(stars, star.birthTime, |stars|);
    r := stars + [star];
  }

  /** The first dead star is the one a scan stops at. */
  lemma FirstDeadIs(stars: seq<MiniStar>, birth: int, i: int)
    requires 0 <= i <= |stars|
    requires forall k :: 0 <= k < i ==> birth <= stars[k].deathTime
    requires i < |stars| ==> birth > stars[i].deathTime
    ensures FirstDead(stars, birth) == i
  {
  }

  /** The stars' animation state. */
  datatype Stars = Stars(stars: seq<MiniStar>, nextBirthTime: int, paused: bool)

  /** The animation callback at `now`: when the next birth time has passed
      and the stars are not paused, one star is created and the next birth
      is scheduled 150 to 349 ms later. */
  function Tick(s: Stars, now: int, draws: StarDraws, life: int): (r: Stars)
    requires ValidDraws(draws) && 0 <= life < LifeLength.length
    ensures r.paused == s.paused
    ensures !(now > s.nextBirthTime && !s.paused) ==> r == s
    ensures now > s.nextBirthTime && !s.paused ==>
      && |s.stars| <= |r.stars| <= |s.stars| + 1
      && NewStar(now, draws) in r.stars
      && now + 150 <= r.nextBirthTime < now + 350
  {
    if now > s.nextBirthTime && !s.paused then
      Stars(PlaceStar(s.stars, NewStar(now, draws)), now + RandomInterval(LifeLength, life), s.paused)
    else s
  }

  /** One animation callback: its time and the random draws it would use. */
  datatype TickInput = TickInput(now: nat, draws: StarDraws, life: int)

  predicate ValidTick(t: TickInput) {
    ValidDraws(t.draws) && 0 <= t.life < LifeLength.length
  }

  lemma TailValid(ticks: seq<TickInput>)
    requires ticks != [] && forall i :: 0 <= i < |ticks| ==> ValidTick(ticks[i])
    ensures ValidTick(ticks[0])
    ensures forall i :: 0 <= i < |ticks[1..]| ==> ValidTick(ticks[1..][i])
  {
    forall i | 0 <= i < |ticks[1..]| ensures ValidTick(ticks[1..][i]) {
      assert ticks[1..][i] == ticks[i + 1];
    }
  }

  /** A run of callbacks: the final state, and the birth times of the stars
      it created, in order. */
  function Run(s: Stars, ticks: seq<TickInput>): (Stars, seq<int>)
    requires forall i :: 0 <= i < |ticks| ==> ValidTick(ticks[i])
    decreases |ticks|
  {
    if ticks == [] then (s, [])
    else
      TailValid(ticks);
      var t := ticks[0];
      var born := t.now > s.nextBirthTime && !s.paused;
      var rest := Run(Tick(s, t.now, t.draws, t.life), ticks[1..]);
      (rest.0, if born then [t.now] + rest.1 else rest.1)
  }

  /** However the callbacks fall, paused stars are never born, births come
      after the scheduled time, the schedule only moves forward and stays
      150 ms past the last birth, and each birth adds at most one star. */
  lemma {:induction false} RunKeepsSchedule(s: Stars, ticks: seq<TickInput>)
    requires forall i :: 0 <= i < |ticks| ==> ValidTick(ticks[i])
    ensures var (r, births) := Run(s, ticks);
      && r.nextBirthTime >= s.nextBirthTime
      && (s.paused ==> births == [] && r == s)
      && (births != [] ==> births[0] > s.nextBirthTime && r.nextBirthTime >= births[|births| - 1] + 150)
      && |s.stars| <= |r.stars| <= |s.stars| + |births|
    decreases |ticks|
  {
    if ticks != [] {
      TailValid(ticks);
      var t := ticks[0];
      var next := Tick(s, t.now, t.draws, t.life);
      RunKeepsSchedule(next, ticks[1..]);
      var rest := Run(next, ticks[1..]);
      if t.now > s.nextBirthTime && !s.paused {
        assert Run(s, ticks) == (rest.0, [t.now] + rest.1);
      } else {
        assert Run(s, ticks) == (rest.0, rest.1);
      }
    }
  }

  /** However the callbacks fall, consecutive stars are born more than
      150 ms apart. */
  lemma {:induction false} RunSpacesBirths(s: Stars, ticks: seq<TickInput>)
    requires forall i :: 0 <= i < |ticks| ==> ValidTick(ticks[i])
    ensures var births := Run(s, ticks).1;
      forall i :: 0 <= i < |births| - 1 ==> births[i] + 150 < births[i + 1]
    decreases |ticks|
  {
    if ticks != [] {
      TailValid(ticks);
      var t := ticks[0];
      var next := Tick(s, t.now, t.draws, t.life);
      RunSpacesBirths(next, ticks[1..]);
      var rest := Run(next, ticks[1..]).1;
      if t.now > s.nextBirthTime && !s.paused {
        RunKeepsSchedule(next, ticks[1..]);
        var births := [t.now] + rest;
        assert Run(s, ticks).1 == births;
        forall i | 0 <= i < |births| - 1 ensures births[i] + 150 < births[i + 1] {
          assert births[i + 1] == rest[i];
          if i > 0 {
            assert births[i] == rest[i - 1];
          }
        }
      } else {
        assert Run(s, ticks).1 == rest;
      }
    }
  }

  // ---------------------------------------------------------------------
  // Price and subscribe bar

  /** computeCost's fallback: the monthly price is shown as is only when
      it is positive and has a currency, otherwise as 500 USD. */
  function Cost(amount: int, currency: string): (r: (int, string))
    ensures r.0 > 0 && r.1 != ""
    ensures amount > 0 && currency != "" ==> r == (amount, currency)
    ensures !(amount > 0 && currency != "") ==> r == (500, "USD")
  {
    var valid := amount > 0 && currency != "";
    (if valid then amount else 500, if valid then currency else "USD")
  }

  /** The button shows the server's price exactly when the server gave a
      usable one, and the same 500 USD for every unusable one. */
  lemma CostShowsServerPriceIffValid(amount: int, currency: string, other: int, otherCurrency: string)
    ensures Cost(amount, currency) == (amount, currency) <==> amount > 0 && currency != ""
    ensures !(amount > 0 && currency != "") && !(other > 0 && otherCurrency != "") ==>
      Cost(amount, currency) == Cost(other, otherCurrency)
  {
  }

  /** The subscribe bar's height and visibility, and where its button is
      moved to inside it. */
  datatype BottomBar = BottomBar(height: int, visible: bool, buttonLeft: int, buttonTop: int)

  /** The subscribe bar: shown, with its padded button height, only to users
      who could buy premium and have not; the button sits at the padding. */
  function SubscribeBar(buttonHeight: int, paddingLeft: int, paddingTop: int, paddingBottom: int,
                        premium: bool, premiumPossible: bool): (r: BottomBar)
    ensures r.visible <==> premiumPossible && !premium
    ensures !r.visible ==> r.height == 0
    ensures r.visible ==> r.height == paddingTop + buttonHeight + paddingBottom
    ensures r.buttonLeft == paddingLeft && r.buttonTop == paddingTop
  {
    var height := if !premiumPossible then 0 else if !premium then paddingTop + buttonHeight + paddingBottom else 0;
    BottomBar(height, !premium && premiumPossible, paddingLeft, paddingTop)
  }

  /** Laid out with non-negative paddings, a shown button lies wholly inside
      the bar, which is exactly as tall as the padded button; a hidden bar
      takes no room, so becoming premium frees the space. */
  lemma SubscribeButtonInsideBar(buttonHeight: int, paddingLeft: int, paddingTop: int, paddingBottom: int,
                                 premium: bool, premiumPossible: bool)
    requires buttonHeight >= 0 && paddingTop >= 0 && paddingBottom >= 0
    ensures var bar := SubscribeBar(buttonHeight, paddingLeft, paddingTop, paddingBottom, premium, premiumPossible);
      && (bar.visible ==> 0 <= bar.buttonTop && bar.buttonTop + buttonHeight + paddingBottom == bar.height)
      && (buttonHeight > 0 ==> (bar.visible <==> bar.height > 0))
      && SubscribeBar(buttonHeight, paddingLeft, paddingTop, paddingBottom, true, premiumPossible).height == 0
  {
  }
}
