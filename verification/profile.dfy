/**
 * The profile page's classifiers and badge arithmetic: the icon and colour
 * for a mood value, the icon for an activity title, the badge classes and
 * icon for a time of day, the overall badge percentage, the preview of
 * locked badges, and which of the three views the page shows. The icons are
 * named; their size classes are presentation and are not modelled.
 */
module Profile {
  import opened Options
  import opened Mood
  import Percent
  import Text
  import MoodPage

  datatype Icon = Frown | Meh | Smile | ActivityIcon | Heart | BookOpen | Users | Star | Sunrise | Sun | Moon

  // ---------------------------------------------------------------------------
  // Mood icon

  /** An icon with the text colour class it is drawn in. */
  datatype Glyph = Glyph(icon: Icon, color: string)

  const DefaultMoodGlyph: Glyph := Glyph(Meh, "text-gray-400")

  /**
   * `getMoodIcon`: the switch compares with `===`, so only the numbers 1 to 5
   * select a face; `None` stands for any value that is not an integer number.
   */
  function MoodGlyph(mood: Option<int>): (g: Glyph)
    ensures g.icon == Frown <==> mood == Some(1) || mood == Some(2)
    ensures g.icon == Smile <==> mood == Some(4) || mood == Some(5)
    ensures g.icon == Meh <==> !(mood.Some? && 1 <= mood.value <= 5) || mood == Some(3)
    ensures !(mood.Some? && 1 <= mood.value <= 5) ==> g == DefaultMoodGlyph
  {
    match mood
    case Some(1) => Glyph(Frown, "text-blue-400")
    case Some(2) => Glyph(Frown, "text-indigo-400")
    case Some(3) => Glyph(Meh, "text-gray-500")
    case Some(4) => Glyph(Smile, "text-green-500")
    case Some(5) => Glyph(Smile, "text-yellow-400")
    case _ => DefaultMoodGlyph
  }

  /** The five moods get five different glyphs, none of them the default one. */
  lemma MoodGlyphsDistinct(a: int, b: int)
    requires 1 <= a <= 5 && 1 <= b <= 5
    ensures MoodGlyph(Some(a)) == MoodGlyph(Some(b)) <==> a == b
    ensures MoodGlyph(Some(a)) != DefaultMoodGlyph
  {
    var ga, gb := MoodGlyph(Some(a)), MoodGlyph(Some(b));
    if a != b && ga.icon == gb.icon {
      assert ga.color[5] != gb.color[5];
    }
    if a == 3 {
      assert ga.color[10] != DefaultMoodGlyph.color[10];
    }
  }

  /** Every mood the check-in screens store shows a face of its own. */
  lemma StoredMoodsHaveOwnGlyph(k: MoodKey)
    ensures MoodGlyph(Some(MoodPage.CodeOfMood(k))) != DefaultMoodGlyph
  {
    MoodGlyphsDistinct(MoodPage.CodeOfMood(k), MoodPage.CodeOfMood(k));
  }

  // ---------------------------------------------------------------------------
  // Activity icon

  /** `title.toLowerCase().includes(word)`. */
  predicate Mentions(title: string, word: string) {
    Text.Contains(Text.ToLower(title), word)
  }

  /**
   * `getActivityIcon`: the first matching group wins, in the order exercise,
   * meditation, journal, social; a title matching none gets a star.
   */
  function ActivityGlyph(title: string): (icon: Icon)
    ensures icon in {ActivityIcon, Heart, BookOpen, Users, Star}
    ensures icon == ActivityIcon <==> Mentions(title, "exercise") || Mentions(title, "workout")
    ensures icon == Heart <==>
      !(Mentions(title, "exercise") || Mentions(title, "workout"))
      && (Mentions(title, "meditation") || Mentions(title, "mindful"))
    ensures icon == BookOpen <==>
      !(Mentions(title, "exercise") || Mentions(title, "workout"))
      && !(Mentions(title, "meditation") || Mentions(title, "mindful"))
      && (Mentions(title, "journal") || Mentions(title, "write"))
    ensures icon == Star <==>
      !Mentions(title, "exercise") && !Mentions(title, "workout")
      && !Mentions(title, "meditation") && !Mentions(title, "mindful")
      && !Mentions(title, "journal") && !Mentions(title, "write")
      && !Mentions(title, "social") && !Mentions(title, "friend")
  {
    if Mentions(title, "exercise") || Mentions(title, "workout") then ActivityIcon
    else if Mentions(title, "meditation") || Mentions(title, "mindful") then Heart
    else if Mentions(title, "journal") || Mentions(title, "write") then BookOpen
    else if Mentions(title, "social") || Mentions(title, "friend") then Users
    else Star
  }

  /** The classification ignores the case of ASCII letters. */
  lemma ActivityGlyphIgnoresCase(title: string)
    ensures ActivityGlyph(Text.ToLower(title)) == ActivityGlyph(title)
  {
    Text.ToLowerIdempotent(title);
  }

  /** A title mentioning a keyword at any position gets at least that keyword's priority. */
  lemma KeywordAnywhere(title: string, k: int)
    requires Text.OccursAt(Text.ToLower(title), "journal", k)
    ensures ActivityGlyph(title) in {ActivityIcon, Heart, BookOpen}
  {
    Text.ContainsIff(Text.ToLower(title), "journal");
  }

  // ---------------------------------------------------------------------------
  // Time-of-day badge

  /** The colour family of a time-of-day badge: one per time of day, grey for anything else. */
  datatype Hue = Yellow | Orange | Purple | Grey

  /** The Tailwind colour name of a hue. */
  function ColourName(h: Hue): (name: string)
    ensures |name| > 0
  {
    match h
    case Yellow => "yellow"
    case Orange => "orange"
    case Purple => "purple"
    case Grey => "gray"
  }

  /** Different hues have colour names with different first letters. */
  lemma ColourNamesDiffer(a: Hue, b: Hue)
    ensures ColourName(a)[0] == ColourName(b)[0] <==> a == b
  {
  }

  function HueOf(time: string): (h: Hue)
    ensures h == Yellow <==> time == "morning"
    ensures h == Orange <==> time == "afternoon"
    ensures h == Purple <==> time == "evening"
  {
    if time == "morning" then Yellow
    else if time == "afternoon" then Orange
    else if time == "evening" then Purple
    else Grey
  }

  lemma SuffixOfAppend(a: string, b: string)
    ensures (a + b)[|a|..] == b
  {
  }

  /** The light palette, `bg-<colour>-100 text-<colour>-800`: pale background, text in shade 800. */
  function LightClasses(h: Hue): (classes: string)
    ensures |classes| > 3 && classes[3] == ColourName(h)[0]
    ensures classes[|classes| - 3..] == "800"
  {
    var front := "bg-" + ColourName(h) + "-100 text-" + ColourName(h) + "-";
    SuffixOfAppend(front, "800");
    front + "800"
  }

  /**
   * The dark palette, `bg-<colour>-900/30 text-<colour>-300` and for grey
   * `bg-gray-700 text-gray-300`: dark background, text in shade 300.
   */
  function DarkClasses(h: Hue): (classes: string)
    ensures |classes| > 3 && classes[3] == ColourName(h)[0]
    ensures classes[|classes| - 3..] == "300"
  {
    var background := if h == Grey then "bg-gray-700" else "bg-" + ColourName(h) + "-900/30";
    var front := background + " text-" + ColourName(h) + "-";
    SuffixOfAppend(front, "300");
    front + "300"
  }

  /** Each palette gives its four hues four different class strings. */
  lemma PalettesDistinct(a: Hue, b: Hue)
    ensures LightClasses(a) == LightClasses(b) <==> a == b
    ensures DarkClasses(a) == DarkClasses(b) <==> a == b
  {
    if a != b {
      ColourNamesDiffer(a, b);
      assert LightClasses(a)[3] != LightClasses(b)[3];
      assert DarkClasses(a)[3] != DarkClasses(b)[3];
    }
  }

  /**
   * `getTimeBadgeClasses`: the light palette only for the theme "light",
   * the dark palette for every other theme.
   */
  function TimeBadgeClasses(theme: string, time: string): (classes: string)
    ensures |classes| >= 3 && classes[|classes| - 3..] == if theme == "light" then "800" else "300"
  {
    if theme == "light" then LightClasses(HueOf(time)) else DarkClasses(HueOf(time))
  }

  /** The three time names select the three coloured hues, one each. */
  lemma HueOfTimeName(a: TimeOfDay, b: TimeOfDay)
    ensures HueOf(TimeName(a)) != Grey
    ensures HueOf(TimeName(a)) == HueOf(TimeName(b)) <==> a == b
  {
    TimeNamesDistinct(a, b);
  }

  /** Within one theme the three times of day get three different badges. */
  lemma TimeBadgesDistinct(theme: string, a: TimeOfDay, b: TimeOfDay)
    ensures TimeBadgeClasses(theme, TimeName(a)) == TimeBadgeClasses(theme, TimeName(b)) <==> a == b
  {
    HueOfTimeName(a, b);
    PalettesDistinct(HueOf(TimeName(a)), HueOf(TimeName(b)));
  }

  /** Every other time string gets the grey badge, which no time of day gets. */
  lemma UnknownTimeIsGrey(theme: string, a: TimeOfDay, unknown: string)
    requires unknown != "morning" && unknown != "afternoon" && unknown != "evening"
    ensures HueOf(unknown) == Grey
    ensures TimeBadgeClasses(theme, TimeName(a)) != TimeBadgeClasses(theme, unknown)
  {
    HueOfTimeName(a, a);
    PalettesDistinct(HueOf(TimeName(a)), Grey);
  }

  /** A light-themed badge never equals a badge of any other theme, whatever the times. */
  lemma ThemesNeverShareBadge(theme: string, other: string, s: string, t: string)
    requires theme == "light" && other != "light"
    ensures TimeBadgeClasses(theme, s) != TimeBadgeClasses(other, t)
  {
    var cs, ct := TimeBadgeClasses(theme, s), TimeBadgeClasses(other, t);
    assert cs[|cs| - 3..] != ct[|ct| - 3..];
  }

  /** `getTimeIcon`: sunrise for the morning, sun for the afternoon, moon for anything else. */
  function TimeIcon(time: string): (icon: Icon)
    ensures icon in {Sunrise, Sun, Moon}
    ensures icon == Sunrise <==> time == "morning"
    ensures icon == Sun <==> time == "afternoon"
  {
    if time == "morning" then Sunrise
    else if time == "afternoon" then Sun
    else Moon
  }

  /** A mood logged at local hour `h` shows the icon of that hour's part of the day. */
  lemma TimeIconOfHour(h: int)
    ensures var icon := TimeIcon(TimeName(MoodPage.TimeOfHour(h)));
      && (icon == Sunrise <==> 5 <= h <= 11)
      && (icon == Sun <==> 12 <= h <= 17)
      && (icon == Moon <==> h < 5 || h > 17)
  {
    var t := MoodPage.TimeOfHour(h);
    TimeNamesDistinct(t, Morning);
    TimeNamesDistinct(t, Afternoon);
  }

  // ---------------------------------------------------------------------------
  // Badges

  /**
   * The overall progress: `round(100 * unlocked / total)`. With no badges
   * available the division yields no number (`NaN` or `Infinity`), `None` here.
   */
  function BadgePercent(unlocked: nat, total: nat): (p: Option<int>)
    ensures p.None? <==> total == 0
    ensures p.Some? ==> 2 * total * p.value <= 200 * unlocked + total < 2 * total * (p.value + 1)
  {
    if total == 0 then None else Some(Percent.RoundPercent(unlocked, total))
  }

  /** With no more unlocked than available badges the percentage lies in 0..100, and reaches 100 only when all are unlocked. */
  lemma BadgePercentRange(unlocked: nat, total: nat)
    requires 0 < total && unlocked <= total
    ensures 0 <= BadgePercent(unlocked, total).value <= 100
    ensures unlocked == total ==> BadgePercent(unlocked, total).value == 100
    ensures unlocked == 0 ==> BadgePercent(unlocked, total).value == 0
  {
    Percent.RoundPercentRange(unlocked, total);
    Percent.RoundPercentAll(total);
    Percent.RoundPercentNone(total);
  }

  /** The locked-badge card: the first three badges, and a count of the rest when there are more than three. */
  datatype Preview<T> = Preview(shown: seq<T>, more: Option<nat>)

  function LockedPreview<T>(locked: seq<T>): (r: Preview<T>)
    ensures |r.shown| <= 3 && |r.shown| <= |locked| && r.shown == locked[..|r.shown|]
    ensures r.more.Some? <==> |locked| > 3
    ensures |r.shown| + r.more.GetOr(0) == |locked|
  {
    if |locked| > 3 then Preview(locked[..3], Some(|locked| - 3)) else Preview(locked, None)
  }

  /** The card lists every locked badge exactly when there are at most three. */
  lemma PreviewShowsAllWhenFew<T>(locked: seq<T>)
    ensures LockedPreview(locked).shown == locked <==> |locked| <= 3
  {
    if |locked| > 3 {
      assert |LockedPreview(locked).shown| == 3;
    }
  }

  // ---------------------------------------------------------------------------
  // View selection

  datatype View<P> = LoadingView | ErrorView | ProfileView(profile: P)

  /** The loading view wins; after loading, a missing profile gives the error view. */
  function SelectView<P>(loading: bool, profile: Option<P>): (v: View<P>)
    ensures loading ==> v.LoadingView?
    ensures !loading && profile.None? ==> v.ErrorView?
    ensures v.ProfileView? ==> profile == Some(v.profile)
  {
    if loading then LoadingView
    else if profile.None? then ErrorView
    else ProfileView(profile.value)
  }

  /** The profile is shown exactly when loading is over and a profile arrived. */
  lemma ProfileShownIff<P>(loading: bool, profile: Option<P>)
    ensures SelectView(loading, profile).ProfileView? <==> !loading && profile.Some?
  {
  }
}
