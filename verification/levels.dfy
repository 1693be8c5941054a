/** The level classifier of logic/grading.ts (`getLevel`, `DEFAULT_SCALE`) and
    the five-bucket level tally that the score-entry page and the statistics
    report both build on its tier names. */
module Levels {
  import opened Util
  import opened Sorting
  import opened Types

  /** The built-in scale, used when a subject has no (or an empty) scale of its own. */
  const DefaultScale: seq<LevelRange> := [
    LevelRange("ممتاز", 90.0, Some("text-emerald-600")),
    LevelRange("جيد جداً", 80.0, Some("text-blue-600")),
    LevelRange("جيد", 65.0, Some("text-indigo-600")),
    LevelRange("مقبول", 50.0, Some("text-amber-600")),
    LevelRange("ضعيف", 0.0, Some("text-red-600"))
  ]

  const Excellent: string := DefaultScale[0].name
  const VeryGood: string := DefaultScale[1].name
  const Good: string := DefaultScale[2].name
  const Acceptable: string := DefaultScale[3].name
  const Weak: string := DefaultScale[4].name

  /** The outcome of `getLevel`: a tier of the active scale, or one of the two
      sentinels (`'---'` for a non-positive maximum, `'غير محدد'` when the
      percentage is below every tier). */
  datatype Level = Tier(range: LevelRange) | NoMaximum | Unspecified
  {
    function Name(): string
    {
      match this
      case Tier(r) => r.name
      case NoMaximum => "---"
      case Unspecified => "غير محدد"
    }

    function Color(): Option<string>
    {
      match this
      case Tier(r) => r.color
      case _ => Some("text-gray-400")
    }
  }

  /** `scale && scale.length > 0 ? scale : DEFAULT_SCALE`. */
  function ActiveScale(scale: Option<seq<LevelRange>>): (active: seq<LevelRange>)
    ensures |active| > 0
    ensures scale.Some? && |scale.value| > 0 ==> active == scale.value
    ensures scale.None? || |scale.value| == 0 ==> active == DefaultScale
  {
    if scale.Some? && |scale.value| > 0 then scale.value else DefaultScale
  }

  /** Sort key putting tiers in descending order of their minimum. */
  function TierOrder(): LevelRange -> real
  {
    (r: LevelRange) => -r.minPercent
  }

  /** `range => percent >= range.minPercent`. */
  function Reaches(percent: real): LevelRange -> bool
  {
    (r: LevelRange) => percent >= r.minPercent
  }

  /** `maxTotal > 0 ? (total / maxTotal) * 100 : 0`: the share of the maximum, in percent. */
  function Percentage(total: real, maxTotal: real): (p: real)
    ensures maxTotal > 0.0 ==> p * maxTotal == 100.0 * total
    ensures maxTotal > 0.0 && 0.0 <= total <= maxTotal ==> 0.0 <= p <= 100.0
    ensures 0.0 <= total ==> 0.0 <= p
    ensures maxTotal <= 0.0 ==> p == 0.0
  {
    if maxTotal > 0.0 then
      ShareOfHundred(total, maxTotal);
      (total / maxTotal) * 100.0
    else 0.0
  }

  lemma ShareOfHundred(part: real, whole: real)
    requires whole > 0.0
    ensures (part / whole) * 100.0 * whole == 100.0 * part
    ensures 0.0 <= part <= whole ==> 0.0 <= (part / whole) * 100.0 <= 100.0
    ensures 0.0 <= part ==> 0.0 <= (part / whole) * 100.0
  {
  }

  /** `getLevel(score, maxScore, scale)`. */
  function GetLevel(score: real, maxScore: real, scale: Option<seq<LevelRange>>): (l: Level)
    ensures l.NoMaximum? <==> maxScore <= 0.0
  {
    if maxScore <= 0.0 then NoMaximum
    else
      PickTier(ActiveScale(scale), Percentage(score, maxScore))
  }

  /** The first tier of the scale, sorted by descending minimum, that the
      percentage reaches. */
  function PickTier(active: seq<LevelRange>, percent: real): Level
  {
    match Find(Sort(active, TierOrder()), Reaches(percent))
    case Some(r) => Tier(r)
    case None => Unspecified
  }

  /** Tier `i` of `scale` is reached by `percent`, no reached tier has a higher
      minimum, and no earlier reached tier has the same minimum. */
  ghost predicate IsChosenTier(scale: seq<LevelRange>, percent: real, i: int)
  {
    && 0 <= i < |scale|
    && scale[i].minPercent <= percent
    && (forall j :: 0 <= j < |scale| && scale[j].minPercent <= percent ==>
          scale[j].minPercent <= scale[i].minPercent)
    && (forall j :: 0 <= j < i && scale[j].minPercent <= percent ==>
          scale[j].minPercent < scale[i].minPercent)
  }

  /** `r` is the tier of `scale` chosen for `percent`. */
  ghost predicate IsChosenRange(scale: seq<LevelRange>, percent: real, r: LevelRange)
  {
    exists i :: IsChosenTier(scale, percent, i) && r == scale[i]
  }

  /** For a positive maximum, `getLevel` returns the reached tier with the
      largest minimum (the earliest one on a tie), and the "unspecified"
      sentinel exactly when every tier's minimum is above the percentage. */
  lemma GetLevelPicksHighestReachedTier(score: real, maxScore: real, scale: Option<seq<LevelRange>>)
    requires maxScore > 0.0
    ensures var percent := Percentage(score, maxScore);
            var active := ActiveScale(scale);
            var l := GetLevel(score, maxScore, scale);
            && !l.NoMaximum?
            && (l.Unspecified? <==> forall j :: 0 <= j < |active| ==> active[j].minPercent > percent)
            && (l.Tier? ==> IsChosenRange(active, percent, l.range))
  {
    var percent := Percentage(score, maxScore);
    var active := ActiveScale(scale);
    PickTierIsHighest(active, percent);
    assert GetLevel(score, maxScore, scale) == PickTier(active, percent);
  }

  /** The tier search of `getLevel` on a given scale and percentage. */
  lemma PickTierIsHighest(active: seq<LevelRange>, percent: real)
    ensures var l := PickTier(active, percent);
            && !l.NoMaximum?
            && (l.Unspecified? <==> forall j :: 0 <= j < |active| ==> active[j].minPercent > percent)
            && (l.Tier? ==> IsChosenRange(active, percent, l.range))
  {
    FindInSorted(active, TierOrder(), Reaches(percent));
    FirstLeastSpec(active, Reaches(percent), TierOrder());
    var f := FirstLeast(active, Reaches(percent), TierOrder());
    forall j | 0 <= j < |active|
      ensures Reaches(percent)(active[j]) <==> active[j].minPercent <= percent
    {
    }
    if f.Some? {
      var i :| IsFirstLeast(active, Reaches(percent), TierOrder(), i) && f.value == active[i];
      FirstLeastIsChosen(active, percent, i);
    }
  }

  lemma FirstLeastIsChosen(active: seq<LevelRange>, percent: real, i: int)
    requires IsFirstLeast(active, Reaches(percent), TierOrder(), i)
    ensures IsChosenTier(active, percent, i)
  {
    forall j | 0 <= j < |active| && active[j].minPercent <= percent
      ensures active[j].minPercent <= active[i].minPercent
    {
      assert Reaches(percent)(active[j]);
      assert TierOrder()(active[i]) <= TierOrder()(active[j]);
    }
    forall j | 0 <= j < i && active[j].minPercent <= percent
      ensures active[j].minPercent < active[i].minPercent
    {
      assert Reaches(percent)(active[j]);
      assert TierOrder()(active[i]) < TierOrder()(active[j]);
    }
  }

  /** `getLevel` ignores the score and the scale when the maximum is not positive. */
  lemma GetLevelNoMaximum(score: real, maxScore: real, scale: Option<seq<LevelRange>>)
    requires maxScore <= 0.0
    ensures GetLevel(score, maxScore, scale).Name() == "---"
  {
  }

  lemma DefaultScaleIsOrdered()
    ensures SortedBy(DefaultScale, TierOrder())
    ensures Sort(DefaultScale, TierOrder()) == DefaultScale
  {
    SortOfSorted(DefaultScale, TierOrder());
  }

  /** The default tier a percentage falls into. */
  function DefaultTierIndex(percent: real): (i: nat)
    requires percent >= 0.0
    ensures i < |DefaultScale|
    ensures IsChosenTier(DefaultScale, percent, i)
  {
    if percent >= 90.0 then 0
    else if percent >= 80.0 then 1
    else if percent >= 65.0 then 2
    else if percent >= 50.0 then 3
    else 4
  }

  /** On the default scale, a non-negative percentage reaches the tier
      `DefaultTierIndex` names before any other. */
  lemma DefaultTierIsFound(percent: real)
    requires percent >= 0.0
    ensures Find(Sort(DefaultScale, TierOrder()), Reaches(percent)) == Some(DefaultScale[DefaultTierIndex(percent)])
  {
    DefaultScaleIsOrdered();
    var k := DefaultTierIndex(percent);
    assert Reaches(percent)(DefaultScale[k]);
    assert forall j :: 0 <= j < k ==> !Reaches(percent)(DefaultScale[j]);
    FindFirst(DefaultScale, Reaches(percent), k);
  }

  /** On the default scale, a non-negative percentage always gets a tier: the
      one `DefaultTierIndex` names. */
  lemma DefaultScaleClassifies(score: real, maxScore: real, scale: Option<seq<LevelRange>>)
    requires maxScore > 0.0 && score >= 0.0
    requires scale.None? || scale.value == []
    ensures GetLevel(score, maxScore, scale)
         == Tier(DefaultScale[DefaultTierIndex(Percentage(score, maxScore))])
  {
    var percent := Percentage(score, maxScore);
    assert percent >= 0.0;
    DefaultTierIsFound(percent);
  }

  lemma OutOfHundredIsDefault(percent: real, hundred: real, scale: Option<seq<LevelRange>>)
    requires percent >= 0.0 && hundred == 100.0 && scale.None?
    ensures GetLevel(percent, hundred, scale).Name() == DefaultScale[DefaultTierIndex(percent)].name
  {
    var x := (percent / hundred) * 100.0;
    assert x == percent;
    DefaultTierIsFound(percent);
  }

  /** `getLevel(percentage, 100)`: the level name of a percentage on the
      default scale. A non-negative percentage gets the name of its default tier;
      a negative one reaches no tier and is `'غير محدد'`. */
  function PercentLevel(percent: real): (name: string)
    ensures percent >= 0.0 ==> name == DefaultScale[DefaultTierIndex(percent)].name
    ensures percent < 0.0 ==> name == Unspecified.Name()
  {
    var name := GetLevel(percent, 100.0, None).Name();
    if percent >= 0.0 then
      OutOfHundredIsDefault(percent, 100.0, None);
      name
    else
      GetLevelPicksHighestReachedTier(percent, 100.0, None);
      assert Percentage(percent, 100.0) == percent;
      name
  }

  // ---------------------------------------------------------------------------
  // Level tallies

  /** How many students fell into each of the five default tiers. */
  datatype LevelCounts = LevelCounts(excellent: nat, veryGood: nat, good: nat, acceptable: nat, weak: nat)
  {
    function Total(): nat
    {
      excellent + veryGood + good + acceptable + weak
    }

    /** The count of default tier `i` (0 = excellent ... 4 = weak). */
    function Get(i: nat): nat
      requires i < 5
    {
      if i == 0 then excellent
      else if i == 1 then veryGood
      else if i == 2 then good
      else if i == 3 then acceptable
      else weak
    }
  }

  const NoCounts: LevelCounts := LevelCounts(0, 0, 0, 0, 0)

  /** The five default tier names. */
  predicate IsDefaultName(name: string)
  {
    name == Excellent || name == VeryGood || name == Good || name == Acceptable || name == Weak
  }

  /** Adds one to the bucket named `name`; a name outside the five is ignored. */
  function Tally(c: LevelCounts, name: string): (r: LevelCounts)
    ensures r.Total() == c.Total() + (if IsDefaultName(name) then 1 else 0)
    ensures forall i :: 0 <= i < 5 ==> r.Get(i) == c.Get(i) + (if name == DefaultScale[i].name then 1 else 0)
  {
    if name == Excellent then c.(excellent := c.excellent + 1)
    else if name == VeryGood then c.(veryGood := c.veryGood + 1)
    else if name == Good then c.(good := c.good + 1)
    else if name == Acceptable then c.(acceptable := c.acceptable + 1)
    else if name == Weak then c.(weak := c.weak + 1)
    else c
  }
}
