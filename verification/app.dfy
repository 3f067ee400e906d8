/**
 * The page's pure logic: the input guard of `doSearch` and the values
 * `renderPokemon` derives from a creature record (id label, sprite, tags,
 * ability labels, base experience, stat labels and bar widths).
 */
module App {
  import opened Wrappers
  import opened Text

  datatype Ability = Ability(name: string, isHidden: bool)

  /** `baseStat` is `None` when `base_stat` is missing or null. */
  datatype Stat = Stat(name: string, baseStat: Option<int>)

  /**
   * The fields the page reads from a record. A missing `types`, `abilities`
   * or `stats` list is the empty sequence. `officialArtwork` is
   * `sprites.other["official-artwork"].front_default` and `frontDefault` is
   * `sprites.front_default`, each `None` when missing or null.
   */
  datatype Pokemon = Pokemon(
    name: string,
    id: int,
    types: seq<string>,
    abilities: seq<Ability>,
    stats: seq<Stat>,
    baseExperience: Option<int>,
    officialArtwork: Option<string>,
    frontDefault: Option<string>)

  datatype StatRow = StatRow(caption: string, width: real, value: int)

  /** What the card shows, field by field. */
  datatype Card = Card(
    name: string,
    idLabel: string,
    types: seq<string>,
    sprite: string,
    tags: seq<string>,
    baseExperience: string,
    abilities: seq<string>,
    stats: seq<StatRow>)

  // ---------------------------------------------------------------------
  // Base stat total
  // ---------------------------------------------------------------------

  /** `stat.base_stat || 0`: a missing value counts as zero. */
  function StatValue(s: Stat): int {
    s.baseStat.GetOr(0)
  }

  /** The sum of the stat values. */
  function SumStats(stats: seq<Stat>): int {
    if |stats| == 0 then 0 else StatValue(stats[0]) + SumStats(stats[1..])
  }

  lemma {:induction false} SumStatsAppend(a: seq<Stat>, b: seq<Stat>)
    ensures SumStats(a + b) == SumStats(a) + SumStats(b)
  {
    if |a| == 0 {
      assert a + b == b;
    } else {
      assert (a + b)[1..] == a[1..] + b;
      SumStatsAppend(a[1..], b);
    }
  }

  /** The `reduce` over the stats, from the left, starting at 0. */
  method TotalBaseStats(stats: seq<Stat>) returns (total: int)
    ensures total == SumStats(stats)
  {
    total := 0;
    var i := 0;
    while i < |stats|
      invariant 0 <= i <= |stats|
      invariant total == SumStats(stats[..i])
    {
      assert stats[..i + 1] == stats[..i] + [stats[i]];
      SumStatsAppend(stats[..i], [stats[i]]);
      total := total + StatValue(stats[i]);
      i := i + 1;
    }
    assert stats[..i] == stats;
  }

  /** A missing base stat contributes exactly what a zero does. */
  lemma {:induction false} MissingStatCountsAsZero(stats: seq<Stat>, i: nat)
    requires i < |stats| && stats[i].baseStat.None?
    ensures SumStats(stats) == SumStats(stats[i := stats[i].(baseStat := Some(0))])
  {
    var t := stats[i := stats[i].(baseStat := Some(0))];
    assert stats == stats[..i] + [stats[i]] + stats[i + 1..];
    assert t == stats[..i] + [t[i]] + stats[i + 1..];
    SumStatsAppend(stats[..i] + [stats[i]], stats[i + 1..]);
    SumStatsAppend(stats[..i], [stats[i]]);
    SumStatsAppend(stats[..i] + [t[i]], stats[i + 1..]);
    SumStatsAppend(stats[..i], [t[i]]);
  }

  // ---------------------------------------------------------------------
  // Tags
  // ---------------------------------------------------------------------

  const TotalTagSuffix := " total base stats"
  const PseudoLegendaryTag := "Pseudo-legendary vibes"
  const DragonTag := "Dragon type"
  const HiddenAbilityTag := "Has hidden ability"

  /** The total at or above which a creature gets the pseudo-legendary tag. */
  const PseudoLegendaryTotal := 600

  predicate HasHiddenAbility(abilities: seq<Ability>) {
    exists i :: 0 <= i < |abilities| && abilities[i].isHidden
  }

  function Tags(p: Pokemon): seq<string> {
    var total := SumStats(p.stats);
    [IntToString(total) + TotalTagSuffix]
    + (if total >= PseudoLegendaryTotal then [PseudoLegendaryTag] else [])
    + (if "dragon" in p.types then [DragonTag] else [])
    + (if HasHiddenAbility(p.abilities) then [HiddenAbilityTag] else [])
  }

  /** The position of a tag in the fixed order. */
  function TagRank(tag: string): nat {
    if tag == PseudoLegendaryTag then 1
    else if tag == DragonTag then 2
    else if tag == HiddenAbilityTag then 3
    else 0
  }

  /**
   * The tags are additive and in a fixed order: the total always comes
   * first, and each conditional tag is present exactly when its condition
   * holds.
   */
  lemma TagsSpec(p: Pokemon)
    ensures |Tags(p)| >= 1
    ensures Tags(p)[0] == IntToString(SumStats(p.stats)) + TotalTagSuffix
    ensures PseudoLegendaryTag in Tags(p) <==> SumStats(p.stats) >= PseudoLegendaryTotal
    ensures DragonTag in Tags(p) <==> "dragon" in p.types
    ensures HiddenAbilityTag in Tags(p) <==> HasHiddenAbility(p.abilities)
    ensures forall i, j :: 0 <= i < j < |Tags(p)| ==> TagRank(Tags(p)[i]) < TagRank(Tags(p)[j])
  {
    var first := IntToString(SumStats(p.stats)) + TotalTagSuffix;
    assert first[0] == IntToString(SumStats(p.stats))[0];
    assert first != PseudoLegendaryTag && first != DragonTag && first != HiddenAbilityTag;
    assert TagRank(first) == 0;
  }

  // ---------------------------------------------------------------------
  // Per-field derivations
  // ---------------------------------------------------------------------

  /** `"#" + String(id).padStart(3, "0")`. */
  function IdLabel(id: int): (r: string)
    ensures |r| == 1 + (if |IntToString(id)| >= 3 then |IntToString(id)| else 3)
    ensures r[0] == '#'
    ensures r[|r| - |IntToString(id)|..] == IntToString(id)
    ensures forall i :: 1 <= i < |r| - |IntToString(id)| ==> r[i] == '0'
  {
    "#" + PadStart(IntToString(id), 3, '0')
  }

  /** Ids of three or more digits are shown unpadded. */
  lemma IdLabelUnpaddedFrom100(id: int)
    requires id >= 100
    ensures IdLabel(id) == "#" + IntToString(id)
  {
    NatToStringRoundTrip(id);
    if |IntToString(id)| < 3 {
      ShortNumeralIsSmall(IntToString(id));
    }
  }

  lemma ShortNumeralIsSmall(s: string)
    requires AllDigits(s) && |s| < 3
    ensures DigitsValue(s) < 100
  {
    if |s| > 0 {
      assert DigitsValue(s[..|s| - 1]) < 10 by {
        if |s| == 2 { assert s[..1][..0] == []; }
      }
    }
  }

  /** Short ids are zero-padded to three digits. */
  lemma IdLabelExample()
    ensures IdLabel(25) == "#025"
    ensures IdLabel(7) == "#007"
  {
    assert NatToString(25) == NatToString(2) + [DigitChar(5)];
  }

  /** Reading back the digits after `#` of a non-negative id's label gives the id. */
  lemma IdLabelRoundTrip(id: int)
    requires id >= 0
    ensures AllDigits(IdLabel(id)[1..])
    ensures DigitsValue(IdLabel(id)[1..]) == id
  {
    var s := IntToString(id);
    var padded := PadStart(s, 3, '0');
    assert IdLabel(id)[1..] == padded;
    assert padded == Repeat('0', |padded| - |s|) + s;
    LeadingZerosValue(|padded| - |s|, s);
    NatToStringRoundTrip(id);
  }

  /** `front_default` counts only when present and non-empty (JavaScript truthiness). */
  predicate Truthy(url: Option<string>) {
    url.Some? && url.value != ""
  }

  /** The official artwork if truthy, else the default sprite if truthy, else nothing. */
  function Sprite(p: Pokemon): (r: string)
    ensures Truthy(p.officialArtwork) ==> r == p.officialArtwork.value
    ensures !Truthy(p.officialArtwork) && Truthy(p.frontDefault) ==> r == p.frontDefault.value
    ensures r == "" <==> !Truthy(p.officialArtwork) && !Truthy(p.frontDefault)
  {
    if Truthy(p.officialArtwork) then p.officialArtwork.value
    else if Truthy(p.frontDefault) then p.frontDefault.value
    else ""
  }

  const HiddenSuffix := " (hidden)"

  /** The ability name, marked when the ability is hidden. */
  function AbilityLabel(a: Ability): (r: string)
    ensures a.name <= r
    ensures a.isHidden <==> |r| > |a.name|
    ensures a.isHidden ==> r[|a.name|..] == HiddenSuffix
  {
    a.name + (if a.isHidden then HiddenSuffix else "")
  }

  /** `base_experience ?? "-"`: only a missing or null value shows the dash; 0 shows as "0". */
  function BaseExperienceLabel(baseExperience: Option<int>): (r: string)
    ensures r == "-" <==> baseExperience.None?
    ensures baseExperience.Some? ==> ParseInt(r) == baseExperience && IsCanonicalNumeral(r)
  {
    match baseExperience
    case None => "-"
    case Some(v) =>
      IntToStringRoundTrip(v);
      IntToString(v)
  }

  /** A base experience of 0 is shown as "0", not as the dash: `??` tests for null only. */
  lemma BaseExperienceOfZero()
    ensures BaseExperienceLabel(Some(0)) == "0"
  {
    CanonicalNumeralRoundTrip(BaseExperienceLabel(Some(0)));
  }

  const SpecialPrefix := "special-"

  /** `name.replace("special-", "sp ")`: only the first occurrence is rewritten. */
  function StatLabel(name: string): string {
    ReplaceFirst(name, SpecialPrefix, "sp ")
  }

  /** A stat name without "special-" is shown as it is. */
  lemma StatLabelUnchangedWithoutPrefix(name: string)
    requires !Contains(name, SpecialPrefix)
    ensures StatLabel(name) == name
  {
  }

  /** The label of a name that starts with "special-": that prefix becomes "sp ". */
  lemma StatLabelOfSpecial(rest: string)
    ensures StatLabel(SpecialPrefix + rest) == "sp " + rest
  {
    var s := SpecialPrefix + rest;
    assert s[0..|SpecialPrefix|] == SpecialPrefix;
    assert s[|SpecialPrefix|..] == rest;
  }

  /** Only the first "special-" is rewritten. */
  lemma StatLabelRewritesOnlyFirst()
    ensures StatLabel("special-special-") == "sp special-"
  {
    StatLabelOfSpecial(SpecialPrefix);
  }

  /** The stat value on which a full-width bar is drawn. */
  const BarScale := 180

  /** `Math.min((val / 180) * 100, 100)`, in percent. */
  function BarWidth(val: int): (w: real)
    ensures w <= 100.0
    ensures w == 100.0 <==> val >= BarScale
    ensures val < BarScale ==> w * (BarScale as real) == (val as real) * 100.0
    ensures val >= 0 ==> w >= 0.0
  {
    var raw := val as real / BarScale as real * 100.0;
    if raw < 100.0 then raw else 100.0
  }

  /** A stat of 200 draws a full bar, not 111.1 percent; 90 draws half a bar. */
  lemma BarWidthExamples()
    ensures BarWidth(200) == 100.0
    ensures BarWidth(90) == 50.0
  {
  }

  /** Bars grow with the value until they clip. */
  lemma BarWidthMonotone(a: int, b: int)
    requires a <= b
    ensures BarWidth(a) <= BarWidth(b)
  {
  }

  function RenderStat(s: Stat): StatRow {
    StatRow(StatLabel(s.name), BarWidth(StatValue(s)), StatValue(s))
  }

  /** `renderPokemon`, minus the DOM: one card per record. */
  function RenderPokemon(p: Pokemon): (c: Card)
    ensures c.name == p.name && c.types == p.types
    ensures |c.abilities| == |p.abilities| && |c.stats| == |p.stats|
    ensures forall i :: 0 <= i < |c.stats| ==> c.stats[i].width <= 100.0
    ensures forall i :: 0 <= i < |c.stats| ==> c.stats[i].value == p.stats[i].baseStat.GetOr(0)
    ensures forall i :: 0 <= i < |c.abilities| ==> p.abilities[i].name <= c.abilities[i]
    ensures |c.tags| >= 1 && c.tags[0] == IntToString(SumStats(p.stats)) + TotalTagSuffix
  {
    Card(
      p.name,
      IdLabel(p.id),
      p.types,
      Sprite(p),
      Tags(p),
      BaseExperienceLabel(p.baseExperience),
      seq(|p.abilities|, i requires 0 <= i < |p.abilities| => AbilityLabel(p.abilities[i])),
      seq(|p.stats|, i requires 0 <= i < |p.stats| => RenderStat(p.stats[i])))
  }

  // ---------------------------------------------------------------------
  // doSearch
  // ---------------------------------------------------------------------

  const EmptyInputMessage := "Please enter a Pokémon name or ID."
  const NotFoundMessage := "Pokémon not found. Try another name or ID."

  /** What the page shows: an error banner, or the card `RenderPokemon` builds from a record. */
  datatype Screen = ErrorBanner(message: string) | CardShown(record: Pokemon)

  /** The lookups `doSearch` issues, in order, and what the page shows afterwards. */
  datatype SearchOutcome = SearchOutcome(requests: seq<string>, screen: Screen)

  /** Input that `trim()` empties, so that `!value` holds. */
  ghost predicate IsBlankInput(input: string) {
    forall k :: 0 <= k < |input| ==> IsJsWhitespace(input[k])
  }

  /**
   * `doSearch`: blank input shows an error and issues no lookup; otherwise
   * exactly one lookup is issued, for the whole trimmed input, and its
   * record is rendered or the not-found error shown. `backend` answers a
   * lookup with the parsed record, or `None` for a non-OK response or a
   * body that does not parse.
   */
  function DoSearch(input: string, backend: string -> Option<Pokemon>): (r: SearchOutcome)
    ensures r.requests == [] <==> IsBlankInput(input)
    ensures r.requests == [] ==> r.screen == ErrorBanner(EmptyInputMessage)
    ensures r.requests != [] ==> |r.requests| == 1 && IsTrimOf(r.requests[0], input, IsJsWhitespace)
    ensures r.screen.CardShown? <==> r.requests != [] && backend(r.requests[0]).Some?
    ensures r.screen.CardShown? ==> backend(r.requests[0]) == Some(r.screen.record)
    ensures r.screen.ErrorBanner? && r.requests != [] ==> r.screen.message == NotFoundMessage
  {
    var value := JsTrim(input);
    TrimEmptyIff(input, IsJsWhitespace);
    if value == [] then
      SearchOutcome([], ErrorBanner(EmptyInputMessage))
    else
      match backend(value)
      case None => SearchOutcome([value], ErrorBanner(NotFoundMessage))
      case Some(p) => SearchOutcome([value], CardShown(p))
  }

  /**
   * The one lookup carries the input without its surrounding whitespace, so
   * searching again for it gives the same outcome.
   */
  lemma LookupKeyIsTrimmed(input: string, backend: string -> Option<Pokemon>)
    requires DoSearch(input, backend).requests != []
    ensures DoSearch(input, backend).requests == [JsTrim(input)]
    ensures DoSearch(DoSearch(input, backend).requests[0], backend) == DoSearch(input, backend)
  {
    var q := DoSearch(input, backend).requests[0];
    TrimIsUnique(q, JsTrim(input), input, IsJsWhitespace);
    TrimIdempotent(input, IsJsWhitespace);
    TrimEmptyIff(q, IsJsWhitespace);
  }
}
