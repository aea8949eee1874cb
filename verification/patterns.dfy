/** Entity construction from pattern matches (RegexService.extract_entities in
    backend/server.py). The regular-expression engine is not modelled: what
    `re.finditer` yields for each pattern is an input, `matches(p)`, the
    ordered list of match spans of pattern `p`. */
module PatternRules {
  import opened Entities
  import Luhn

  /** The ten patterns of RegexService, one constructor per pattern. */
  datatype Pattern =
    | PhoneNational        // 0[1-9] followed by four two-digit groups
    | PhoneInternational   // +33[1-9] followed by four two-digit groups
    | EmailAddress
    | SiretNumber          // fourteen digits
    | SocialSecurity       // [12] followed by twelve digits
    | StreetAddress        // number, street-type word, words
    | PostalLocality       // five-digit postcode, capitalised town
    | RollNumber           // RG n/n
    | CaseFile             // dossier n° n-n
    | LawArticle           // article n(-n)

  /** The number of patterns extract_entities runs. */
  const PatternCount: nat := 10

  /** The pattern extract_entities runs in place `k`: phones, e-mail, SIRET,
      social security, addresses, then the legal references. */
  function PatternAt(k: nat): (p: Pattern)
    requires k < PatternCount
    ensures Rank(p) == k
  {
    match k
    case 0 => PhoneNational
    case 1 => PhoneInternational
    case 2 => EmailAddress
    case 3 => SiretNumber
    case 4 => SocialSecurity
    case 5 => StreetAddress
    case 6 => PostalLocality
    case 7 => RollNumber
    case 8 => CaseFile
    case _ => LawArticle
  }

  /** The place of a pattern in the run order. */
  function Rank(p: Pattern): (k: nat)
    ensures k < PatternCount
  {
    match p
    case PhoneNational => 0
    case PhoneInternational => 1
    case EmailAddress => 2
    case SiretNumber => 3
    case SocialSecurity => 4
    case StreetAddress => 5
    case PostalLocality => 6
    case RollNumber => 7
    case CaseFile => 8
    case LawArticle => 9
  }

  /** Every pattern runs exactly once: at its rank. */
  lemma RankPlacesPattern(p: Pattern)
    ensures PatternAt(Rank(p)) == p
  {
  }

  function CategoryOf(p: Pattern): EntityType
  {
    match p
    case PhoneNational | PhoneInternational => Phone
    case EmailAddress => Email
    case SiretNumber => Siret
    case SocialSecurity => Ssn
    case StreetAddress | PostalLocality => Address
    case RollNumber | CaseFile | LawArticle => Legal
  }

  predicate IsPatternCategory(t: EntityType) {
    t != Person && t != Organization
  }

  /** The position of a category in the emission order of extract_entities. */
  function CategoryRank(t: EntityType): nat
  {
    match t
    case Phone => 0
    case Email => 1
    case Siret => 2
    case Ssn => 3
    case Address => 4
    case Legal => 5
    case Person => 6
    case Organization => 7
  }

  /** `_generate_phone_replacement`: the same mask for every phone number. */
  function PhoneReplacement(): string
  {
    "06 XX XX XX XX"
  }

  /** The fixed placeholder of each pattern category. */
  function Replacement(t: EntityType): string
    requires IsPatternCategory(t)
  {
    match t
    case Phone => PhoneReplacement()
    case Email => "[email.anonymise@exemple.fr]"
    case Siret => "[SIRET Anonymisé]"
    case Ssn => "[N° Sécurité Sociale Anonymisé]"
    case Address => "[Adresse Anonymisée]"
    case Legal => "[Référence Anonymisée]"
  }

  /** What `re.finditer` returns for each pattern on the text. */
  type Matches = Pattern -> seq<Position>

  predicate SpanWithin(s: Position, n: nat) {
    0 <= s.start <= s.end <= n
  }

  /** What the model assumes of the matches: each span lies inside the text,
      as the regular-expression engine guarantees, and a SIRET match consists
      of ASCII digits, which is narrower than Python's `\d` (any Unicode
      decimal digit). */
  predicate WellFormed(text: string, matches: Matches) {
    forall p, i :: 0 <= i < |matches(p)| ==>
      && SpanWithin(matches(p)[i], |text|)
      && (p == SiretNumber ==> Luhn.IsDigitString(text[matches(p)[i].start..matches(p)[i].end]))
  }

  /** Whether a match turns into an entity: only SIRET matches are filtered,
      by their checksum. */
  predicate Accepted(text: string, p: Pattern, s: Position)
    requires SpanWithin(s, |text|)
    requires p == SiretNumber ==> Luhn.IsDigitString(text[s.start..s.end])
  {
    p != SiretNumber || Luhn.LuhnCheck(text[s.start..s.end])
  }

  /** The shape every pattern entity has: provenance REGEX, confidence 1.0,
      selected, one position inside the text covering exactly the entity's
      text, and the fixed placeholder of its category. */
  predicate IsPatternEntity(text: string, e: Entity) {
    && e.source == Regex && e.confidence == 1.0 && e.selected
    && |e.positions| == 1 && SpanWithin(e.positions[0], |text|)
    && e.text == text[e.positions[0].start..e.positions[0].end]
    && IsPatternCategory(e.kind) && e.replacement == Replacement(e.kind)
  }

  /** The entity built from match `s` of pattern `p`: it has the
      pattern-entity shape, its pattern's category and the match as its only
      position. */
  function EntityOf(text: string, p: Pattern, s: Position): (e: Entity)
    requires SpanWithin(s, |text|)
    ensures IsPatternEntity(text, e)
    ensures e.kind == CategoryOf(p)
    ensures e.positions == [s]
  {
    Entity(text[s.start..s.end], CategoryOf(p), Regex, 1.0, Replacement(CategoryOf(p)), [s], true)
  }

  /** A match that produced an entity: pattern and index into its match list. */
  datatype Hit = Hit(pattern: Pattern, index: nat)

  predicate HitValid(matches: Matches, h: Hit) {
    h.index < |matches(h.pattern)|
  }

  /** `h` is emitted before `g`: an earlier pattern, or the same pattern and an
      earlier match. */
  predicate Before(h: Hit, g: Hit) {
    Rank(h.pattern) < Rank(g.pattern) || (h.pattern == g.pattern && h.index < g.index)
  }

  predicate HitAccepted(text: string, matches: Matches, h: Hit)
    requires WellFormed(text, matches) && HitValid(matches, h)
  {
    Accepted(text, h.pattern, matches(h.pattern)[h.index])
  }

  /** The inner loop over the matches of one pattern, from match `i` on: at
      most one entity per remaining match, and exactly one for every pattern
      but the SIRET one, the only one with a gate. */
  function HitsFrom(text: string, matches: Matches, p: Pattern, i: nat): (hs: seq<Hit>)
    requires WellFormed(text, matches)
    ensures |hs| <= if i < |matches(p)| then |matches(p)| - i else 0
    ensures p != SiretNumber ==> |hs| == if i < |matches(p)| then |matches(p)| - i else 0
    decreases |matches(p)| - i
  {
    if i >= |matches(p)| then []
    else
      var rest := HitsFrom(text, matches, p, i + 1);
      if Accepted(text, p, matches(p)[i]) then [Hit(p, i)] + rest else rest
  }

  /** Every hit of the pattern's loop from `i` on is an accepted match of that
      pattern at index `i` or later. */
  lemma {:induction false} HitsFromSound(text: string, matches: Matches, p: Pattern, i: nat)
    requires WellFormed(text, matches)
    ensures forall h :: h in HitsFrom(text, matches, p, i) ==>
      && h.pattern == p && i <= h.index
      && HitValid(matches, h) && HitAccepted(text, matches, h)
    decreases |matches(p)| - i
  {
    if i < |matches(p)| {
      HitsFromSound(text, matches, p, i + 1);
    }
  }

  /** The hits of one pattern follow match order. */
  lemma {:induction false} HitsFromOrdered(text: string, matches: Matches, p: Pattern, i: nat)
    requires WellFormed(text, matches)
    ensures Ordered(HitsFrom(text, matches, p, i))
    decreases |matches(p)| - i
  {
    if i < |matches(p)| {
      HitsFromOrdered(text, matches, p, i + 1);
      HitsFromSound(text, matches, p, i + 1);
      var rest := HitsFrom(text, matches, p, i + 1);
      if Accepted(text, p, matches(p)[i]) {
        forall g | g in rest
          ensures Before(Hit(p, i), g)
        {
        }
        OrderedConcat([Hit(p, i)], rest);
      }
    }
  }

  /** Every accepted match of the pattern from `i` on is a hit. */
  lemma {:induction false} HitsFromComplete(text: string, matches: Matches, p: Pattern, i: nat, j: nat)
    requires WellFormed(text, matches)
    requires i <= j < |matches(p)| && HitAccepted(text, matches, Hit(p, j))
    ensures Hit(p, j) in HitsFrom(text, matches, p, i)
    decreases j - i
  {
    var rest := HitsFrom(text, matches, p, i + 1);
    if i < j {
      HitsFromComplete(text, matches, p, i + 1, j);
      assert Hit(p, j) in rest;
    } else {
      assert Accepted(text, p, matches(p)[i]);
    }
    assert HitsFrom(text, matches, p, i)
      == if Accepted(text, p, matches(p)[i]) then [Hit(p, i)] + rest else rest;
  }

  /** A sequence of hits in emission order. */
  predicate Ordered(hs: seq<Hit>) {
    forall m, n :: 0 <= m < n < |hs| ==> Before(hs[m], hs[n])
  }

  /** Two ordered runs, each hit of the first before each hit of the second,
      concatenate to an ordered run. */
  lemma OrderedConcat(a: seq<Hit>, b: seq<Hit>)
    requires Ordered(a) && Ordered(b)
    requires forall g, h :: g in a && h in b ==> Before(g, h)
    ensures Ordered(a + b)
  {
    var hs := a + b;
    forall m, n | 0 <= m < n < |hs|
      ensures Before(hs[m], hs[n])
    {
      if n < |a| {
        assert hs[m] == a[m] && hs[n] == a[n];
      } else if m < |a| {
        assert hs[m] == a[m] && hs[n] == b[n - |a|];
        assert hs[m] in a && hs[n] in b;
      } else {
        assert hs[m] == b[m - |a|] && hs[n] == b[n - |a|];
      }
    }
  }

  /** The outer loop over the patterns, from rank `k` on. */
  function PlanFrom(text: string, matches: Matches, k: nat): (hs: seq<Hit>)
    requires WellFormed(text, matches)
    decreases PatternCount - k
  {
    if k >= PatternCount then []
    else HitsFrom(text, matches, PatternAt(k), 0) + PlanFrom(text, matches, k + 1)
  }

  /** Which matches become entities, in emission order. */
  function Plan(text: string, matches: Matches): seq<Hit>
    requires WellFormed(text, matches)
  {
    PlanFrom(text, matches, 0)
  }

  /** Every planned hit is an accepted match of a pattern of rank `k` or later. */
  lemma {:induction false} PlanFromSound(text: string, matches: Matches, k: nat)
    requires WellFormed(text, matches)
    ensures forall h :: h in PlanFrom(text, matches, k) ==>
      && k <= Rank(h.pattern) && HitValid(matches, h) && HitAccepted(text, matches, h)
    decreases PatternCount - k
  {
    if k < PatternCount {
      PlanFromSound(text, matches, k + 1);
      HitsFromSound(text, matches, PatternAt(k), 0);
    }
  }

  /** Planned hits are ordered by pattern rank, then by match index. */
  lemma {:induction false} PlanFromOrdered(text: string, matches: Matches, k: nat)
    requires WellFormed(text, matches)
    ensures Ordered(PlanFrom(text, matches, k))
    decreases PatternCount - k
  {
    if k < PatternCount {
      PlanFromOrdered(text, matches, k + 1);
      PlanFromSound(text, matches, k + 1);
      HitsFromSound(text, matches, PatternAt(k), 0);
      HitsFromOrdered(text, matches, PatternAt(k), 0);
      OrderedConcat(HitsFrom(text, matches, PatternAt(k), 0), PlanFrom(text, matches, k + 1));
    }
  }

  /** Every accepted match of a pattern of rank `k` or later is planned. */
  lemma {:induction false} PlanFromComplete(text: string, matches: Matches, k: nat, h: Hit)
    requires WellFormed(text, matches)
    requires k <= Rank(h.pattern) && HitValid(matches, h) && HitAccepted(text, matches, h)
    ensures h in PlanFrom(text, matches, k)
    decreases PatternCount - k
  {
    var here := HitsFrom(text, matches, PatternAt(k), 0);
    var later := PlanFrom(text, matches, k + 1);
    assert PlanFrom(text, matches, k) == here + later;
    if Rank(h.pattern) == k {
      RankPlacesPattern(h.pattern);
      assert h == Hit(PatternAt(k), h.index);
      HitsFromComplete(text, matches, h.pattern, 0, h.index);
    } else {
      PlanFromComplete(text, matches, k + 1, h);
    }
  }

  /** Emission order: the accepted matches, and only those, ordered by
      pattern and, within a pattern, by match order. */
  lemma EmissionOrder(text: string, matches: Matches)
    requires WellFormed(text, matches)
    ensures forall m :: 0 <= m < |Plan(text, matches)| ==>
      HitValid(matches, Plan(text, matches)[m]) && HitAccepted(text, matches, Plan(text, matches)[m])
    ensures forall h: Hit :: HitValid(matches, h) && HitAccepted(text, matches, h) ==> h in Plan(text, matches)
    ensures forall m, n :: 0 <= m < n < |Plan(text, matches)| ==>
      Before(Plan(text, matches)[m], Plan(text, matches)[n])
  {
    PlanFromSound(text, matches, 0);
    PlanFromOrdered(text, matches, 0);
    forall h: Hit | HitValid(matches, h) && HitAccepted(text, matches, h)
      ensures h in Plan(text, matches)
    {
      PlanFromComplete(text, matches, 0, h);
    }
  }

  /** The entity a planned hit turns into. */
  function EntityOfHit(text: string, matches: Matches, h: Hit): Entity
    requires WellFormed(text, matches) && HitValid(matches, h)
  {
    EntityOf(text, h.pattern, matches(h.pattern)[h.index])
  }

  function Materialise(text: string, matches: Matches, hs: seq<Hit>): (es: seq<Entity>)
    requires WellFormed(text, matches)
    requires forall m :: 0 <= m < |hs| ==> HitValid(matches, hs[m])
    ensures |es| == |hs|
  {
    if hs == [] then []
    else [EntityOfHit(text, matches, hs[0])] + Materialise(text, matches, hs[1..])
  }

  /** The entity at each place is built from the hit at that place. */
  lemma {:induction false} MaterialiseAt(text: string, matches: Matches, hs: seq<Hit>)
    requires WellFormed(text, matches)
    requires forall m :: 0 <= m < |hs| ==> HitValid(matches, hs[m])
    ensures forall m :: 0 <= m < |hs| ==> Materialise(text, matches, hs)[m] == EntityOfHit(text, matches, hs[m])
    decreases |hs|
  {
    if hs != [] {
      MaterialiseAt(text, matches, hs[1..]);
    }
  }

  /** RegexService.extract_entities. */
  function ExtractEntities(text: string, matches: Matches): (es: seq<Entity>)
    requires WellFormed(text, matches)
    ensures |es| == |Plan(text, matches)|
  {
    PlanFromSound(text, matches, 0);
    Materialise(text, matches, Plan(text, matches))
  }

  /** Each extracted entity is the entity of the planned hit at its place. */
  lemma ExtractFollowsPlan(text: string, matches: Matches)
    requires WellFormed(text, matches)
    ensures forall m :: 0 <= m < |Plan(text, matches)| ==> HitValid(matches, Plan(text, matches)[m])
    ensures forall m :: 0 <= m < |Plan(text, matches)| ==>
      ExtractEntities(text, matches)[m] == EntityOfHit(text, matches, Plan(text, matches)[m])
  {
    PlanFromSound(text, matches, 0);
    MaterialiseAt(text, matches, Plan(text, matches));
  }

  /** Every extracted entity has the pattern-entity shape: REGEX, confidence
      1.0, selected, one in-text position whose slice is the entity's text,
      and its category's placeholder. */
  lemma ExtractShape(text: string, matches: Matches)
    requires WellFormed(text, matches)
    ensures forall e :: e in ExtractEntities(text, matches) ==> IsPatternEntity(text, e)
    ensures AllLocated(ExtractEntities(text, matches))
  {
    ExtractFollowsPlan(text, matches);
    var es := ExtractEntities(text, matches);
    var plan := Plan(text, matches);
    forall m | 0 <= m < |es|
      ensures IsPatternEntity(text, es[m])
    {
      var h := plan[m];
      assert es[m] == EntityOf(text, h.pattern, matches(h.pattern)[h.index]);
    }
  }

  /** Every SIRET entity that comes out passes the Luhn checksum. */
  lemma ExtractSiretsPass(text: string, matches: Matches)
    requires WellFormed(text, matches)
    ensures forall e :: e in ExtractEntities(text, matches) && e.kind == Siret ==>
      Luhn.IsDigitString(e.text) && Luhn.LuhnCheck(e.text)
  {
    ExtractFollowsPlan(text, matches);
    EmissionOrder(text, matches);
    var es := ExtractEntities(text, matches);
    var plan := Plan(text, matches);
    forall m | 0 <= m < |es| && es[m].kind == Siret
      ensures Luhn.IsDigitString(es[m].text) && Luhn.LuhnCheck(es[m].text)
    {
      var h := plan[m];
      assert h.pattern == SiretNumber;
      assert HitAccepted(text, matches, h);
    }
  }

  /** The category order follows the pattern order. */
  lemma CategoryFollowsRank(p: Pattern, q: Pattern)
    requires Rank(p) <= Rank(q)
    ensures CategoryRank(CategoryOf(p)) <= CategoryRank(CategoryOf(q))
  {
  }

  /** Categories come out in the order phone, email, SIRET, social security,
      address, legal reference. */
  lemma ExtractCategoryOrder(text: string, matches: Matches)
    requires WellFormed(text, matches)
    ensures forall m, n :: 0 <= m < n < |ExtractEntities(text, matches)| ==>
      CategoryRank(ExtractEntities(text, matches)[m].kind) <= CategoryRank(ExtractEntities(text, matches)[n].kind)
  {
    ExtractFollowsPlan(text, matches);
    EmissionOrder(text, matches);
    var es := ExtractEntities(text, matches);
    var plan := Plan(text, matches);
    forall m, n | 0 <= m < n < |es|
      ensures CategoryRank(es[m].kind) <= CategoryRank(es[n].kind)
    {
      var g, h := plan[m], plan[n];
      assert Before(g, h);
      assert es[m] == EntityOfHit(text, matches, g);
      assert es[n] == EntityOfHit(text, matches, h);
      CategoryFollowsRank(g.pattern, h.pattern);
    }
  }

  /** A SIRET match yields an entity exactly when its checksum holds; a match
      that fails it leaves nothing behind. */
  lemma SiretGate(text: string, matches: Matches, i: nat)
    requires WellFormed(text, matches)
    requires i < |matches(SiretNumber)|
    ensures var s := matches(SiretNumber)[i];
      EntityOf(text, SiretNumber, s) in ExtractEntities(text, matches)
      <==> Luhn.LuhnCheck(text[s.start..s.end])
  {
    SiretKept(text, matches, i);
    SiretDropped(text, matches, i);
  }

  /** A SIRET match whose checksum holds is extracted. */
  lemma SiretKept(text: string, matches: Matches, i: nat)
    requires WellFormed(text, matches)
    requires i < |matches(SiretNumber)|
    ensures var s := matches(SiretNumber)[i];
      Luhn.LuhnCheck(text[s.start..s.end]) ==> EntityOf(text, SiretNumber, s) in ExtractEntities(text, matches)
  {
    var s := matches(SiretNumber)[i];
    if Luhn.LuhnCheck(text[s.start..s.end]) {
      var h := Hit(SiretNumber, i);
      PlanFromComplete(text, matches, 0, h);
      ExtractFollowsPlan(text, matches);
      var plan := Plan(text, matches);
      var m :| 0 <= m < |plan| && plan[m] == h;
      assert ExtractEntities(text, matches)[m] == EntityOfHit(text, matches, h);
    }
  }

  /** A SIRET match whose checksum fails leaves no entity. */
  lemma SiretDropped(text: string, matches: Matches, i: nat)
    requires WellFormed(text, matches)
    requires i < |matches(SiretNumber)|
    ensures var s := matches(SiretNumber)[i];
      EntityOf(text, SiretNumber, s) in ExtractEntities(text, matches) ==> Luhn.LuhnCheck(text[s.start..s.end])
  {
    ExtractSiretsPass(text, matches);
  }
}
