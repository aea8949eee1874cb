/** Named-entity labelling (NERService.extract_entities in backend/server.py).
    The statistical model is not modelled: what it recognises in the text is
    an input, the list of labelled spans it reports in document order, or
    `None` when no model is loaded. The service keeps two letter counters
    that start at 1 and are never reset, so they are threaded through the
    calls as explicit state. */
module NamedEntities {
  import opened Entities

  /** One span the model reports: its tag, character offsets, text, and the
      confidence attached to it when the model provides one. */
  datatype NerSpan = NerSpan(tag: string, start: int, end: int, text: string, confidence: Option<real>)

  /** The service's `person_counter` and `org_counter`. */
  datatype Counters = Counters(person: nat, org: nat)

  /** A labelling run: the entities produced and the counters afterwards. */
  datatype Labelled = Labelled(entities: seq<Entity>, counters: Counters)

  /** Both counters start at 1, so the first letter handed out is 'A'. */
  const InitialCounters: Counters := Counters(1, 1)

  const PersonLabel: string := "PER"
  const OrgLabel: string := "ORG"

  /** Confidences used when the model attaches none. */
  const PersonConfidence: real := 0.9
  const OrgConfidence: real := 0.85

  const PersonStem: string := "Personne "
  const OrgStem: string := "Organisation "

  /** Python's `chr(64 + k)` gives a character for every code point, but a
      Dafny `char` excludes the surrogate block, so the letters are modelled
      only below it and the counters must stay under this bound. */
  const LetterLimit: nat := 0xD7C0

  /** The placeholder `stem` followed by the letter of counter value `k`. */
  function Placeholder(stem: string, k: nat): string
    requires k < LetterLimit
  {
    stem + [(64 + k) as char]
  }

  /** `r` is `stem` followed by the single character with code 64 + k. */
  predicate HasPlaceholder(r: string, stem: string, k: int) {
    |r| == |stem| + 1 && r[..|stem|] == stem && r[|stem|] as int == 64 + k
  }

  function ConfidenceOr(given: Option<real>, default: real): real {
    match given
    case Some(c) => c
    case None => default
  }

  /** The number of spans carrying `tag`. */
  function CountLabel(spans: seq<NerSpan>, tag: string): nat
  {
    if spans == [] then 0
    else (if spans[0].tag == tag then 1 else 0) + CountLabel(spans[1..], tag)
  }

  /** The labels that produce an entity; every other tag is skipped. */
  predicate IsRecognised(s: NerSpan) {
    s.tag == PersonLabel || s.tag == OrgLabel
  }

  /** The spans that produce an entity, in document order. */
  function Recognised(spans: seq<NerSpan>): (r: seq<NerSpan>)
    ensures forall s :: s in r ==> s in spans && IsRecognised(s)
    ensures forall s :: s in spans && IsRecognised(s) ==> s in r
  {
    if spans == [] then []
    else if IsRecognised(spans[0]) then [spans[0]] + Recognised(spans[1..])
    else Recognised(spans[1..])
  }

  lemma LabelsDiffer()
    ensures PersonLabel != OrgLabel
  {
    assert PersonLabel[0] != OrgLabel[0];
  }

  /** One entity per recognised span. */
  lemma {:induction false} RecognisedLength(spans: seq<NerSpan>)
    ensures |Recognised(spans)| == CountLabel(spans, PersonLabel) + CountLabel(spans, OrgLabel)
    decreases |spans|
  {
    if spans != [] {
      LabelsDiffer();
      RecognisedLength(spans[1..]);
    }
  }

  /** The counters stay below the letter bound for the whole run. */
  predicate LettersFit(spans: seq<NerSpan>, c: Counters) {
    c.person + CountLabel(spans, PersonLabel) <= LetterLimit
    && c.org + CountLabel(spans, OrgLabel) <= LetterLimit
  }

  function PersonEntity(s: NerSpan, k: nat): Entity
    requires k < LetterLimit
  {
    Entity(s.text, Person, Ner, ConfidenceOr(s.confidence, PersonConfidence),
      Placeholder(PersonStem, k), [Position(s.start, s.end)], true)
  }

  function OrganizationEntity(s: NerSpan, k: nat): Entity
    requires k < LetterLimit
  {
    Entity(s.text, Organization, Ner, ConfidenceOr(s.confidence, OrgConfidence),
      Placeholder(OrgStem, k), [Position(s.start, s.end)], true)
  }

  /** The counters after span `s`: the matching counter moves on by one. */
  function Advance(s: NerSpan, c: Counters): (r: Counters)
    ensures r.person == c.person + CountLabel([s], PersonLabel)
    ensures r.org == c.org + CountLabel([s], OrgLabel)
  {
    assert [s][1..] == [];
    LabelsDiffer();
    if s.tag == PersonLabel then Counters(c.person + 1, c.org)
    else if s.tag == OrgLabel then Counters(c.person, c.org + 1)
    else c
  }

  /** What span `s` contributes: a person or an organisation lettered by the
      current counter, or nothing for any other tag. */
  function Emitted(s: NerSpan, c: Counters): (r: seq<Entity>)
    requires s.tag == PersonLabel ==> c.person < LetterLimit
    requires s.tag == OrgLabel ==> c.org < LetterLimit
    ensures |r| == if IsRecognised(s) then 1 else 0
    ensures forall e :: e in r ==>
              && e.text == s.text && e.source == Ner && e.selected
              && e.positions == [Position(s.start, s.end)]
    ensures s.tag == PersonLabel ==>
              && r[0].kind == Person && r[0].confidence == ConfidenceOr(s.confidence, 0.9)
              && HasPlaceholder(r[0].replacement, "Personne ", c.person)
    ensures s.tag == OrgLabel ==>
              && r[0].kind == Organization && r[0].confidence == ConfidenceOr(s.confidence, 0.85)
              && HasPlaceholder(r[0].replacement, "Organisation ", c.org)
  {
    LabelsDiffer();
    if s.tag == PersonLabel then [PersonEntity(s, c.person)]
    else if s.tag == OrgLabel then [OrganizationEntity(s, c.org)]
    else []
  }

  /** The loop over the model's spans, one span at a time, counters
      threaded. */
  function LabelSpans(spans: seq<NerSpan>, c: Counters): (r: Labelled)
    requires LettersFit(spans, c)
    ensures r.counters == Counters(c.person + CountLabel(spans, PersonLabel), c.org + CountLabel(spans, OrgLabel))
    decreases |spans|
  {
    if spans == [] then Labelled([], c)
    else
      var rest := LabelSpans(spans[1..], Advance(spans[0], c));
      Labelled(Emitted(spans[0], c) + rest.entities, rest.counters)
  }

  /** One entity per PER or ORG span. */
  lemma {:induction false} LabelSpansLength(spans: seq<NerSpan>, c: Counters)
    requires LettersFit(spans, c)
    ensures |LabelSpans(spans, c).entities| == |Recognised(spans)|
    decreases |spans|
  {
    if spans != [] {
      LabelSpansLength(spans[1..], Advance(spans[0], c));
    }
  }

  /** Every labelled entity comes from the model, is selected, has one
      position, and is a person or an organisation. */
  lemma {:induction false} LabelSpansShape(spans: seq<NerSpan>, c: Counters)
    requires LettersFit(spans, c)
    ensures forall e :: e in LabelSpans(spans, c).entities ==>
      && e.source == Ner && e.selected && |e.positions| == 1
      && (e.kind == Person || e.kind == Organization)
    decreases |spans|
  {
    if spans != [] {
      LabelSpansShape(spans[1..], Advance(spans[0], c));
    }
  }

  /** NERService.extract_entities: nothing, and no counter change, without a
      model. */
  function Extract(model: Option<seq<NerSpan>>, c: Counters): (r: Labelled)
    requires model.Some? ==> LettersFit(model.value, c)
    ensures model.None? ==> r.entities == [] && r.counters == c
    ensures model.Some? ==> r.counters.person == c.person + CountLabel(model.value, PersonLabel)
    ensures model.Some? ==> r.counters.org == c.org + CountLabel(model.value, OrgLabel)
    ensures model.Some? ==> |r.entities| == |Recognised(model.value)|
  {
    match model
    case None => Labelled([], c)
    case Some(spans) => LabelSpansLength(spans, c); LabelSpans(spans, c)
  }

  lemma {:induction false} CountLabelAppend(a: seq<NerSpan>, b: seq<NerSpan>, tag: string)
    ensures CountLabel(a + b, tag) == CountLabel(a, tag) + CountLabel(b, tag)
    decreases |a|
  {
    if a == [] {
      assert a + b == b;
    } else {
      assert (a + b)[1..] == a[1..] + b;
      CountLabelAppend(a[1..], b, tag);
    }
  }

  /** Entity `j` of a run is built from the `j`-th recognised span. Its letter
      is the counter value on entry plus the number of earlier spans with the
      same tag; every other field comes from the span or the tag. */
  lemma {:induction false} LabelSpansMeaning(spans: seq<NerSpan>, c: Counters, j: nat)
    requires LettersFit(spans, c)
    requires j < |Recognised(spans)|
    ensures |LabelSpans(spans, c).entities| == |Recognised(spans)|
    ensures var s := Recognised(spans)[j];
      var e := LabelSpans(spans, c).entities[j];
      var before := Recognised(spans)[..j];
      && e.text == s.text && e.positions == [Position(s.start, s.end)]
      && e.source == Ner && e.selected
      && (s.tag == PersonLabel ==>
            && e.kind == Person && e.confidence == ConfidenceOr(s.confidence, PersonConfidence)
            && HasPlaceholder(e.replacement, PersonStem, c.person + CountLabel(before, PersonLabel)))
      && (s.tag == OrgLabel ==>
            && e.kind == Organization && e.confidence == ConfidenceOr(s.confidence, OrgConfidence)
            && HasPlaceholder(e.replacement, OrgStem, c.org + CountLabel(before, OrgLabel)))
    decreases |spans|
  {
    LabelSpansLength(spans, c);
    var s := spans[0];
    var tail := spans[1..];
    assert LabelSpans(spans, c).entities == Emitted(s, c) + LabelSpans(tail, Advance(s, c)).entities;
    if !IsRecognised(s) {
      LabelSpansMeaning(tail, c, j);
    } else if j > 0 {
      LabelSpansMeaning(tail, Advance(s, c), j - 1);
      RecognisedPrefix(spans, j, PersonLabel);
      RecognisedPrefix(spans, j, OrgLabel);
    } else {
      assert Recognised(spans)[..j] == [];
    }
  }

  /** The recognised spans before place `j`, when the first span is
      recognised: the first span, then those of the rest before `j - 1`. */
  lemma RecognisedPrefix(spans: seq<NerSpan>, j: nat, tag: string)
    requires spans != [] && IsRecognised(spans[0])
    requires 0 < j < |Recognised(spans)|
    ensures Recognised(spans)[j] == Recognised(spans[1..])[j - 1]
    ensures CountLabel(Recognised(spans)[..j], tag)
      == (if spans[0].tag == tag then 1 else 0) + CountLabel(Recognised(spans[1..])[..j - 1], tag)
  {
    assert Recognised(spans) == [spans[0]] + Recognised(spans[1..]);
    CountCons(spans[0], Recognised(spans[1..]), j, tag);
  }

  /** Counting a tag over a prefix of `[x] + t`. */
  lemma CountCons(x: NerSpan, t: seq<NerSpan>, j: nat, tag: string)
    requires 0 < j <= |t| + 1
    ensures CountLabel(([x] + t)[..j], tag) == (if x.tag == tag then 1 else 0) + CountLabel(t[..j - 1], tag)
  {
    var before := ([x] + t)[..j];
    assert before[0] == x;
    assert before[1..] == t[..j - 1];
  }

  /** The labels of the recognised spans are counted the same as those of all
      spans. */
  lemma {:induction false} RecognisedCounts(spans: seq<NerSpan>, tag: string)
    requires tag == PersonLabel || tag == OrgLabel
    ensures CountLabel(Recognised(spans), tag) == CountLabel(spans, tag)
    decreases |spans|
  {
    if spans != [] {
      RecognisedCounts(spans[1..], tag);
      if IsRecognised(spans[0]) {
        assert ([spans[0]] + Recognised(spans[1..]))[1..] == Recognised(spans[1..]);
      }
    }
  }

  /** Within one run, two people never share a placeholder, and neither do
      two organisations. */
  lemma DistinctLetters(spans: seq<NerSpan>, c: Counters, i: nat, j: nat)
    requires LettersFit(spans, c)
    requires i < j < |Recognised(spans)|
    requires Recognised(spans)[i].tag == Recognised(spans)[j].tag
    ensures |LabelSpans(spans, c).entities| == |Recognised(spans)|
    ensures LabelSpans(spans, c).entities[i].replacement != LabelSpans(spans, c).entities[j].replacement
  {
    var rs := Recognised(spans);
    var tag := rs[i].tag;
    assert rs[i] in rs;
    LabelSpansMeaning(spans, c, i);
    LabelSpansMeaning(spans, c, j);
    assert rs[..j] == rs[..i] + rs[i..j];
    CountLabelAppend(rs[..i], rs[i..j], tag);
    assert rs[i..j] == [rs[i]] + rs[i..j][1..];
    var ei := LabelSpans(spans, c).entities[i];
    var ej := LabelSpans(spans, c).entities[j];
    if tag == PersonLabel {
      assert ei.replacement[|PersonStem|] != ej.replacement[|PersonStem|];
    } else {
      assert ei.replacement[|OrgStem|] != ej.replacement[|OrgStem|];
    }
  }

  /** One step of the loop: the first span's contribution, then the rest of
      the run from the advanced counters. */
  lemma LabelSpansStep(spans: seq<NerSpan>, c: Counters)
    requires spans != [] && LettersFit(spans, c)
    ensures LettersFit(spans[1..], Advance(spans[0], c))
    ensures LabelSpans(spans, c) == Labelled(
      Emitted(spans[0], c) + LabelSpans(spans[1..], Advance(spans[0], c)).entities,
      LabelSpans(spans[1..], Advance(spans[0], c)).counters)
  {
  }

  /** The letter bound still holds for the rest of a run once its first
      span has advanced the counters. */
  lemma AdvanceFits(spans: seq<NerSpan>, c: Counters)
    requires spans != [] && LettersFit(spans, c)
    ensures LettersFit(spans[1..], Advance(spans[0], c))
  {
    assert spans == [spans[0]] + spans[1..];
    CountLabelAppend([spans[0]], spans[1..], PersonLabel);
    CountLabelAppend([spans[0]], spans[1..], OrgLabel);
  }

  /** The letter bound for a whole run covers both of its stretches. */
  lemma LettersFitSplit(a: seq<NerSpan>, b: seq<NerSpan>, c: Counters)
    requires LettersFit(a + b, c)
    ensures LettersFit(a, c)
    ensures LettersFit(b, Counters(c.person + CountLabel(a, PersonLabel), c.org + CountLabel(a, OrgLabel)))
  {
    CountLabelAppend(a, b, PersonLabel);
    CountLabelAppend(a, b, OrgLabel);
  }

  /** Labelling two stretches of spans one after the other, the second
      starting from the counters the first left, is labelling them together:
      the counters carry the lettering from one call to the next. */
  lemma {:induction false} LabelSpansAppend(a: seq<NerSpan>, b: seq<NerSpan>, c: Counters)
    requires LettersFit(a + b, c)
    ensures LettersFit(a, c)
    ensures LettersFit(b, LabelSpans(a, c).counters)
    ensures LabelSpans(a + b, c)
      == Labelled(LabelSpans(a, c).entities + LabelSpans(b, LabelSpans(a, c).counters).entities,
                  LabelSpans(b, LabelSpans(a, c).counters).counters)
    decreases |a|
  {
    LettersFitSplit(a, b, c);
    if a == [] {
      assert a + b == b;
    } else {
      var s, tail := a[0], a[1..];
      var c' := Advance(s, c);
      assert (a + b)[1..] == tail + b && (a + b)[0] == s;
      AdvanceFits(a, c);
      AdvanceFits(a + b, c);
      LabelSpansAppend(tail, b, c');
      var left := LabelSpans(tail, c');
      var right := LabelSpans(b, left.counters);
      var emitted := Emitted(s, c);
      assert LabelSpans(a, c) == Labelled(emitted + left.entities, left.counters);
      assert LabelSpans(a + b, c).entities == emitted + LabelSpans(tail + b, c').entities;
      assert emitted + (left.entities + right.entities) == (emitted + left.entities) + right.entities;
    }
  }

  /** Two successive requests naming one person each: the first gets
      "Personne A", the second "Personne B", because the counter survives
      between requests. */
  lemma SecondRequestContinues(first: NerSpan, second: NerSpan)
    requires first.tag == PersonLabel && second.tag == PersonLabel
    ensures LettersFit([first], InitialCounters)
    ensures LettersFit([second], Extract(Some([first]), InitialCounters).counters)
    ensures var r1 := Extract(Some([first]), InitialCounters);
      && |r1.entities| == 1 && r1.entities[0].replacement == "Personne A"
      && var r2 := Extract(Some([second]), r1.counters);
         |r2.entities| == 1 && r2.entities[0].replacement == "Personne B"
  {
    assert [first][1..] == [];
    assert [second][1..] == [];
    LabelsDiffer();
    assert CountLabel([first], OrgLabel) == 0;
    assert CountLabel([second], OrgLabel) == 0;
    assert Recognised([first]) == [first];
    assert Recognised([second]) == [second];
    assert PersonStem + ['A'] == "Personne A";
    assert PersonStem + ['B'] == "Personne B";
  }
}
