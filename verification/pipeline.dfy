/** The detection request (process_document in backend/server.py): the
    pattern pass always runs, the named-entity pass only in advanced mode
    with a model loaded, and duplicates are removed, first one winning. The
    clock is not modelled, so the response carries no processing time. */
module Pipeline {
  import opened Entities
  import PatternRules
  import NamedEntities
  import Dedup

  /** ProcessingMode. The Ollama mode is accepted but adds no entity. */
  datatype ProcessingMode = StandardMode | AdvancedMode | OllamaMode

  /** ProcessingResponse without `processing_time`. */
  datatype Response = Response(
    entities: seq<Entity>,
    modeUsed: ProcessingMode,
    totalOccurrences: nat,
    spacyAvailable: bool,
    ollamaAvailable: bool)

  /** A response and the named-entity counters the service keeps afterwards. */
  datatype Processed = Processed(response: Response, counters: NamedEntities.Counters)

  /** The named-entity pass runs only in advanced mode with a model. */
  predicate RunsNer(mode: ProcessingMode, model: Option<seq<NamedEntities.NerSpan>>) {
    mode == AdvancedMode && model.Some?
  }

  /** What the caller must guarantee: the matches fit the content, and when
      the named-entity pass runs, the letter counters stay in range. */
  predicate Admissible(content: string, mode: ProcessingMode, matches: PatternRules.Matches,
                       model: Option<seq<NamedEntities.NerSpan>>, counters: NamedEntities.Counters)
  {
    PatternRules.WellFormed(content, matches)
    && (RunsNer(mode, model) ==> NamedEntities.LettersFit(model.value, counters))
  }

  /** The named-entity pass as process_document runs it: skipped, with the
      counters left alone, unless RunsNer. */
  function NerPass(mode: ProcessingMode, model: Option<seq<NamedEntities.NerSpan>>, counters: NamedEntities.Counters)
    : (r: NamedEntities.Labelled)
    requires RunsNer(mode, model) ==> NamedEntities.LettersFit(model.value, counters)
    ensures AllLocated(r.entities)
    ensures forall e :: e in r.entities ==> e.source == Ner
    ensures !RunsNer(mode, model) ==> r.entities == [] && r.counters == counters
  {
    if RunsNer(mode, model) then
      NamedEntities.LabelSpansShape(model.value, counters);
      NamedEntities.Extract(model, counters)
    else NamedEntities.Labelled([], counters)
  }

  /** The entities of both passes, pattern entities first. */
  function Detected(content: string, mode: ProcessingMode, matches: PatternRules.Matches,
                    model: Option<seq<NamedEntities.NerSpan>>, counters: NamedEntities.Counters)
    : (all: seq<Entity>)
    requires Admissible(content, mode, matches, model, counters)
    ensures AllLocated(all)
  {
    var regex := PatternRules.ExtractEntities(content, matches);
    var ner := NerPass(mode, model, counters).entities;
    PatternRules.ExtractShape(content, matches);
    Dedup.DedupAppend(regex, ner, {});
    regex + ner
  }

  /** process_document: the response lists the unique pattern entities
      first, then the named entities whose key no pattern entity (and no
      earlier named entity) took, so every detected key is named exactly
      once. */
  function ProcessDocument(content: string, mode: ProcessingMode, matches: PatternRules.Matches,
                           model: Option<seq<NamedEntities.NerSpan>>, counters: NamedEntities.Counters)
    : (p: Processed)
    requires Admissible(content, mode, matches, model, counters)
    ensures p.response.totalOccurrences == |p.response.entities|
    ensures p.response.modeUsed == mode
    ensures p.response.spacyAvailable <==> model.Some?
    ensures !p.response.ollamaAvailable
    ensures p.counters == NerPass(mode, model, counters).counters
    ensures AllLocated(p.response.entities) && Dedup.DistinctKeys(p.response.entities)
    ensures AllLocated(PatternRules.ExtractEntities(content, matches))
    ensures Dedup.KeysOf(p.response.entities)
      == Dedup.KeysOf(PatternRules.ExtractEntities(content, matches))
         + Dedup.KeysOf(NerPass(mode, model, counters).entities)
    ensures p.response.entities
      == Dedup.Unique(PatternRules.ExtractEntities(content, matches))
         + Dedup.DedupFrom(NerPass(mode, model, counters).entities,
                           Dedup.KeysOf(PatternRules.ExtractEntities(content, matches)))
  {
    var regex := PatternRules.ExtractEntities(content, matches);
    var ner := NerPass(mode, model, counters).entities;
    PatternRules.ExtractShape(content, matches);
    PooledUnique(regex, ner);
    var unique := Dedup.Unique(Detected(content, mode, matches, model, counters));
    Processed(Response(unique, mode, |unique|, model.Some?, false), NerPass(mode, model, counters).counters)
  }

  /** Removing duplicates from the pooled list keeps the unique pattern
      entities, then the named entities whose key is new. */
  lemma PooledUnique(regex: seq<Entity>, ner: seq<Entity>)
    requires AllLocated(regex) && AllLocated(ner)
    ensures AllLocated(regex + ner)
    ensures Dedup.Unique(regex + ner) == Dedup.Unique(regex) + Dedup.DedupFrom(ner, Dedup.KeysOf(regex))
    ensures Dedup.KeysOf(Dedup.Unique(regex + ner)) == Dedup.KeysOf(regex) + Dedup.KeysOf(ner)
  {
    Dedup.DedupAppend(regex, ner, {});
    assert {} + Dedup.KeysOf(regex) == Dedup.KeysOf(regex);
    Dedup.KeysOfAppend(regex, ner);
  }

  /** Outside advanced mode with a model, the response is the pattern
      entities with duplicates removed, every entity is a pattern entity,
      and the letter counters do not move. */
  lemma PatternsOnly(content: string, mode: ProcessingMode, matches: PatternRules.Matches,
                     model: Option<seq<NamedEntities.NerSpan>>, counters: NamedEntities.Counters)
    requires Admissible(content, mode, matches, model, counters)
    requires !RunsNer(mode, model)
    ensures AllLocated(PatternRules.ExtractEntities(content, matches))
    ensures ProcessDocument(content, mode, matches, model, counters).response.entities
      == Dedup.Unique(PatternRules.ExtractEntities(content, matches))
    ensures forall e :: e in ProcessDocument(content, mode, matches, model, counters).response.entities ==>
      e.source == Regex
    ensures ProcessDocument(content, mode, matches, model, counters).counters == counters
  {
    var regex := PatternRules.ExtractEntities(content, matches);
    PatternRules.ExtractShape(content, matches);
    assert Dedup.DedupFrom([], Dedup.KeysOf(regex)) == [];
    assert Dedup.Unique(regex) + [] == Dedup.Unique(regex);
  }

  /** When a named entity and a pattern entity cover the same text at the
      same place, only the pattern entity is reported. */
  lemma PatternWinsTies(content: string, mode: ProcessingMode, matches: PatternRules.Matches,
                        model: Option<seq<NamedEntities.NerSpan>>, counters: NamedEntities.Counters)
    requires Admissible(content, mode, matches, model, counters)
    ensures AllLocated(PatternRules.ExtractEntities(content, matches))
    ensures forall e ::
              e in NerPass(mode, model, counters).entities
              && KeyOf(e) in Dedup.KeysOf(PatternRules.ExtractEntities(content, matches))
              ==> e !in ProcessDocument(content, mode, matches, model, counters).response.entities
  {
    var regex := PatternRules.ExtractEntities(content, matches);
    var ner := NerPass(mode, model, counters).entities;
    PatternRules.ExtractShape(content, matches);
    forall e | e in ner && KeyOf(e) in Dedup.KeysOf(regex)
      ensures e !in ProcessDocument(content, mode, matches, model, counters).response.entities
    {
      Dedup.FirstWinsFrom(ner, Dedup.KeysOf(regex), e);
      assert e !in Dedup.Unique(regex);
    }
  }
}
