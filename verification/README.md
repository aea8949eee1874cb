# Anonymiseur juridique: detection and redaction core

This project models the core of the French legal-document anonymiser in
`backend/server.py` and proves properties about it in Dafny. The core:

- finds sensitive spans in a document with a fixed list of pattern rules,
  gated for SIRET numbers by a Luhn checksum (`RegexService`);
- optionally labels persons and organisations from a statistical model
  (`NERService`);
- pools both kinds of entity and removes duplicates (`process_document`);
- rewrites the document, replacing every selected entity's span with its
  placeholder (`DocumentProcessor.apply_anonymization`).

Modules:

- `Entities` (`entities.dfy`): the data model, i.e. entity types, sources,
  positions, entities, and the duplicate key `(text, start, end)`.
- `Luhn` (`luhn.dfy`): `luhn_check`, together with a reference definition
  of the Luhn sum.
- `PatternRules` (`patterns.dfy`): `RegexService.extract_entities`. What
  `re.finditer` yields for each of the ten patterns is an input. The order
  of the loops, the SIRET gate and each entity's fields are modelled.
- `NamedEntities` (`ner.dfy`): `NERService.extract_entities`. The spans the
  model reports are an input. The two letter counters that persist between
  requests are threaded through the calls as explicit state.
- `Dedup` (`dedup.dfy`): the first-wins duplicate removal loop.
- `Pipeline` (`pipeline.dfy`): `process_document`, covering the mode
  dispatch, pooling, deduplication and response fields.
- `Rewrite` (`rewrite.dfy`): `apply_anonymization`. It covers the
  selection filter, the stable descending sort and Python slice semantics.
- `Seqs` (`seqs.dfy`): generic sequence facts about reversal, subsequences
  and sums.

Facts about `backend/server.py` the model keeps:

- The placeholders are `"Personne X"` and `"Organisation X"`
  (server.py:243, 254).
- The letter counters are fields of the module-level `NERService`
  (server.py:226-227, 312). They start at 1 and are never reset, so a
  second request continues the lettering (see
  `NamedEntities.SecondRequestContinues`).
- The modes are `STANDARD`, `ADVANCED` and `OLLAMA` (server.py:44-47). The
  provenance tags are `REGEX`, `NER`, `OLLAMA` and `MANUAL`
  (server.py:59-63).

## Model

| member | source | states |
|---|---|---|
| Luhn.LuhnCheck | backend/server.py:130-142 | For every digit string, the slice-and-sum check (`digits[-1::-2]` summed as is, `digits[-2::-2]` doubled with its digits summed, total mod 10 equal to 0) holds exactly when the positional Luhn sum from the rightmost digit is a multiple of ten. |
| Luhn.StepBackElements | backend/server.py:136-137 | `StepBack(ds, n)` has (n+1)/2 elements, the k-th being the digit at index n-1-2k. For 1 <= n <= len(ds) that is the slice `digits[n-1::-2]`, so n = len(ds) gives `digits[-1::-2]` and n = len(ds)-1 gives `digits[-2::-2]`; for n = 0 it is empty, which is `digits[-2::-2]` of a one-digit list. |
| Luhn.SlicesMatchWeights | backend/server.py:132-141 | For any run of decimal digits, the plain sum of `digits[-1::-2]` plus the doubled-digit sum of `digits[-2::-2]` equals the positional Luhn sum, with odd places from the right counted as they are and even places doubled; with the roles swapped it equals the sum with the parities exchanged. |
| Luhn.DoubledDigitSum | backend/server.py:139-140 | `sum(digits_of(d*2))` for a single digit is the doubled digit, less nine when doubling carries. |
| Luhn.SingleDigitErrorDetected | backend/server.py:130-142 | If a number passes the check, changing any one of its digits to a different digit makes it fail. |
| Luhn.ChecksumOfFourteen | backend/server.py:135-141 | For a fourteen-digit SIRET, the checksum is the explicit weighted sum of its seven odd-place digits and its seven doubled even-place digits, mod 10. |
| Luhn.ValidSiretExample | backend/server.py:130-142 | The SIRET 73282932000074 passes the check. |
| Luhn.InvalidSiretExample | backend/server.py:130-142 | The fourteen digits 12345678901234 fail the check. |
| PatternRules.PatternAt | backend/server.py:148-208 | The k-th pattern run has rank k, so run order and rank agree. |
| PatternRules.RankPlacesPattern | backend/server.py:148-208 | Each of the ten patterns is run exactly once, at its rank. |
| PatternRules.EntityOf | backend/server.py:150-214 | An entity built from a match has source REGEX and confidence 1.0. It is selected, has the match as its only position, takes its text from the matched slice, and carries its category's fixed placeholder. |
| PatternRules.HitsFrom | backend/server.py:149-213 | One pattern's loop yields at most one entity per remaining match, and exactly one per match for every pattern but the SIRET one, the only loop with a gate. |
| PatternRules.HitsFromSound | backend/server.py:149-181 | Every match one pattern's loop turns into an entity is a match of that pattern, from the loop's current index on, lies in the text and passes the pattern's gate. |
| PatternRules.HitsFromOrdered | backend/server.py:149-157 | The matches that one pattern turns into entities keep the order `re.finditer` returned them in. |
| PatternRules.HitsFromComplete | backend/server.py:171-181 | Every accepted match of a pattern becomes an entity of that pattern's loop. |
| PatternRules.PlanFromSound | backend/server.py:144-218 | Every emitted entity comes from an existing match that passes its gate. |
| PatternRules.PlanFromOrdered | backend/server.py:144-218 | Emitted entities are ordered by pattern, then by match order within a pattern. |
| PatternRules.PlanFromComplete | backend/server.py:144-218 | Every accepted match of every pattern is emitted. |
| PatternRules.EmissionOrder | backend/server.py:144-218 | The emitted matches (`Plan`, the two nested loops) are exactly the accepted ones, in pattern-then-match order. |
| PatternRules.Materialise | backend/server.py:150-216 | One entity per emitted match. |
| PatternRules.MaterialiseAt | backend/server.py:150-216 | The entity at each place in the list is the one built from the emitted match at that place. |
| PatternRules.ExtractEntities | backend/server.py:144-218 | The result has one entity per emitted match. |
| PatternRules.ExtractFollowsPlan | backend/server.py:144-218 | The m-th entity is the entity built from the m-th emitted match. |
| PatternRules.ExtractShape | backend/server.py:150-216 | Every extracted entity has the pattern-entity shape and a position. |
| PatternRules.ExtractSiretsPass | backend/server.py:171-181 | Every extracted SIRET entity is a digit string that passes the Luhn check. |
| PatternRules.ExtractCategoryOrder | backend/server.py:147-216 | Categories come out in the order phone, e-mail, SIRET, social security, address, legal reference. |
| PatternRules.CategoryFollowsRank | backend/server.py:147-216 | Category order agrees with the order in which the pattern loops run. |
| PatternRules.SiretGate | backend/server.py:171-181 | A SIRET match yields an entity if and only if its digits pass the Luhn check. |
| PatternRules.SiretKept | backend/server.py:173-181 | A SIRET match that passes the check is extracted. |
| PatternRules.SiretDropped | backend/server.py:171-173 | A SIRET match that fails the check leaves no entity. |
| NamedEntities.Recognised | backend/server.py:236-257 | The spans that produce entities are exactly the PER and ORG spans of the model's output. |
| NamedEntities.RecognisedLength | backend/server.py:236-257 | The number of produced entities is the number of PER spans plus the number of ORG spans. |
| NamedEntities.RecognisedCounts | backend/server.py:236-257 | Dropping the other tags does not change the PER or ORG counts. |
| NamedEntities.LabelSpans | backend/server.py:236-257 | After a run, each counter has grown by the number of spans with its tag. |
| NamedEntities.Emitted | backend/server.py:237-257 | A PER span yields one person with the span's text and offsets, confidence 0.9 by default, and placeholder "Personne " followed by the character of code 64 plus the person counter. An ORG span yields the same with "Organisation ", 0.85 and the organisation counter. Any other span yields nothing. |
| NamedEntities.Advance | backend/server.py:237-257 | A PER span moves the person counter on by one, an ORG span the organisation counter, and any other span neither. |
| NamedEntities.LabelSpansLength | backend/server.py:236-257 | A run yields one entity per PER or ORG span. |
| NamedEntities.LabelSpansShape | backend/server.py:238-256 | Every labelled entity has source NER, is selected, has one position, and is a person or an organisation. |
| NamedEntities.LabelSpansMeaning | backend/server.py:236-257 | Entity j comes from the j-th recognised span: its text and position come from the span. Its confidence is the model's value, or 0.9 / 0.85 by default. Its placeholder is "Personne " or "Organisation " followed by chr(64 + counter + number of earlier spans with the same tag). |
| NamedEntities.DistinctLetters | backend/server.py:243-257 | Within a run, two persons never share a placeholder, and neither do two organisations. |
| NamedEntities.LettersFitSplit | backend/server.py:243-257 | The letter bound for a whole run covers both halves of it. |
| NamedEntities.LabelSpansAppend | backend/server.py:226-257 | Labelling two stretches in turn, the second from the counters the first left, equals labelling them together. |
| NamedEntities.Extract | backend/server.py:229-259 | Without a model, the result is empty and the counters are unchanged. With a model, there is one entity per PER/ORG span and each counter grows by its tag's count. |
| NamedEntities.SecondRequestContinues | backend/server.py:224-257 | Two successive requests naming one person each get "Personne A", then "Personne B". |
| Dedup.KeysOf | backend/server.py:353 | The key set holds exactly the `(text, start, end)` keys of the list. |
| Dedup.DedupFrom | backend/server.py:349-356 | The loop keeps only entities from its input. |
| Dedup.DedupFromKeys | backend/server.py:349-356 | Exactly the keys not seen before survive, and none survives twice. |
| Dedup.DedupFromSubsequence | backend/server.py:349-356 | Survivors keep their relative order. |
| Dedup.DedupAppend | backend/server.py:349-356 | Running the loop over two stretches in turn, carrying the seen set, equals running it over both. |
| Dedup.UniqueIsUniqueByPrefix | backend/server.py:349-356 | The loop agrees with a reference definition that keeps an entity exactly when no earlier entity has its key. |
| Dedup.FirstWins | backend/server.py:349-356 | An entity is kept if and only if it sits at the first index holding its key. |
| Dedup.FirstWinsFrom | backend/server.py:349-356 | First wins, starting from an arbitrary seen set. |
| Dedup.DedupFromDistinct | backend/server.py:349-356 | A list with distinct, unseen keys passes through unchanged. |
| Dedup.Idempotent | backend/server.py:349-356 | Removing duplicates twice removes nothing more. |
| Dedup.Unique | backend/server.py:349-356 | Every input key is kept and no key is repeated. |
| Dedup.UniqueKeepsOrder | backend/server.py:349-356 | The output is a subsequence of the input. |
| Pipeline.NerPass | backend/server.py:339-347 | The named-entity pass runs only in ADVANCED mode with a model; otherwise it adds nothing and leaves the counters alone. OLLAMA mode adds nothing. |
| Pipeline.Detected | backend/server.py:333-342 | The pooled entities all carry a position. |
| Pipeline.ProcessDocument | backend/server.py:333-367 | The response lists the deduplicated pattern entities first, then the named entities whose key no pattern entity took. It names every detected key exactly once. `total_occurrences` is the number of returned entities and `mode_used` is the request's mode. `spacy_available` holds exactly when a model is loaded, and `ollama_available` is false. The counters afterwards are those of the named-entity pass. |
| Pipeline.PatternsOnly | backend/server.py:339-347 | Outside ADVANCED mode with a model, the response is the deduplicated pattern entities, all from REGEX, and the counters do not move. |
| Pipeline.PatternWinsTies | backend/server.py:335-356 | A named entity with the same text and position as a pattern entity is not reported. |
| Rewrite.Selected | backend/server.py:298 | The filtered list holds exactly the selected entities. |
| Rewrite.Splice | backend/server.py:306 | For a span inside the text, one replacement keeps the text before the span, inserts the placeholder, and keeps the text after the span; the length changes accordingly. |
| Rewrite.InsertByStart | backend/server.py:297-301 | Insertion adds exactly one copy of the inserted entity and keeps every other entity. |
| Rewrite.InsertBelow | backend/server.py:297-301 | Insertion adds no start above a bound that the list and the inserted entity respect. |
| Rewrite.InsertKeepsDescending | backend/server.py:297-301 | Insertion keeps starts non-increasing. |
| Rewrite.SortByStartDesc | backend/server.py:297-301 | The sort is a permutation of its input with non-increasing starts. It is stable: entities with equal starts keep their input order, as Python's `sorted(..., reverse=True)` does. |
| Rewrite.InsertKeepsTies | backend/server.py:297-301 | An inserted entity goes in front of the entities with the same start. |
| Rewrite.ApplyAnonymization | backend/server.py:294-308 | The loop computes the redaction, and with nothing selected the document comes back unchanged. |
| Rewrite.Anonymize | backend/server.py:294-308 | With no entity selected the document comes back unchanged. |
| Rewrite.SelectedAppend | backend/server.py:298 | Filtering distributes over concatenation. |
| Rewrite.UnselectedIrrelevant | backend/server.py:298 | An unselected entity anywhere in the list does not affect the result. |
| Rewrite.SelectedCounts | backend/server.py:298 | An entity occurs among the selected ones as often as in the input if it is selected, and never otherwise. |
| Rewrite.RebuildLength | backend/server.py:294-308 | The left-to-right reading has the document's length, less the spans, plus the placeholders. |
| Rewrite.SpliceAllReversed | backend/server.py:304-306 | Splicing an ascending chain of disjoint spans from last to first equals the left-to-right rebuild. |
| Rewrite.SortedUnique | backend/server.py:297-301 | For distinct starts, the descending sort is the unique strictly descending arrangement. |
| Rewrite.SeparatedPermutation | backend/server.py:297-301 | Rearranging disjoint, in-text spans keeps them disjoint and in the text. |
| Rewrite.ProcessingOrderIsChain | backend/server.py:297-306 | For disjoint selected spans, the processing order read backwards is an ascending chain. |
| Rewrite.ClosedForm | backend/server.py:294-308 | For disjoint spans inside the document, the result is the document read left to right with each selected span replaced by its placeholder. |
| Rewrite.LengthFormula | backend/server.py:294-308 | For disjoint spans inside the document, the result length is the document length, less the selected spans, plus their placeholders. |
| Rewrite.OrderIndependent | backend/server.py:294-308 | For disjoint spans, the result does not depend on the order the entities are listed in. |

## Left out

- Endpoints, FastAPI, CORS, MongoDB, logging, DOCX generation, the health check, the Ollama connection test and `backend_test.py`: I/O and framework code around the core.
- spaCy model loading and inference: what the model recognises is an input, the list of tagged spans in document order, or `None` when no model is loaded.
- `OllamaService`: its `extract_entities` returns nothing. The model treats OLLAMA mode as adding no entities; availability probing is network I/O.
- The regular expressions: what `re.finditer` yields for each pattern is an input.
- `PatternRules.ExtractEntities`: requires every match to lie inside the text and every SIRET match to be an ASCII digit string. Python's `\d` also matches other Unicode digits, which `int()` would accept.
- `Luhn.LuhnCheck`: requires an ASCII digit string. `luhn_check` would also accept other Unicode decimal digits, which `int()` converts.
- `NamedEntities.LabelSpans`: requires each counter, plus the labels still to come, to stay at or below 0xD7C0. Dafny characters exclude the surrogate block, so `chr(64 + k)` beyond that is not represented. The same bound applies to `NamedEntities.Extract`, and to `Pipeline.ProcessDocument` when the named-entity pass runs (ADVANCED mode with a model); in the other modes no letter is handed out and no bound is required.
- `NamedEntities.Emitted`: the confidence is the model's value or the default, without the `round(..., 2)` the source applies, since reals are not rounded in the model.
- `NamedEntities.LabelSpansMeaning`: the confidence is the model's value or the default, without the `round(..., 2)` the source applies, since reals are not rounded in the model.
- `Rewrite.ApplyAnonymization`: requires every selected entity to have a position. The source raises `IndexError` on a selected entity without one, and does so before any rewriting.
- `Rewrite.Anonymize`: the same requirement, that every selected entity has a position, for the same reason.
- `Rewrite.ClosedForm`, `Rewrite.LengthFormula` and `Rewrite.OrderIndependent`: stated only for non-empty, disjoint spans inside the document. For overlapping spans the result depends on how the replacements interleave, and the model only computes it.
- Entity ids (uuid4), `processing_time` (clock) and the request's filename are not part of the model.
- Concurrency of requests sharing the counters: requests are modelled as sequential calls threading the counters.
