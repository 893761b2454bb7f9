# AMD knowledge graph: relation refinement, context assembly and their string tools

This project models, in Dafny, the deterministic core of a system that builds
and queries a knowledge graph of causal relations about age-related macular
degeneration (AMD). The language-model calls, the triple store, the vector
store and the user interfaces around it are parameters or are left out.
What remains is list, string, dict and set logic, and each piece is proved
against a specification.

- **Relation refinement** (`Disambiguation`, backend/disambiguation/disambiguation.py).
  Entity names are normalised. Empty names and self-relations are dropped.
  Duplicates are removed by their 6-tuple key, and the first occurrence wins.
  Each name's entity type is then settled by majority vote, with a fixed tie-break
  priority. `ResolveEntityTypes` rewrites an `array` of relations in place,
  as the source rewrites its dicts. `RefineRelations` grows its output and its seen-key set in a loop.
  `NormalizeEntityName` pops trailing words in a loop.
- **Context assembly** (`RagSystem`, backend/weaviate_rag/rag_system.py).
  Entities are selected by position and relations are scored.
  Relations then fill per-entity buckets of at most 3.
  The selection is rendered as sentences with publication links.
  The text is trimmed on whole `"\n\n"` blocks, and sources are extracted.
  `Query` models the part of `query` that runs after the search, with the search hits as input.
- **SPARQL writers and model-output parsers** (`BulkRelations`, `EnrichDeepseek`, `EnrichKg`).
  The batched `INSERT DATA` builder and the single-query builders are modelled here.
  So are the fixed-shape relation-literal extractor with its label check, and the `{…}`-span extractor.
- **Small string tools** (`GetData`, `IngestData`, `SearchKg`, `QueryAnalyzer`,
  `Giskard`, `ThinkTags`, `CreateVector`, `SparqlResults`).
  These cover URI fragments, the SPARQL and Cypher query strings, and the prompt-injection filter.
  They also cover `<think>` stripping and the text snippet stored beside each relation.
- **Session state and set algebra** (`Chatbot`, `StreamlitEval`).
  The chat history window is a class whose methods change the stored history and model.
  The reasoning-model stream is routed between a thinking step and the answer.
  Triples and entity types are compared across repositories, and the overlap matrix is filled cell by cell in a 2-D array.

`Strings` (ASCII character classes, split, join, strip, collapse) and
`Wrappers` (`Option`, `Result`, Python truthiness) are shared helpers.
Uuid generation, Python's set iteration order and every network call are
inputs to the model. `json.loads` and `ast.literal_eval` are replaced by
small decoders inside the model (`EnrichDeepseek.DecodeObject`,
`BulkRelations.LiteralEval`) that accept only the flat string-valued
objects the modelled code expects.

### Behaviour worth knowing

- Name normalisation is **not** idempotent. Trailing `cnv`/`ga` words are removed before the
  embedded `amd`/`cnv` words are deleted. So `"a b ga amd"` normalises to `"a b ga"`,
  and that normalises to `"a b"` (`Disambiguation.NormalizationNotIdempotent`).
- Relations kept as distinct by refinement can become identical once their types are resolved
  (`Disambiguation.ResolutionCanMergeKept`). Key uniqueness therefore holds before the final type resolution, not after it.
- When search hits exist but no relation is selected, `query` returns an empty context string.
  It does not return a "no information" marker.
  Only an empty search sets the error "No relevant information found".
- Entity ingestion logs a failing row using the loop's IRI variable.
  If the first row lacks its `entity` binding, that variable is unbound.
  The resulting `NameError` escapes the row handler, and the outer handler ends the whole pass.
  This is modelled as `Run.aborted` (`IngestData.EntitiesAbortOnFirstRow`).

## Model

| member | source | states |
|---|---|---|
| `Disambiguation.MostFrequentTypeWins` | backend/disambiguation/disambiguation.py:26-53 | No label for an empty table. Otherwise the label has the maximum count, and among labels with that count it has the highest priority. |
| `Disambiguation.HighestPriorityOfCandidates` | backend/disambiguation/disambiguation.py:47-53 | The label picked from the tied candidates sits in the table at the maximum count and is not outranked by any other label with that count. |
| `Disambiguation.CountBeatsPriority` | backend/disambiguation/disambiguation.py:42-50 | {test: 5, disease: 2} resolves to test: the count beats the priority. |
| `Disambiguation.PriorityBreaksTie` | backend/disambiguation/disambiguation.py:27-53 | {test: 3, disease: 3} resolves to disease. |
| `Disambiguation.TallyCounts` | backend/disambiguation/disambiguation.py:57-66 | The nested count table holds, for every lower-cased name and type, the number of times that pair occurs on either side. |
| `Disambiguation.TallyAmbiguous` | backend/disambiguation/disambiguation.py:69-70 | A name has more than one entry in the count table iff it occurs with two distinct types. |
| `Disambiguation.ResolvedTypesSpec` | backend/disambiguation/disambiguation.py:68-72 | The resolution map has an entry for a name iff the name has several types, and that entry is `get_most_frequent_type` of its counts. |
| `Disambiguation.ResolutionIsMajority` | backend/disambiguation/disambiguation.py:59-72 | A name is resolved iff it is ambiguous. Its resolved type occurs, no type occurs more often, and no type with the same count has a higher priority. |
| `Disambiguation.ResolveAll` | backend/disambiguation/disambiguation.py:75-89 | Length, order, names, relation type and publication id are kept. Only the two type fields can change. |
| `Disambiguation.ResolveAllSightings` | backend/disambiguation/disambiguation.py:75-87 | Each occurrence of a resolved name, on either side, gets the resolved type. Every other occurrence keeps its type. |
| `Disambiguation.ResolveAllUnambiguous` | backend/disambiguation/disambiguation.py:68-87 | After resolution, no name occurs with two distinct types. |
| `Disambiguation.ResolveAllIdempotent` | backend/disambiguation/disambiguation.py:56-89 | Resolving twice equals resolving once. |
| `Disambiguation.ResolveEntityTypes` | backend/disambiguation/disambiguation.py:56-89 | The count loop, the resolution loop and the in-place rewrite leave the array equal to the resolution of its old contents. |
| `Disambiguation.DropTrailing` | backend/disambiguation/disambiguation.py:107-108 | The popping loop leaves a prefix of the words. The prefix does not end in cnv/ga, and every popped word is cnv or ga. |
| `Disambiguation.RemoveWordAbsent` | backend/disambiguation/disambiguation.py:112-113 | The whole-word deletion leaves a string without a whole-word occurrence unchanged. |
| `Disambiguation.NormalizeEntityName` | backend/disambiguation/disambiguation.py:92-121 | The method with the popping loop computes the normalised name. |
| `Disambiguation.NormalizedNameShape` | backend/disambiguation/disambiguation.py:92-121 | A non-string gives "". Every result, synonym replacements included, is lower-case and single-spaced, with no leading or trailing space. |
| `Disambiguation.SynonymValuesShape` | backend/disambiguation/disambiguation.py:5-21 | Every replacement in the synonym table is lower-case and single-spaced, with no leading or trailing space. |
| `Disambiguation.CanonicalNameShape` | backend/disambiguation/disambiguation.py:97-115 | Before the synonym lookup, the name is lower-case and collapsed. |
| `Disambiguation.ShortNameNormalization` | backend/disambiguation/disambiguation.py:96-121 | A name of at most two words changes only by case, whitespace and an exact synonym lookup. |
| `Disambiguation.AcronymExpands` | backend/disambiguation/disambiguation.py:117-119 | "AMD" becomes "age-related macular degeneration". |
| `Disambiguation.TrailingSpaceTrimmed` | backend/disambiguation/disambiguation.py:96-100 | "Retina " becomes "retina". |
| `Disambiguation.NormalizationNotIdempotent` | backend/disambiguation/disambiguation.py:105-115 | Some name normalises to a name that normalises further, for example "a b ga amd" → "a b ga" → "a b". |
| `Disambiguation.Candidate` | backend/disambiguation/disambiguation.py:128-140 | A relation survives the name checks only with two non-empty, different normalised names. |
| `Disambiguation.KeepFirstUnique` | backend/disambiguation/disambiguation.py:142-162 | No two kept relations share the 6-tuple key. |
| `Disambiguation.DedupSpec` | backend/disambiguation/disambiguation.py:124-162 | Kept relations have non-empty, distinct names. They are exactly the surviving candidates, with pairwise distinct keys. The output for an input prefix is a prefix of the output (first-seen order). |
| `Disambiguation.RefineRelations` | backend/disambiguation/disambiguation.py:124-166 | The loop with its seen-key set and output list, followed by type resolution, gives the type resolution of the deduplicated candidates. |
| `Disambiguation.RefinedRelationsSpec` | backend/disambiguation/disambiguation.py:124-166 | Refined relations have non-empty, distinct names, and no name in the output has two types. |
| `Disambiguation.ResolutionCanMergeKept` | backend/disambiguation/disambiguation.py:151-164 | Two relations with different keys can become identical after type resolution. |
| `Disambiguation.ReplaceRuns` | backend/disambiguation/disambiguation.py:171 | After each run of whitespace and non-word characters becomes '_', only word characters remain. |
| `Disambiguation.SanitizedShape` | backend/disambiguation/disambiguation.py:169-174 | The sanitised name has only word characters and neither starts nor ends with '_'. |
| `Disambiguation.SanitizeIdempotent` | backend/disambiguation/disambiguation.py:169-174 | Sanitising twice equals sanitising once. |
| `RagSystem.TrimContext` | backend/weaviate_rag/rag_system.py:50-69 | The accumulating loop returns the trimmed context. |
| `RagSystem.FitCountCost` | backend/weaviate_rag/rag_system.py:61-67 | The kept blocks, each charged its length plus 2, fit the budget. |
| `RagSystem.TrimmedSpec` | backend/weaviate_rag/rag_system.py:53-69 | A string within budget is unchanged. Otherwise the result is a prefix of the input no longer than the budget, and it is "" when the first block does not fit. |
| `RagSystem.TrimmedIdempotent` | backend/weaviate_rag/rag_system.py:53-54 | Trimming a trimmed string changes nothing. |
| `RagSystem.Rank` | backend/weaviate_rag/rag_system.py:137-140 | The rank is the position of the first selected entity with that id, or the number of selected entities when none has it. |
| `RagSystem.ScoresSpec` | backend/weaviate_rag/rag_system.py:127-145 | The score table has distinct keys. Each entry is the last relation with that id touching the selection, with its score. Every such relation has an entry. |
| `RagSystem.SortByScoreSpec` | backend/weaviate_rag/rag_system.py:149 | Sorting by score gives a sorted permutation of the scored entries, and it is stable: the entries of each score keep their input order. |
| `RagSystem.FillGood` | backend/weaviate_rag/rag_system.py:151-160 | Every bucket holds at most 3 relations, each taken from the input and touching the bucket's entity. |
| `RagSystem.BucketedRelationsSpec` | backend/weaviate_rag/rag_system.py:147-162 | The bucketed relations are a sub-multiset of the sorted relations, and the buckets are well formed. |
| `RagSystem.BucketedCountOnce` | backend/weaviate_rag/rag_system.py:151-162 | Each relation lands in at most one bucket. |
| `RagSystem.SelectRelevantContext` | backend/weaviate_rag/rag_system.py:117-173 | The scoring, bucketing and assembly loops compute the selected context. |
| `RagSystem.ScoreRelations` | backend/weaviate_rag/rag_system.py:127-145 | The scoring loop builds the score table. |
| `RagSystem.FillBuckets` | backend/weaviate_rag/rag_system.py:147-160 | The bucket-filling loop builds the buckets. |
| `RagSystem.AssembleContext` | backend/weaviate_rag/rag_system.py:164-173 | The assembly loop lists each entity, followed by the selected relations touching it. |
| `RagSystem.AssembleEntities` | backend/weaviate_rag/rag_system.py:164-171 | The entities of the assembled list are exactly the selected entities, in order. |
| `RagSystem.SelectedContextShape` | backend/weaviate_rag/rag_system.py:121-171 | The context's entities are the first `max_entities` entity hits in input order. Every listed relation is a bucketed relation that touches a selected entity. |
| `RagSystem.SelectedContextCounts` | backend/weaviate_rag/rag_system.py:162-171 | A bucketed relation is listed once per selected entity it touches, after each of them. Any other relation is not listed. |
| `RagSystem.CleanPubNameInverse` | backend/weaviate_rag/rag_system.py:299-302 | Exactly one leading "PUB_" is stripped, and a name without it is unchanged. |
| `RagSystem.LinkTarget` | backend/weaviate_rag/rag_system.py:329-334 | Names starting "pub" get the publication URL, and the shown id is the name with each '_' turned into '.' and every other character kept. Other names get the clinical-trial URL verbatim. |
| `RagSystem.DisplayName` | backend/weaviate_rag/rag_system.py:318-321 | An entity name keeps its length and case, each '_' becomes a space, and every other character is kept. |
| `RagSystem.DisplayPredicate` | backend/weaviate_rag/rag_system.py:316 | The predicate keeps its length; each '_' becomes ' ', and the result is lower-cased. |
| `RagSystem.SentenceAttribution` | backend/weaviate_rag/rag_system.py:324-338 | A sentence ends "according to research." iff the relation has no publication, and ends with a link's ")." otherwise. |
| `RagSystem.FormatContext` | backend/weaviate_rag/rag_system.py:305-348 | The formatting loop returns the formatted context. |
| `RagSystem.FormattedContextSpec` | backend/weaviate_rag/rag_system.py:312-348 | Entities are skipped, and one sentence per relation is joined with "\n\n". No relations gives "". |
| `RagSystem.SentencesOfRelations` | backend/weaviate_rag/rag_system.py:312-342 | The sentences are those of the relation items, in order. |
| `RagSystem.ExtractSources` | backend/weaviate_rag/rag_system.py:351-362 | The loop collects the source set. |
| `RagSystem.SourceName` | backend/weaviate_rag/rag_system.py:359 | A listed source is the publication name with each '_' turned into '.' and every other character kept. |
| `RagSystem.SourcesOfSpec` | backend/weaviate_rag/rag_system.py:351-362 | A source is present iff some listed relation has a publication with that name, with '_' turned into '.'. |
| `RagSystem.Query` | backend/weaviate_rag/rag_system.py:72-108 | The post-search half of `query` computes the answer record. |
| `RagSystem.AnswerSpec` | backend/weaviate_rag/rag_system.py:74-108 | An empty search gives the error and the placeholder context. Otherwise there is no error, the entity count is the number of selected entities, and the context is a prefix of the rendering within the budget. The relation count is the number of (selected entity, bucketed relation touching it) pairs, so a relation joining two selected entities counts twice. A source is listed iff a listed relation has a named publication that renders to it. |
| `RagSystem.AssembleRelationCount` | backend/weaviate_rag/rag_system.py:164-171 | The assembled list holds one relation item per selected entity and listed relation touching it. |
| `BulkRelations.IsValidRelationExamples` | backend/bulk_relations.py:111-122 | Exact labels pass. A plural relation label or an unknown entity type fails. |
| `BulkRelations.MatchAt` | backend/bulk_relations.py:126 | A match at a position is the fixed-shape literal of five single-line values. |
| `BulkRelations.FindAll` | backend/bulk_relations.py:126-127 | Every match found occurs in the text with five single-line values. No matches means no position matches. |
| `BulkRelations.LiteralEvalSpec` | backend/bulk_relations.py:131 | Decoding succeeds iff no value holds a quote, a backslash, a carriage return or a NUL, and it gives the five values in order. |
| `BulkRelations.CarriageReturnRefused` | backend/bulk_relations.py:131-137 | A tuple whose entity name holds a carriage return is not decoded, so it is skipped. |
| `BulkRelations.ValidateOutput` | backend/bulk_relations.py:125-138 | The loop returns the valid decoded matches. |
| `BulkRelations.ValidateOutputSpec` | backend/bulk_relations.py:125-138 | The output is no longer than the number of matches. Every output dict is valid and decoded from a match, and every valid decoded match is output. |
| `BulkRelations.ValidatedPrefix` | backend/bulk_relations.py:129-133 | Order of appearance is kept: the output for a prefix of the matches is a prefix of the output. |
| `BulkRelations.StatementRStrip` | backend/bulk_relations.py:269-271 | `rstrip(' ;\n')` removes exactly the last " ;\n". |
| `BulkRelations.RelationLinesEnd` | backend/bulk_relations.py:255-260 | The RELATION lines end in a character that `rstrip` keeps. |
| `BulkRelations.TypeNameShape` | backend/bulk_relations.py:214-243 | A sanitised, upper-cased type holds only word characters and no lower-case letter. |
| `BulkRelations.CreateSparqlQueriesForBulkImport` | backend/bulk_relations.py:222-284 | The nested loops produce the batched queries. A zero batch size is an error. |
| `BulkRelations.BuildBlock` | backend/bulk_relations.py:238-279 | Each relation's block is the RELATION node, its provenance (or " ." when there is no publication) and two type statements. |
| `BulkRelations.RangesCount` | backend/bulk_relations.py:233 | There are ceil(n / batch_size) batches. |
| `BulkRelations.RangesTile` | backend/bulk_relations.py:233-234 | The batches are consecutive slices of batch_size that end at n. |
| `BulkRelations.BatchesCover` | backend/bulk_relations.py:233-281 | Joining the batches' blocks gives every relation's block once, in order. |
| `BulkRelations.BulkQueriesSpec` | backend/bulk_relations.py:222-284 | One query per batch range. The list is empty iff there are no relations, and query k holds the blocks of batch k between the header and "}}". |
| `EnrichDeepseek.FindChar` | backend/enrigh_kg_deepseek_r1.py:39 | The search finds the first occurrence of the character at or after a position. |
| `EnrichDeepseek.SpansWellFormed` | backend/enrigh_kg_deepseek_r1.py:39 | Each span starts with '{', ends with the first '}' after it, and holds no other '}'. |
| `EnrichDeepseek.SpansNone` | backend/enrigh_kg_deepseek_r1.py:39-42 | There are no spans iff no '{' is followed by a '}'. |
| `EnrichDeepseek.ConvertRelations` | backend/enrigh_kg_deepseek_r1.py:35-59 | A response without content gives []. Otherwise the loop keeps the decoded spans. |
| `EnrichDeepseek.KeptAllSpec` | backend/enrigh_kg_deepseek_r1.py:44-55 | Every kept object holds the five keys and comes from a span, and every span that decodes to an object with the five keys is kept. The output for a prefix of the spans is a prefix of the output. |
| `EnrichDeepseek.OddQuotesDropped` | backend/enrigh_kg_deepseek_r1.py:46-53 | A span with an odd number of quotes and apostrophes fails to decode and is dropped. |
| `EnrichDeepseek.ApostropheExample` | backend/enrigh_kg_deepseek_r1.py:47 | A name holding an apostrophe loses its relation. |
| `EnrichDeepseek.DecodeExample` | backend/enrigh_kg_deepseek_r1.py:47 | A simple object decodes to its map. |
| `EnrichDeepseek.AsRelations` | backend/enrigh_kg_deepseek_r1.py:72-96 | Each kept dict gives the relation with its five labels and names, and its `pub_id` when present. |
| `EnrichDeepseek.CreateSparqlQuery` | backend/enrigh_kg_deepseek_r1.py:62-119 | The single query over the kept dicts is the batch query over all their relations' blocks. |
| `EnrichDeepseek.SingleQueryIsOneBatch` | backend/enrigh_kg_deepseek_r1.py:71-119 | The single query equals the bulk importer's only batch when the batch size covers all relations. |
| `EnrichKg.CreateSparqlQuery` | backend/enrich_kg.py:54-88 | The accumulating loop builds header, per-relation statements and footer. |
| `EnrichKg.BuildStatements` | backend/enrich_kg_gpt.py:64-79 | One relation's five statements in order: two subject statements, two object statements, then the triple. |
| `EnrichKg.QueryLayout` | backend/enrich_kg.py:62-86 | Relation i's statements sit between those of earlier and later relations. No relations gives nothing between header and footer. |
| `EnrichKg.NodeSpec` | backend/enrich_kg.py:69-77 | A name changes only by ' ' → '_'. Other characters are kept. |
| `EnrichKg.SpaceAndUnderscoreCollide` | backend/enrich_kg_gpt.py:64-72 | "a b" and "a_b" name the same individual. |
| `EnrichKg.ObjectStatementGlued` | backend/enrich_kg.py:72-83 | The object's NamedIndividual "." runs straight into "ont:" of the next statement. |
| `EnrichKg.RelationTypeVerbatim` | backend/enrich_kg_gpt.py:71-79 | The relation type is used verbatim in the triple. |
| `GetData.ExtractFragment` | backend/weaviate_setup/get_data.py:55-61 | The fragment holds no '#'. Without '#' in the URI, it holds no '/'. |
| `GetData.FragmentAfterHash` | backend/weaviate_setup/get_data.py:58-59 | With '#', the fragment is the text after the last '#'. |
| `GetData.FragmentAfterSlash` | backend/weaviate_setup/get_data.py:60-61 | Without '#', the fragment is the text after the last '/' once trailing '/'s are stripped. |
| `GetData.FragmentEmpty` | backend/weaviate_setup/get_data.py:56-61 | Without '#', the fragment is "" iff the URI is only slashes. |
| `GetData.ProcessSparqlResults` | backend/weaviate_setup/get_data.py:33-52 | One row per binding, in order. |
| `GetData.RowDefaults` | backend/weaviate_setup/get_data.py:35-42 | Missing fields give "". A missing publication gives None. |
| `IngestData.LocalNameSpec` | backend/weaviate_rag/ingest_data.py:24-29 | The local name is the text after the last '#' if any, else after the last '/'. Trailing slashes are not stripped. |
| `IngestData.LocalNameKeepsTrailingSlash` | backend/weaviate_rag/ingest_data.py:29 | "a/b/" gives "". |
| `IngestData.NameDefaults` | backend/weaviate_rag/ingest_data.py:32-58 | A non-empty label wins over the IRI's local name, and an empty type becomes "Entity". |
| `IngestData.RelationOf` | backend/weaviate_rag/ingest_data.py:158-181 | A relation is created iff both endpoints have a uuid (and the store accepts it). An unmapped publication becomes None. |
| `IngestData.Relations` | backend/weaviate_rag/ingest_data.py:157-181 | No more relations are created than there are bindings. |
| `IngestData.RelationsSound` | backend/weaviate_rag/ingest_data.py:158-183 | Every created relation comes from a binding. If the store accepts none, none is created. |
| `IngestData.Ingestion.IngestRelations` | backend/weaviate_rag/ingest_data.py:149-187 | The count equals the number of relations created, and they are appended to the store. |
| `IngestData.Ingestion.IngestEntities` | backend/weaviate_rag/ingest_data.py:92-122 | The entity map and the store advance as the row loop dictates. The publication map is unchanged. |
| `IngestData.Ingestion.IngestPublications` | backend/weaviate_rag/ingest_data.py:125-146 | The publication map and the store advance as the row loop dictates. The entity map is unchanged. |
| `IngestData.LastEntityWins` | backend/weaviate_rag/ingest_data.py:116 | A repeated entity IRI maps to the uuid of its last successful row. |
| `IngestData.EntitiesAbortOnFirstRow` | backend/weaviate_rag/ingest_data.py:100-122 | The pass aborts with nothing changed iff the first row lacks its entity IRI. |
| `SparqlResults.TriplesSpec` | backend/search_kg.py:50-54 | Mapping succeeds iff every binding has its three values, and it gives one triple per binding, in order. |
| `SearchKg.SingleFilter` | backend/search_kg.py:6-25 | 'node', 'relation' and 'entity' filter ?s, ?p and ?o respectively, with the text spliced in and the "i" flag. |
| `SearchKg.AnyFilterSpec` | backend/search_kg.py:27-37 | Any other filter type ORs the three regex filters. |
| `SearchKg.QueryFrame` | backend/search_kg.py:6-37 | Every query starts with the SELECT and ends with LIMIT 100. |
| `SearchKg.OtherTypesAgree` | backend/search_kg.py:6-37 | All unknown filter types give the same query. |
| `SearchKg.TextRecoverable` | backend/search_kg.py:6-37 | The query text is spliced verbatim: equal queries come from equal texts. |
| `SearchKg.QueryKnowledgeGraph` | backend/search_kg.py:40-57 | Each binding maps, in order, to {subject, predicate, object}. |
| `QueryAnalyzer.RetrieveFromKnowledgeGraph` | backend/weaviate_rag/query_analyzer.py:120-147 | Always returns []. |
| `QueryAnalyzer.FirstRelationshipOnly` | backend/weaviate_rag/query_analyzer.py:168-174 | Only the first relationship's subject, verb and object appear, and the query does not depend on later relationships. |
| `QueryAnalyzer.IntentQuery` | backend/weaviate_rag/query_analyzer.py:175-178 | The intent-typed MATCH puts the intent and the entity list literal in their slots. |
| `QueryAnalyzer.FallbackQuery` | backend/weaviate_rag/query_analyzer.py:179-185 | The node query is over entities + keywords and depends only on their concatenation. |
| `QueryAnalyzer.ListReprShape` | backend/weaviate_rag/query_analyzer.py:175-180 | Lists are rendered as Python list literals. |
| `Giskard.RemoveChar` | backend/evaluation/giskard_evaluation.py:21 | The removed character is gone and all other characters remain. |
| `Giskard.SanitizeInput` | backend/evaluation/giskard_evaluation.py:16-46 | None gives None. Any returned string holds no '\r' or '\x08' and has at most 500 characters. |
| `Giskard.SanitizeSpec` | backend/evaluation/giskard_evaluation.py:21-46 | The text is accepted iff its cleaned form fits in 500 characters and matches no pattern, and it is then returned unchanged. |
| `Giskard.AnyHit` | backend/evaluation/giskard_evaluation.py:41-44 | The pattern loop reports a hit iff some pattern matches. |
| `Giskard.CaseInsensitive` | backend/evaluation/giskard_evaluation.py:28-38 | Matching ignores letter case. |
| `Giskard.RefusedOnHit` | backend/evaluation/giskard_evaluation.py:41-44 | Any pattern hit gives None. |
| `Giskard.OrdinaryWordsHit` | backend/evaluation/giskard_evaluation.py:35-36 | "Standard" and "abundant" are rejected. |
| `Giskard.GapOnOneLine` | backend/evaluation/giskard_evaluation.py:28 | "ignore … instructions" matches within one line. |
| `Giskard.GapAcrossLines` | backend/evaluation/giskard_evaluation.py:28 | "ignore … instructions" does not match across a line break. |
| `Giskard.SanitizeIdempotent` | backend/evaluation/giskard_evaluation.py:21-46 | Sanitising an accepted text again gives the same text. |
| `ThinkTags.RemoveThinkTags` | backend/weaviate_rag/rag_utils_mp/evaluation_open.py:75-79 | None gives "". The output is never longer than the input. |
| `ThinkTags.NoOpenUnchanged` | backend/weaviate_rag/rag_utils_mp/evaluation_true_and_false.py:59 | A string without "<think>" is unchanged. |
| `ThinkTags.NoCloseUnchanged` | backend/weaviate_rag/rag_utils_mp/evaluation_open.py:78 | A string without "</think>" is unchanged: an unclosed tag is kept. |
| `ThinkTags.SpanDropped` | backend/weaviate_rag/rag_utils_mp/evaluation_true_and_false.py:59 | "<think>" up to the first "</think>", across newlines, is removed, and scanning resumes after it. |
| `ThinkTags.PlainPrefix` | backend/weaviate_rag/rag_utils_mp/evaluation_open.py:78 | Text before any '<' is kept. |
| `ThinkTags.NotIdempotent` | backend/weaviate_rag/rag_utils_mp/evaluation_true_and_false.py:59-60 | One pass can leave a new "<think></think>" pair behind. |
| `Chatbot.RetrieveAnswer` | backend/weaviate_rag/chatbot.py:11-16 | An empty search gives "Knowledge retrieval error: No relevant information found". Otherwise the context is returned. |
| `Chatbot.RouteConserves` | backend/weaviate_rag/chatbot.py:154-174 | Every chunk that is not a tag is forwarded exactly once, to the thinking step or to the answer. |
| `Chatbot.RouteDropsTags` | backend/weaviate_rag/chatbot.py:160-169 | The tag chunks are never forwarded. |
| `Chatbot.RouteThinking` | backend/weaviate_rag/chatbot.py:155-169 | The thinking flag is on iff the last tag seen was "<think>". |
| `Chatbot.UntaggedAllAnswer` | backend/weaviate_rag/chatbot.py:171-174 | Without tags, every chunk goes to the answer. |
| `Chatbot.StreamReply` | backend/weaviate_rag/chatbot.py:154-178 | The streaming loops build the thinking text and the answer, and every chunk goes to the answer for other models. |
| `Chatbot.NextHistorySpec` | backend/weaviate_rag/chatbot.py:131-182 | The new history starts with the system message holding the new prompt. It ends with the user message and the answer, keeps the most recent old entries in order, and has at most 22 entries. |
| `Chatbot.ShortHistoryKept` | backend/weaviate_rag/chatbot.py:133-138 | A short history only has its prompt replaced and the exchange appended. |
| `Chatbot.FullHistoryDropsOldest` | backend/weaviate_rag/chatbot.py:140-141 | A full history loses its oldest exchange. |
| `Chatbot.ChatSession.HandleMessage` | backend/weaviate_rag/chatbot.py:105-182 | "/settings" changes only the model. "/clear" empties the history. Any other message stores the windowed history and the streamed answer. |
| `Chatbot.ChatSession.OnSettingsUpdate` | backend/weaviate_rag/chatbot.py:121-122 | Only the model changes. |
| `StreamlitEval.FetchGraphDataSpec` | backend/streamlit_app_evaluation.py:96-113 | A query error or zero bindings gives (None, None). Otherwise there is one row per binding. |
| `StreamlitEval.CommonSpec` | backend/streamlit_app_evaluation.py:222 | The intersection is contained in every set and holds everything common to all of them. With no sets it is an error. |
| `StreamlitEval.UniqueSpec` | backend/streamlit_app_evaluation.py:227 | Unique elements are a set's own elements that are in no other set. With one set, the union over no sets is an error. |
| `StreamlitEval.TriplesCompared` | backend/streamlit_app_evaluation.py:215-227 | Common triples are in every repository. A repository's unique triples are in no other repository. A single repository makes the unique-triple step fail. |
| `StreamlitEval.OverlapSpec` | backend/streamlit_app_evaluation.py:236-243 | The overlap matrix is symmetric. Its diagonal is each set's size, and each entry is at most the smaller size. |
| `StreamlitEval.OverlapMatrix` | backend/streamlit_app_evaluation.py:233-244 | The nested loops fill each cell with the overlap. |
| `StreamlitEval.TypesOfSpec` | backend/streamlit_app_evaluation.py:254-257 | Only triples with the full rdf:type IRI or 'rdf:type' contribute types. |
| `StreamlitEval.TypedReposSpec` | backend/streamlit_app_evaluation.py:251-262 | Repositories without type triples are skipped. Every other repository is listed with its types. |
| `StreamlitEval.TypesCompared` | backend/streamlit_app_evaluation.py:277-286 | Common types are a subset of every repository's types. Unique types are a repository's own types minus the union of the others' types. |
| `CreateVector.SnippetLines` | backend/weaviate_setup/create_vector.py:64-70 | There are four lines, in the order Relation, Subject, Object, Source Publication. |
| `CreateVector.SnippetSplit` | backend/weaviate_setup/create_vector.py:64-72 | The snippet is exactly four '\n'-terminated lines. |
| `CreateVector.LinesCarryFields` | backend/weaviate_setup/create_vector.py:66-69 | Field values are inserted verbatim, and Subject and Object carry "(Type: …)". |
| `CreateVector.SnippetDeterminesLines` | backend/weaviate_setup/create_vector.py:64-72 | Equal snippets of single-line rows have equal lines. |
| `CreateVector.ReadBackCell` | backend/weaviate_setup/create_vector.py:76-82 | A missing cell, or one holding one of the CSV reader's default missing-value markers, prints as "nan"; any other text is verbatim. |

## Left out

- Language-model calls: relation extraction with OpenAI, Mistral, Ollama, HuggingFace and Falcon, and the answer generators. They are foreign network services. Their replies are inputs (`output`, `content`, `chunks`).
- The `eval`-based parsers `convert_relations_gpt` in backend/bulk_relations.py and `convert_relations` in backend/enrich_kg.py and backend/enrich_kg_gpt.py. They evaluate model text as Python code, which cannot be modelled.
- Triple-store, vector-store and HTTP access: schema checks, hybrid search, relation fetching, SPARQL execution and inserts. Their results are inputs: search hits, bindings, and replies of created uuids.
- The OWL reasoner, the spaCy and transformer query analysis, the Streamlit, Chainlit and Flask front ends, the graph metrics computed in floating point, and the evaluation harness.
- Python's set iteration order: the order of the buckets in `_select_relevant_context` and of the repositories in the comparison is a parameter. `_extract_sources` returns a set rather than a list.
- `RagSystem.Score`: the relation score `min(rank) + 0.01·i` is modelled as the exact integer `100·min(rank) + i`, where `i` is the position among all relation items of the hits. The two orders agree when there are fewer than 100 relation items among the hits, since `0.01·i` then stays below one rank. Beyond that, the float rounding of `0.01·i` can order near-ties differently from the exact model. For example, item 41 at rank 1 and item 141 at rank 0 both score 141 in the model, while the float sums need not be equal. Both sorts are stable (`RagSystem.SortByScoreSpec`).
- `uuid4`: the relation ids are an input sequence, one per relation.
- Unicode: character classes (`\s`, `\w`), `lower()` and `upper()` are ASCII only.
- `json.loads` and `ast.literal_eval` accept only objects of string values without escapes, and literal values without quotes or backslashes. A literal value holding a carriage return or a NUL is refused, as Python refuses it.
- `EnrichDeepseek.DecodeObject`: rejects JSON values that are not strings (numbers, `true`, `false`, `null`, nested arrays or objects). `json.loads` accepts them, so the source keeps such a relation when it has the five keys, and the model drops it.
- `QueryAnalyzer.ListRepr`: renders Python's `repr` of a list only for strings without quotes or backslashes. Python's choice of quote character and its escaping are not modelled.
- `Disambiguation.NormalizeEntityName`: takes `Option<string>` for "a string or not", since no other non-string values exist in the model.
- `RagSystem.Query`: an exception raised inside the search (reported as `error = str(e)`) is not modelled, because the search is an input.
- `IngestData.Ingestion.IngestRelations`: the store's acceptance of each create call is an input (`accepted`). A rejected call is logged and skipped, as the source does.
- `ThinkTags.RemoveThinkTags`: both evaluation scripts define the same function, and it is modelled once.
- `EnrichKg.CreateSparqlQuery`: backend/enrich_kg.py and backend/enrich_kg_gpt.py define the same function word for word, and it is modelled once.
- `Chatbot.ChatSession.HandleMessage`: the in-place aliasing of the session list before the window is taken is not modelled, since the list is stored again at the end. Timing text in the thinking step's name is left out.
- `CreateVector.ReadBackCell`: only the CSV reader's default missing-value markers are modelled. Number parsing of cells is not.
