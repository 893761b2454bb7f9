/**
 * The batch importer for model-extracted relations: recognising relation
 * literals in a model's reply, checking their labels, and rendering batches
 * of relations as SPARQL `INSERT DATA` updates.
 */
module BulkRelations {
  import opened Wrappers
  import opened Strings
  import Disambiguation

  // ---------------------------------------------------------------------
  // is_valid_relation
  // ---------------------------------------------------------------------

  const EntityLabels: set<string> := {
    "disease", "symptom", "treatment", "risk_factor", "test", "gene", "biomarker", "complication",
    "prognosis", "comorbidity", "progression", "body_part"
  }

  const RelationLabels: set<string> := {
    "cause", "treat", "present", "diagnose", "aggravate", "prevent", "improve", "affect"
  }

  /** The dict `ast.literal_eval` makes of one matched literal: five string values. */
  datatype RelationDict = RelationDict(
    relationType: string,
    entity1Type: string,
    entity1Name: string,
    entity2Type: string,
    entity2Name: string)

  /** `is_valid_relation`: the relation label and both entity labels are known (the names are strings by construction). */
  predicate IsValidRelation(d: RelationDict) {
    && d.relationType in RelationLabels
    && d.entity1Type in EntityLabels
    && d.entity2Type in EntityLabels
  }

  /** Labels must match exactly: a known triple passes, a plural relation label or an unknown type does not. */
  lemma IsValidRelationExamples()
    ensures IsValidRelation(RelationDict("cause", "risk_factor", "smoking", "disease", "AMD"))
    ensures !IsValidRelation(RelationDict("causes", "risk_factor", "smoking", "disease", "AMD"))
    ensures !IsValidRelation(RelationDict("cause", "drug", "aflibercept", "disease", "AMD"))
  {
  }

  // ---------------------------------------------------------------------
  // validate_output: re.findall of the relation-literal pattern
  // ---------------------------------------------------------------------

  /** The pattern's text before the first value. */
  const Opening: string := "{'relation_type': '"

  /** The pattern's text after each of the five values. */
  const Closers: seq<string> := [
    "', 'entity1_type': '",
    "', 'entity1_name': '",
    "', 'entity2_type': '",
    "', 'entity2_name': '",
    "'}"
  ]

  /** The text values `vs` fill in, from the `k`-th value on. */
  function Rendered(vs: seq<string>, k: nat): string
    requires k + |vs| <= 5
  {
    if vs == [] then "" else vs[0] + Closers[k] + Rendered(vs[1..], k + 1)
  }

  predicate LiteralAt(s: string, p: nat, lit: string) {
    p + |lit| <= |s| && s[p..p + |lit|] == lit
  }

  /** A match of the pattern's tail: end position and values, each value a single line. */
  ghost predicate MatchedTail(s: string, q: nat, k: nat, m: (nat, seq<string>)) {
    && k + |m.1| == 5
    && q <= m.0 <= |s|
    && s[q..m.0] == Rendered(m.1, k)
    && forall v :: v in m.1 ==> '\n' !in v
  }

  /**
   * Matching `.*?` for value `k` and the rest of the pattern at `q`, the
   * way the regex engine backtracks: the shortest value for which the rest
   * matches, where `.` never matches a newline.
   */
  function MatchValues(s: string, q: nat, k: nat): (m: Option<(nat, seq<string>)>)
    requires q <= |s| && k < 5
    ensures m.Some? ==> MatchedTail(s, q, k, m.value)
    decreases 5 - k, |s| - q, 1
  {
    MatchValueFrom(s, q, k, 0)
  }

  /** Tries the values of length `n`, `n + 1`, … for value `k` at `q`. */
  function MatchValueFrom(s: string, q: nat, k: nat, n: nat): (m: Option<(nat, seq<string>)>)
    requires q + n <= |s| && k < 5
    requires '\n' !in s[q..q + n]
    ensures m.Some? ==> MatchedTail(s, q, k, m.value)
    decreases 5 - k, |s| - q - n, 0
  {
    var v := s[q..q + n];
    var after := q + n + |Closers[k]|;
    var tail :=
      if LiteralAt(s, q + n, Closers[k]) then
        if k == 4 then Some((after, [])) else MatchValues(s, after, k + 1)
      else None;
    if tail.Some? then
      var e := tail.value.0;
      assert after <= e;
      assert s[q..e] == s[q..q + n] + s[q + n..after] + s[after..e];
      Some((e, [v] + tail.value.1))
    else if q + n < |s| && s[q + n] != '\n' then
      assert s[q..q + n + 1] == v + [s[q + n]];
      MatchValueFrom(s, q, k, n + 1)
    else None
  }

  /** The match starting exactly at `p`, if any: its end and its five values. */
  function MatchAt(s: string, p: nat): (m: Option<(nat, seq<string>)>)
    requires p <= |s|
    ensures m.Some? ==> p < m.value.0 <= |s|
    ensures m.Some? ==> |m.value.1| == 5 && s[p..m.value.0] == Opening + Rendered(m.value.1, 0)
    ensures m.Some? ==> forall v :: v in m.value.1 ==> '\n' !in v
  {
    if LiteralAt(s, p, Opening) then
      var t := MatchValues(s, p + |Opening|, 0);
      if t.Some? then
        assert s[p..t.value.0] == Opening + s[p + |Opening|..t.value.0];
        t
      else None
    else None
  }

  /** Where a match's text sits in `s`. */
  ghost predicate Occurs(s: string, vs: seq<string>) {
    |vs| == 5 && exists i, j :: 0 <= i <= j <= |s| && s[i..j] == Opening + Rendered(vs, 0)
  }

  /** `re.findall(pattern, s[p:])`: leftmost matches, scanning on from the end of each. */
  function FindAll(s: string, p: nat): (ms: seq<seq<string>>)
    requires p <= |s|
    ensures forall i :: 0 <= i < |ms| ==> |ms[i]| == 5
    ensures forall m :: m in ms ==> Occurs(s, m) && forall v :: v in m ==> '\n' !in v
    ensures ms == [] ==> forall i :: p <= i <= |s| ==> MatchAt(s, i).None?
    decreases |s| - p
  {
    if p == |s| then []
    else
      var m := MatchAt(s, p);
      if m.Some? then [m.value.1] + FindAll(s, m.value.0) else FindAll(s, p + 1)
  }

  /**
   * A value `ast.literal_eval` reads back verbatim between single quotes. A
   * carriage return ends the line of the literal (Python reads source text
   * with universal newlines) and a NUL byte is refused outright, so both
   * make the parse fail; a quote or a backslash is counted as a failure too
   * (see the README).
   */
  predicate LiteralValue(v: string) {
    '\'' !in v && '\\' !in v && '\r' !in v && '\0' !in v
  }

  /** `ast.literal_eval` of a matched literal. */
  function LiteralEval(vs: seq<string>): Option<RelationDict> {
    if |vs| == 5 && forall i :: 0 <= i < 5 ==> LiteralValue(vs[i]) then
      Some(RelationDict(vs[0], vs[1], vs[2], vs[3], vs[4]))
    else None
  }

  /**
   * A literal parses exactly when no value holds a quote, a backslash, a
   * carriage return or a NUL, and then holds the matched values under the
   * pattern's keys.
   */
  lemma LiteralEvalSpec(vs: seq<string>)
    requires |vs| == 5
    ensures LiteralEval(vs).Some? <==> forall i :: 0 <= i < 5 ==>
      '\'' !in vs[i] && '\\' !in vs[i] && '\r' !in vs[i] && '\0' !in vs[i]
    ensures LiteralEval(vs).Some? ==> var d := LiteralEval(vs).value;
      [d.relationType, d.entity1Type, d.entity1Name, d.entity2Type, d.entity2Name] == vs
  {
  }

  /** A name holding a carriage return makes the literal fail to parse, so its relation is dropped. */
  lemma CarriageReturnRefused()
    ensures LiteralEval(["cause", "disease", "A\rB", "symptom", "x"]).None?
  {
    assert '\r' in ["cause", "disease", "A\rB", "symptom", "x"][2];
  }

  /** The dicts kept from a list of matches: those that parse and pass `is_valid_relation`. */
  function Validated(ms: seq<seq<string>>): seq<RelationDict>
  {
    if ms == [] then []
    else
      var init := ms[..|ms| - 1];
      var d := LiteralEval(ms[|ms| - 1]);
      Validated(init) + if d.Some? && IsValidRelation(d.value) then [d.value] else []
  }

  /** `validate_output` */
  method ValidateOutput(output: string) returns (dicts: seq<RelationDict>)
    ensures dicts == Validated(FindAll(output, 0))
  {
    var matches := FindAll(output, 0);
    dicts := [];
    for i := 0 to |matches|
      invariant dicts == Validated(matches[..i])
    {
      assert matches[..i + 1][..i] == matches[..i];
      var data := LiteralEval(matches[i]);
      if data.Some? && IsValidRelation(data.value) {
        dicts := dicts + [data.value];
      }
    }
    assert matches[..|matches|] == matches;
  }

  /** The kept dicts are valid and come from matches, and there are at most as many as matches. */
  lemma {:induction false} ValidatedSound(ms: seq<seq<string>>)
    ensures |Validated(ms)| <= |ms|
    ensures forall d :: d in Validated(ms) ==> IsValidRelation(d) && exists m :: m in ms && LiteralEval(m) == Some(d)
  {
    if ms != [] {
      var n := |ms| - 1;
      var init := ms[..n];
      ValidatedSound(init);
      forall d | d in Validated(ms) ensures IsValidRelation(d) && exists m :: m in ms && LiteralEval(m) == Some(d) {
        if d !in Validated(init) {
          assert LiteralEval(ms[n]) == Some(d);
        }
      }
    }
  }

  /** Every match that parses to a valid dict is kept. */
  lemma {:induction false} ValidatedComplete(ms: seq<seq<string>>, m: seq<string>)
    requires m in ms && LiteralEval(m).Some? && IsValidRelation(LiteralEval(m).value)
    ensures LiteralEval(m).value in Validated(ms)
  {
    var n := |ms| - 1;
    var init := ms[..n];
    if m != ms[n] {
      var j :| 0 <= j < |ms| && ms[j] == m;
      assert init[j] == m;
      ValidatedComplete(init, m);
    }
  }

  /** Order is kept: the dicts of a prefix of the matches are a prefix of the result. */
  lemma {:induction false} ValidatedPrefix(ms: seq<seq<string>>, k: nat)
    requires k <= |ms|
    ensures Validated(ms[..k]) <= Validated(ms)
  {
    if k < |ms| {
      var n := |ms| - 1;
      ValidatedPrefix(ms[..n], k);
      assert ms[..n][..k] == ms[..k];
    } else {
      assert ms[..k] == ms;
    }
  }

  /**
   * `validate_output` keeps, in order, exactly the single-line relation
   * literals of the reply that parse and carry known labels.
   */
  lemma ValidateOutputSpec(output: string)
    ensures var ds := Validated(FindAll(output, 0));
      && |ds| <= |FindAll(output, 0)|
      && (forall d :: d in ds ==>
            (IsValidRelation(d) && exists m :: m in FindAll(output, 0) && Occurs(output, m) && LiteralEval(m) == Some(d)))
      && (forall m :: m in FindAll(output, 0) && LiteralEval(m).Some? && IsValidRelation(LiteralEval(m).value) ==>
            LiteralEval(m).value in ds)
  {
    var ms := FindAll(output, 0);
    ValidatedSound(ms);
    forall m | m in ms && LiteralEval(m).Some? && IsValidRelation(LiteralEval(m).value)
      ensures LiteralEval(m).value in Validated(ms)
    {
      ValidatedComplete(ms, m);
    }
  }

  // ---------------------------------------------------------------------
  // create_sparql_queries_for_bulk_import
  // ---------------------------------------------------------------------

  /** A relation handed to the importer: the five labels and names and an optional publication id. */
  datatype BulkRelation = BulkRelation(
    relationType: string,
    entity1Type: string,
    entity1Name: string,
    entity2Type: string,
    entity2Name: string,
    pubId: Option<string>)

  const Prefixes: string :=
    "\n    PREFIX owl: <http://www.w3.org/2002/07/owl#>" +
    "\n    PREFIX rdf: <http://www.w3.org/1999/02/22-rdf-syntax-ns#>" +
    "\n    PREFIX rdfs: <http://www.w3.org/2000/01/rdf-schema#>" +
    "\n    PREFIX ont: <http://www.semanticweb.org/lecualexandru/ontologies/2024/11/CausalAMD#>" +
    "\n    PREFIX prov: <http://www.w3.org/ns/prov#>" +
    "\n    "

  const InsertOpen: string :=
    "INSERT DATA { GRAPH <http://www.semanticweb.org/lecualexandru/ontologies/2024/11/CausalAMD/> {\n"

  const InsertClose: string := "}}"

  /** The characters `rstrip(' ;\n')` removes. */
  const StatementEnd: set<char> := {' ', ';', '\n'}

  function Sanitize(s: string): string {
    Disambiguation.SanitizeEntityName(s)
  }

  /** The node of a named thing: `ont:` and the sanitised name. */
  function NodeUri(name: string): string {
    "ont:" + Sanitize(name)
  }

  /** The RELATION node's four lines, the last one without its " ;\n". */
  function RelationLines(rel: BulkRelation, id: string): string {
    "ont:REL_" + id + " rdf:type ont:RELATION ;\n" +
    "  ont:relation_subject " + NodeUri(rel.entity1Name) + " ;\n" +
    "  ont:relation_predicate " + NodeUri(rel.relationType) + " ;\n" +
    "  ont:relation_object " + NodeUri(rel.entity2Name)
  }

  /** The RELATION node's four lines, each ending " ;\n". */
  function RelationStatement(rel: BulkRelation, id: string): string {
    RelationLines(rel, id) + " ;\n"
  }

  /** The node of the relation's publication. */
  function PublicationUri(pubId: string): string {
    "ont:PUB_" + Sanitize(pubId)
  }

  /**
   * The RELATION node, with its provenance when the publication id is
   * truthy, closed by " ." (without a publication, `rstrip(' ;\n')` takes
   * off the last terminator; `StatementRStrip` shows it removes exactly that).
   */
  function RelationNode(rel: BulkRelation, id: string): string {
    var triple := RelationStatement(rel, id);
    if Truthy(rel.pubId) then
      triple + "  prov:wasDerivedFrom " + PublicationUri(rel.pubId.value) + " .\n" +
      PublicationUri(rel.pubId.value) + " rdf:type ont:PUBLICATION .\n"
    else RelationLines(rel, id) + " .\n"
  }

  /** The two entity type statements, types sanitised and upper-cased. */
  function TypeStatements(rel: BulkRelation): string {
    NodeUri(rel.entity1Name) + " rdf:type ont:" + Upper(Sanitize(rel.entity1Type)) + " .\n" +
    NodeUri(rel.entity2Name) + " rdf:type ont:" + Upper(Sanitize(rel.entity2Type)) + " .\n"
  }

  /** What one relation adds to a query, with its relation id. */
  function RelationBlock(rel: BulkRelation, id: string): string {
    RelationNode(rel, id) + TypeStatements(rel) + "\n"
  }

  /** `rstrip(' ;\n')` on a statement takes off exactly its terminator when the text before it does not end in one of those characters. */
  lemma StatementRStrip(body: string)
    requires body != [] && body[|body| - 1] !in StatementEnd
    ensures RStripChars(body + " ;\n", StatementEnd) == body
  {
    var s := body + " ;\n";
    var r := RStripChars(s, StatementEnd);
    assert s[|body| - 1] !in StatementEnd;
    assert |r| == |body|;
  }

  /** The RELATION lines end in the object's node, whose last character is ':' or a word character. */
  lemma RelationLinesEnd(rel: BulkRelation, id: string)
    ensures RelationLines(rel, id) != []
    ensures RelationLines(rel, id)[|RelationLines(rel, id)| - 1] !in StatementEnd
  {
    var node := NodeUri(rel.entity2Name);
    var name := Sanitize(rel.entity2Name);
    Disambiguation.SanitizedShape(rel.entity2Name);
    if name != [] {
      assert name[|name| - 1] in name;
    }
    assert node[|node| - 1] !in StatementEnd;
  }

  /** The block of each relation, built with the id drawn for it (`zip(relations, ids)`). */
  function RenderedBlocks(rels: seq<BulkRelation>, ids: seq<string>): (bs: seq<string>)
    requires |ids| == |rels|
    ensures |bs| == |rels|
  {
    seq(|rels|, k requires 0 <= k < |rels| => RelationBlock(rels[k], ids[k]))
  }

  /** `bs` holds the block of each relation of `rels` with its id in `ids`. */
  predicate BlocksOf(bs: seq<string>, rels: seq<BulkRelation>, ids: seq<string>) {
    |bs| == |rels| && |ids| == |rels| &&
    forall k {:trigger RelationBlock(rels[k], ids[k])} :: 0 <= k < |rels| ==> bs[k] == RelationBlock(rels[k], ids[k])
  }

  /** The update of the batch made of blocks `lo` to `hi - 1`. */
  function BatchQuery(bs: seq<string>, lo: nat, hi: nat): string
    requires lo <= hi <= |bs|
  {
    Prefixes + InsertOpen + Concat(bs, lo, hi) + InsertClose
  }

  /** Where the batch starting at `i` ends: `i + b`, clamped to the end as slicing does. */
  function BatchEnd(n: nat, i: nat, b: nat): nat {
    if i + b <= n then i + b else n
  }

  /** The updates of the batches starting at `start`, `start + b`, ... */
  function Queries(bs: seq<string>, b: nat, start: nat): seq<string>
    requires b > 0
    decreases |bs| - start
  {
    if start >= |bs| then []
    else [BatchQuery(bs, start, BatchEnd(|bs|, start, b))] + Queries(bs, b, start + b)
  }

  /**
   * `create_sparql_queries_for_bulk_import`, the relation ids being `ids`
   * (one per relation, standing for the uuid4 values). A zero batch size is
   * the error `range` raises; a negative one gives an empty range.
   */
  function BulkQueries(rels: seq<BulkRelation>, ids: seq<string>, batchSize: int): Result<seq<string>>
    requires |ids| == |rels|
  {
    if batchSize == 0 then Failure("range() arg 3 must not be zero")
    else if batchSize < 0 then Success([])
    else Success(Queries(RenderedBlocks(rels, ids), batchSize, 0))
  }

  method CreateSparqlQueriesForBulkImport(relations: seq<BulkRelation>, ids: seq<string>, batchSize: int)
    returns (r: Result<seq<string>>)
    requires |ids| == |relations|
    ensures r == BulkQueries(relations, ids, batchSize)
  {
    if batchSize == 0 {
      return Failure("range() arg 3 must not be zero");
    } else if batchSize < 0 {
      return Success([]);
    }
    ghost var rendered := RenderedBlocks(relations, ids);
    var sparqlQueries := BatchAll(relations, ids, batchSize, rendered);
    return Success(sparqlQueries);
  }

  /** The loop over `range(0, len(relations), batch_size)` for a positive batch size. */
  method BatchAll(relations: seq<BulkRelation>, ids: seq<string>, batchSize: nat, ghost rendered: seq<string>)
    returns (sparqlQueries: seq<string>)
    requires BlocksOf(rendered, relations, ids) && batchSize > 0
    ensures sparqlQueries == Queries(rendered, batchSize, 0)
  {
    sparqlQueries := [];
    var i := 0;
    while i < |relations|
      invariant sparqlQueries + Queries(rendered, batchSize, i) == Queries(rendered, batchSize, 0)
      decreases |relations| - i
    {
      var query := BuildBatchQuery(relations, ids, i, batchSize, rendered);
      QueriesStep(rendered, batchSize, i);
      assert Queries(rendered, batchSize, i) == [query] + Queries(rendered, batchSize, i + batchSize);
      MoveFront(sparqlQueries, query, Queries(rendered, batchSize, i + batchSize), Queries(rendered, batchSize, 0));
      sparqlQueries := sparqlQueries + [query];
      i := i + batchSize;
      assert sparqlQueries + Queries(rendered, batchSize, i) == Queries(rendered, batchSize, 0);
    }
    assert sparqlQueries + [] == sparqlQueries;
  }

  /** Moving the head of the rest onto the done part keeps their concatenation. */
  lemma MoveFront<T>(done: seq<T>, x: T, tail: seq<T>, whole: seq<T>)
    requires done + ([x] + tail) == whole
    ensures done + [x] + tail == whole
  {
    AppendAssoc(done, [x], tail);
  }

  lemma QueriesStep(bs: seq<string>, b: nat, i: nat)
    requires b > 0 && i < |bs|
    ensures Queries(bs, b, i) == [BatchQuery(bs, i, BatchEnd(|bs|, i, b))] + Queries(bs, b, i + b)
  {
  }

  /** The body of the outer loop: slice out one batch and build its update. */
  method BuildBatchQuery(relations: seq<BulkRelation>, ids: seq<string>, i: nat, batchSize: nat, ghost rendered: seq<string>)
    returns (query: string)
    requires BlocksOf(rendered, relations, ids) && i < |relations|
    ensures query == BatchQuery(rendered, i, BatchEnd(|rendered|, i, batchSize))
  {
    var end := if i + batchSize <= |relations| then i + batchSize else |relations|;
    var batchRelations := relations[i..end];
    var batchIds := ids[i..end];
    query := Prefixes + InsertOpen;
    query := AppendBlocks(query, batchRelations, batchIds, rendered, i);
    query := query + InsertClose;
  }

  /**
   * The inner loop: append the block of each relation of the batch, whose
   * blocks are `rendered[lo]` onwards.
   */
  method AppendBlocks(query0: string, batchRelations: seq<BulkRelation>, batchIds: seq<string>,
                      ghost rendered: seq<string>, ghost lo: nat)
    returns (query: string)
    requires |batchIds| == |batchRelations| && lo + |batchRelations| <= |rendered|
    requires forall k :: 0 <= k < |batchRelations| ==> rendered[lo + k] == RelationBlock(batchRelations[k], batchIds[k])
    ensures query == query0 + Concat(rendered, lo, lo + |batchRelations|)
  {
    query := query0;
    for j := 0 to |batchRelations|
      invariant query == query0 + Concat(rendered, lo, lo + j)
    {
      var triple := BuildBlock(batchRelations[j], batchIds[j]);
      AppendAssoc(query0, Concat(rendered, lo, lo + j), triple);
      query := query + triple;
    }
  }

  /** The body of the inner loop: one relation's statements, built up piece by piece. */
  method BuildBlock(relation: BulkRelation, relationId: string) returns (block: string)
    ensures block == RelationBlock(relation, relationId)
  {
    var subjectUri := NodeUri(relation.entity1Name);
    var predicateUri := NodeUri(relation.relationType);
    var objectUri := NodeUri(relation.entity2Name);
    var entity1Type := Upper(Sanitize(relation.entity1Type));
    var entity2Type := Upper(Sanitize(relation.entity2Type));
    var triple :=
      "ont:REL_" + relationId + " rdf:type ont:RELATION ;\n" +
      "  ont:relation_subject " + subjectUri + " ;\n" +
      "  ont:relation_predicate " + predicateUri + " ;\n" +
      "  ont:relation_object " + objectUri + " ;\n";
    if Truthy(relation.pubId) {
      var publicationUri := PublicationUri(relation.pubId.value);
      triple := triple + "  prov:wasDerivedFrom " + publicationUri + " .\n";
      triple := triple + publicationUri + " rdf:type ont:PUBLICATION .\n";
    } else {
      RelationLinesEnd(relation, relationId);
      StatementRStrip(RelationLines(relation, relationId));
      triple := RStripChars(triple, StatementEnd) + " .\n";
    }
    triple := triple + (
      subjectUri + " rdf:type ont:" + entity1Type + " .\n" +
      objectUri + " rdf:type ont:" + entity2Type + " .\n");
    block := triple + "\n";
  }

  // Properties of the batching.

  /** The slices `[i:i + b]` the loop takes, for `i` in `range(start, n, b)`, as (start, end) pairs. */
  function Ranges(n: nat, b: nat, start: nat): (rs: seq<(nat, nat)>)
    requires b > 0
    ensures forall k :: 0 <= k < |rs| ==> start <= rs[k].0 < rs[k].1 <= n
    decreases n - start
  {
    if start >= n then [] else [(start, BatchEnd(n, start, b))] + Ranges(n, b, start + b)
  }

  /**
   * The slices tile `start` to `n`: the first begins at `start`, each ends
   * where the next begins, the last ends at `n`, and all but the last hold
   * exactly `b` positions.
   */
  lemma {:induction false} RangesTile(n: nat, b: nat, start: nat)
    requires b > 0 && start < n
    ensures var rs := Ranges(n, b, start);
      |rs| > 0 && rs[0].0 == start && rs[|rs| - 1].1 == n &&
      forall k :: 0 <= k < |rs| - 1 ==> rs[k].1 == rs[k + 1].0 && rs[k].1 == rs[k].0 + b
    decreases n - start
  {
    var rs := Ranges(n, b, start);
    if start + b < n {
      RangesTile(n, b, start + b);
      assert rs[1..] == Ranges(n, b, start + b);
    }
  }

  /** There are `ceil((n - start) / b)` slices. */
  lemma {:induction false} RangesCount(n: nat, b: nat, start: nat)
    requires b > 0 && start < n
    ensures var k := |Ranges(n, b, start)|;
      start + (k - 1) * b < n <= start + k * b
    decreases n - start
  {
    if start + b < n {
      RangesCount(n, b, start + b);
      var k' := |Ranges(n, b, start + b)|;
      assert (k' + 1 - 1) * b == k' * b;
      assert (k' + 1) * b == k' * b + b;
    }
  }

  /** The `k`-th query is the update of the `k`-th slice. */
  lemma {:induction false} QueriesRanges(bs: seq<string>, b: nat, start: nat)
    requires b > 0
    ensures var rs := Ranges(|bs|, b, start);
      |Queries(bs, b, start)| == |rs| &&
      forall k :: 0 <= k < |rs| ==> Queries(bs, b, start)[k] == BatchQuery(bs, rs[k].0, rs[k].1)
    decreases |bs| - start
  {
    if start < |bs| {
      QueriesRanges(bs, b, start + b);
      QueriesStep(bs, b, start);
      var rs := Ranges(|bs|, b, start);
      var qs := Queries(bs, b, start);
      var rest := Queries(bs, b, start + b);
      assert rs == [(start, BatchEnd(|bs|, start, b))] + Ranges(|bs|, b, start + b);
      forall k | 0 <= k < |rs|
        ensures qs[k] == BatchQuery(bs, rs[k].0, rs[k].1)
      {
        if k > 0 {
          assert qs[k] == rest[k - 1];
          assert rs[k] == Ranges(|bs|, b, start + b)[k - 1];
        }
      }
    }
  }

  /** The blocks of the batches from `start` on, one batch after the other. */
  function BatchedBlocks(bs: seq<string>, b: nat, start: nat): string
    requires b > 0
    decreases |bs| - start
  {
    if start >= |bs| then ""
    else Concat(bs, start, BatchEnd(|bs|, start, b)) + BatchedBlocks(bs, b, start + b)
  }

  /** The batches are consecutive slices: together they hold every block from `start` on, once each, in order. */
  lemma {:induction false} BatchesCover(bs: seq<string>, b: nat, start: nat)
    requires b > 0 && start <= |bs|
    ensures BatchedBlocks(bs, b, start) == Concat(bs, start, |bs|)
    decreases |bs| - start
  {
    if start < |bs| {
      var end := BatchEnd(|bs|, start, b);
      if start + b <= |bs| {
        BatchesCover(bs, b, start + b);
      } else {
        assert Concat(bs, end, |bs|) == "";
      }
      ConcatSplit(bs, start, end, |bs|);
    }
  }

  /**
   * For a positive batch size: no query for no relations, otherwise
   * `ceil(n / batchSize)` of them, the `k`-th the update of the `k`-th slice,
   * the slices tiling the relations in order.
   */
  lemma BulkQueriesSpec(rels: seq<BulkRelation>, ids: seq<string>, batchSize: nat)
    requires |ids| == |rels| && batchSize > 0
    ensures BulkQueries(rels, ids, batchSize).Success?
    ensures var qs := BulkQueries(rels, ids, batchSize).value;
      var rs := Ranges(|rels|, batchSize, 0);
      |qs| == |rs| && (rels == [] <==> qs == []) &&
      forall k :: 0 <= k < |rs| ==> qs[k] == BatchQuery(RenderedBlocks(rels, ids), rs[k].0, rs[k].1)
  {
    QueriesRanges(RenderedBlocks(rels, ids), batchSize, 0);
  }

  /** A type statement names the type upper-cased and sanitised: word characters, none lower-case. */
  lemma TypeNameShape(t: string)
    ensures forall c :: c in Upper(Sanitize(t)) ==> IsWordChar(c) && !IsLowerChar(c)
  {
    var n := Sanitize(t);
    Disambiguation.SanitizedShape(t);
    forall c | c in Upper(n)
      ensures IsWordChar(c) && !IsLowerChar(c)
    {
      var i :| 0 <= i < |n| && Upper(n)[i] == c;
      assert n[i] in n;
    }
  }
}
