/**
 * Turning the analysis of a user question into a graph query: the Cypher
 * pattern built from it, and the retrieval stub that never finds anything.
 */
module QueryAnalyzer {
  import opened Wrappers
  import opened Strings

  /** A subject-verb-object triple found in the question. */
  datatype Relationship = Relationship(subject: string, verb: string, obj: string)

  /** The fields of `analyze_query`'s result that the query builders read. */
  datatype Analysis = Analysis(
    intent: Option<string>,
    entities: seq<string>,
    keywords: seq<string>,
    nounPhrases: seq<string>,
    relationships: seq<Relationship>)

  /** A string as Python prints it inside a list, for strings with no quote or backslash. */
  function Quoted(x: string): string {
    "'" + x + "'"
  }

  /** `str(xs)` of a list of strings: `['a', 'b']`, or `[]`. */
  function ListRepr(xs: seq<string>): string {
    "[" + Join(seq(|xs|, i requires 0 <= i < |xs| => Quoted(xs[i])), ", ") + "]"
  }

  const PatternOpen: string := "MATCH (s:Entity {name: '"
  const PatternVerb: string := "'})-[r:"
  const PatternObject: string := "]->(o:Entity {name: '"
  const PatternClose: string := "'}) RETURN *"

  const IntentOpen: string := "MATCH (s:Entity)-[r:"
  const IntentSubjects: string := "]->(o:Entity) WHERE s.name IN "
  const IntentObjects: string := " OR o.name IN "
  const IntentClose: string := " RETURN *"

  const NodesOpen: string := "MATCH (n:Entity) WHERE n.name IN "
  const NodesClose: string := " RETURN n"

  /** `optimize_kg_query` */
  function OptimizeKgQuery(a: Analysis): string {
    if |a.relationships| > 0 then
      var rel := a.relationships[0];
      PatternOpen + rel.subject + PatternVerb + rel.verb + PatternObject + rel.obj + PatternClose
    else if |a.entities| > 0 && Truthy(a.intent) then
      IntentOpen + a.intent.value + IntentSubjects + ListRepr(a.entities) + IntentObjects + ListRepr(a.entities) + IntentClose
    else
      NodesOpen + ListRepr(a.entities + a.keywords) + NodesClose
  }

  /**
   * `retrieve_from_knowledge_graph`: every step that would query the graph
   * is a placeholder, so nothing is ever added to the results.
   */
  method RetrieveFromKnowledgeGraph(a: Analysis) returns (results: seq<Relationship>)
    ensures results == []
  {
    results := [];
    if |a.relationships| > 0 {
      for i := 0 to |a.relationships|
        invariant results == []
      {
      }
    }
    var potentialNodes := set x | x in a.entities + a.nounPhrases + a.keywords;
    if |results| == 0 && |potentialNodes| > 0 {
      var pending := potentialNodes;
      while pending != {}
        invariant results == []
        decreases |pending|
      {
        var node :| node in pending;
        pending := pending - {node};
      }
    }
  }

  /** Where the odd-numbered parts of a seven-part concatenation sit. */
  lemma Parts7(a: string, b: string, c: string, d: string, e: string, f: string, g: string)
    ensures OccursAt(a + b + c + d + e + f + g, b, |a|)
    ensures OccursAt(a + b + c + d + e + f + g, d, |a| + |b| + |c|)
    ensures OccursAt(a + b + c + d + e + f + g, f, |a| + |b| + |c| + |d| + |e|)
  {
    var s := a + b + c + d + e + f + g;
    assert s[|a|..|a| + |b|] == b;
    assert s[|a| + |b| + |c|..|a| + |b| + |c| + |d|] == d;
    assert s[|a| + |b| + |c| + |d| + |e|..|a| + |b| + |c| + |d| + |e| + |f|] == f;
  }

  /**
   * With explicit relationships, the query is the pattern of the first one
   * alone: its subject, verb and object sit in the pattern in that order, and
   * whatever else the analysis holds changes nothing.
   */
  lemma FirstRelationshipOnly(a: Analysis, b: Analysis)
    requires |a.relationships| > 0
    ensures var q, rel := OptimizeKgQuery(a), a.relationships[0];
      OccursAt(q, rel.subject, |PatternOpen|) &&
      OccursAt(q, rel.verb, |PatternOpen| + |rel.subject| + |PatternVerb|) &&
      OccursAt(q, rel.obj, |PatternOpen| + |rel.subject| + |PatternVerb| + |rel.verb| + |PatternObject|)
    ensures |b.relationships| > 0 && b.relationships[0] == a.relationships[0] ==> OptimizeKgQuery(b) == OptimizeKgQuery(a)
  {
    var rel := a.relationships[0];
    Parts7(PatternOpen, rel.subject, PatternVerb, rel.verb, PatternObject, rel.obj, PatternClose);
  }

  /**
   * With no relationships, some entities and a truthy intent, the query
   * matches relations typed by the intent whose subject or object is one of
   * the entities, the entity list appearing twice as a Python list.
   */
  lemma IntentQuery(a: Analysis)
    requires |a.relationships| == 0 && |a.entities| > 0 && Truthy(a.intent)
    ensures var q, e := OptimizeKgQuery(a), ListRepr(a.entities);
      OccursAt(q, a.intent.value, |IntentOpen|) &&
      OccursAt(q, e, |IntentOpen| + |a.intent.value| + |IntentSubjects|) &&
      OccursAt(q, e, |IntentOpen| + |a.intent.value| + |IntentSubjects| + |e| + |IntentObjects|)
  {
    var e := ListRepr(a.entities);
    Parts7(IntentOpen, a.intent.value, IntentSubjects, e, IntentObjects, e, IntentClose);
  }

  /**
   * Otherwise the node query lists the entities followed by the keywords:
   * two analyses in this case whose entities and keywords run together the
   * same give the same query, even when the intent is set but there are no
   * entities.
   */
  lemma FallbackQuery(a: Analysis, b: Analysis)
    requires |a.relationships| == 0 && (|a.entities| == 0 || !Truthy(a.intent))
    requires |b.relationships| == 0 && (|b.entities| == 0 || !Truthy(b.intent))
    requires a.entities + a.keywords == b.entities + b.keywords
    ensures OptimizeKgQuery(a) == OptimizeKgQuery(b)
    ensures OptimizeKgQuery(a) == NodesOpen + ListRepr(a.entities + a.keywords) + NodesClose
  {
  }

  /** Python's list text: `[]`, `['x']`, and each further item adds `, 'y'` before the bracket. */
  lemma ListReprShape(xs: seq<string>, y: string)
    ensures ListRepr([]) == "[]"
    ensures ListRepr([y]) == "['" + y + "']"
    ensures |xs| > 0 ==> ListRepr(xs + [y]) == ListRepr(xs)[..|ListRepr(xs)| - 1] + ", '" + y + "']"
  {
    var q := seq(|xs|, i requires 0 <= i < |xs| => Quoted(xs[i]));
    var q' := seq(|xs + [y]|, i requires 0 <= i < |xs + [y]| => Quoted((xs + [y])[i]));
    assert Join(seq(1, i requires 0 <= i < 1 => Quoted([y][i])), ", ") == Quoted(y);
    if |xs| > 0 {
      assert q' == q + [Quoted(y)];
      JoinSnoc(q, Quoted(y), ", ");
      var r := ListRepr(xs);
      assert r[..|r| - 1] == "[" + Join(q, ", ");
    }
  }
}
