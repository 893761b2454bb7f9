/**
 * Keyword search over the graph: the SELECT query built from the user's
 * text and filter choice, and the triples read back from its bindings.
 */
module SearchKg {
  import opened Wrappers
  import opened Strings
  import opened SparqlResults

  /** Everything before the filter condition. */
  const Select: string := "\n        SELECT ?s ?p ?o WHERE {\n            ?s ?p ?o .\n            FILTER "

  /** Everything after the filter condition. */
  const Limit: string := "\n        } LIMIT 100\n        "

  /** A case-insensitive regex filter on the text of variable `?v`, the text spliced in unescaped. */
  function Regex(v: char, queryText: string): string {
    "regex(str(?" + [v] + "), \"" + queryText + "\", \"i\")"
  }

  /** The variable a filter type restricts: `node` the subject, `relation` the predicate, `entity` the object. */
  function FilterVariable(filterType: string): Option<char> {
    if filterType == "node" then Some('s')
    else if filterType == "relation" then Some('p')
    else if filterType == "entity" then Some('o')
    else None
  }

  /** The layout around the three filters of the OR condition. */
  const OpenAny: string := "(\n                "
  const OrAny: string := " ||\n                "
  const CloseAny: string := "\n            )"

  /** The three filters joined by `||`, used for any other filter type. */
  function AnyFilter(queryText: string): string {
    OpenAny + Regex('s', queryText) + OrAny + Regex('p', queryText) + OrAny + Regex('o', queryText) + CloseAny
  }

  function Condition(queryText: string, filterType: string): string {
    match FilterVariable(filterType)
    case Some(v) => Regex(v, queryText)
    case None => AnyFilter(queryText)
  }

  /** `construct_sparql_query` */
  function ConstructSparqlQuery(queryText: string, filterType: string): string {
    Select + Condition(queryText, filterType) + Limit
  }

  /** The offset of the text inside a regex filter. */
  const TextOffset: nat := 16

  lemma RegexSpec(v: char, queryText: string)
    ensures |Regex(v, queryText)| == |queryText| + 23
    ensures OccursAt(Regex(v, queryText), "regex(str(?" + [v] + "), \"", 0)
    ensures OccursAt(Regex(v, queryText), queryText, TextOffset)
    ensures OccursAt(Regex(v, queryText), "\", \"i\")", TextOffset + |queryText|)
  {
    var r := Regex(v, queryText);
    assert r == ("regex(str(?" + [v] + "), \"") + queryText + "\", \"i\")";
  }

  /** Every query is framed by the same SELECT and ends with `LIMIT 100`. */
  lemma QueryFrame(queryText: string, filterType: string)
    ensures StartsWith(ConstructSparqlQuery(queryText, filterType), Select)
    ensures EndsWith(ConstructSparqlQuery(queryText, filterType), Limit)
    ensures OccursAt(Limit, "LIMIT 100", 11)
  {
    var q := ConstructSparqlQuery(queryText, filterType);
    var c := Condition(queryText, filterType);
    assert q[..|Select|] == Select;
    assert q[|q| - |Limit|..] == Limit;
  }

  /** A string found inside a part of a concatenation is found in the whole, shifted by what precedes it. */
  lemma OccursInMiddle(a: string, b: string, c: string, w: string, i: int)
    requires OccursAt(b, w, i)
    ensures OccursAt(a + b + c, w, |a| + i)
  {
    var s := a + b + c;
    assert s[|a| + i..|a| + i + |w|] == b[i..i + |w|];
  }

  /**
   * `node`, `relation` and `entity` filter only `?s`, `?p` and `?o`
   * respectively: the condition is that one case-insensitive filter,
   * holding the text verbatim.
   */
  lemma SingleFilter(queryText: string, filterType: string)
    requires FilterVariable(filterType).Some?
    ensures var q, v := ConstructSparqlQuery(queryText, filterType), FilterVariable(filterType).value;
      |q| == |Select| + |queryText| + 23 + |Limit| &&
      OccursAt(q, "regex(str(?" + [v] + "), \"", |Select|) &&
      OccursAt(q, queryText, |Select| + TextOffset) &&
      OccursAt(q, "\", \"i\")", |Select| + TextOffset + |queryText|)
  {
    var v := FilterVariable(filterType).value;
    RegexSpec(v, queryText);
    var r := Regex(v, queryText);
    OccursInMiddle(Select, r, Limit, "regex(str(?" + [v] + "), \"", 0);
    OccursInMiddle(Select, r, Limit, queryText, TextOffset);
    OccursInMiddle(Select, r, Limit, "\", \"i\")", TextOffset + |queryText|);
  }

  /** The OR condition holds the filters on `?s`, `?p` and `?o`, in that order, each holding the text verbatim. */
  lemma AnyFilterSpec(queryText: string)
    ensures var f, n := AnyFilter(queryText), |queryText| + 23;
      OccursAt(f, Regex('s', queryText), 18) &&
      OccursAt(f, Regex('p', queryText), 18 + n + 20) &&
      OccursAt(f, Regex('o', queryText), 18 + 2 * (n + 20))
  {
    AnyLayoutLengths();
    RegexSpec('s', queryText);
    RegexSpec('p', queryText);
    var rs, rp, ro := Regex('s', queryText), Regex('p', queryText), Regex('o', queryText);
    var f := OpenAny + rs + OrAny + rp + OrAny + ro + CloseAny;
    assert f == AnyFilter(queryText);
    Alternating(OpenAny, rs, OrAny, rp, OrAny, ro, CloseAny);
    var n := |queryText| + 23;
    assert |OpenAny| + |rs| + |OrAny| == 18 + n + 20;
    assert |OpenAny| + |rs| + |OrAny| + |rp| + |OrAny| == 18 + 2 * (n + 20);
  }

  lemma AnyLayoutLengths()
    ensures |OpenAny| == 18 && |OrAny| == 20
  {
  }

  /** Every other filter type has the OR condition between the frame's two halves. */
  lemma AnyFilterQuery(queryText: string, filterType: string)
    requires FilterVariable(filterType).None?
    ensures ConstructSparqlQuery(queryText, filterType) == Select + AnyFilter(queryText) + Limit
    ensures var q, f := ConstructSparqlQuery(queryText, filterType), AnyFilter(queryText);
      forall w, i :: OccursAt(f, w, i) ==> OccursAt(q, w, |Select| + i)
  {
    forall w, i | OccursAt(AnyFilter(queryText), w, i)
      ensures OccursAt(ConstructSparqlQuery(queryText, filterType), w, |Select| + i)
    {
      OccursInMiddle(Select, AnyFilter(queryText), Limit, w, i);
    }
  }

  /** The OR condition is three filters long plus 72 characters of layout. */
  lemma AnyFilterLength(queryText: string)
    ensures |AnyFilter(queryText)| == 3 * (|queryText| + 23) + 72
  {
    RegexSpec('s', queryText);
    RegexSpec('p', queryText);
    RegexSpec('o', queryText);
    assert |OpenAny| == 18 && |OrAny| == 20 && |CloseAny| == 14;
  }

  /** Where the second, fourth and sixth parts of a seven-part concatenation sit. */
  lemma Alternating(a: string, b: string, c: string, d: string, e: string, f: string, g: string)
    ensures OccursAt(a + b + c + d + e + f + g, b, |a|)
    ensures OccursAt(a + b + c + d + e + f + g, d, |a| + |b| + |c|)
    ensures OccursAt(a + b + c + d + e + f + g, f, |a| + |b| + |c| + |d| + |e|)
  {
    var s := a + b + c + d + e + f + g;
    assert s[|a|..|a| + |b|] == b;
    assert s[|a| + |b| + |c|..|a| + |b| + |c| + |d|] == d;
    assert s[|a| + |b| + |c| + |d| + |e|..|a| + |b| + |c| + |d| + |e| + |f|] == f;
  }

  /** Only the three named filter types pick one variable; all others give the same query. */
  lemma OtherTypesAgree(queryText: string, f1: string, f2: string)
    ensures FilterVariable(f1).Some? <==> f1 in {"node", "relation", "entity"}
    ensures f1 !in {"node", "relation", "entity"} && f2 !in {"node", "relation", "entity"} ==>
      ConstructSparqlQuery(queryText, f1) == ConstructSparqlQuery(queryText, f2)
  {
  }

  /**
   * The text is spliced in whole and unescaped: two texts give the same
   * query only when they are the same text.
   */
  lemma TextRecoverable(t1: string, t2: string, filterType: string)
    requires ConstructSparqlQuery(t1, filterType) == ConstructSparqlQuery(t2, filterType)
    ensures t1 == t2
  {
    var q := ConstructSparqlQuery(t1, filterType);
    if FilterVariable(filterType).Some? {
      SingleFilter(t1, filterType);
      SingleFilter(t2, filterType);
      SameSlice(q, t1, t2, |Select| + TextOffset);
    } else {
      AnyFilterQuery(t1, filterType);
      AnyFilterQuery(t2, filterType);
      AnyFilterLength(t1);
      AnyFilterLength(t2);
      assert |t1| == |t2|;
      AnyFilterSpec(t1);
      AnyFilterSpec(t2);
      RegexSpec('s', t1);
      RegexSpec('s', t2);
      SameSlice(q, Regex('s', t1), Regex('s', t2), |Select| + 18);
      RegexInjective('s', t1, t2);
    }
  }

  /** Two equally long strings found at the same place are the same. */
  lemma SameSlice(q: string, a: string, b: string, i: int)
    requires |a| == |b| && OccursAt(q, a, i) && OccursAt(q, b, i)
    ensures a == b
  {
  }

  lemma RegexInjective(v: char, t1: string, t2: string)
    requires Regex(v, t1) == Regex(v, t2)
    ensures t1 == t2
  {
    RegexSpec(v, t1);
    RegexSpec(v, t2);
    SameSlice(Regex(v, t1), t1, t2, TextOffset);
  }

  /**
   * `query_knowledge_graph`, `bindings` being the store's reply to the
   * query: the subject, predicate and object of each binding in order, or
   * the `KeyError` of the first binding lacking one.
   */
  method QueryKnowledgeGraph(bindings: seq<Binding>) returns (r: Result<seq<Triple>>)
    ensures r == Triples(bindings)
    ensures r.Success? ==>
      |r.value| == |bindings| && forall i :: 0 <= i < |bindings| ==> Some(r.value[i]) == TripleOf(bindings[i])
  {
    TriplesSpec(bindings);
    var data: seq<Triple> := [];
    for i := 0 to |bindings|
      invariant Triples(bindings[..i]) == Success(data)
    {
      assert bindings[..i + 1][..i] == bindings[..i];
      var result := bindings[i];
      if Value(result, "s").None? || Value(result, "p").None? || Value(result, "o").None? {
        PrefixFailure(bindings, i + 1);
        return Failure("KeyError");
      }
      var s, p, o := Value(result, "s").value, Value(result, "p").value, Value(result, "o").value;
      data := data + [(s, p, o)];
    }
    assert bindings[..|bindings|] == bindings;
    return Success(data);
  }

  /** Once a prefix of the bindings fails, the whole list fails with the same error. */
  lemma {:induction false} PrefixFailure(rows: seq<Binding>, k: nat)
    requires k <= |rows| && Triples(rows[..k]).Failure?
    ensures Triples(rows) == Triples(rows[..k])
    decreases |rows| - k
  {
    if k < |rows| {
      assert rows[..k + 1][..k] == rows[..k];
      PrefixFailure(rows, k + 1);
    } else {
      assert rows[..k] == rows;
    }
  }
}
