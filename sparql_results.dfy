/**
 * The JSON result format of a SPARQL SELECT, as the scripts read it:
 * `results["results"]["bindings"]` is a list of bindings, each mapping a
 * variable name to a term whose text is under the key `value`.
 */
module SparqlResults {
  import opened Wrappers

  /** A bound term; `value` is `None` only in a malformed binding. */
  datatype Term = Term(value: Option<string>)

  /** One solution: variable name to term. */
  type Binding = map<string, Term>

  /** `row[key]["value"]`; `None` where Python raises `KeyError`. */
  function Value(row: Binding, key: string): Option<string> {
    if key in row then row[key].value else None
  }

  /** `row.get(key, {}).get("value", default)` */
  function ValueOr(row: Binding, key: string, default: string): string {
    Value(row, key).GetOr(default)
  }

  type Triple = (string, string, string)

  /** `(row["s"]["value"], row["p"]["value"], row["o"]["value"])`, or `None` for the `KeyError`. */
  function TripleOf(row: Binding): Option<Triple> {
    if Value(row, "s").Some? && Value(row, "p").Some? && Value(row, "o").Some? then
      Some((Value(row, "s").value, Value(row, "p").value, Value(row, "o").value))
    else None
  }

  /** The subject, predicate and object of every binding, in order; the first malformed binding raises. */
  function Triples(rows: seq<Binding>): (r: Result<seq<Triple>>)
    ensures r.Success? ==> |r.value| == |rows|
  {
    if rows == [] then Success([])
    else
      match Triples(rows[..|rows| - 1])
      case Failure(e) => Failure(e)
      case Success(init) =>
        match TripleOf(rows[|rows| - 1])
        case None => Failure("KeyError")
        case Some(t) => Success(init + [t])
  }

  /**
   * The mapping succeeds exactly when every binding has `s`, `p` and `o`
   * values, and then it yields each binding's three values at its position.
   */
  lemma {:induction false} TriplesSpec(rows: seq<Binding>)
    ensures Triples(rows).Success? <==> forall i :: 0 <= i < |rows| ==> TripleOf(rows[i]).Some?
    ensures Triples(rows).Success? ==>
      forall i :: 0 <= i < |rows| ==> Some(Triples(rows).value[i]) == TripleOf(rows[i])
    decreases |rows|
  {
    if rows != [] {
      var init := rows[..|rows| - 1];
      TriplesSpec(init);
      assert forall i :: 0 <= i < |init| ==> init[i] == rows[i];
    }
  }
}
