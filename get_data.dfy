/**
 * Turning the relation bindings read from the graph store into table rows
 * whose cells are the local parts of the IRIs.
 */
module GetData {
  import opened Wrappers
  import opened Strings
  import opened SparqlResults

  /**
   * `extract_fragment`: the part of an IRI after its last '#', or, when it
   * has no '#', the part after the last '/' once trailing slashes are removed.
   */
  function ExtractFragment(uri: string): (r: string)
    ensures '#' !in r
    ensures '#' !in uri ==> '/' !in r
  {
    if uri == "" then ""
    else if '#' in uri then AfterLast(uri, '#')
    else
      var r := AfterLast(RStripChars(uri, {'/'}), '/');
      assert forall c :: c in RStripChars(uri, {'/'}) ==> c in uri;
      r
  }

  /** With a '#', the fragment is what follows the last '#'. */
  lemma FragmentAfterHash(uri: string)
    requires '#' in uri
    ensures var r := ExtractFragment(uri);
      |r| < |uri| && r == uri[|uri| - |r|..] && uri[|uri| - |r| - 1] == '#'
  {
    assert ExtractFragment(uri) == AfterLast(uri, '#');
  }

  /** Without a '#', the fragment is the last '/'-free stretch of the IRI once its trailing slashes go. */
  lemma FragmentAfterSlash(uri: string)
    requires '#' !in uri
    ensures var r, stripped := ExtractFragment(uri), RStripChars(uri, {'/'});
      |r| <= |stripped| && r == stripped[|stripped| - |r|..] &&
      (|r| < |stripped| ==> stripped[|stripped| - |r| - 1] == '/')
  {
    if uri != "" {
      var stripped := RStripChars(uri, {'/'});
      var r := AfterLast(stripped, '/');
      assert ExtractFragment(uri) == r;
    }
  }

  /** Every character is a '/' (vacuously so for ""). */
  ghost predicate AllSlashes(s: string) {
    forall i :: 0 <= i < |s| ==> s[i] == '/'
  }

  /** The fragment is empty only when the IRI is nothing but slashes (or nothing at all). */
  lemma FragmentEmpty(uri: string)
    requires '#' !in uri
    ensures ExtractFragment(uri) == "" <==> AllSlashes(uri)
  {
    if uri != "" {
      if KeptLength(uri, {'/'}, |uri|) == 0 {
        OnlySlashes(uri);
      } else {
        NotOnlySlashes(uri);
      }
    }
  }

  /** When rstrip('/') removes everything, the IRI is all slashes and the fragment is empty. */
  lemma OnlySlashes(uri: string)
    requires '#' !in uri && uri != "" && KeptLength(uri, {'/'}, |uri|) == 0
    ensures ExtractFragment(uri) == "" && AllSlashes(uri)
  {
    assert RStripChars(uri, {'/'}) == "";
    forall i | 0 <= i < |uri| ensures uri[i] == '/' {
      assert uri[i] in {'/'};
    }
  }

  /** When rstrip('/') keeps a character, that character is not a slash and the fragment ends with it. */
  lemma NotOnlySlashes(uri: string)
    requires '#' !in uri && uri != "" && KeptLength(uri, {'/'}, |uri|) > 0
    ensures ExtractFragment(uri) != "" && !AllSlashes(uri)
  {
    var n := KeptLength(uri, {'/'}, |uri|);
    var stripped := RStripChars(uri, {'/'});
    assert stripped == uri[..n];
    assert stripped[n - 1] == uri[n - 1];
    NonEmptyAfterLast(stripped, '/');
    assert ExtractFragment(uri) == AfterLast(stripped, '/');
    assert uri[n - 1] != '/';
  }

  /** The text after the last `c` is empty only when the string is empty or ends in `c`. */
  lemma NonEmptyAfterLast(s: string, c: char)
    ensures AfterLast(s, c) == "" <==> s == "" || s[|s| - 1] == c
  {
  }

  /** A row of the relations table; the publication is `None` when the binding has none. */
  datatype Row = Row(
    subjectType: string,
    subjectName: string,
    relation: string,
    objectType: string,
    objectName: string,
    sourcePublication: Option<string>)

  /** The fragment of a binding's variable, "" when it is unbound. */
  function Cell(b: Binding, key: string): string {
    ExtractFragment(ValueOr(b, key, ""))
  }

  /** The row `process_sparql_results` makes of one binding. */
  function RowOf(b: Binding): Row {
    Row(Cell(b, "entity1_type"), Cell(b, "entity1"), Cell(b, "predicate"),
        Cell(b, "entity2_type"), Cell(b, "entity2"),
        if "publication" in b then Some(Cell(b, "publication")) else None)
  }

  /** `process_sparql_results`: one row per binding, in order. */
  method ProcessSparqlResults(bindings: seq<Binding>) returns (data: seq<Row>)
    ensures |data| == |bindings|
    ensures forall i :: 0 <= i < |bindings| ==> data[i] == RowOf(bindings[i])
  {
    data := [];
    for i := 0 to |bindings|
      invariant |data| == i
      invariant forall k :: 0 <= k < i ==> data[k] == RowOf(bindings[k])
    {
      var result := bindings[i];
      var entity1Type := ExtractFragment(ValueOr(result, "entity1_type", ""));
      var entity1 := ExtractFragment(ValueOr(result, "entity1", ""));
      var predicateName := ExtractFragment(ValueOr(result, "predicate", ""));
      var entity2Type := ExtractFragment(ValueOr(result, "entity2_type", ""));
      var entity2 := ExtractFragment(ValueOr(result, "entity2", ""));
      var publication := if "publication" in result then Some(ExtractFragment(ValueOr(result, "publication", ""))) else None;
      data := data + [Row(entity1Type, entity1, predicateName, entity2Type, entity2, publication)];
    }
  }

  /**
   * An unbound variable gives an empty cell, while a missing publication
   * gives `None` and a publication without a value gives `Some("")`; bound
   * cells are fragments, so they hold no '#'.
   */
  lemma RowDefaults(b: Binding)
    ensures "entity1" !in b ==> RowOf(b).subjectName == ""
    ensures "entity2" !in b ==> RowOf(b).objectName == ""
    ensures "predicate" !in b ==> RowOf(b).relation == ""
    ensures "entity1_type" !in b ==> RowOf(b).subjectType == ""
    ensures "entity2_type" !in b ==> RowOf(b).objectType == ""
    ensures RowOf(b).sourcePublication.None? <==> "publication" !in b
    ensures "publication" in b && b["publication"].value.None? ==> RowOf(b).sourcePublication == Some("")
    ensures '#' !in RowOf(b).subjectName && '#' !in RowOf(b).objectName && '#' !in RowOf(b).relation
  {
  }

  /** Trailing slashes are ignored: "a/b/" has the fragment "b", as "a#b" has. */
  lemma FragmentIgnoresTrailingSlash()
    ensures ExtractFragment("a/b/") == "b"
    ensures ExtractFragment("a#b") == "b"
  {
    assert KeptLength("a/b/", {'/'}, 3) == 3;
    assert KeptLength("a/b/", {'/'}, 4) == 3;
    assert RStripChars("a/b/", {'/'}) == "a/b/"[..3] == "a/b";
    AfterLastOfJoin("a", "b", '/');
    assert "a/b" == "a" + ['/'] + "b";
    AfterLastOfJoin("a", "b", '#');
    assert "a#b" == "a" + ['#'] + "b";
  }
}
