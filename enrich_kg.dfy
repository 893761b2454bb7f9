/**
 * The single-update SPARQL writer shared, word for word, by the Mistral and
 * GPT-4o enrichment scripts: each relation becomes five statements about
 * `ont:` individuals in the `<http://amddata.org/amd/>` graph.
 */
module EnrichKg {
  import opened Strings

  /** A relation dict with its five keys. */
  datatype Relation = Relation(
    relationType: string,
    entity1Type: string,
    entity1Name: string,
    entity2Type: string,
    entity2Name: string)

  const Prefixes: string :=
    "\n    PREFIX owl: <http://www.w3.org/2002/07/owl#>\n" +
    "    PREFIX rdf: <http://www.w3.org/1999/02/22-rdf-syntax-ns#>\n" +
    "    PREFIX ont: <http://www.semanticweb.org/lecualexandru/ontologies/2024/1/>\n    "

  const Header: string := "INSERT DATA { GRAPH <http://amddata.org/amd/> { "

  const Footer: string := " } }"

  /** An entity's node: `ont:` and the name with each space turned into '_'. */
  function Node(name: string): string {
    "ont:" + ReplaceChar(name, ' ', '_')
  }

  /** The subject declared a named individual, closed by ". ". */
  function SubjectIndividual(r: Relation): string {
    Node(r.entity1Name) + " rdf:type owl:NamedIndividual . "
  }

  /** The subject typed with its upper-cased entity type. */
  function SubjectClass(r: Relation): string {
    Node(r.entity1Name) + " rdf:type ont:" + Upper(r.entity1Type) + " . "
  }

  /** The object declared a named individual, closed by "." with no space after it. */
  function ObjectIndividual(r: Relation): string {
    Node(r.entity2Name) + " rdf:type owl:NamedIndividual ."
  }

  /** The object typed with its upper-cased entity type. */
  function ObjectClass(r: Relation): string {
    Node(r.entity2Name) + " rdf:type ont:" + Upper(r.entity2Type) + " . "
  }

  /** The relation itself; the relation type is not altered at all. */
  function Triple(r: Relation): string {
    Node(r.entity1Name) + " " + "ont:" + r.relationType + " " + Node(r.entity2Name) + " . "
  }

  /** What one relation adds to the update, in this order. */
  function Statements(r: Relation): string {
    SubjectIndividual(r) + SubjectClass(r) + ObjectIndividual(r) + ObjectClass(r) + Triple(r)
  }

  /** Each relation's statements. */
  function Blocks(rels: seq<Relation>): (bs: seq<string>)
    ensures |bs| == |rels|
  {
    seq(|rels|, k requires 0 <= k < |rels| => Statements(rels[k]))
  }

  /** The statements of every relation, in order. */
  function Body(rels: seq<Relation>): string {
    Concat(Blocks(rels), 0, |rels|)
  }

  /** The whole update. */
  function KgQuery(rels: seq<Relation>): string {
    Prefixes + Header + Body(rels) + Footer
  }

  /** `create_sparql_query`: the update, built by appending to a string. */
  method CreateSparqlQuery(relations: seq<Relation>) returns (query: string)
    ensures query == KgQuery(relations)
  {
    ghost var blocks := Blocks(relations);
    query := Prefixes + Header;
    for i := 0 to |relations|
      invariant query == Prefixes + Header + Concat(blocks, 0, i)
    {
      var triple := BuildStatements(relations[i]);
      AppendAssoc(Prefixes + Header, Concat(blocks, 0, i), triple);
      query := query + triple;
    }
    query := query + Footer;
  }

  /** The body of the loop: one relation's five statements, appended one by one. */
  method BuildStatements(relation: Relation) returns (triple: string)
    ensures triple == Statements(relation)
  {
    var subjectTypeUriNi := "ont:" + ReplaceChar(relation.entity1Name, ' ', '_') + " rdf:type " + "owl:NamedIndividual . ";
    var subjectTypeUri := "ont:" + ReplaceChar(relation.entity1Name, ' ', '_') + " rdf:type " + "ont:" + Upper(relation.entity1Type) + " . ";
    var objectTypeUriNi := "ont:" + ReplaceChar(relation.entity2Name, ' ', '_') + " rdf:type " + "owl:NamedIndividual .";
    var objectTypeUri := "ont:" + ReplaceChar(relation.entity2Name, ' ', '_') + " rdf:type " + "ont:" + Upper(relation.entity2Type) + " . ";
    var subjectUri := "ont:" + ReplaceChar(relation.entity1Name, ' ', '_');
    var predicateUri := "ont:" + relation.relationType;
    var objectUri := "ont:" + ReplaceChar(relation.entity2Name, ' ', '_');
    assert subjectTypeUriNi == SubjectIndividual(relation);
    assert subjectTypeUri == SubjectClass(relation);
    assert objectTypeUriNi == ObjectIndividual(relation);
    assert objectTypeUri == ObjectClass(relation);
    assert subjectUri + " " + predicateUri + " " + objectUri + " . " == Triple(relation);
    triple := subjectTypeUriNi;
    triple := triple + subjectTypeUri;
    triple := triple + objectTypeUriNi;
    triple := triple + objectTypeUri;
    triple := triple + (subjectUri + " " + predicateUri + " " + objectUri + " . ");
  }

  /**
   * Between the header and the footer come every relation's statements in
   * list order: relation `i`'s statements sit between those of the
   * relations before it and those of the relations after it. No relations
   * gives nothing between header and footer.
   */
  lemma QueryLayout(rels: seq<Relation>, i: nat)
    requires i < |rels|
    ensures Body(rels) == Body(rels[..i]) + Statements(rels[i]) + Body(rels[i + 1..])
    ensures Body([]) == ""
  {
    var bs := Blocks(rels);
    ConcatSplit(bs, 0, i + 1, |rels|);
    BodyPrefix(rels, i);
    BodySuffix(rels, i + 1);
    assert bs[i] == Statements(rels[i]);
  }

  /** The statements of the first `j` relations. */
  lemma BodyPrefix(rels: seq<Relation>, j: nat)
    requires j <= |rels|
    ensures Body(rels[..j]) == Concat(Blocks(rels), 0, j)
  {
    var bs := Blocks(rels);
    BlocksSlice(rels, 0, j);
    assert rels[0..j] == rels[..j];
    ConcatSlice(bs, bs[0..j], 0);
  }

  /** The statements of the relations from `j` on. */
  lemma BodySuffix(rels: seq<Relation>, j: nat)
    requires j <= |rels|
    ensures Body(rels[j..]) == Concat(Blocks(rels), j, |rels|)
  {
    var bs := Blocks(rels);
    BlocksSuffix(rels, j);
    ConcatSlice(bs, bs[j..], j);
  }

  /** The blocks of a suffix are the suffix of the blocks. */
  lemma BlocksSuffix(rels: seq<Relation>, j: nat)
    requires j <= |rels|
    ensures Blocks(rels[j..]) == Blocks(rels)[j..]
  {
    assert rels[j..|rels|] == rels[j..];
    BlocksSlice(rels, j, |rels|);
  }

  /** The blocks of a slice are the slice of the blocks. */
  lemma BlocksSlice(rels: seq<Relation>, lo: nat, hi: nat)
    requires lo <= hi <= |rels|
    ensures Blocks(rels[lo..hi]) == Blocks(rels)[lo..hi]
  {
    var a, b := Blocks(rels[lo..hi]), Blocks(rels)[lo..hi];
    forall k | 0 <= k < hi - lo
      ensures a[k] == b[k]
    {
      assert rels[lo..hi][k] == rels[lo + k];
    }
  }

  /** The concatenation of a range equals that of a list holding the same strings. */
  lemma {:induction false} ConcatSlice(bs: seq<string>, part: seq<string>, lo: nat)
    requires lo + |part| <= |bs| && forall k :: 0 <= k < |part| ==> part[k] == bs[lo + k]
    ensures Concat(part, 0, |part|) == Concat(bs, lo, lo + |part|)
    decreases |part|
  {
    if part != [] {
      var n := |part| - 1;
      ConcatSlice(bs, part[..n], lo);
      ConcatPrefix(part, n);
    }
  }

  /**
   * Names change only by spaces becoming '_': the node keeps the name's
   * length, holds no space, and is the name itself when it has no space, so
   * parentheses, commas and apostrophes reach the update as they are.
   */
  lemma NodeSpec(name: string)
    ensures |Node(name)| == |name| + 4 && ' ' !in Node(name)
    ensures ' ' !in name ==> Node(name) == "ont:" + name
    ensures Node(name)[..4] == "ont:"
    ensures forall i :: 0 <= i < |name| ==> Node(name)[4 + i] == (if name[i] == ' ' then '_' else name[i])
  {
    ReplaceCharRemoves(name, ' ', '_');
    if ' ' !in name {
      assert ReplaceChar(name, ' ', '_') == name;
    }
  }

  /** "macular degeneration" and "macular_degeneration" are the same individual. */
  lemma SpaceAndUnderscoreCollide()
    ensures Node("a b") == Node("a_b")
  {
    assert ReplaceChar("a b", ' ', '_') == "a_b";
    assert ReplaceChar("a_b", ' ', '_') == "a_b";
  }

  /**
   * The object's named-individual statement runs straight into the object's
   * class statement: its "." is followed at once by the "ont:" of the
   * object's node, with no space between them.
   */
  lemma ObjectStatementGlued(r: Relation)
    ensures OccursAt(Statements(r), ".ont:", |SubjectIndividual(r)| + |SubjectClass(r)| + |ObjectIndividual(r)| - 1)
  {
    var oi := ObjectIndividual(r);
    var oc := ObjectClass(r);
    assert oi[|oi| - 1] == '.' by {
      assert EndsWith(oi, " .");
    }
    assert oc[..4] == "ont:" by {
      NodeSpec(r.entity2Name);
    }
    GluedAt(SubjectIndividual(r) + SubjectClass(r), oi, oc, Triple(r));
  }

  /** A part ending in '.' followed by one starting "ont:" gives ".ont:" at the seam. */
  lemma GluedAt(pre: string, x: string, y: string, post: string)
    requires |x| > 0 && x[|x| - 1] == '.' && |y| >= 4 && y[..4] == "ont:"
    ensures OccursAt(pre + x + y + post, ".ont:", |pre| + |x| - 1)
  {
    var s := pre + x + y + post;
    var i := |pre| + |x| - 1;
    assert s[i] == '.';
    assert s[i + 1..i + 5] == y[..4];
    assert s[i..i + 5] == [s[i]] + s[i + 1..i + 5];
  }

  /** The relation type reaches the triple unaltered: a type with a space in it stays split in two. */
  lemma RelationTypeVerbatim(r: Relation)
    ensures OccursAt(Triple(r), " ont:" + r.relationType + " ", |Node(r.entity1Name)|)
  {
    var n := Node(r.entity1Name);
    var w := " ont:" + r.relationType + " ";
    assert Triple(r) == n + w + (Node(r.entity2Name) + " . ");
    assert Triple(r)[|n|..|n| + |w|] == w;
  }
}
