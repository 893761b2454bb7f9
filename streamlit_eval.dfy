/**
 * The set algebra of the repository comparison page: triples common to
 * all repositories, triples unique to one, the pairwise overlap matrix,
 * and the same comparison over entity types.
 */
module StreamlitEval {
  import opened Wrappers
  import opened SparqlResults

  /** The error `set.intersection(*[])` and `set.union(*[])` raise. */
  const TypeError: string := "TypeError"

  // ---------------------------------------------------------------------
  // fetch_graph_data
  // ---------------------------------------------------------------------

  /**
   * `fetch_graph_data`, given the endpoint's reply (a failed query being a
   * `Failure`): no data for a failed query or an empty result, else the
   * triples of the bindings; a binding lacking a value raises.
   */
  function FetchGraphData(reply: Result<seq<Binding>>): Result<Option<seq<Triple>>> {
    if reply.Failure? || reply.value == [] then Success(None)
    else
      match Triples(reply.value)
      case Failure(e) => Failure(e)
      case Success(ts) => Success(Some(ts))
  }

  /**
   * A repository yields data exactly when its query succeeded with at least
   * one binding and every binding is complete; the data is then one triple
   * per binding.
   */
  lemma FetchGraphDataSpec(reply: Result<seq<Binding>>)
    ensures FetchGraphData(reply) == Success(None) <==> reply.Failure? || reply.value == []
    ensures (FetchGraphData(reply).Success? && FetchGraphData(reply).value.Some?) <==>
      reply.Success? && reply.value != [] && forall i :: 0 <= i < |reply.value| ==> TripleOf(reply.value[i]).Some?
    ensures FetchGraphData(reply).Success? && FetchGraphData(reply).value.Some? ==>
      |FetchGraphData(reply).value.value| == |reply.value|
  {
    if reply.Success? {
      TriplesSpec(reply.value);
    }
  }

  // ---------------------------------------------------------------------
  // Intersections and unions of a list of sets
  // ---------------------------------------------------------------------

  /** The intersection of a non-empty list of sets. */
  function Intersection<T(!new)>(ss: seq<set<T>>): (r: set<T>)
    requires |ss| > 0
    ensures forall x :: x in r <==> forall k :: 0 <= k < |ss| ==> x in ss[k]
    decreases |ss|
  {
    if |ss| == 1 then ss[0]
    else
      var rest := Intersection(ss[1..]);
      assert forall k :: 1 <= k < |ss| ==> ss[k] == ss[1..][k - 1];
      ss[0] * rest
  }

  /** The union of a list of sets. */
  function Union<T(!new)>(ss: seq<set<T>>): (r: set<T>)
    ensures forall x :: x in r <==> exists k :: 0 <= k < |ss| && x in ss[k]
    decreases |ss|
  {
    if ss == [] then {}
    else
      var rest := Union(ss[1..]);
      assert forall k :: 1 <= k < |ss| ==> ss[k] == ss[1..][k - 1];
      ss[0] + rest
  }

  /** `set.intersection(*ss)`, which needs at least one set. */
  function IntersectAll<T(!new)>(ss: seq<set<T>>): Result<set<T>> {
    if ss == [] then Failure(TypeError) else Success(Intersection(ss))
  }

  /** `set.union(*ss)`, which needs at least one set. */
  function UnionAll<T(!new)>(ss: seq<set<T>>): Result<set<T>> {
    if ss == [] then Failure(TypeError) else Success(Union(ss))
  }

  /** The list without its `i`-th element. */
  function Others<T>(ss: seq<T>, i: nat): (os: seq<T>)
    requires i < |ss|
    ensures |os| == |ss| - 1
  {
    ss[..i] + ss[i + 1..]
  }

  /** `ss[i] - set.union(*(the other sets))`. */
  function UniqueTo<T(!new)>(ss: seq<set<T>>, i: nat): Result<set<T>>
    requires i < |ss|
  {
    match UnionAll(Others(ss, i))
    case Failure(e) => Failure(e)
    case Success(u) => Success(ss[i] - u)
  }

  /**
   * The common elements are those in every set, and the call fails only
   * for an empty list.
   */
  lemma CommonSpec<T(!new)>(ss: seq<set<T>>)
    ensures IntersectAll(ss).Failure? <==> ss == []
    ensures IntersectAll(ss).Success? ==>
      (forall k :: 0 <= k < |ss| ==> IntersectAll(ss).value <= ss[k]) &&
      forall x :: (forall k :: 0 <= k < |ss| ==> x in ss[k]) ==> x in IntersectAll(ss).value
  {
  }

  /**
   * The elements unique to set `i` are the ones of set `i` found in no
   * other set, so they share nothing with any other set; with a single
   * set there is no other to take the union of, and the call fails.
   */
  lemma UniqueSpec<T(!new)>(ss: seq<set<T>>, i: nat)
    requires i < |ss|
    ensures UniqueTo(ss, i).Failure? <==> |ss| == 1
    ensures UniqueTo(ss, i).Success? ==>
      && UniqueTo(ss, i).value <= ss[i]
      && (forall k :: 0 <= k < |ss| && k != i ==> UniqueTo(ss, i).value !! ss[k])
      && forall x :: x in ss[i] && (forall k :: 0 <= k < |ss| && k != i ==> x !in ss[k]) ==> x in UniqueTo(ss, i).value
  {
    var os := Others(ss, i);
    assert forall k :: 0 <= k < i ==> os[k] == ss[k];
    assert forall k :: i < k < |ss| ==> os[k - 1] == ss[k];
    if |ss| > 1 {
      var u := Union(os);
      forall k | 0 <= k < |ss| && k != i
        ensures ss[k] <= u
      {
        if k < i {
          assert os[k] == ss[k];
        } else {
          assert os[k - 1] == ss[k];
        }
      }
      forall x | x in u ensures exists k :: 0 <= k < |ss| && k != i && x in ss[k] {
        var j :| 0 <= j < |os| && x in os[j];
        if j < i {
          assert x in ss[j];
        } else {
          assert x in ss[j + 1];
        }
      }
    }
  }

  // ---------------------------------------------------------------------
  // compare_triples
  // ---------------------------------------------------------------------

  /** A repository's name and the triples fetched from it. */
  datatype Repo = Repo(name: string, rows: seq<Triple>)

  predicate DistinctNames(repos: seq<Repo>) {
    forall i, j :: 0 <= i < j < |repos| ==> repos[i].name != repos[j].name
  }

  /** `set(zip(df['Subject'], df['Predicate'], df['Object']))` */
  function TripleSet(rows: seq<Triple>): set<Triple> {
    set t | t in rows
  }

  function TripleSets(repos: seq<Repo>): (ss: seq<set<Triple>>)
    ensures |ss| == |repos|
  {
    seq(|repos|, i requires 0 <= i < |repos| => TripleSet(repos[i].rows))
  }

  /** The triples found in every repository. */
  function CommonTriples(repos: seq<Repo>): Result<set<Triple>> {
    IntersectAll(TripleSets(repos))
  }

  /** The triples of repository `i` found in no other repository. */
  function UniqueTriples(repos: seq<Repo>, i: nat): Result<set<Triple>>
    requires i < |repos|
  {
    UniqueTo(TripleSets(repos), i)
  }

  /**
   * The common triples occur in every repository; a repository's unique
   * triples occur in no other one, and computing them fails when it is the
   * only repository.
   */
  lemma TriplesCompared(repos: seq<Repo>, i: nat)
    requires 0 < |repos| && i < |repos|
    ensures CommonTriples(repos).Success?
    ensures forall k, t :: 0 <= k < |repos| && t in CommonTriples(repos).value ==> t in repos[k].rows
    ensures UniqueTriples(repos, i).Failure? <==> |repos| == 1
    ensures UniqueTriples(repos, i).Success? ==>
      forall k, t :: 0 <= k < |repos| && k != i && t in UniqueTriples(repos, i).value ==> t in repos[i].rows && t !in repos[k].rows
  {
    var ss := TripleSets(repos);
    CommonSpec(ss);
    UniqueSpec(ss, i);
    forall k, t | 0 <= k < |repos| && t in CommonTriples(repos).value ensures t in repos[k].rows {
      assert t in ss[k];
    }
    if UniqueTriples(repos, i).Success? {
      forall k, t | 0 <= k < |repos| && k != i && t in UniqueTriples(repos, i).value
        ensures t in repos[i].rows && t !in repos[k].rows
      {
        assert t in ss[i] && t !in ss[k];
      }
    }
  }

  /** An overlap matrix cell: the size of the repository's set on the diagonal, of the intersection elsewhere. */
  function Overlap(repos: seq<Repo>, i: nat, j: nat): nat
    requires i < |repos| && j < |repos|
  {
    var ss := TripleSets(repos);
    if repos[i].name == repos[j].name then |ss[i]| else |ss[i] * ss[j]|
  }

  lemma SubsetSize<T>(a: set<T>, b: set<T>)
    requires a <= b
    ensures |a| <= |b|
  {
    assert b == a + (b - a);
  }

  /**
   * Every cell counts the triples the two repositories share: the matrix
   * is symmetric, its diagonal holds each repository's size, and no cell
   * exceeds the smaller of its two repositories.
   */
  lemma OverlapSpec(repos: seq<Repo>, i: nat, j: nat)
    requires DistinctNames(repos) && i < |repos| && j < |repos|
    ensures var ss := TripleSets(repos);
      && Overlap(repos, i, j) == |ss[i] * ss[j]|
      && Overlap(repos, i, j) == Overlap(repos, j, i)
      && Overlap(repos, i, i) == |ss[i]|
      && Overlap(repos, i, j) <= |ss[i]| && Overlap(repos, i, j) <= |ss[j]|
  {
    var ss := TripleSets(repos);
    assert ss[i] * ss[i] == ss[i];
    assert ss[i] * ss[j] == ss[j] * ss[i];
    SubsetSize(ss[i] * ss[j], ss[i]);
    SubsetSize(ss[i] * ss[j], ss[j]);
  }

  /** The overlap matrix of `compare_triples`, filled cell by cell in list order. */
  method OverlapMatrix(repos: seq<Repo>) returns (m: array2<nat>)
    ensures fresh(m) && m.Length0 == |repos| && m.Length1 == |repos|
    ensures forall i, j :: 0 <= i < |repos| && 0 <= j < |repos| ==> m[i, j] == Overlap(repos, i, j)
  {
    var triples := TripleSets(repos);
    m := new nat[|repos|, |repos|];
    for r1 := 0 to |repos|
      invariant forall i, j :: 0 <= i < r1 && 0 <= j < |repos| ==> m[i, j] == Overlap(repos, i, j)
    {
      for r2 := 0 to |repos|
        invariant forall i, j :: 0 <= i < r1 && 0 <= j < |repos| ==> m[i, j] == Overlap(repos, i, j)
        invariant forall j :: 0 <= j < r2 ==> m[r1, j] == Overlap(repos, r1, j)
      {
        if repos[r1].name == repos[r2].name {
          m[r1, r2] := |triples[r1]|;
        } else {
          m[r1, r2] := |triples[r1] * triples[r2]|;
        }
      }
    }
  }

  // ---------------------------------------------------------------------
  // analyze_entity_types
  // ---------------------------------------------------------------------

  const RdfTypeIri: string := "http://www.w3.org/1999/02/22-rdf-syntax-ns#type"

  /** The predicates that mark a type statement: the full IRI or the prefixed name. */
  predicate IsTypePredicate(p: string) {
    p == RdfTypeIri || p == "rdf:type"
  }

  /** The objects of a repository's type statements: its entity types. */
  function TypesOf(rows: seq<Triple>): set<string> {
    set t | t in rows && IsTypePredicate(t.1) :: t.2
  }

  /** The repositories holding at least one type statement, with their types, in order. */
  function TypedRepos(repos: seq<Repo>): (typed: seq<(string, set<string>)>)
    ensures |typed| <= |repos|
    ensures forall k :: 0 <= k < |typed| ==> typed[k].1 != {}
    decreases |repos|
  {
    if repos == [] then []
    else
      var types := TypesOf(repos[0].rows);
      (if types == {} then [] else [(repos[0].name, types)]) + TypedRepos(repos[1..])
  }

  function TypeSets(typed: seq<(string, set<string>)>): (ss: seq<set<string>>)
    ensures |ss| == |typed|
  {
    seq(|typed|, k requires 0 <= k < |typed| => typed[k].1)
  }

  /** The types found in every typed repository, or nothing when no repository has types. */
  function CommonTypes(repos: seq<Repo>): Option<set<string>> {
    var typed := TypedRepos(repos);
    if typed == [] then None else Some(Intersection(TypeSets(typed)))
  }

  /** The types of the `k`-th typed repository found in no other typed repository. */
  function UniqueTypes(repos: seq<Repo>, k: nat): Result<set<string>>
    requires k < |TypedRepos(repos)|
  {
    UniqueTo(TypeSets(TypedRepos(repos)), k)
  }

  /** `entry` is some repository's name with that repository's types. */
  predicate FromSomeRepo(repos: seq<Repo>, entry: (string, set<string>)) {
    exists i :: 0 <= i < |repos| && entry == (repos[i].name, TypesOf(repos[i].rows))
  }

  /**
   * Only type statements count, under either spelling of the predicate,
   * and a repository takes part in the comparison exactly when it has one.
   */
  lemma TypedReposSpec(repos: seq<Repo>)
    ensures forall k :: 0 <= k < |TypedRepos(repos)| ==> FromSomeRepo(repos, TypedRepos(repos)[k])
    ensures forall i :: 0 <= i < |repos| && TypesOf(repos[i].rows) != {} ==>
      (repos[i].name, TypesOf(repos[i].rows)) in TypedRepos(repos)
  {
    forall k | 0 <= k < |TypedRepos(repos)|
      ensures FromSomeRepo(repos, TypedRepos(repos)[k])
    {
      TypedEntryFrom(repos, k);
    }
    forall i | 0 <= i < |repos| && TypesOf(repos[i].rows) != {}
      ensures (repos[i].name, TypesOf(repos[i].rows)) in TypedRepos(repos)
    {
      TypedRepoListed(repos, i);
    }
  }

  /** The entry at `k` is some repository with its types. */
  lemma {:induction false} TypedEntryFrom(repos: seq<Repo>, k: nat)
    requires k < |TypedRepos(repos)|
    ensures FromSomeRepo(repos, TypedRepos(repos)[k])
    decreases |repos|
  {
    var rest := repos[1..];
    var head := if TypesOf(repos[0].rows) == {} then [] else [(repos[0].name, TypesOf(repos[0].rows))];
    assert TypedRepos(repos) == head + TypedRepos(rest);
    if k < |head| {
      assert TypedRepos(repos)[k] == (repos[0].name, TypesOf(repos[0].rows));
    } else {
      TypedEntryFrom(rest, k - |head|);
      var i :| 0 <= i < |rest| && TypedRepos(rest)[k - |head|] == (rest[i].name, TypesOf(rest[i].rows));
      assert TypedRepos(repos)[k] == (repos[i + 1].name, TypesOf(repos[i + 1].rows));
    }
  }

  /** A repository with a type is listed. */
  lemma {:induction false} TypedRepoListed(repos: seq<Repo>, i: nat)
    requires i < |repos| && TypesOf(repos[i].rows) != {}
    ensures (repos[i].name, TypesOf(repos[i].rows)) in TypedRepos(repos)
    decreases |repos|
  {
    var rest := repos[1..];
    var head := if TypesOf(repos[0].rows) == {} then [] else [(repos[0].name, TypesOf(repos[0].rows))];
    assert TypedRepos(repos) == head + TypedRepos(rest);
    if i > 0 {
      TypedRepoListed(rest, i - 1);
      assert rest[i - 1] == repos[i];
    }
  }

  /** A triple's object is a type of its repository exactly when its predicate is a type predicate. */
  lemma TypesOfSpec(rows: seq<Triple>, s: string, o: string)
    ensures (s, RdfTypeIri, o) in rows ==> o in TypesOf(rows)
    ensures (s, "rdf:type", o) in rows ==> o in TypesOf(rows)
    ensures o in TypesOf(rows) ==> exists t :: t in rows && IsTypePredicate(t.1) && t.2 == o
  {
    if (s, RdfTypeIri, o) in rows {
      assert IsTypePredicate((s, RdfTypeIri, o).1);
    }
    if (s, "rdf:type", o) in rows {
      assert IsTypePredicate((s, "rdf:type", o).1);
    }
  }

  /**
   * The common types are types of every typed repository; a typed
   * repository's unique types are its own types minus those of every
   * other typed repository.
   */
  lemma TypesCompared(repos: seq<Repo>, k: nat)
    requires k < |TypedRepos(repos)|
    ensures CommonTypes(repos).Some?
    ensures forall j :: 0 <= j < |TypedRepos(repos)| ==> CommonTypes(repos).value <= TypedRepos(repos)[j].1
    ensures UniqueTypes(repos, k).Failure? <==> |TypedRepos(repos)| == 1
    ensures UniqueTypes(repos, k).Success? ==>
      UniqueTypes(repos, k).value ==
        TypedRepos(repos)[k].1 - set j, x | 0 <= j < |TypedRepos(repos)| && j != k && x in TypedRepos(repos)[j].1 :: x
  {
    var typed := TypedRepos(repos);
    var ss := TypeSets(typed);
    CommonSpec(ss);
    UniqueSpec(ss, k);
    assert forall j :: 0 <= j < |typed| ==> ss[j] == typed[j].1;
  }
}
