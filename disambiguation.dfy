/**
 * Relation refinement (backend/disambiguation/disambiguation.py): entity-name
 * normalisation, deduplication of extracted relations, and the majority vote
 * that settles an entity name's type across one batch.
 */
module Disambiguation {
  import opened Wrappers
  import opened Strings

  // ---------------------------------------------------------------------
  // Data
  // ---------------------------------------------------------------------

  /** An entity type label as read from a relation dict; `None` when the key is absent. */
  type Label = Option<string>

  /**
   * A relation dict as the extraction step hands it over. Every field is read
   * with `rel.get(...)`, so each may be absent (`None`); a name that is not a
   * string is also `None`, since the normaliser treats both alike.
   */
  datatype RawRelation = RawRelation(
    relationType: Option<string>,
    entity1Type: Label,
    entity1Name: Option<string>,
    entity2Type: Label,
    entity2Name: Option<string>,
    pubId: Option<string>)

  /** A relation after refinement: both names normalised. */
  datatype Relation = Relation(
    relationType: Option<string>,
    entity1Type: Label,
    entity1Name: string,
    entity2Type: Label,
    entity2Name: string,
    pubId: Option<string>)

  /** The deduplication key: (relation_type, entity1_type, name1, entity2_type, name2, pub_id). */
  type Key = (Option<string>, Label, string, Label, string, Option<string>)

  function KeyOf(r: Relation): Key {
    (r.relationType, r.entity1Type, r.entity1Name, r.entity2Type, r.entity2Name, r.pubId)
  }

  // ---------------------------------------------------------------------
  // Tables
  // ---------------------------------------------------------------------

  const Synonyms: map<string, string> := map[
    "wet amd" := "wet age-related macular degeneration",
    "early amd" := "early age-related macular degeneration",
    "cnv" := "choroidal neovascularization",
    "amd" := "age-related macular degeneration",
    "wet age-related macular degeneration amd" := "wet age-related macular degeneration",
    "early age related macular degeneration amd" := "early age-related macular degeneration",
    "wet armd" := "wet age-related macular degeneration",
    "ga" := "geographic atrophy",
    "oct" := "optical coherence tomography",
    "pdt" := "photodynamic therapy",
    "pcv" := "polypoidal choroidal vasculopathy",
    "vma" := "vitreomacular adhesion",
    "me" := "macular edema",
    "namd" := "neovascular age-related macular degeneration",
    "neovascular amd" := "neovascular age-related macular degeneration"
  ]

  const TrailingWords: set<string> := {"cnv", "ga"}

  const TypePriority: map<string, nat> := map[
    "disease" := 12, "body_part" := 11, "treatment" := 10, "symptom" := 9,
    "complication" := 8, "comorbidity" := 7, "risk_factor" := 6, "biomarker" := 5,
    "progression" := 4, "test" := 3, "gene" := 2, "prognosis" := 1
  ]

  /** `type_priority.get(t, 0)` */
  function Priority(t: Label): nat {
    if t.Some? && t.value in TypePriority then TypePriority[t.value] else 0
  }

  // ---------------------------------------------------------------------
  // get_most_frequent_type
  // ---------------------------------------------------------------------

  /** A per-name count dict, in insertion order: (type label, count). */
  type TypeCounts = seq<(Label, nat)>

  function MaxCount(counts: TypeCounts): (m: nat)
    requires |counts| > 0
    ensures forall i :: 0 <= i < |counts| ==> counts[i].1 <= m
    ensures exists i :: 0 <= i < |counts| && counts[i].1 == m
  {
    if |counts| == 1 then counts[0].1
    else
      var m' := MaxCount(counts[1..]);
      assert forall i :: 1 <= i < |counts| ==> counts[i] == counts[1..][i - 1];
      if counts[0].1 > m' then counts[0].1 else m'
  }

  /** `[label for label, count in counts.items() if count == m]` */
  function Candidates(counts: TypeCounts, m: nat): (cs: seq<Label>)
    ensures |cs| > 0 <==> exists i :: 0 <= i < |counts| && counts[i].1 == m
  {
    if counts == [] then []
    else
      assert forall i :: 1 <= i < |counts| ==> counts[i] == counts[1..][i - 1];
      (if counts[0].1 == m then [counts[0].0] else []) + Candidates(counts[1..], m)
  }

  /** The first element of a stable sort by priority, highest first. */
  function HighestPriority(cs: seq<Label>): Label
    requires |cs| > 0
  {
    if |cs| == 1 then cs[0]
    else
      var b := HighestPriority(cs[1..]);
      if Priority(cs[0]) >= Priority(b) then cs[0] else b
  }

  /** `get_most_frequent_type`: `None` for an empty dict, else the label with the highest count, ties to the highest priority. */
  function MostFrequentType(counts: TypeCounts): (r: Option<Label>)
    ensures r.Some? <==> |counts| > 0
  {
    if |counts| == 0 then None
    else
      var m := MaxCount(counts);
      var cs := Candidates(counts, m);
      if |cs| == 1 then Some(cs[0]) else Some(HighestPriority(cs))
  }

  /** Entry `i` wins the vote: highest count, then highest priority, then earliest. */
  ghost predicate IsWinner(counts: TypeCounts, i: int)
    requires 0 <= i < |counts|
  {
    && (forall j :: 0 <= j < |counts| ==> counts[j].1 <= counts[i].1)
    && (forall j :: 0 <= j < |counts| && counts[j].1 == counts[i].1 ==> Priority(counts[j].0) <= Priority(counts[i].0))
    && (forall j :: 0 <= j < i && counts[j].1 == counts[i].1 ==> Priority(counts[j].0) < Priority(counts[i].0))
  }

  /** Among the entries counting `m`, entry `i` has the highest priority and is the first to have it. */
  ghost predicate TopPriorityAt(counts: TypeCounts, m: nat, i: int)
    requires 0 <= i < |counts|
  {
    && counts[i].1 == m
    && (forall j :: 0 <= j < |counts| && counts[j].1 == m ==> Priority(counts[j].0) <= Priority(counts[i].0))
    && (forall j :: 0 <= j < i && counts[j].1 == m ==> Priority(counts[j].0) < Priority(counts[i].0))
  }

  lemma ShiftTopPriority(counts: TypeCounts, m: nat, i: nat)
    requires 0 < |counts| && i < |counts| - 1
    requires TopPriorityAt(counts[1..], m, i)
    requires counts[0].1 == m ==> Priority(counts[0].0) < Priority(counts[i + 1].0)
    ensures TopPriorityAt(counts, m, i + 1)
  {
    assert forall j :: 1 <= j < |counts| ==> counts[j] == counts[1..][j - 1];
  }

  lemma HeadTopPriority(counts: TypeCounts, m: nat, i: nat)
    requires 0 < |counts| && i < |counts| - 1 && counts[0].1 == m
    requires TopPriorityAt(counts[1..], m, i)
    requires Priority(counts[0].0) >= Priority(counts[i + 1].0)
    ensures TopPriorityAt(counts, m, 0)
  {
    assert forall j :: 1 <= j < |counts| ==> counts[j] == counts[1..][j - 1];
  }

  lemma {:induction false} HighestPriorityOfCandidates(counts: TypeCounts, m: nat)
    requires exists i :: 0 <= i < |counts| && counts[i].1 == m
    ensures exists i :: 0 <= i < |counts| && counts[i].0 == HighestPriority(Candidates(counts, m)) && TopPriorityAt(counts, m, i)
    decreases |counts|
  {
    var tail := counts[1..];
    var rest := Candidates(tail, m);
    var k :| 0 <= k < |counts| && counts[k].1 == m;
    if counts[0].1 == m {
      assert Candidates(counts, m) == [counts[0].0] + rest;
      if rest == [] {
        assert Candidates(counts, m) == [counts[0].0];
        assert forall j :: 1 <= j < |counts| ==> counts[j] == tail[j - 1];
        assert TopPriorityAt(counts, m, 0);
      } else {
        HighestPriorityOfCandidates(tail, m);
        var i :| 0 <= i < |tail| && tail[i].0 == HighestPriority(rest) && TopPriorityAt(tail, m, i);
        assert ([counts[0].0] + rest)[1..] == rest;
        if Priority(counts[0].0) >= Priority(tail[i].0) {
          HeadTopPriority(counts, m, i);
        } else {
          ShiftTopPriority(counts, m, i);
        }
      }
    } else {
      assert Candidates(counts, m) == rest;
      assert tail[k - 1].1 == m;
      HighestPriorityOfCandidates(tail, m);
      var i :| 0 <= i < |tail| && tail[i].0 == HighestPriority(rest) && TopPriorityAt(tail, m, i);
      ShiftTopPriority(counts, m, i);
    }
  }

  /**
   * The vote of `get_most_frequent_type`: no winner for an empty dict;
   * otherwise the winner carries the highest count, among those the highest
   * priority, and among those it comes first.
   */
  lemma MostFrequentTypeWins(counts: TypeCounts)
    ensures MostFrequentType(counts).None? <==> |counts| == 0
    ensures MostFrequentType(counts).Some? ==>
      exists i :: 0 <= i < |counts| && counts[i].0 == MostFrequentType(counts).value && IsWinner(counts, i)
  {
    if |counts| > 0 {
      var m := MaxCount(counts);
      var cs := Candidates(counts, m);
      HighestPriorityOfCandidates(counts, m);
      if |cs| == 1 {
        assert HighestPriority(cs) == cs[0];
      }
      var i :| 0 <= i < |counts| && counts[i].0 == HighestPriority(cs) && TopPriorityAt(counts, m, i);
      assert IsWinner(counts, i);
    }
  }

  /** Count beats priority: {test: 5, disease: 2} resolves to test. */
  lemma CountBeatsPriority()
    ensures MostFrequentType([(Some("test"), 5), (Some("disease"), 2)]) == Some(Some("test"))
  {
    MostFrequentTypeWins([(Some("test"), 5), (Some("disease"), 2)]);
  }

  /** Priority breaks a tie whatever the insertion order: {test: 3, disease: 3} resolves to disease. */
  lemma PriorityBreaksTie()
    ensures MostFrequentType([(Some("test"), 3), (Some("disease"), 3)]) == Some(Some("disease"))
  {
    var c := [(Some("test"), 3), (Some("disease"), 3)];
    MostFrequentTypeWins(c);
    assert Priority(Some("test")) == 3 && Priority(Some("disease")) == 12;
  }

  // ---------------------------------------------------------------------
  // resolve_entity_types: counting
  // ---------------------------------------------------------------------

  /** One sighting of an entity: its lower-cased name and the type it was given. */
  type Occurrence = (string, Label)

  /** Every sighting in a batch, entity 1 then entity 2 of each relation in turn. */
  function Occurrences(rels: seq<Relation>): (occ: seq<Occurrence>)
    ensures |occ| == 2 * |rels|
    ensures forall i :: 0 <= i < |rels| ==>
      occ[2 * i] == (Lower(rels[i].entity1Name), rels[i].entity1Type)
      && occ[2 * i + 1] == (Lower(rels[i].entity2Name), rels[i].entity2Type)
  {
    if rels == [] then []
    else
      var r := rels[|rels| - 1];
      Occurrences(rels[..|rels| - 1]) + [(Lower(r.entity1Name), r.entity1Type), (Lower(r.entity2Name), r.entity2Type)]
  }

  /** How often `name` was seen with type `t`. */
  function Count(occ: seq<Occurrence>, name: string, t: Label): nat {
    if occ == [] then 0
    else Count(occ[..|occ| - 1], name, t) + (if occ[|occ| - 1] == (name, t) then 1 else 0)
  }

  /** The name was seen with two different types. */
  ghost predicate Ambiguous(occ: seq<Occurrence>, name: string) {
    exists t1: Label, t2: Label :: t1 != t2 && Count(occ, name, t1) > 0 && Count(occ, name, t2) > 0
  }

  /** The nested count dict `entity_type_counts`, in insertion order. */
  type CountTable = seq<(string, TypeCounts)>

  /** `counts[t] += 1` on a defaultdict(int). */
  function BumpCount(counts: TypeCounts, t: Label): (r: TypeCounts)
    ensures forall k :: 0 <= k < |r| ==> r[k].0 == t || exists j :: 0 <= j < |counts| && counts[j].0 == r[k].0
    ensures (forall k :: 0 <= k < |counts| ==> counts[k].1 > 0) ==> forall k :: 0 <= k < |r| ==> r[k].1 > 0
  {
    if counts == [] then [(t, 1)]
    else if counts[0].0 == t then [(t, counts[0].1 + 1)] + counts[1..]
    else
      var rest := BumpCount(counts[1..], t);
      assert forall k :: 1 <= k < |counts| ==> counts[k] == counts[1..][k - 1];
      [counts[0]] + rest
  }

  /** `table[name][t] += 1` on a defaultdict(lambda: defaultdict(int)). */
  function Bump(table: CountTable, o: Occurrence): CountTable {
    if table == [] then [(o.0, BumpCount([], o.1))]
    else if table[0].0 == o.0 then [(o.0, BumpCount(table[0].1, o.1))] + table[1..]
    else [table[0]] + Bump(table[1..], o)
  }

  /** The count table after all sightings, in order. */
  function Tally(occ: seq<Occurrence>): CountTable {
    if occ == [] then [] else Bump(Tally(occ[..|occ| - 1]), occ[|occ| - 1])
  }

  /** `table[name]`, an empty dict for an unseen name. */
  function CountsFor(table: CountTable, name: string): TypeCounts {
    if table == [] then []
    else if table[0].0 == name then table[0].1
    else CountsFor(table[1..], name)
  }

  /** `counts.get(t, 0)` */
  function LabelCount(counts: TypeCounts, t: Label): nat {
    if counts == [] then 0
    else if counts[0].0 == t then counts[0].1
    else LabelCount(counts[1..], t)
  }

  ghost predicate DistinctLabels(counts: TypeCounts) {
    forall i, j :: 0 <= i < j < |counts| ==> counts[i].0 != counts[j].0
  }

  ghost predicate PositiveCounts(counts: TypeCounts) {
    forall i :: 0 <= i < |counts| ==> counts[i].1 > 0
  }

  ghost predicate DistinctNames(table: CountTable) {
    forall i, j :: 0 <= i < j < |table| ==> table[i].0 != table[j].0
  }

  lemma {:induction false} LabelCountOfBump(counts: TypeCounts, t: Label, t': Label)
    ensures LabelCount(BumpCount(counts, t), t') == LabelCount(counts, t') + (if t' == t then 1 else 0)
    decreases |counts|
  {
    if counts != [] && counts[0].0 != t {
      LabelCountOfBump(counts[1..], t, t');
    }
  }

  lemma {:induction false} BumpCountKeepsDistinct(counts: TypeCounts, t: Label)
    requires DistinctLabels(counts)
    ensures DistinctLabels(BumpCount(counts, t))
    decreases |counts|
  {
    if counts != [] && counts[0].0 != t {
      var tail := counts[1..];
      assert forall k :: 1 <= k < |counts| ==> counts[k] == tail[k - 1];
      BumpCountKeepsDistinct(tail, t);
      var r := BumpCount(tail, t);
      forall k | 0 <= k < |r|
        ensures r[k].0 != counts[0].0
      {
        if r[k].0 != t {
          var j :| 0 <= j < |tail| && tail[j].0 == r[k].0;
          assert counts[j + 1].0 == r[k].0;
        }
      }
    }
  }

  lemma {:induction false} CountsForBump(table: CountTable, o: Occurrence, name: string)
    ensures CountsFor(Bump(table, o), name) ==
      if name == o.0 then BumpCount(CountsFor(table, name), o.1) else CountsFor(table, name)
    decreases |table|
  {
    if table != [] && table[0].0 != o.0 {
      CountsForBump(table[1..], o, name);
    }
  }

  lemma {:induction false} BumpKeepsDistinctNames(table: CountTable, o: Occurrence)
    requires DistinctNames(table)
    ensures DistinctNames(Bump(table, o))
    ensures forall k :: 0 <= k < |Bump(table, o)| ==> Bump(table, o)[k].0 == o.0 || exists j :: 0 <= j < |table| && table[j].0 == Bump(table, o)[k].0
    decreases |table|
  {
    if table != [] && table[0].0 != o.0 {
      var tail := table[1..];
      assert forall k :: 1 <= k < |table| ==> table[k] == tail[k - 1];
      BumpKeepsDistinctNames(tail, o);
      var r := Bump(tail, o);
      forall k | 0 <= k < |r|
        ensures r[k].0 != table[0].0
      {
        if r[k].0 != o.0 {
          var j :| 0 <= j < |tail| && tail[j].0 == r[k].0;
          assert table[j + 1].0 == r[k].0;
        }
      }
    }
  }

  /** Each name's count dict in the tally holds the true number of sightings per type. */
  lemma {:induction false} TallyCounts(occ: seq<Occurrence>, name: string, t: Label)
    ensures LabelCount(CountsFor(Tally(occ), name), t) == Count(occ, name, t)
    decreases |occ|
  {
    if occ != [] {
      var init := occ[..|occ| - 1];
      var o := occ[|occ| - 1];
      TallyCounts(init, name, t);
      CountsForBump(Tally(init), o, name);
      if name == o.0 {
        LabelCountOfBump(CountsFor(Tally(init), name), o.1, t);
      }
    }
  }

  /** The tally is a well-formed nested dict: distinct names, distinct labels, positive counts. */
  lemma {:induction false} TallyWellFormed(occ: seq<Occurrence>)
    ensures DistinctNames(Tally(occ))
    ensures forall name :: DistinctLabels(CountsFor(Tally(occ), name)) && PositiveCounts(CountsFor(Tally(occ), name))
    decreases |occ|
  {
    if occ != [] {
      var init := occ[..|occ| - 1];
      var o := occ[|occ| - 1];
      TallyWellFormed(init);
      BumpKeepsDistinctNames(Tally(init), o);
      forall name
        ensures DistinctLabels(CountsFor(Tally(occ), name)) && PositiveCounts(CountsFor(Tally(occ), name))
      {
        CountsForBump(Tally(init), o, name);
        if name == o.0 {
          BumpCountKeepsDistinct(CountsFor(Tally(init), name), o.1);
        }
      }
    }
  }

  lemma {:induction false} LabelCountAt(counts: TypeCounts, k: nat)
    requires DistinctLabels(counts) && k < |counts|
    ensures LabelCount(counts, counts[k].0) == counts[k].1
    decreases |counts|
  {
    if k > 0 {
      assert counts[0].0 != counts[k].0;
      LabelCountAt(counts[1..], k - 1);
    }
  }

  lemma {:induction false} LabelCountPositive(counts: TypeCounts, t: Label)
    requires LabelCount(counts, t) > 0
    ensures exists k :: 0 <= k < |counts| && counts[k].0 == t
    decreases |counts|
  {
    if counts[0].0 != t {
      LabelCountPositive(counts[1..], t);
      var k :| 0 <= k < |counts[1..]| && counts[1..][k].0 == t;
      assert counts[k + 1].0 == t;
    }
  }

  /** A name's count dict has two or more entries exactly when the name is ambiguous. */
  lemma TallyAmbiguous(occ: seq<Occurrence>, name: string)
    ensures |CountsFor(Tally(occ), name)| > 1 <==> Ambiguous(occ, name)
  {
    var c := CountsFor(Tally(occ), name);
    TallyWellFormed(occ);
    if |c| > 1 {
      LabelCountAt(c, 0);
      LabelCountAt(c, 1);
      TallyCounts(occ, name, c[0].0);
      TallyCounts(occ, name, c[1].0);
    }
    if Ambiguous(occ, name) {
      var t1: Label, t2: Label :| t1 != t2 && Count(occ, name, t1) > 0 && Count(occ, name, t2) > 0;
      TallyCounts(occ, name, t1);
      TallyCounts(occ, name, t2);
      LabelCountPositive(c, t1);
      LabelCountPositive(c, t2);
    }
  }

  lemma {:induction false} CountPositive(occ: seq<Occurrence>, name: string, t: Label)
    ensures Count(occ, name, t) > 0 <==> exists k :: 0 <= k < |occ| && occ[k] == (name, t)
    decreases |occ|
  {
    if occ != [] {
      var init := occ[..|occ| - 1];
      CountPositive(init, name, t);
      if exists k :: 0 <= k < |init| && init[k] == (name, t) {
        var k :| 0 <= k < |init| && init[k] == (name, t);
        assert occ[k] == (name, t);
      }
      if exists k :: 0 <= k < |occ| && occ[k] == (name, t) {
        var k :| 0 <= k < |occ| && occ[k] == (name, t);
        if k < |init| {
          assert init[k] == (name, t);
        }
      }
    }
  }

  // ---------------------------------------------------------------------
  // resolve_entity_types: deciding and rewriting
  // ---------------------------------------------------------------------

  /** The `resolved_types` dict: every name with two or more types, mapped to its vote winner. */
  function ResolvedTypes(table: CountTable): map<string, Label> {
    if table == [] then map[]
    else
      var m := ResolvedTypes(table[..|table| - 1]);
      var entry := table[|table| - 1];
      if |entry.1| > 1 then m[entry.0 := MostFrequentType(entry.1).value] else m
  }

  /** The resolution a batch induces. */
  function Resolution(rels: seq<Relation>): map<string, Label> {
    ResolvedTypes(Tally(Occurrences(rels)))
  }

  /** One relation with each entity's type replaced when its lower-cased name was resolved. */
  function ResolveOne(rel: Relation, resolved: map<string, Label>): Relation {
    var n1 := Lower(rel.entity1Name);
    var n2 := Lower(rel.entity2Name);
    rel.(entity1Type := if n1 in resolved then resolved[n1] else rel.entity1Type,
         entity2Type := if n2 in resolved then resolved[n2] else rel.entity2Type)
  }

  /** The batch after `resolve_entity_types`: only entity types change. */
  function ResolveAll(rels: seq<Relation>): (r: seq<Relation>)
    ensures |r| == |rels|
    ensures forall i :: 0 <= i < |rels| ==>
      r[i] == rels[i].(entity1Type := r[i].entity1Type, entity2Type := r[i].entity2Type)
  {
    var resolved := Resolution(rels);
    seq(|rels|, i requires 0 <= i < |rels| => ResolveOne(rels[i], resolved))
  }

  lemma {:induction false} CountsForSnoc(table: CountTable, name: string)
    requires table != [] && DistinctNames(table)
    ensures CountsFor(table, name) ==
      if name == table[|table| - 1].0 then table[|table| - 1].1 else CountsFor(table[..|table| - 1], name)
    decreases |table|
  {
    if |table| > 1 {
      assert table[..|table| - 1][1..] == table[1..][..|table| - 2];
      if table[0].0 != name {
        CountsForSnoc(table[1..], name);
      }
    }
  }

  lemma {:induction false} CountsForAbsent(table: CountTable, name: string)
    requires forall i :: 0 <= i < |table| ==> table[i].0 != name
    ensures CountsFor(table, name) == []
    decreases |table|
  {
    if table != [] {
      CountsForAbsent(table[1..], name);
    }
  }

  lemma {:induction false} ResolvedTypesSpec(table: CountTable, name: string)
    requires DistinctNames(table)
    ensures name in ResolvedTypes(table) <==> |CountsFor(table, name)| > 1
    ensures name in ResolvedTypes(table) ==> ResolvedTypes(table)[name] == MostFrequentType(CountsFor(table, name)).value
    decreases |table|
  {
    if table != [] {
      var init := table[..|table| - 1];
      assert DistinctNames(init) by {
        assert forall i :: 0 <= i < |init| ==> init[i] == table[i];
      }
      ResolvedTypesSpec(init, name);
      CountsForSnoc(table, name);
      if name == table[|table| - 1].0 {
        CountsForAbsent(init, name);
      }
    }
  }

  /**
   * A name is resolved exactly when the batch gave it two or more types, and
   * then to a type it was given most often; among equally frequent types, to
   * one of highest priority.
   */
  lemma ResolutionIsMajority(rels: seq<Relation>, name: string)
    ensures name in Resolution(rels) <==> Ambiguous(Occurrences(rels), name)
    ensures name in Resolution(rels) ==>
      var occ := Occurrences(rels);
      var winner := Resolution(rels)[name];
      && Count(occ, name, winner) > 0
      && (forall t :: Count(occ, name, t) <= Count(occ, name, winner))
      && (forall t :: Count(occ, name, t) == Count(occ, name, winner) ==> Priority(t) <= Priority(winner))
  {
    var occ := Occurrences(rels);
    var c := CountsFor(Tally(occ), name);
    TallyWellFormed(occ);
    ResolvedTypesSpec(Tally(occ), name);
    TallyAmbiguous(occ, name);
    if name in Resolution(rels) {
      var winner := Resolution(rels)[name];
      MostFrequentTypeWins(c);
      var i :| 0 <= i < |c| && c[i].0 == winner && IsWinner(c, i);
      LabelCountAt(c, i);
      TallyCounts(occ, name, winner);
      forall t
        ensures Count(occ, name, t) <= Count(occ, name, winner)
        ensures Count(occ, name, t) == Count(occ, name, winner) ==> Priority(t) <= Priority(winner)
      {
        TallyCounts(occ, name, t);
        if Count(occ, name, t) > 0 {
          LabelCountPositive(c, t);
          var k :| 0 <= k < |c| && c[k].0 == t;
          LabelCountAt(c, k);
        }
      }
    }
  }

  /** After resolution each sighting keeps its name, and its type is the winner exactly when the name was ambiguous. */
  lemma ResolveAllSightings(rels: seq<Relation>)
    ensures var occ := Occurrences(rels);
      var occ' := Occurrences(ResolveAll(rels));
      |occ'| == |occ| &&
      forall k :: 0 <= k < |occ| ==>
        && occ'[k].0 == occ[k].0
        && (occ[k].0 in Resolution(rels) ==> occ'[k].1 == Resolution(rels)[occ[k].0])
        && (occ[k].0 !in Resolution(rels) ==> occ'[k].1 == occ[k].1)
  {
    var occ := Occurrences(rels);
    var occ' := Occurrences(ResolveAll(rels));
    forall k | 0 <= k < |occ|
      ensures occ'[k].0 == occ[k].0
      ensures occ[k].0 in Resolution(rels) ==> occ'[k].1 == Resolution(rels)[occ[k].0]
      ensures occ[k].0 !in Resolution(rels) ==> occ'[k].1 == occ[k].1
    {
      var i := k / 2;
      var r := ResolveAll(rels);
      assert r[i] == ResolveOne(rels[i], Resolution(rels));
      if k == 2 * i {
        assert occ[k] == (Lower(rels[i].entity1Name), rels[i].entity1Type);
        assert occ'[k] == (Lower(r[i].entity1Name), r[i].entity1Type);
      } else {
        assert occ[k] == (Lower(rels[i].entity2Name), rels[i].entity2Type);
        assert occ'[k] == (Lower(r[i].entity2Name), r[i].entity2Type);
      }
    }
  }

  /** After resolution no name carries two different types. */
  lemma ResolveAllUnambiguous(rels: seq<Relation>, name: string)
    ensures !Ambiguous(Occurrences(ResolveAll(rels)), name)
  {
    var occ := Occurrences(rels);
    var occ' := Occurrences(ResolveAll(rels));
    var resolved := Resolution(rels);
    ResolveAllSightings(rels);
    if Ambiguous(occ', name) {
      var t1: Label, t2: Label :| t1 != t2 && Count(occ', name, t1) > 0 && Count(occ', name, t2) > 0;
      CountPositive(occ', name, t1);
      CountPositive(occ', name, t2);
      var k1 :| 0 <= k1 < |occ'| && occ'[k1] == (name, t1);
      var k2 :| 0 <= k2 < |occ'| && occ'[k2] == (name, t2);
      if name !in resolved {
        CountPositive(occ, name, t1);
        CountPositive(occ, name, t2);
        ResolutionIsMajority(rels, name);
      }
    }
  }

  /** Resolving a resolved batch changes nothing. */
  lemma ResolveAllIdempotent(rels: seq<Relation>)
    ensures ResolveAll(ResolveAll(rels)) == ResolveAll(rels)
  {
    var r := ResolveAll(rels);
    forall name
      ensures name !in Resolution(r)
    {
      ResolveAllUnambiguous(rels, name);
      ResolutionIsMajority(r, name);
    }
  }

  lemma TallyStep(rels: seq<Relation>, i: nat)
    requires i < |rels|
    ensures Tally(Occurrences(rels[..i + 1])) ==
      Bump(Bump(Tally(Occurrences(rels[..i])), (Lower(rels[i].entity1Name), rels[i].entity1Type)),
           (Lower(rels[i].entity2Name), rels[i].entity2Type))
  {
    var o1 := (Lower(rels[i].entity1Name), rels[i].entity1Type);
    var o2 := (Lower(rels[i].entity2Name), rels[i].entity2Type);
    var before := Occurrences(rels[..i]);
    assert rels[..i + 1][..i] == rels[..i];
    assert Occurrences(rels[..i + 1]) == before + [o1, o2];
    assert (before + [o1, o2])[..|before| + 1] == before + [o1];
    assert (before + [o1])[..|before|] == before;
  }

  lemma ResolvedTypesStep(table: CountTable, i: nat)
    requires i < |table|
    ensures ResolvedTypes(table[..i + 1]) ==
      var m := ResolvedTypes(table[..i]);
      if |table[i].1| > 1 then m[table[i].0 := MostFrequentType(table[i].1).value] else m
  {
    assert table[..i + 1][..i] == table[..i];
  }

  /**
   * `resolve_entity_types`: counts the types of every (lower-cased) entity
   * name, decides the ambiguous ones by vote, and rewrites the entity types
   * of the batch in place.
   */
  method ResolveEntityTypes(a: array<Relation>)
    modifies a
    ensures a[..] == ResolveAll(old(a[..]))
  {
    ghost var rels := a[..];
    var table: CountTable := [];
    for i := 0 to a.Length
      invariant a[..] == rels
      invariant table == Tally(Occurrences(rels[..i]))
    {
      var rel := a[i];
      var o1 := (Lower(rel.entity1Name), rel.entity1Type);
      var o2 := (Lower(rel.entity2Name), rel.entity2Type);
      TallyStep(rels, i);
      table := Bump(table, o1);
      table := Bump(table, o2);
    }
    assert rels[..a.Length] == rels;

    var resolved: map<string, Label> := map[];
    for i := 0 to |table|
      invariant a[..] == rels
      invariant resolved == ResolvedTypes(table[..i])
    {
      ResolvedTypesStep(table, i);
      var entry := table[i];
      if |entry.1| > 1 {
        resolved := resolved[entry.0 := MostFrequentType(entry.1).value];
      }
    }
    assert table[..|table|] == table;

    for i := 0 to a.Length
      invariant forall k :: 0 <= k < i ==> a[k] == ResolveOne(rels[k], resolved)
      invariant forall k :: i <= k < a.Length ==> a[k] == rels[k]
    {
      var rel := a[i];
      var n1 := Lower(rel.entity1Name);
      var n2 := Lower(rel.entity2Name);
      if n1 in resolved {
        rel := rel.(entity1Type := resolved[n1]);
      }
      if n2 in resolved {
        rel := rel.(entity2Type := resolved[n2]);
      }
      a[i] := rel;
    }
  }

  // ---------------------------------------------------------------------
  // normalize_entity_name
  // ---------------------------------------------------------------------

  /** The regex `\bw\b` matches at `i` (for a `w` made of word characters). */
  predicate WholeWordAt(s: string, w: string, i: nat) {
    && OccursAt(s, w, i)
    && (i == 0 || !IsWordChar(s[i - 1]))
    && (i + |w| == |s| || !IsWordChar(s[i + |w|]))
  }

  /** `re.sub(r'\bw\b', '', s)` from position `i` on: whole-word matches are deleted left to right. */
  function RemoveWordFrom(s: string, w: string, i: nat): (r: string)
    requires |w| > 0 && i <= |s|
    ensures |r| <= |s| - i
    ensures forall c :: c in r ==> c in s
    decreases |s| - i
  {
    if i == |s| then ""
    else if WholeWordAt(s, w, i) then RemoveWordFrom(s, w, i + |w|)
    else [s[i]] + RemoveWordFrom(s, w, i + 1)
  }

  function RemoveWord(s: string, w: string): string
    requires |w| > 0
  {
    RemoveWordFrom(s, w, 0)
  }

  /** Without a whole-word match from `i` on, the substitution keeps the text. */
  lemma {:induction false} RemoveWordAbsent(s: string, w: string, i: nat)
    requires |w| > 0 && i <= |s|
    requires forall j :: i <= j < |s| ==> !WholeWordAt(s, w, j)
    ensures RemoveWordFrom(s, w, i) == s[i..]
    decreases |s| - i
  {
    if i < |s| {
      RemoveWordAbsent(s, w, i + 1);
    }
  }

  /** A stretch without a whole-word match is copied verbatim. */
  lemma {:induction false} RemoveWordCopies(s: string, w: string, i: nat, j: nat)
    requires |w| > 0 && i <= j <= |s|
    requires forall k :: i <= k < j ==> !WholeWordAt(s, w, k)
    ensures RemoveWordFrom(s, w, i) == s[i..j] + RemoveWordFrom(s, w, j)
    decreases j - i
  {
    if i < j {
      assert !WholeWordAt(s, w, i);
      assert RemoveWordFrom(s, w, i) == [s[i]] + RemoveWordFrom(s, w, i + 1);
      RemoveWordCopies(s, w, i + 1, j);
      assert s[i..j] == [s[i]] + s[i + 1..j];
      AppendAssoc([s[i]], s[i + 1..j], RemoveWordFrom(s, w, j));
    }
  }

  /** The `while words and words[-1] in trailing_words: words.pop()` loop. */
  function DropTrailing(words: seq<string>): (r: seq<string>)
    ensures |r| <= |words| && r == words[..|r|]
    ensures r != [] ==> r[|r| - 1] !in TrailingWords
    ensures forall k :: |r| <= k < |words| ==> words[k] in TrailingWords
  {
    if words != [] && words[|words| - 1] in TrailingWords then
      var r := DropTrailing(words[..|words| - 1]);
      assert words[..|words| - 1][..|r|] == words[..|r|];
      r
    else words
  }

  /** The long-name branch: trailing words popped, whole-word `amd` then `cnv` deleted, white space collapsed. */
  function ShortenLongName(words: seq<string>): string {
    var joined := Join(DropTrailing(words), " ");
    var noAmd := StripSpace(RemoveWord(joined, "amd"));
    var noCnv := StripSpace(RemoveWord(noAmd, "cnv"));
    Collapse(noCnv)
  }

  /** The name before the synonym lookup. */
  function CanonicalName(s: string): string {
    var n := Collapse(StripSpace(Lower(s)));
    var words := Words(n);
    if |words| > 2 then ShortenLongName(words) else n
  }

  /** What `normalize_entity_name` returns; a missing or non-string name gives "". */
  function NormalizedName(name: Option<string>): string {
    match name
    case None => ""
    case Some(s) =>
      var m := CanonicalName(s);
      if m in Synonyms then Synonyms[m] else m
  }

  /** `normalize_entity_name` */
  method NormalizeEntityName(name: Option<string>) returns (r: string)
    ensures r == NormalizedName(name)
  {
    if name.None? {
      return "";
    }
    var s := Lower(name.value);
    s := StripSpace(s);
    s := Collapse(s);
    var words := Words(s);
    if |words| > 2 {
      ghost var all := words;
      while words != [] && words[|words| - 1] in TrailingWords
        invariant DropTrailing(words) == DropTrailing(all)
        decreases |words|
      {
        words := words[..|words| - 1];
      }
      s := Join(words, " ");
      s := StripSpace(RemoveWord(s, "amd"));
      s := StripSpace(RemoveWord(s, "cnv"));
      s := Collapse(s);
    }
    if s in Synonyms {
      s := Synonyms[s];
    }
    return s;
  }

  lemma NoUpperSlice(s: string, i: nat, j: nat)
    requires NoUpper(s) && i <= j <= |s|
    ensures NoUpper(s[i..j])
  {
    forall c | c in s[i..j]
      ensures !IsUpperChar(c)
    {
      var k :| i <= k < j && s[k] == c;
    }
  }

  lemma NoUpperStrip(s: string)
    requires NoUpper(s)
    ensures NoUpper(StripSpace(s))
  {
    var l := StripLeftSpace(s);
    NoUpperSlice(s, |s| - |l|, |s|);
    NoUpperSlice(l, 0, |StripRightSpace(l)|);
  }

  lemma {:induction false} NoUpperJoin(parts: seq<string>, sep: string)
    requires NoUpper(sep) && forall i :: 0 <= i < |parts| ==> NoUpper(parts[i])
    ensures NoUpper(Join(parts, sep))
    decreases |parts|
  {
    if |parts| > 1 {
      NoUpperJoin(parts[1..], sep);
    }
  }

  lemma NoUpperCollapse(s: string)
    requires NoUpper(s)
    ensures NoUpper(Collapse(s))
  {
    NoUpperJoin(Words(s), " ");
  }

  lemma NoUpperRemoveWord(s: string, w: string)
    requires NoUpper(s) && |w| > 0
    ensures NoUpper(RemoveWord(s, w))
  {
  }

  /** The name before the synonym lookup is lower-case, trimmed and single-spaced. */
  lemma CanonicalNameShape(s: string)
    ensures IsCollapsed(CanonicalName(s)) && NoUpper(CanonicalName(s))
  {
    var n0 := StripSpace(Lower(s));
    NoUpperStrip(Lower(s));
    var n := Collapse(n0);
    NoUpperCollapse(n0);
    var words := Words(n);
    if |words| > 2 {
      NoUpperWords(n);
      ShortenedShape(words);
    } else {
      CollapseIsCollapsed(n0);
    }
  }

  /** The words of a text without upper-case letters have none either. */
  lemma NoUpperWords(n: string)
    requires NoUpper(n)
    ensures forall i :: 0 <= i < |Words(n)| ==> NoUpper(Words(n)[i])
  {
  }

  /** The long-name branch yields a lower-case, single-spaced text. */
  lemma ShortenedShape(words: seq<string>)
    requires forall i :: 0 <= i < |words| ==> NoUpper(words[i])
    ensures IsCollapsed(ShortenLongName(words)) && NoUpper(ShortenLongName(words))
  {
    var kept := DropTrailing(words);
    assert forall i :: 0 <= i < |kept| ==> kept[i] == words[i];
    NoUpperJoin(kept, " ");
    var joined := Join(kept, " ");
    NoUpperRemoveWord(joined, "amd");
    NoUpperStrip(RemoveWord(joined, "amd"));
    var noAmd := StripSpace(RemoveWord(joined, "amd"));
    NoUpperRemoveWord(noAmd, "cnv");
    NoUpperStrip(RemoveWord(noAmd, "cnv"));
    var noCnv := StripSpace(RemoveWord(noAmd, "cnv"));
    NoUpperCollapse(noCnv);
    CollapseIsCollapsed(noCnv);
  }

  /** A word of lower-case letters and hyphens. */
  predicate PlainWord(w: string) {
    |w| > 0 && forall c :: c in w ==> IsLowerChar(c) || c == '-'
  }

  lemma PlainWordShape(w: string)
    requires PlainWord(w)
    ensures IsCollapsed(w) && NoUpper(w) && w[0] != ' ' && w[|w| - 1] != ' '
  {
    assert w[0] in w && w[|w| - 1] in w;
    forall i | 0 <= i < |w|
      ensures !IsSpace(w[i]) && !IsUpperChar(w[i])
    {
      assert w[i] in w;
    }
  }

  /** Two lower-case, single-spaced texts joined by one space give another one. */
  lemma SpaceJoinShape(a: string, b: string)
    requires IsCollapsed(a) && NoUpper(a) && |a| > 0
    requires IsCollapsed(b) && NoUpper(b) && |b| > 0
    ensures IsCollapsed(a + " " + b) && NoUpper(a + " " + b)
  {
    var s := a + " " + b;
    forall i | 0 <= i < |s| && IsSpace(s[i])
      ensures s[i] == ' ' && 0 < i < |s| - 1
    {
      if i < |a| {
        assert s[i] == a[i];
      } else if i > |a| {
        assert s[i] == b[i - |a| - 1];
      }
    }
    forall i | 0 <= i < |s| - 1 && s[i] == ' '
      ensures s[i + 1] != ' '
    {
      if i < |a| {
        assert s[i] == a[i];
        if i < |a| - 1 {
          assert s[i + 1] == a[i + 1];
        }
      } else if i == |a| {
        assert s[i + 1] == b[0];
      } else {
        assert s[i + 1] == b[i - |a|];
        assert s[i] == b[i - |a| - 1];
      }
    }
    forall c | c in s
      ensures !IsUpperChar(c)
    {
      assert c in a || c == ' ' || c in b;
    }
  }

  /** `x`, spelled out as `a + " " + b`, has the shape of its two halves. */
  lemma SplitShape(x: string, a: string, b: string)
    requires x == a + " " + b
    requires IsCollapsed(a) && NoUpper(a) && |a| > 0
    requires IsCollapsed(b) && NoUpper(b) && |b| > 0
    ensures IsCollapsed(x) && NoUpper(x)
  {
    SpaceJoinShape(a, b);
  }

  // Each replacement in the synonym table, split at its first space. The
  // spelling-out is proved apart from the shape so that the solver never
  // compares the characters of a long literal while its shape is in view.

  lemma Synonym1Split()
    ensures "wet age-related macular degeneration" == "wet" + " " + "age-related macular degeneration"
  {
  }

  lemma Synonym1Shape()
    ensures IsCollapsed("wet age-related macular degeneration") && NoUpper("wet age-related macular degeneration")
  {
    PlainWordShape("wet");
    Synonym4Shape();
    Synonym1Split();
    SplitShape("wet age-related macular degeneration", "wet", "age-related macular degeneration");
  }

  lemma Synonym2Split()
    ensures "early age-related macular degeneration" == "early" + " " + "age-related macular degeneration"
  {
  }

  lemma Synonym2Shape()
    ensures IsCollapsed("early age-related macular degeneration") && NoUpper("early age-related macular degeneration")
  {
    PlainWordShape("early");
    Synonym4Shape();
    Synonym2Split();
    SplitShape("early age-related macular degeneration", "early", "age-related macular degeneration");
  }

  lemma Synonym3Split()
    ensures "choroidal neovascularization" == "choroidal" + " " + "neovascularization"
  {
  }

  lemma Synonym3Shape()
    ensures IsCollapsed("choroidal neovascularization") && NoUpper("choroidal neovascularization")
  {
    PlainWordShape("choroidal");
    PlainWordShape("neovascularization");
    Synonym3Split();
    SplitShape("choroidal neovascularization", "choroidal", "neovascularization");
  }

  lemma Synonym4Split()
    ensures "age-related macular degeneration" == "age-related" + " " + "macular degeneration"
  {
  }

  lemma Synonym4Shape()
    ensures IsCollapsed("age-related macular degeneration") && NoUpper("age-related macular degeneration")
  {
    PlainWordShape("age-related");
    Phrase1Shape();
    Synonym4Split();
    SplitShape("age-related macular degeneration", "age-related", "macular degeneration");
  }

  lemma Synonym5Split()
    ensures "geographic atrophy" == "geographic" + " " + "atrophy"
  {
  }

  lemma Synonym5Shape()
    ensures IsCollapsed("geographic atrophy") && NoUpper("geographic atrophy")
  {
    PlainWordShape("geographic");
    PlainWordShape("atrophy");
    Synonym5Split();
    SplitShape("geographic atrophy", "geographic", "atrophy");
  }

  lemma Synonym6Split()
    ensures "optical coherence tomography" == "optical" + " " + "coherence tomography"
  {
  }

  lemma Synonym6Shape()
    ensures IsCollapsed("optical coherence tomography") && NoUpper("optical coherence tomography")
  {
    PlainWordShape("optical");
    Phrase2Shape();
    Synonym6Split();
    SplitShape("optical coherence tomography", "optical", "coherence tomography");
  }

  lemma Synonym7Split()
    ensures "photodynamic therapy" == "photodynamic" + " " + "therapy"
  {
  }

  lemma Synonym7Shape()
    ensures IsCollapsed("photodynamic therapy") && NoUpper("photodynamic therapy")
  {
    PlainWordShape("photodynamic");
    PlainWordShape("therapy");
    Synonym7Split();
    SplitShape("photodynamic therapy", "photodynamic", "therapy");
  }

  lemma Synonym8Split()
    ensures "polypoidal choroidal vasculopathy" == "polypoidal" + " " + "choroidal vasculopathy"
  {
  }

  lemma Synonym8Shape()
    ensures IsCollapsed("polypoidal choroidal vasculopathy") && NoUpper("polypoidal choroidal vasculopathy")
  {
    PlainWordShape("polypoidal");
    Phrase3Shape();
    Synonym8Split();
    SplitShape("polypoidal choroidal vasculopathy", "polypoidal", "choroidal vasculopathy");
  }

  lemma Synonym9Split()
    ensures "vitreomacular adhesion" == "vitreomacular" + " " + "adhesion"
  {
  }

  lemma Synonym9Shape()
    ensures IsCollapsed("vitreomacular adhesion") && NoUpper("vitreomacular adhesion")
  {
    PlainWordShape("vitreomacular");
    PlainWordShape("adhesion");
    Synonym9Split();
    SplitShape("vitreomacular adhesion", "vitreomacular", "adhesion");
  }

  lemma Synonym10Split()
    ensures "macular edema" == "macular" + " " + "edema"
  {
  }

  lemma Synonym10Shape()
    ensures IsCollapsed("macular edema") && NoUpper("macular edema")
  {
    PlainWordShape("macular");
    PlainWordShape("edema");
    Synonym10Split();
    SplitShape("macular edema", "macular", "edema");
  }

  lemma Synonym11Split()
    ensures "neovascular age-related macular degeneration" == "neovascular" + " " + "age-related macular degeneration"
  {
  }

  lemma Synonym11Shape()
    ensures IsCollapsed("neovascular age-related macular degeneration") && NoUpper("neovascular age-related macular degeneration")
  {
    PlainWordShape("neovascular");
    Synonym4Shape();
    Synonym11Split();
    SplitShape("neovascular age-related macular degeneration", "neovascular", "age-related macular degeneration");
  }

  lemma Phrase1Split()
    ensures "macular degeneration" == "macular" + " " + "degeneration"
  {
  }

  lemma Phrase1Shape()
    ensures IsCollapsed("macular degeneration") && NoUpper("macular degeneration")
  {
    PlainWordShape("macular");
    PlainWordShape("degeneration");
    Phrase1Split();
    SplitShape("macular degeneration", "macular", "degeneration");
  }

  lemma Phrase2Split()
    ensures "coherence tomography" == "coherence" + " " + "tomography"
  {
  }

  lemma Phrase2Shape()
    ensures IsCollapsed("coherence tomography") && NoUpper("coherence tomography")
  {
    PlainWordShape("coherence");
    PlainWordShape("tomography");
    Phrase2Split();
    SplitShape("coherence tomography", "coherence", "tomography");
  }

  lemma Phrase3Split()
    ensures "choroidal vasculopathy" == "choroidal" + " " + "vasculopathy"
  {
  }

  lemma Phrase3Shape()
    ensures IsCollapsed("choroidal vasculopathy") && NoUpper("choroidal vasculopathy")
  {
    PlainWordShape("choroidal");
    PlainWordShape("vasculopathy");
    Phrase3Split();
    SplitShape("choroidal vasculopathy", "choroidal", "vasculopathy");
  }

  /** Every replacement in the synonym table is lower-case, trimmed and single-spaced. */
  lemma SynonymValuesShape(v: string)
    requires v in Synonyms.Values
    ensures IsCollapsed(v) && NoUpper(v)
  {
    var k :| k in Synonyms && Synonyms[k] == v;
    if v == "wet age-related macular degeneration" {
      Synonym1Shape();
    } else if v == "early age-related macular degeneration" {
      Synonym2Shape();
    } else if v == "choroidal neovascularization" {
      Synonym3Shape();
    } else if v == "age-related macular degeneration" {
      Synonym4Shape();
    } else if v == "geographic atrophy" {
      Synonym5Shape();
    } else if v == "optical coherence tomography" {
      Synonym6Shape();
    } else if v == "photodynamic therapy" {
      Synonym7Shape();
    } else if v == "polypoidal choroidal vasculopathy" {
      Synonym8Shape();
    } else if v == "vitreomacular adhesion" {
      Synonym9Shape();
    } else if v == "macular edema" {
      Synonym10Shape();
    } else if v == "neovascular age-related macular degeneration" {
      Synonym11Shape();
    } else {
      assert false;
    }
  }

  /**
   * `normalize_entity_name`: a missing or non-string name gives ""; any
   * other result is lower-case, trimmed and single-spaced, whether or not
   * the synonym table replaced it.
   */
  lemma NormalizedNameShape(name: Option<string>)
    ensures name.None? ==> NormalizedName(name) == ""
    ensures IsCollapsed(NormalizedName(name)) && NoUpper(NormalizedName(name))
  {
    if name.Some? {
      CanonicalNameShape(name.value);
      var m := CanonicalName(name.value);
      if m in Synonyms {
        SynonymValuesShape(Synonyms[m]);
      }
    } else {
      assert IsCollapsed("") && NoUpper("");
    }
  }

  /** A name of at most two words changes only by case, white space and an exact synonym lookup. */
  lemma ShortNameNormalization(s: string)
    requires |Words(Lower(s))| <= 2
    ensures NormalizedName(Some(s)) ==
      var c := Collapse(Lower(s));
      if c in Synonyms then Synonyms[c] else c
  {
    WordsStrip(Lower(s));
    CollapseIdempotent(Lower(s));
  }

  lemma LowerOfNoUpper(s: string)
    requires NoUpper(s)
    ensures Lower(s) == s
  {
    forall i | 0 <= i < |s|
      ensures Lower(s)[i] == s[i]
    {
      assert s[i] in s;
    }
  }

  /** `normalize_entity_name("AMD")` is the expanded disease name. */
  lemma AcronymExpands()
    ensures NormalizedName(Some("AMD")) == "age-related macular degeneration"
  {
    AmdCollapses();
    AmdSynonym();
    ShortNameNormalization("AMD");
  }

  /** The synonym table maps "amd" to the disease's full name. */
  lemma AmdSynonym()
    ensures "amd" in Synonyms && Synonyms["amd"] == "age-related macular degeneration"
  {
  }

  /** "AMD" lower-cases to the single word "amd". */
  lemma AmdCollapses()
    ensures |Words(Lower("AMD"))| == 1 && Collapse(Lower("AMD")) == "amd"
  {
    assert Lower("AMD") == "amd";
    assert IsToken("amd");
    WordsOfJoin(["amd"]);
    assert Join(["amd"], " ") == "amd";
  }

  /** `normalize_entity_name("Retina ")` is "retina". */
  lemma TrailingSpaceTrimmed()
    ensures NormalizedName(Some("Retina ")) == "retina"
  {
    RetinaCollapses();
    assert "retina" !in Synonyms;
    ShortNameNormalization("Retina ");
  }

  /** "Retina " lower-cases to one word followed by a space, which collapsing drops. */
  lemma RetinaCollapses()
    ensures |Words(Lower("Retina "))| == 1 && Collapse(Lower("Retina ")) == "retina"
  {
    var t := "retina";
    assert Lower("Retina ") == t + " " by {
      var l := Lower("Retina ");
      assert l[0] == 'r' && l[1] == 'e' && l[2] == 't' && l[3] == 'i' && l[4] == 'n' && l[5] == 'a' && l[6] == ' ';
    }
    assert IsToken(t) by {
      forall c | c in t
        ensures !IsSpace(c)
      {
        var i :| 0 <= i < |t| && t[i] == c;
        assert i == 0 || i == 1 || i == 2 || i == 3 || i == 4 || i == 5;
      }
    }
    WordsOfJoin([t]);
    assert Join([t], " ") == t;
    WordsAppendSpace(t, ' ');
  }

  /** For a name that is already lower-case and single-spaced, only the long-name branch and the lookup act. */
  lemma CleanNameNormalization(s: string)
    requires Lower(s) == s && StripSpace(s) == s && Collapse(s) == s
    ensures NormalizedName(Some(s)) ==
      var m := if |Words(s)| > 2 then ShortenLongName(Words(s)) else s;
      if m in Synonyms then Synonyms[m] else m
  {
  }

  lemma ExampleLongLower()
    ensures Lower("a b ga amd") == "a b ga amd"
  {
    var l := Lower("a b ga amd");
    assert l[0] == 'a' && l[1] == ' ' && l[2] == 'b' && l[3] == ' ' && l[4] == 'g';
    assert l[5] == 'a' && l[6] == ' ' && l[7] == 'a' && l[8] == 'm' && l[9] == 'd';
  }

  lemma ExampleLongStrip()
    ensures StripSpace("a b ga amd") == "a b ga amd"
  {
    assert StripLeftSpace("a b ga amd") == "a b ga amd";
    assert StripRightSpace("a b ga amd") == "a b ga amd";
  }

  lemma ExampleLongWords()
    ensures Join(["a", "b", "ga", "amd"], " ") == "a b ga amd"
    ensures Words("a b ga amd") == ["a", "b", "ga", "amd"]
  {
    var ts := ["a", "b", "ga", "amd"];
    assert Join(ts, " ") == "a b ga amd" by {
      assert Join(ts[1..], " ") == "b ga amd" by {
        assert Join(ts[2..], " ") == "ga amd" by {
          assert Join(ts[3..], " ") == "amd";
        }
      }
    }
    assert IsToken(ts[0]) && IsToken(ts[1]) && IsToken(ts[2]) && IsToken(ts[3]);
    WordsOfJoin(ts);
  }

  lemma ExampleShortLower()
    ensures Lower("a b ga") == "a b ga"
  {
    var l := Lower("a b ga");
    assert l[0] == 'a' && l[1] == ' ' && l[2] == 'b' && l[3] == ' ' && l[4] == 'g' && l[5] == 'a';
  }

  lemma ExampleShortStrip()
    ensures StripSpace("a b ga") == "a b ga"
    ensures StripSpace("a b ga" + " ") == "a b ga"
  {
    assert StripLeftSpace("a b ga") == "a b ga";
    assert StripRightSpace("a b ga") == "a b ga";
    assert StripLeftSpace("a b ga" + " ") == "a b ga" + " ";
    assert StripRightSpace("a b ga" + " ") == StripRightSpace("a b ga");
  }

  lemma ExampleShortWords()
    ensures Join(["a", "b", "ga"], " ") == "a b ga"
    ensures Words("a b ga") == ["a", "b", "ga"]
  {
    var ts := ["a", "b", "ga"];
    assert Join(ts, " ") == "a b ga" by {
      assert Join(ts[1..], " ") == "b ga" by {
        assert Join(ts[2..], " ") == "ga";
      }
    }
    assert IsToken(ts[0]) && IsToken(ts[1]) && IsToken(ts[2]);
    WordsOfJoin(ts);
  }

  lemma ExampleLongCollapse()
    ensures Collapse("a b ga amd") == "a b ga amd"
  {
    ExampleLongWords();
  }

  lemma ExampleLongShorten()
    ensures ShortenLongName(["a", "b", "ga", "amd"]) == "a b ga"
  {
    var ts := ["a", "b", "ga", "amd"];
    assert DropTrailing(ts) == ts;
    ExampleLongWords();
    ExampleRemoveAmd();
    ExampleShortStrip();
    ExampleRemoveCnv();
    ExampleShortJoin();
  }

  lemma ExampleShortJoin()
    ensures Join(["a", "b", "ga"], " ") == "a b ga"
    ensures Collapse("a b ga") == "a b ga"
  {
    ExampleShortWords();
    assert Collapse("a b ga") == Join(["a", "b", "ga"], " ");
  }

  lemma ExampleRemoveAmd()
    ensures RemoveWord("a b ga amd", "amd") == "a b ga" + " "
  {
    var s := "a b ga amd";
    forall k | 0 <= k < 7
      ensures !WholeWordAt(s, "amd", k)
    {
      assert k == 0 || k == 1 || k == 2 || k == 3 || k == 4 || k == 5 || k == 6;
    }
    RemoveWordCopies(s, "amd", 0, 7);
    assert WholeWordAt(s, "amd", 7);
  }

  lemma ExampleRemoveCnv()
    ensures RemoveWord("a b ga", "cnv") == "a b ga"
  {
    var t := "a b ga";
    forall k | 0 <= k < |t|
      ensures !WholeWordAt(t, "cnv", k)
    {
      assert t[k] != 'c';
    }
    RemoveWordAbsent(t, "cnv", 0);
  }

  lemma ExampleTwoWordsRemove()
    ensures RemoveWord("a b", "amd") == "a b" && RemoveWord("a b", "cnv") == "a b"
  {
    assert !WholeWordAt("a b", "amd", 0) && !WholeWordAt("a b", "cnv", 0);
    RemoveWordAbsent("a b", "amd", 0);
    RemoveWordAbsent("a b", "cnv", 0);
  }

  lemma ExampleTwoWordsClean()
    ensures StripSpace("a b") == "a b" && Collapse("a b") == "a b"
  {
    assert StripLeftSpace("a b") == "a b" && StripRightSpace("a b") == "a b";
    var ts := ["a", "b"];
    assert IsToken(ts[0]) && IsToken(ts[1]);
    WordsOfJoin(ts);
    assert Join(ts, " ") == "a b";
  }

  lemma ExampleShortShorten()
    ensures ShortenLongName(["a", "b", "ga"]) == "a b"
  {
    assert DropTrailing(["a", "b", "ga"]) == ["a", "b"];
    assert Join(["a", "b"], " ") == "a b";
    ExampleTwoWordsRemove();
    ExampleTwoWordsClean();
  }

  lemma ExampleNotSynonyms()
    ensures "a b ga" !in Synonyms && "a b" !in Synonyms
  {
  }

  /** "a b ga amd": the long-name branch deletes the embedded "amd" and leaves "a b ga". */
  lemma NormalizeExampleFirstPass()
    ensures NormalizedName(Some("a b ga amd")) == "a b ga"
  {
    ExampleLongLower();
    ExampleLongStrip();
    ExampleLongWords();
    ExampleLongCollapse();
    CleanNameNormalization("a b ga amd");
    ExampleLongShorten();
    ExampleNotSynonyms();
  }

  /** "a b ga": now three words long, so the trailing "ga" is popped, leaving "a b". */
  lemma NormalizeExampleSecondPass()
    ensures NormalizedName(Some("a b ga")) == "a b"
  {
    ExampleShortLower();
    ExampleShortStrip();
    ExampleShortWords();
    ExampleShortJoin();
    CleanNameNormalization("a b ga");
    ExampleShortShorten();
    ExampleNotSynonyms();
  }

  /**
   * Normalisation is not idempotent: popping trailing words happens before the
   * embedded `amd` is deleted, so a second pass can pop again.
   */
  lemma NormalizationNotIdempotent()
    ensures exists s :: NormalizedName(Some(NormalizedName(Some(s)))) != NormalizedName(Some(s))
  {
    NormalizeExampleFirstPass();
    NormalizeExampleSecondPass();
    assert NormalizedName(Some(NormalizedName(Some("a b ga amd")))) == "a b";
  }

  // ---------------------------------------------------------------------
  // refine_relations
  // ---------------------------------------------------------------------

  /** The relation a raw dict yields, or `None` when a normalised name is empty or both names coincide. */
  function Candidate(raw: RawRelation): (c: Option<Relation>)
    ensures c.Some? ==> c.value.entity1Name != "" && c.value.entity2Name != "" && c.value.entity1Name != c.value.entity2Name
  {
    var n1 := NormalizedName(raw.entity1Name);
    var n2 := NormalizedName(raw.entity2Name);
    if n1 == "" || n2 == "" then None
    else if n1 == n2 then None
    else Some(Relation(raw.relationType, raw.entity1Type, n1, raw.entity2Type, n2, raw.pubId))
  }

  function KeysOf(rels: seq<Relation>): set<Key> {
    set r | r in rels :: KeyOf(r)
  }

  /** The candidates of a batch, in order. */
  function CandidatesOf(raws: seq<RawRelation>): (cs: seq<Option<Relation>>)
    ensures |cs| == |raws| && forall i :: 0 <= i < |raws| ==> cs[i] == Candidate(raws[i])
  {
    seq(|raws|, i requires 0 <= i < |raws| => Candidate(raws[i]))
  }

  /** The first relation of each key among the candidates, in first-seen order. */
  function KeepFirst(cs: seq<Option<Relation>>): seq<Relation> {
    if cs == [] then []
    else
      var kept := KeepFirst(cs[..|cs| - 1]);
      var c := cs[|cs| - 1];
      if c.Some? && KeyOf(c.value) !in KeysOf(kept) then kept + [c.value] else kept
  }

  /** The list `refine_relations` builds before resolving types. */
  function Dedup(raws: seq<RawRelation>): seq<Relation> {
    KeepFirst(CandidatesOf(raws))
  }

  /** The key holds every field, so a key is seen exactly when its relation is. */
  lemma KeysOfMember(rels: seq<Relation>, r: Relation)
    ensures KeyOf(r) in KeysOf(rels) <==> r in rels
  {
    if KeyOf(r) in KeysOf(rels) {
      var x :| x in rels && KeyOf(x) == KeyOf(r);
      assert x == r;
    }
  }

  /** No key is kept twice. */
  lemma {:induction false} KeepFirstUnique(cs: seq<Option<Relation>>)
    ensures forall i, j :: 0 <= i < j < |KeepFirst(cs)| ==> KeyOf(KeepFirst(cs)[i]) != KeyOf(KeepFirst(cs)[j])
    decreases |cs|
  {
    if cs != [] {
      var kept := KeepFirst(cs[..|cs| - 1]);
      KeepFirstUnique(cs[..|cs| - 1]);
      var c := cs[|cs| - 1];
      if c.Some? && KeyOf(c.value) !in KeysOf(kept) {
        forall i | 0 <= i < |kept|
          ensures KeyOf(kept[i]) != KeyOf(c.value)
        {
          assert kept[i] in kept;
        }
      }
    }
  }

  /** Every candidate is kept (as itself or as an identical earlier one). */
  lemma {:induction false} KeepFirstComplete(cs: seq<Option<Relation>>)
    ensures forall k :: 0 <= k < |cs| && cs[k].Some? ==> cs[k].value in KeepFirst(cs)
    decreases |cs|
  {
    if cs != [] {
      var init := cs[..|cs| - 1];
      KeepFirstComplete(init);
      var kept := KeepFirst(init);
      var c := cs[|cs| - 1];
      if c.Some? {
        KeysOfMember(kept, c.value);
      }
      assert forall r :: r in kept ==> r in KeepFirst(cs);
      forall k | 0 <= k < |cs| && cs[k].Some?
        ensures cs[k].value in KeepFirst(cs)
      {
        if k < |init| {
          assert cs[k] == init[k];
        }
      }
    }
  }

  /** Every kept relation is a candidate. */
  lemma {:induction false} KeepFirstSound(cs: seq<Option<Relation>>)
    ensures forall r :: r in KeepFirst(cs) ==> Some(r) in cs
    decreases |cs|
  {
    if cs != [] {
      var init := cs[..|cs| - 1];
      KeepFirstSound(init);
      forall r | r in KeepFirst(cs)
        ensures Some(r) in cs
      {
        if r in KeepFirst(init) {
          assert Some(r) in init;
        }
      }
    }
  }

  /** First-seen order: the kept list only ever grows at its end. */
  lemma {:induction false} KeepFirstPrefix(cs: seq<Option<Relation>>, k: nat)
    requires k <= |cs|
    ensures KeepFirst(cs[..k]) <= KeepFirst(cs)
    decreases |cs| - k
  {
    if k < |cs| {
      KeepFirstPrefix(cs, k + 1);
      assert cs[..k + 1][..k] == cs[..k];
    } else {
      assert cs[..k] == cs;
    }
  }

  /**
   * `refine_relations` before type resolution: it keeps exactly the candidates
   * (non-empty, distinct names), one relation per key, in first-seen order.
   */
  lemma DedupSpec(raws: seq<RawRelation>)
    ensures forall r :: r in Dedup(raws) ==>
      r.entity1Name != "" && r.entity2Name != "" && r.entity1Name != r.entity2Name
    ensures forall r :: r in Dedup(raws) <==> exists k :: 0 <= k < |raws| && Candidate(raws[k]) == Some(r)
    ensures forall i, j :: 0 <= i < j < |Dedup(raws)| ==> KeyOf(Dedup(raws)[i]) != KeyOf(Dedup(raws)[j])
    ensures forall k :: 0 <= k <= |raws| ==> Dedup(raws[..k]) <= Dedup(raws)
  {
    var cs := CandidatesOf(raws);
    KeepFirstSound(cs);
    KeepFirstComplete(cs);
    KeepFirstUnique(cs);
    forall r | r in Dedup(raws)
      ensures exists k :: 0 <= k < |raws| && Candidate(raws[k]) == Some(r)
    {
      var k :| 0 <= k < |cs| && cs[k] == Some(r);
    }
    forall k | 0 <= k <= |raws|
      ensures Dedup(raws[..k]) <= Dedup(raws)
    {
      KeepFirstPrefix(cs, k);
      assert CandidatesOf(raws[..k]) == cs[..k];
    }
  }

  lemma DedupStep(raws: seq<RawRelation>, i: nat)
    requires i < |raws|
    ensures Dedup(raws[..i + 1]) ==
      var kept := Dedup(raws[..i]);
      var c := Candidate(raws[i]);
      if c.Some? && KeyOf(c.value) !in KeysOf(kept) then kept + [c.value] else kept
    ensures forall kept: seq<Relation>, r :: KeysOf(kept + [r]) == KeysOf(kept) + {KeyOf(r)}
  {
    var cs := CandidatesOf(raws[..i + 1]);
    assert cs[..i] == CandidatesOf(raws[..i]);
    forall kept: seq<Relation>, r
      ensures KeysOf(kept + [r]) == KeysOf(kept) + {KeyOf(r)}
    {
      assert forall x :: x in kept + [r] <==> x in kept || x == r;
    }
  }

  /** `refine_relations`: normalise, drop empty and self relations, keep the first of each key, then resolve types. */
  method RefineRelations(raws: seq<RawRelation>) returns (refined: seq<Relation>)
    ensures refined == ResolveAll(Dedup(raws))
  {
    var seen: set<Key> := {};
    var kept: seq<Relation> := [];
    for i := 0 to |raws|
      invariant kept == Dedup(raws[..i])
      invariant seen == KeysOf(kept)
    {
      DedupStep(raws, i);
      var raw := raws[i];
      var n1 := NormalizeEntityName(raw.entity1Name);
      var n2 := NormalizeEntityName(raw.entity2Name);
      if n1 == "" || n2 == "" {
        continue;
      }
      if n1 == n2 {
        continue;
      }
      var rel := Relation(raw.relationType, raw.entity1Type, n1, raw.entity2Type, n2, raw.pubId);
      var key := KeyOf(rel);
      if key !in seen {
        seen := seen + {key};
        kept := kept + [rel];
      }
    }
    assert raws[..|raws|] == raws;
    var a := new Relation[|kept|](k requires 0 <= k < |kept| => kept[k]);
    assert a[..] == kept;
    ResolveEntityTypes(a);
    refined := a[..];
  }

  /**
   * What `refine_relations` returns: one relation per kept candidate, names
   * non-empty and distinct, and every name carrying a single type.
   */
  lemma RefinedRelationsSpec(raws: seq<RawRelation>)
    ensures |ResolveAll(Dedup(raws))| == |Dedup(raws)|
    ensures forall i :: 0 <= i < |ResolveAll(Dedup(raws))| ==>
      var r := ResolveAll(Dedup(raws))[i];
      r.entity1Name != "" && r.entity2Name != "" && r.entity1Name != r.entity2Name
    ensures forall name :: !Ambiguous(Occurrences(ResolveAll(Dedup(raws))), name)
  {
    var d := Dedup(raws);
    DedupSpec(raws);
    forall i | 0 <= i < |d|
      ensures d[i].entity1Name != "" && d[i].entity2Name != "" && d[i].entity1Name != d[i].entity2Name
    {
      assert d[i] in d;
    }
    forall name
      ensures !Ambiguous(Occurrences(ResolveAll(d)), name)
    {
      ResolveAllUnambiguous(d, name);
    }
  }

  /** Two kept relations that differ only in entity 1's type, "disease" versus "test". */
  function MergeExample(): seq<Relation> {
    [Relation(Some("cause"), Some("disease"), "x", Some("symptom"), "y", None),
     Relation(Some("cause"), Some("test"), "x", Some("symptom"), "y", None)]
  }

  lemma MergeExampleSightings()
    ensures Occurrences(MergeExample()) ==
      [("x", Some("disease")), ("y", Some("symptom")), ("x", Some("test")), ("y", Some("symptom"))]
  {
    var rels := MergeExample();
    assert Lower("x") == "x" && Lower("y") == "y";
    var occ := Occurrences(rels);
    assert occ[0] == ("x", Some("disease")) && occ[1] == ("y", Some("symptom"));
    assert occ[2] == ("x", Some("test")) && occ[3] == ("y", Some("symptom"));
  }

  lemma MergeExampleCounts()
    ensures var o := [("x", Some("disease")), ("y", Some("symptom")), ("x", Some("test")), ("y", Some("symptom"))];
      Count(o, "x", Some("disease")) == 1 && Count(o, "x", Some("test")) == 1
  {
    var o := [("x", Some("disease")), ("y", Some("symptom")), ("x", Some("test")), ("y", Some("symptom"))];
    assert o[..3][..2] == o[..2] && o[..2][..1] == o[..1] && o[..1][..0] == [];
    assert Count(o[..1], "x", Some("disease")) == 1 && Count(o[..1], "x", Some("test")) == 0;
    assert Count(o[..2], "x", Some("disease")) == 1 && Count(o[..2], "x", Some("test")) == 0;
    assert Count(o[..3], "x", Some("disease")) == 1 && Count(o[..3], "x", Some("test")) == 1;
  }

  lemma MergeExampleResolvesX()
    ensures "x" in Resolution(MergeExample()) && Resolution(MergeExample())["x"] == Some("disease")
  {
    var rels := MergeExample();
    var o := [("x", Some("disease")), ("y", Some("symptom")), ("x", Some("test")), ("y", Some("symptom"))];
    MergeExampleSightings();
    MergeExampleCounts();
    assert Ambiguous(o, "x");
    ResolutionIsMajority(rels, "x");
    var w := Resolution(rels)["x"];
    CountPositive(o, "x", w);
    var k :| 0 <= k < |o| && o[k] == ("x", w);
    assert k == 0 || k == 2;
    DiseaseOutranksTest();
  }

  /** "disease" has the highest priority and "test" one of the lowest. */
  lemma DiseaseOutranksTest()
    ensures Priority(Some("disease")) == 12 && Priority(Some("test")) == 3
  {
  }

  lemma MergeExampleKeepsY()
    ensures "y" !in Resolution(MergeExample())
  {
    var rels := MergeExample();
    var o := [("x", Some("disease")), ("y", Some("symptom")), ("x", Some("test")), ("y", Some("symptom"))];
    MergeExampleSightings();
    ResolutionIsMajority(rels, "y");
    forall t: Label | Count(o, "y", t) > 0
      ensures t == Some("symptom")
    {
      CountPositive(o, "y", t);
      var k :| 0 <= k < |o| && o[k] == ("y", t);
      assert k == 1 || k == 3;
    }
  }

  /**
   * Key uniqueness holds before the final type resolution only: two kept
   * relations with different keys become identical once the name "x" is
   * settled to "disease".
   */
  lemma ResolutionCanMergeKept()
    ensures KeyOf(MergeExample()[0]) != KeyOf(MergeExample()[1])
    ensures ResolveAll(MergeExample()) == [MergeExample()[0], MergeExample()[0]]
  {
    var rels := MergeExample();
    MergeExampleResolvesX();
    MergeExampleKeepsY();
    assert Lower("x") == "x" && Lower("y") == "y";
    var r := ResolveAll(rels);
    assert r[0] == rels[0];
    assert r[1] == rels[0];
  }

  // ---------------------------------------------------------------------
  // sanitize_entity_name
  // ---------------------------------------------------------------------

  /** The regex class `[\s\W]`. */
  predicate InSanitizeClass(c: char) {
    IsSpace(c) || !IsWordChar(c)
  }

  /** The text after the leading run of `[\s\W]` characters. */
  function SkipRun(s: string): (r: string)
    ensures |r| <= |s|
    ensures s != [] && InSanitizeClass(s[0]) ==> |r| < |s|
    ensures r != [] ==> !InSanitizeClass(r[0])
  {
    if s != [] && InSanitizeClass(s[0]) then SkipRun(s[1..]) else s
  }

  /** `re.sub(r'[\s\W]+', '_', s)`: each maximal run becomes one underscore. */
  function ReplaceRuns(s: string): (r: string)
    ensures forall c :: c in r ==> IsWordChar(c)
    decreases |s|
  {
    if s == [] then ""
    else if InSanitizeClass(s[0]) then "_" + ReplaceRuns(SkipRun(s))
    else [s[0]] + ReplaceRuns(s[1..])
  }

  /** `sanitize_entity_name` */
  function SanitizeEntityName(s: string): string {
    LStripChars(RStripChars(ReplaceRuns(s), {'_'}), {'_'})
  }

  lemma SliceChars(s: string, i: nat, j: nat)
    requires i <= j <= |s|
    ensures forall c :: c in s[i..j] ==> c in s
  {
    forall c | c in s[i..j]
      ensures c in s
    {
      var k :| i <= k < j && s[k] == c;
    }
  }

  /** The sanitised name has only word characters and neither starts nor ends with '_'. */
  lemma SanitizedShape(s: string)
    ensures forall c :: c in SanitizeEntityName(s) ==> IsWordChar(c)
    ensures SanitizeEntityName(s) != [] ==>
      SanitizeEntityName(s)[0] != '_' && SanitizeEntityName(s)[|SanitizeEntityName(s)| - 1] != '_'
  {
    var x := ReplaceRuns(s);
    var l := RStripChars(x, {'_'});
    var r := LStripChars(l, {'_'});
    LStripCharsSuffix(l, {'_'});
    SliceChars(x, 0, |l|);
    SliceChars(l, |l| - |r|, |l|);
    if r != [] {
      assert r[|r| - 1] == l[|l| - 1];
    }
  }

  lemma {:induction false} ReplaceRunsOfWord(s: string)
    requires forall c :: c in s ==> IsWordChar(c)
    ensures ReplaceRuns(s) == s
    decreases |s|
  {
    if s != [] {
      assert s[0] in s;
      SliceChars(s, 1, |s|);
      ReplaceRunsOfWord(s[1..]);
    }
  }

  /** Sanitising twice is sanitising once. */
  lemma SanitizeIdempotent(s: string)
    ensures SanitizeEntityName(SanitizeEntityName(s)) == SanitizeEntityName(s)
  {
    var t := SanitizeEntityName(s);
    SanitizedShape(s);
    ReplaceRunsOfWord(t);
  }
}
