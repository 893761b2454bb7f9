/**
 * The retrieval side of the graph RAG system (backend/weaviate_rag/rag_system.py):
 * choosing which entities and relations of a search result to show, rendering
 * them as sentences, trimming the text to a budget, listing the sources, and
 * assembling the answer record of `query`.
 *
 * The store is not modelled: a search result is the list of tagged items the
 * hybrid search would have returned.
 */
module RagSystem {
  import opened Wrappers
  import opened Strings

  // ---------------------------------------------------------------------
  // Search items
  // ---------------------------------------------------------------------

  /** An entity hit: `{"type": "entity", "id", "name", "entity_type"}`. */
  datatype EntityItem = EntityItem(id: string, name: string, entityType: string)

  /**
   * A relation endpoint: `{"id", "name", "type"}`, or `{"name": "Unknown",
   * "type": "Unknown"}` without an id when the reference was missing.
   */
  datatype Endpoint = Endpoint(id: Option<string>, name: string, endpointType: string)

  /** A publication reference; `None` when the dict has no "name". */
  datatype Publication = Publication(name: Option<string>)

  /** A relation hit: `{"type": "relation", "id", "predicate", "subject", "object", "publications"}`. */
  datatype RelationItem = RelationItem(
    id: string, predicateName: string, subject: Endpoint, obj: Endpoint, publications: seq<Publication>)

  datatype Item = EntityHit(entity: EntityItem) | RelationHit(relation: RelationItem)

  // ---------------------------------------------------------------------
  // _trim_context
  // ---------------------------------------------------------------------

  const BlockSeparator: string := "\n\n"

  /** How many leading blocks fit the budget when each costs its length plus 2; the first misfit stops the count. */
  function FitCount(blocks: seq<string>, budget: int): (k: nat)
    ensures k <= |blocks|
  {
    if blocks == [] || |blocks[0]| + 2 > budget then 0
    else 1 + FitCount(blocks[1..], budget - (|blocks[0]| + 2))
  }

  /** The text `_trim_context` returns. */
  function Trimmed(context: string, maxLength: int): string {
    if |context| <= maxLength then context
    else
      var blocks := Split(context, BlockSeparator);
      Join(blocks[..FitCount(blocks, maxLength)], BlockSeparator)
  }

  /** `_trim_context`: keep whole "\n\n"-separated blocks while they fit. */
  method TrimContext(context: string, maxLength: int) returns (r: string)
    ensures r == Trimmed(context, maxLength)
  {
    if |context| <= maxLength {
      return context;
    }
    var relations := Split(context, BlockSeparator);
    var result: seq<string> := [];
    var currentLength := 0;
    var i := 0;
    while i < |relations|
      invariant 0 <= i <= |relations|
      invariant result == relations[..i]
      invariant FitCount(relations, maxLength) == i + FitCount(relations[i..], maxLength - currentLength)
    {
      var relationLength := |relations[i]| + 2;
      if currentLength + relationLength > maxLength {
        break;
      }
      assert relations[i..][1..] == relations[i + 1..];
      result := result + [relations[i]];
      currentLength := currentLength + relationLength;
      i := i + 1;
    }
    r := Join(result, BlockSeparator);
  }

  lemma {:induction false} FitCountCost(blocks: seq<string>, budget: int)
    ensures SumLengths(blocks[..FitCount(blocks, budget)]) + 2 * FitCount(blocks, budget) <= if budget < 0 then 0 else budget
    decreases |blocks|
  {
    var k := FitCount(blocks, budget);
    if k > 0 {
      FitCountCost(blocks[1..], budget - (|blocks[0]| + 2));
      assert blocks[..k][1..] == blocks[1..][..k - 1];
    }
  }

  /**
   * `_trim_context`: a text within the budget is kept; otherwise the result is
   * a prefix of the text made of whole leading blocks, within the budget, and
   * empty when the first block does not fit.
   */
  lemma TrimmedSpec(context: string, maxLength: int)
    ensures |context| <= maxLength ==> Trimmed(context, maxLength) == context
    ensures Trimmed(context, maxLength) <= context
    ensures maxLength >= 0 ==> |Trimmed(context, maxLength)| <= maxLength
    ensures maxLength < 0 ==> Trimmed(context, maxLength) == ""
    ensures |context| > maxLength && |Split(context, BlockSeparator)[0]| + 2 > maxLength ==> Trimmed(context, maxLength) == ""
  {
    if |context| > maxLength {
      var blocks := Split(context, BlockSeparator);
      var k := FitCount(blocks, maxLength);
      JoinSplit(context, BlockSeparator);
      JoinPrefix(blocks, BlockSeparator, k);
      FitCountCost(blocks, maxLength);
      if k > 0 {
        JoinLength(blocks[..k], BlockSeparator);
      }
    }
  }

  /** Trimming a trimmed text changes nothing. */
  lemma TrimmedIdempotent(context: string, maxLength: int)
    ensures Trimmed(Trimmed(context, maxLength), maxLength) == Trimmed(context, maxLength)
  {
    TrimmedSpec(context, maxLength);
    if maxLength < 0 {
      TrimmedSpec("", maxLength);
    }
  }

  // ---------------------------------------------------------------------
  // _select_relevant_context
  // ---------------------------------------------------------------------

  /** `[item for item in items if item["type"] == "entity"]` */
  function EntitiesOf(items: seq<Item>): (es: seq<EntityItem>)
    ensures forall e :: e in es <==> EntityHit(e) in items
    ensures |es| <= |items|
  {
    if items == [] then []
    else (if items[0].EntityHit? then [items[0].entity] else []) + EntitiesOf(items[1..])
  }

  /** `[item for item in items if item["type"] == "relation"]` */
  function RelationsOf(items: seq<Item>): (rs: seq<RelationItem>)
    ensures forall r :: r in rs <==> RelationHit(r) in items
  {
    if items == [] then []
    else (if items[0].RelationHit? then [items[0].relation] else []) + RelationsOf(items[1..])
  }

  /** `s[:n]` with Python's slice bounds: a negative `n` counts from the end, an oversized one takes all. */
  function SlicePrefix<T>(s: seq<T>, n: int): (r: seq<T>)
    ensures r <= s
    ensures n >= 0 ==> |r| == if n < |s| then n else |s|
    ensures n < 0 ==> |r| == if |s| + n > 0 then |s| + n else 0
  {
    if n >= |s| then s
    else if n >= 0 then s[..n]
    else if |s| + n >= 0 then s[..|s| + n]
    else []
  }

  /** The entities shown: the first `maxEntities` entity hits. */
  function Selected(items: seq<Item>, maxEntities: int): seq<EntityItem> {
    SlicePrefix(EntitiesOf(items), maxEntities)
  }

  function IdsOf(es: seq<EntityItem>): set<string> {
    set e | e in es :: e.id
  }

  /** `id in ids` for an id that may be missing. */
  predicate InIds(id: Option<string>, ids: set<string>) {
    id.Some? && id.value in ids
  }

  /** A relation touches the selection when its subject or its object is selected. */
  predicate TouchesAny(rel: RelationItem, ids: set<string>) {
    InIds(rel.subject.id, ids) || InIds(rel.obj.id, ids)
  }

  /** A relation touches one entity when its subject or its object is that entity. */
  predicate TouchesEntity(rel: RelationItem, id: string) {
    rel.subject.id == Some(id) || rel.obj.id == Some(id)
  }

  /** `next((i for i, e in enumerate(selected) if e["id"] == id), len(selected))` */
  function Rank(selected: seq<EntityItem>, id: Option<string>): (r: nat)
    ensures r <= |selected|
    ensures r < |selected| ==> Some(selected[r].id) == id
    ensures forall j :: 0 <= j < r ==> Some(selected[j].id) != id
  {
    if selected == [] then 0
    else if Some(selected[0].id) == id then 0
    else 1 + Rank(selected[1..], id)
  }

  /**
   * The score `min(subject_rank, object_rank) + 0.01 * i`, scaled by 100 so
   * that it is exact: `100 * min(ranks) + i` orders relations the same way.
   */
  function Score(selected: seq<EntityItem>, i: nat, rel: RelationItem): nat {
    var s := Rank(selected, rel.subject.id);
    var o := Rank(selected, rel.obj.id);
    100 * (if s <= o then s else o) + i
  }

  /** A `relation_scores` entry: (score, relation). */
  type Scored = (nat, RelationItem)

  /** The dict `relation_scores`, in insertion order: relation id and its entry. */
  type ScoreTable = seq<(string, Scored)>

  /** `table[key] = v`: replaces the value in place, or appends a new key. */
  function Upsert(table: ScoreTable, key: string, v: Scored): ScoreTable {
    if table == [] then [(key, v)]
    else if table[0].0 == key then [(key, v)] + table[1..]
    else [table[0]] + Upsert(table[1..], key, v)
  }

  /** `relation_scores` after the scoring loop has seen `rels`. */
  function Scores(selected: seq<EntityItem>, rels: seq<RelationItem>): ScoreTable {
    if rels == [] then []
    else
      var t := Scores(selected, rels[..|rels| - 1]);
      var i := |rels| - 1;
      var rel := rels[i];
      if TouchesAny(rel, IdsOf(selected)) then Upsert(t, rel.id, (Score(selected, i, rel), rel)) else t
  }

  /** `relation_scores.values()` */
  function Values(table: ScoreTable): (vs: seq<Scored>)
    ensures |vs| == |table| && forall i :: 0 <= i < |table| ==> vs[i] == table[i].1
  {
    seq(|table|, i requires 0 <= i < |table| => table[i].1)
  }

  /** Inserts before the first entry with a score at least as large. */
  function InsertByScore(x: Scored, sorted: seq<Scored>): seq<Scored> {
    if sorted == [] then [x]
    else if x.0 <= sorted[0].0 then [x] + sorted
    else [sorted[0]] + InsertByScore(x, sorted[1..])
  }

  /** `sorted(values, key=lambda x: x[0])` */
  function SortByScore(xs: seq<Scored>): seq<Scored> {
    if xs == [] then [] else InsertByScore(xs[0], SortByScore(xs[1..]))
  }

  /** `[r for _, r in scored]` */
  function RelationsOfScored(xs: seq<Scored>): (rs: seq<RelationItem>)
    ensures |rs| == |xs| && forall i :: 0 <= i < |xs| ==> rs[i] == xs[i].1
  {
    seq(|xs|, i requires 0 <= i < |xs| => xs[i].1)
  }

  /** The relations in score order. */
  function SortedRelations(selected: seq<EntityItem>, rels: seq<RelationItem>): seq<RelationItem> {
    RelationsOfScored(SortByScore(Values(Scores(selected, rels))))
  }

  const BucketCapacity: nat := 3

  /** The dict `entity_relations`: one list per selected entity id. */
  type Buckets = map<string, seq<RelationItem>>

  function EmptyBuckets(ids: set<string>): (b: Buckets)
    ensures b.Keys == ids && forall id :: id in b ==> b[id] == []
  {
    map id | id in ids :: []
  }

  /** The subject's bucket if it is selected and not full, else the object's on the same test, else nowhere. */
  function Place(b: Buckets, rel: RelationItem): Buckets {
    var s := rel.subject.id;
    var o := rel.obj.id;
    if s.Some? && s.value in b && |b[s.value]| < BucketCapacity then b[s.value := b[s.value] + [rel]]
    else if o.Some? && o.value in b && |b[o.value]| < BucketCapacity then b[o.value := b[o.value] + [rel]]
    else b
  }

  /** The buckets after the filling loop has seen `rels`. */
  function Fill(b: Buckets, rels: seq<RelationItem>): (r: Buckets)
    ensures r.Keys == b.Keys
  {
    if rels == [] then b else Place(Fill(b, rels[..|rels| - 1]), rels[|rels| - 1])
  }

  /** `order` lists every id of `ids` exactly once: the iteration order of the set. */
  ghost predicate Enumerates(order: seq<string>, ids: set<string>) {
    && (forall i, j :: 0 <= i < j < |order| ==> order[i] != order[j])
    && (forall id :: id in order <==> id in ids)
  }

  /** `[rel for rels in buckets.values() for rel in rels]`, visiting the buckets in `order`. */
  function Flatten(b: Buckets, order: seq<string>): seq<RelationItem>
    requires forall id :: id in order ==> id in b
  {
    if order == [] then [] else b[order[0]] + Flatten(b, order[1..])
  }

  /** `[r for r in rels if r touches id]` */
  function Touching(rels: seq<RelationItem>, id: string): (t: seq<RelationItem>)
    ensures forall r :: r in t <==> r in rels && TouchesEntity(r, id)
  {
    if rels == [] then []
    else (if TouchesEntity(rels[0], id) then [rels[0]] else []) + Touching(rels[1..], id)
  }

  function Hits(rels: seq<RelationItem>): (hs: seq<Item>)
    ensures |hs| == |rels| && forall i :: 0 <= i < |rels| ==> hs[i] == RelationHit(rels[i])
  {
    seq(|rels|, i requires 0 <= i < |rels| => RelationHit(rels[i]))
  }

  /** The final list: each selected entity followed by the selected relations touching it. */
  function Assemble(selected: seq<EntityItem>, rels: seq<RelationItem>): seq<Item> {
    if selected == [] then []
    else
      var e := selected[|selected| - 1];
      Assemble(selected[..|selected| - 1], rels) + [EntityHit(e)] + Hits(Touching(rels, e.id))
  }

  /** The selected relations, bucket by bucket. */
  function BucketedRelations(items: seq<Item>, maxEntities: int, order: seq<string>): seq<RelationItem>
    requires Enumerates(order, IdsOf(Selected(items, maxEntities)))
  {
    var selected := Selected(items, maxEntities);
    Flatten(Fill(EmptyBuckets(IdsOf(selected)), SortedRelations(selected, RelationsOf(items))), order)
  }

  /** What `_select_relevant_context` returns, the set's iteration order being `order`. */
  function SelectedContext(items: seq<Item>, maxEntities: int, order: seq<string>): seq<Item>
    requires Enumerates(order, IdsOf(Selected(items, maxEntities)))
  {
    Assemble(Selected(items, maxEntities), BucketedRelations(items, maxEntities, order))
  }

  lemma ScoresStep(selected: seq<EntityItem>, rels: seq<RelationItem>, i: nat)
    requires i < |rels|
    ensures Scores(selected, rels[..i + 1]) ==
      if TouchesAny(rels[i], IdsOf(selected))
      then Upsert(Scores(selected, rels[..i]), rels[i].id, (Score(selected, i, rels[i]), rels[i]))
      else Scores(selected, rels[..i])
  {
    assert rels[..i + 1][..i] == rels[..i];
  }

  lemma FillStep(b: Buckets, rels: seq<RelationItem>, i: nat)
    requires i < |rels|
    ensures Fill(b, rels[..i + 1]) == Place(Fill(b, rels[..i]), rels[i])
  {
    assert rels[..i + 1][..i] == rels[..i];
  }

  lemma AssembleStep(selected: seq<EntityItem>, rels: seq<RelationItem>, i: nat)
    requires i < |selected|
    ensures Assemble(selected[..i + 1], rels) ==
      Assemble(selected[..i], rels) + [EntityHit(selected[i])] + Hits(Touching(rels, selected[i].id))
  {
    assert selected[..i + 1][..i] == selected[..i];
  }

  /**
   * `_select_relevant_context`. The iteration order of the selected-id set,
   * which Python leaves unspecified, is the parameter `bucketOrder`.
   */
  method SelectRelevantContext(items: seq<Item>, maxEntities: int, bucketOrder: seq<string>) returns (finalContext: seq<Item>)
    requires Enumerates(bucketOrder, IdsOf(Selected(items, maxEntities)))
    ensures finalContext == SelectedContext(items, maxEntities, bucketOrder)
  {
    var entities := EntitiesOf(items);
    var relations := RelationsOf(items);
    var selectedEntities := SlicePrefix(entities, maxEntities);
    var selectedIds := IdsOf(selectedEntities);
    var relationScores := ScoreRelations(selectedEntities, selectedIds, relations);
    var sortedRelations := RelationsOfScored(SortByScore(Values(relationScores)));
    var entityRelations := FillBuckets(selectedIds, sortedRelations);
    var selectedRelations := Flatten(entityRelations, bucketOrder);
    finalContext := AssembleContext(selectedEntities, selectedRelations);
  }

  /** The scoring loop: each relation touching a selected entity, keyed by its id. */
  method ScoreRelations(selectedEntities: seq<EntityItem>, selectedIds: set<string>, relations: seq<RelationItem>)
    returns (relationScores: ScoreTable)
    requires selectedIds == IdsOf(selectedEntities)
    ensures relationScores == Scores(selectedEntities, relations)
  {
    relationScores := [];
    for i := 0 to |relations|
      invariant relationScores == Scores(selectedEntities, relations[..i])
    {
      ScoresStep(selectedEntities, relations, i);
      var relation := relations[i];
      if !InIds(relation.subject.id, selectedIds) && !InIds(relation.obj.id, selectedIds) {
        continue;
      }
      var subjectRank := Rank(selectedEntities, relation.subject.id);
      var objectRank := Rank(selectedEntities, relation.obj.id);
      var relationScore := 100 * (if subjectRank <= objectRank then subjectRank else objectRank) + i;
      relationScores := Upsert(relationScores, relation.id, (relationScore, relation));
    }
    assert relations[..|relations|] == relations;
  }

  /** The bucketing loop: each relation, best first, goes to its subject's or else its object's bucket while there is room. */
  method FillBuckets(selectedIds: set<string>, sortedRelations: seq<RelationItem>) returns (entityRelations: Buckets)
    ensures entityRelations == Fill(EmptyBuckets(selectedIds), sortedRelations)
  {
    entityRelations := EmptyBuckets(selectedIds);
    ghost var initial := entityRelations;
    for i := 0 to |sortedRelations|
      invariant entityRelations == Fill(initial, sortedRelations[..i])
      invariant entityRelations.Keys == selectedIds
    {
      FillStep(initial, sortedRelations, i);
      var relation := sortedRelations[i];
      var subjectId := relation.subject.id;
      var objectId := relation.obj.id;
      if InIds(subjectId, selectedIds) && |entityRelations[subjectId.value]| < BucketCapacity {
        entityRelations := entityRelations[subjectId.value := entityRelations[subjectId.value] + [relation]];
        continue;
      }
      if InIds(objectId, selectedIds) && |entityRelations[objectId.value]| < BucketCapacity {
        entityRelations := entityRelations[objectId.value := entityRelations[objectId.value] + [relation]];
      }
    }
    assert sortedRelations[..|sortedRelations|] == sortedRelations;
  }

  /** The assembly loop: each selected entity followed by its bucketed relations. */
  method AssembleContext(selectedEntities: seq<EntityItem>, selectedRelations: seq<RelationItem>) returns (finalContext: seq<Item>)
    ensures finalContext == Assemble(selectedEntities, selectedRelations)
  {
    finalContext := [];
    for i := 0 to |selectedEntities|
      invariant finalContext == Assemble(selectedEntities[..i], selectedRelations)
    {
      AssembleStep(selectedEntities, selectedRelations, i);
      var entity := selectedEntities[i];
      finalContext := finalContext + [EntityHit(entity)];
      finalContext := finalContext + Hits(Touching(selectedRelations, entity.id));
    }
    assert selectedEntities[..|selectedEntities|] == selectedEntities;
  }

  // Properties of the selection.

  lemma {:induction false} EntitiesOfAppend(a: seq<Item>, b: seq<Item>)
    ensures EntitiesOf(a + b) == EntitiesOf(a) + EntitiesOf(b)
  {
    if a == [] {
      assert a + b == b;
    } else {
      assert (a + b)[1..] == a[1..] + b;
      EntitiesOfAppend(a[1..], b);
    }
  }

  lemma {:induction false} EntitiesOfHits(rels: seq<RelationItem>)
    ensures EntitiesOf(Hits(rels)) == []
  {
    if rels != [] {
      assert Hits(rels)[1..] == Hits(rels[1..]);
      EntitiesOfHits(rels[1..]);
    }
  }

  lemma {:induction false} AssembleEntities(selected: seq<EntityItem>, rels: seq<RelationItem>)
    ensures EntitiesOf(Assemble(selected, rels)) == selected
  {
    if selected != [] {
      var init := selected[..|selected| - 1];
      var e := selected[|selected| - 1];
      var a, h := Assemble(init, rels), Hits(Touching(rels, e.id));
      assert Assemble(selected, rels) == a + [EntityHit(e)] + h by {
        AssembleUnfold(selected, rels);
      }
      assert EntitiesOf(a + [EntityHit(e)]) == init + [e] by {
        AssembleEntities(init, rels);
        EntitiesOfAppend(a, [EntityHit(e)]);
        assert EntitiesOf([EntityHit(e)]) == [e];
      }
      assert EntitiesOf(h) == [] by {
        EntitiesOfHits(Touching(rels, e.id));
      }
      EntitiesOfAppend(a + [EntityHit(e)], h);
      assert init + [e] + [] == selected;
    }
  }

  lemma {:induction false} AssembleRelations(selected: seq<EntityItem>, rels: seq<RelationItem>, r: RelationItem)
    requires RelationHit(r) in Assemble(selected, rels)
    ensures r in rels
    ensures exists e :: e in selected && TouchesEntity(r, e.id)
  {
    var init := selected[..|selected| - 1];
    var e := selected[|selected| - 1];
    var tail := Hits(Touching(rels, e.id));
    if RelationHit(r) in Assemble(init, rels) {
      AssembleRelations(init, rels, r);
      var e' :| e' in init && TouchesEntity(r, e'.id);
      assert e' in selected;
    } else {
      assert RelationHit(r) in tail;
      var k :| 0 <= k < |tail| && tail[k] == RelationHit(r);
      assert r in Touching(rels, e.id);
    }
  }

  /**
   * The entity items of the context are exactly the selected entities, in
   * order; every relation item is a bucketed relation that touches one of them.
   */
  lemma SelectedContextShape(items: seq<Item>, maxEntities: int, order: seq<string>)
    requires Enumerates(order, IdsOf(Selected(items, maxEntities)))
    ensures EntitiesOf(SelectedContext(items, maxEntities, order)) == Selected(items, maxEntities)
    ensures forall r :: RelationHit(r) in SelectedContext(items, maxEntities, order) ==>
      && r in BucketedRelations(items, maxEntities, order)
      && exists e :: e in Selected(items, maxEntities) && TouchesEntity(r, e.id)
  {
    var selected := Selected(items, maxEntities);
    var rels := BucketedRelations(items, maxEntities, order);
    AssembleEntities(selected, rels);
    forall r | RelationHit(r) in SelectedContext(items, maxEntities, order)
      ensures r in rels && exists e :: e in selected && TouchesEntity(r, e.id)
    {
      AssembleRelations(selected, rels, r);
    }
  }

  /** Buckets hold at most three relations, each touching the bucket's entity, each taken from the input. */
  ghost predicate GoodBuckets(b: Buckets, rels: seq<RelationItem>) {
    forall id :: id in b ==>
      && |b[id]| <= BucketCapacity
      && forall r :: r in b[id] ==> r in rels && TouchesEntity(r, id)
  }

  lemma {:induction false} FillGood(b: Buckets, rels: seq<RelationItem>)
    requires forall id :: id in b ==> b[id] == []
    ensures GoodBuckets(Fill(b, rels), rels)
  {
    if rels != [] {
      var init := rels[..|rels| - 1];
      FillGood(b, init);
      var f := Fill(b, init);
      var rel := rels[|rels| - 1];
      assert forall r :: r in init ==> r in rels;
      forall id | id in Place(f, rel)
        ensures |Place(f, rel)[id]| <= BucketCapacity
        ensures forall r :: r in Place(f, rel)[id] ==> r in rels && TouchesEntity(r, id)
      {
        assert Place(f, rel)[id] == f[id] || Place(f, rel)[id] == f[id] + [rel];
      }
    }
  }

  /** `Flatten` over an updated bucket gains just the one relation. */
  lemma {:induction false} FlattenAppend(b: Buckets, order: seq<string>, id: string, rel: RelationItem)
    requires forall x :: x in order ==> x in b
    requires id in b
    requires forall i, j :: 0 <= i < j < |order| ==> order[i] != order[j]
    ensures forall x :: x in order ==> x in b[id := b[id] + [rel]]
    ensures multiset(Flatten(b[id := b[id] + [rel]], order)) ==
      multiset(Flatten(b, order)) + (if id in order then multiset{rel} else multiset{})
  {
    var b' := b[id := b[id] + [rel]];
    if order != [] {
      var t := order[1..];
      var inT := id in t;
      assert multiset(Flatten(b', t)) == multiset(Flatten(b, t)) + (if inT then multiset{rel} else multiset{}) by {
        assert forall x :: x in t ==> x in order;
        forall i, j | 0 <= i < j < |t| ensures t[i] != t[j] {
          assert t[i] == order[i + 1] && t[j] == order[j + 1];
        }
        FlattenAppend(b, t, id, rel);
      }
      assert order[0] == id ==> !inT by {
        if order[0] == id {
          forall j | 0 <= j < |t| ensures t[j] != id {
            assert t[j] == order[j + 1];
          }
        }
      }
      assert id in order <==> order[0] == id || inT;
      assert Flatten(b', order) == b'[order[0]] + Flatten(b', t);
      assert Flatten(b, order) == b[order[0]] + Flatten(b, t);
    }
  }

  lemma {:induction false} FillCounts(b: Buckets, rels: seq<RelationItem>, order: seq<string>)
    requires forall x :: x in order ==> x in b
    requires forall i, j :: 0 <= i < j < |order| ==> order[i] != order[j]
    ensures multiset(Flatten(Fill(b, rels), order)) <= multiset(Flatten(b, order)) + multiset(rels)
  {
    if rels != [] {
      var init := rels[..|rels| - 1];
      var rel := rels[|rels| - 1];
      FillCounts(b, init, order);
      var f := Fill(b, init);
      assert Fill(b, rels) == Place(f, rel);
      assert rels == init + [rel];
      assert multiset(rels) == multiset(init) + multiset{rel};
      var s := rel.subject.id;
      var o := rel.obj.id;
      if s.Some? && s.value in f && |f[s.value]| < BucketCapacity {
        assert Place(f, rel) == f[s.value := f[s.value] + [rel]];
        FlattenAppend(f, order, s.value, rel);
      } else if o.Some? && o.value in f && |f[o.value]| < BucketCapacity {
        assert Place(f, rel) == f[o.value := f[o.value] + [rel]];
        FlattenAppend(f, order, o.value, rel);
      } else {
        assert Place(f, rel) == f;
      }
    }
  }

  lemma {:induction false} FlattenEmpty(b: Buckets, order: seq<string>)
    requires forall x :: x in order ==> x in b
    requires forall x :: x in b ==> b[x] == []
    ensures Flatten(b, order) == []
  {
    if order != [] {
      FlattenEmpty(b, order[1..]);
    }
  }

  /**
   * Bucketing lists no relation more often than the score table holds it,
   * at most three per selected entity, and only where it touches that entity.
   */
  lemma BucketedRelationsSpec(items: seq<Item>, maxEntities: int, order: seq<string>)
    requires Enumerates(order, IdsOf(Selected(items, maxEntities)))
    ensures multiset(BucketedRelations(items, maxEntities, order)) <=
      multiset(SortedRelations(Selected(items, maxEntities), RelationsOf(items)))
    ensures GoodBuckets(Fill(EmptyBuckets(IdsOf(Selected(items, maxEntities))),
                             SortedRelations(Selected(items, maxEntities), RelationsOf(items))),
                        SortedRelations(Selected(items, maxEntities), RelationsOf(items)))
  {
    var selected := Selected(items, maxEntities);
    var empty := EmptyBuckets(IdsOf(selected));
    var sorted := SortedRelations(selected, RelationsOf(items));
    FillCounts(empty, sorted, order);
    FlattenEmpty(empty, order);
    FillGood(empty, sorted);
  }

  ghost predicate SortedByScore(xs: seq<Scored>) {
    forall i, j :: 0 <= i < j < |xs| ==> xs[i].0 <= xs[j].0
  }

  lemma {:induction false} InsertByScorePerm(x: Scored, sorted: seq<Scored>)
    ensures multiset(InsertByScore(x, sorted)) == multiset(sorted) + multiset{x}
  {
    if sorted != [] && x.0 > sorted[0].0 {
      InsertByScorePerm(x, sorted[1..]);
      assert sorted == [sorted[0]] + sorted[1..];
    }
  }

  lemma {:induction false} InsertByScoreSorted(x: Scored, sorted: seq<Scored>)
    requires SortedByScore(sorted)
    ensures SortedByScore(InsertByScore(x, sorted))
  {
    if sorted != [] && x.0 > sorted[0].0 {
      var rest := InsertByScore(x, sorted[1..]);
      InsertByScoreSorted(x, sorted[1..]);
      HeadBelowInsert(x, sorted);
      var u := InsertByScore(x, sorted);
      assert u == [sorted[0]] + rest;
      forall i, j | 0 <= i < j < |u| ensures u[i].0 <= u[j].0 {
        if i > 0 {
          assert u[i] == rest[i - 1] && u[j] == rest[j - 1];
        } else {
          assert u[j] == rest[j - 1];
        }
      }
    }
  }

  /** Inserting past the head of a sorted list keeps every entry after it at least as large. */
  lemma HeadBelowInsert(x: Scored, sorted: seq<Scored>)
    requires SortedByScore(sorted) && sorted != [] && x.0 > sorted[0].0
    ensures forall j :: 0 <= j < |InsertByScore(x, sorted[1..])| ==> sorted[0].0 <= InsertByScore(x, sorted[1..])[j].0
  {
    var rest := InsertByScore(x, sorted[1..]);
    InsertByScorePerm(x, sorted[1..]);
    forall j | 0 <= j < |rest| ensures sorted[0].0 <= rest[j].0 {
      assert rest[j] in multiset(rest);
      if rest[j] != x {
        assert rest[j] in multiset(sorted[1..]);
        var k :| 0 <= k < |sorted[1..]| && sorted[1..][k] == rest[j];
        assert sorted[k + 1] == rest[j];
      }
    }
  }

  /**
   * Sorting yields the same entries, in non-decreasing score order, and is
   * stable: the entries of any one score keep their input order.
   */
  lemma {:induction false} SortByScoreSpec(xs: seq<Scored>)
    ensures SortedByScore(SortByScore(xs))
    ensures multiset(SortByScore(xs)) == multiset(xs)
    ensures forall score :: WithScore(SortByScore(xs), score) == WithScore(xs, score)
  {
    if xs != [] {
      SortByScoreSpec(xs[1..]);
      InsertByScoreSorted(xs[0], SortByScore(xs[1..]));
      InsertByScorePerm(xs[0], SortByScore(xs[1..]));
      assert xs == [xs[0]] + xs[1..];
      forall score ensures WithScore(SortByScore(xs), score) == WithScore(xs, score) {
        InsertByScoreStable(xs[0], SortByScore(xs[1..]), score);
      }
    }
  }

  /** The entries with the given score, in order. */
  function WithScore(xs: seq<Scored>, score: nat): seq<Scored> {
    if xs == [] then []
    else (if xs[0].0 == score then [xs[0]] else []) + WithScore(xs[1..], score)
  }

  lemma WithScoreCons(h: Scored, t: seq<Scored>, score: nat)
    ensures WithScore([h] + t, score) == (if h.0 == score then [h] else []) + WithScore(t, score)
  {
    assert ([h] + t)[1..] == t;
  }

  /** Inserting puts the new entry before every entry of its own score. */
  lemma {:induction false} InsertByScoreStable(x: Scored, sorted: seq<Scored>, score: nat)
    ensures WithScore(InsertByScore(x, sorted), score)
      == (if x.0 == score then [x] else []) + WithScore(sorted, score)
  {
    if sorted == [] {
      WithScoreCons(x, [], score);
    } else if x.0 <= sorted[0].0 {
      WithScoreCons(x, sorted, score);
    } else {
      InsertByScoreStable(x, sorted[1..], score);
      InsertPastHeadStable(x, sorted, score);
    }
  }

  /** The step of `InsertByScoreStable` where the entry goes past the head. */
  lemma InsertPastHeadStable(x: Scored, sorted: seq<Scored>, score: nat)
    requires sorted != [] && x.0 > sorted[0].0
    requires WithScore(InsertByScore(x, sorted[1..]), score)
      == (if x.0 == score then [x] else []) + WithScore(sorted[1..], score)
    ensures WithScore(InsertByScore(x, sorted), score)
      == (if x.0 == score then [x] else []) + WithScore(sorted, score)
  {
    var rest := InsertByScore(x, sorted[1..]);
    assert InsertByScore(x, sorted) == [sorted[0]] + rest;
    WithScoreCons(sorted[0], rest, score);
    WithScoreCons(sorted[0], sorted[1..], score);
    assert [sorted[0]] + sorted[1..] == sorted;
  }

  ghost predicate DistinctKeys(t: ScoreTable) {
    forall i, j :: 0 <= i < j < |t| ==> t[i].0 != t[j].0
  }

  /** `k` is the last touching relation carrying `id`: the one whose score the dict keeps. */
  ghost predicate LastWithId(selected: seq<EntityItem>, rels: seq<RelationItem>, id: string, k: nat) {
    forall j :: k < j < |rels| ==> !(rels[j].id == id && TouchesAny(rels[j], IdsOf(selected)))
  }

  /** An entry holds a touching relation filed under its own id, with the score of its last occurrence. */
  ghost predicate EntryFrom(selected: seq<EntityItem>, rels: seq<RelationItem>, e: (string, Scored)) {
    && e.1.1.id == e.0
    && exists k: nat :: (k < |rels| && e.1 == (Score(selected, k, rels[k]), rels[k]) &&
         TouchesAny(rels[k], IdsOf(selected)) && LastWithId(selected, rels, e.0, k))
  }

  ghost predicate WellKeyed(t: ScoreTable, selected: seq<EntityItem>, rels: seq<RelationItem>) {
    DistinctKeys(t) && forall e :: e in t ==> EntryFrom(selected, rels, e)
  }

  lemma {:induction false} UpsertSpec(t: ScoreTable, key: string, v: Scored)
    requires DistinctKeys(t)
    ensures DistinctKeys(Upsert(t, key, v))
    ensures (key, v) in Upsert(t, key, v)
    ensures forall e :: e in Upsert(t, key, v) ==> e == (key, v) || (e in t && e.0 != key)
    ensures forall e :: e in t && e.0 != key ==> e in Upsert(t, key, v)
  {
    if t != [] {
      var tail := t[1..];
      DistinctKeysTail(t);
      assert forall e :: e in t ==> e == t[0] || e in tail;
      if t[0].0 != key {
        var rest := Upsert(tail, key, v);
        UpsertSpec(tail, key, v);
        assert Upsert(t, key, v) == [t[0]] + rest;
        ConsDistinctKeys(t[0], rest);
      } else {
        assert Upsert(t, key, v) == [(key, v)] + tail;
        ConsDistinctKeys((key, v), tail);
      }
    }
  }

  /** Dropping the first entry keeps the keys distinct, and no later key is the first one's. */
  lemma DistinctKeysTail(t: ScoreTable)
    requires DistinctKeys(t) && t != []
    ensures DistinctKeys(t[1..])
    ensures forall e :: e in t[1..] ==> e.0 != t[0].0
  {
    forall e | e in t[1..] ensures e.0 != t[0].0 {
      var k :| 0 <= k < |t[1..]| && t[1..][k] == e;
      assert t[k + 1] == e;
    }
  }

  /** An entry whose key no later entry has, in front of a table with distinct keys. */
  lemma ConsDistinctKeys(e: (string, Scored), rest: ScoreTable)
    requires DistinctKeys(rest)
    requires forall x :: x in rest ==> x.0 != e.0
    ensures DistinctKeys([e] + rest)
  {
    var u := [e] + rest;
    forall i, j | 0 <= i < j < |u| ensures u[i].0 != u[j].0 {
      assert u[j] == rest[j - 1];
      if i > 0 {
        assert u[i] == rest[i - 1];
      } else {
        assert rest[j - 1] in rest;
      }
    }
  }


  lemma EntryExtends(selected: seq<EntityItem>, rels: seq<RelationItem>, e: (string, Scored))
    requires rels != []
    requires EntryFrom(selected, rels[..|rels| - 1], e)
    requires !(rels[|rels| - 1].id == e.0 && TouchesAny(rels[|rels| - 1], IdsOf(selected)))
    ensures EntryFrom(selected, rels, e)
  {
    var n := |rels| - 1;
    var init := rels[..n];
    var k: nat :| k < |init| && e.1 == (Score(selected, k, init[k]), init[k]) &&
      TouchesAny(init[k], IdsOf(selected)) && LastWithId(selected, init, e.0, k);
    assert rels[k] == init[k];
    forall j | k < j < |rels| ensures !(rels[j].id == e.0 && TouchesAny(rels[j], IdsOf(selected))) {
      if j < n {
        assert rels[j] == init[j];
      }
    }
    assert LastWithId(selected, rels, e.0, k);
  }

  lemma {:induction false} ScoresWellKeyed(selected: seq<EntityItem>, rels: seq<RelationItem>)
    ensures WellKeyed(Scores(selected, rels), selected, rels)
  {
    if rels != [] {
      var n := |rels| - 1;
      var init := rels[..n];
      var rel := rels[n];
      var t := Scores(selected, init);
      ScoresWellKeyed(selected, init);
      var u := Scores(selected, rels);
      if TouchesAny(rel, IdsOf(selected)) {
        var v := (Score(selected, n, rel), rel);
        UpsertSpec(t, rel.id, v);
        assert u == Upsert(t, rel.id, v);
        forall e | e in u ensures EntryFrom(selected, rels, e) {
          if e == (rel.id, v) {
            assert LastWithId(selected, rels, e.0, n);
          } else {
            EntryExtends(selected, rels, e);
          }
        }
      } else {
        forall e | e in u ensures EntryFrom(selected, rels, e) {
          EntryExtends(selected, rels, e);
        }
      }
    }
  }

  lemma {:induction false} ScoresComplete(selected: seq<EntityItem>, rels: seq<RelationItem>)
    ensures forall r :: r in rels && TouchesAny(r, IdsOf(selected)) ==>
      exists e :: e in Scores(selected, rels) && e.0 == r.id
  {
    if rels != [] {
      var n := |rels| - 1;
      var init := rels[..n];
      var rel := rels[n];
      var t := Scores(selected, init);
      ScoresComplete(selected, init);
      ScoresWellKeyed(selected, init);
      var u := Scores(selected, rels);
      forall r | r in rels && TouchesAny(r, IdsOf(selected)) ensures exists e :: e in u && e.0 == r.id {
        var j :| 0 <= j < |rels| && rels[j] == r;
        if TouchesAny(rel, IdsOf(selected)) {
          var v := (Score(selected, n, rel), rel);
          UpsertSpec(t, rel.id, v);
          if r.id == rel.id {
            assert (rel.id, v) in u;
          } else {
            assert init[j] == r;
            var e :| e in t && e.0 == r.id;
            assert e in u;
          }
        } else {
          assert j != n && init[j] == r;
        }
      }
    }
  }

  /**
   * `relation_scores` files each touching relation under its id, keeps one
   * entry per id and, for a repeated id, the score of its last occurrence.
   */
  lemma ScoresSpec(selected: seq<EntityItem>, rels: seq<RelationItem>)
    ensures WellKeyed(Scores(selected, rels), selected, rels)
    ensures forall r :: r in rels && TouchesAny(r, IdsOf(selected)) ==>
      exists e :: e in Scores(selected, rels) && e.0 == r.id
  {
    ScoresWellKeyed(selected, rels);
    ScoresComplete(selected, rels);
  }

  /** How many of the selected entities a relation touches. */
  function TouchCount(selected: seq<EntityItem>, r: RelationItem): (n: nat)
    ensures n <= |selected|
  {
    if selected == [] then 0
    else TouchCount(selected[..|selected| - 1], r) + if TouchesEntity(r, selected[|selected| - 1].id) then 1 else 0
  }

  lemma {:induction false} TouchingCount(rels: seq<RelationItem>, id: string, r: RelationItem)
    ensures multiset(Touching(rels, id))[r] == if TouchesEntity(r, id) then multiset(rels)[r] else 0
  {
    if rels != [] {
      TouchingCount(rels[1..], id, r);
      assert rels == [rels[0]] + rels[1..];
    }
  }

  lemma {:induction false} HitsCount(rels: seq<RelationItem>, r: RelationItem)
    ensures multiset(Hits(rels))[RelationHit(r)] == multiset(rels)[r]
  {
    if rels != [] {
      var n := |rels| - 1;
      HitsCount(rels[..n], r);
      assert rels == rels[..n] + [rels[n]];
      assert Hits(rels) == Hits(rels[..n]) + [RelationHit(rels[n])];
    }
  }

  lemma AssembleUnfold(selected: seq<EntityItem>, rels: seq<RelationItem>)
    requires selected != []
    ensures Assemble(selected, rels) ==
      Assemble(selected[..|selected| - 1], rels) + [EntityHit(selected[|selected| - 1])] +
      Hits(Touching(rels, selected[|selected| - 1].id))
  {
  }

  lemma CountConcat(a: seq<Item>, x: Item, tail: seq<Item>, y: Item)
    ensures multiset(a + [x] + tail)[y] == multiset(a)[y] + (if x == y then 1 else 0) + multiset(tail)[y]
  {
    assert multiset(a + [x] + tail) == multiset(a) + multiset{x} + multiset(tail);
  }

  /** The relations listed after one entity: each touching one as often as it is bucketed. */
  lemma SegmentCount(rels: seq<RelationItem>, id: string, r: RelationItem)
    ensures multiset(Hits(Touching(rels, id)))[RelationHit(r)] ==
      if TouchesEntity(r, id) then multiset(rels)[r] else 0
  {
    TouchingCount(rels, id, r);
    HitsCount(Touching(rels, id), r);
  }

  lemma AssembleCountStep(selected: seq<EntityItem>, rels: seq<RelationItem>, r: RelationItem)
    requires selected != []
    ensures multiset(Assemble(selected, rels))[RelationHit(r)] ==
      multiset(Assemble(selected[..|selected| - 1], rels))[RelationHit(r)] +
      multiset(Hits(Touching(rels, selected[|selected| - 1].id)))[RelationHit(r)]
  {
    AssembleUnfold(selected, rels);
    CountConcat(Assemble(selected[..|selected| - 1], rels), EntityHit(selected[|selected| - 1]),
      Hits(Touching(rels, selected[|selected| - 1].id)), RelationHit(r));
  }

  /** A relation bucketed (at most) once is listed once per selected entity it touches. */
  lemma {:induction false} AssembleCount(selected: seq<EntityItem>, rels: seq<RelationItem>, r: RelationItem)
    requires multiset(rels)[r] <= 1
    ensures multiset(Assemble(selected, rels))[RelationHit(r)] == if r in rels then TouchCount(selected, r) else 0
  {
    if selected != [] {
      AssembleCount(selected[..|selected| - 1], rels, r);
      SegmentCount(rels, selected[|selected| - 1].id, r);
      AssembleCountStep(selected, rels, r);
    }
  }

  /** `x` occurs in `s` at some position before an occurrence of `y`. */
  ghost predicate Before(s: seq<Item>, x: Item, y: Item) {
    exists p, q :: 0 <= p < q < |s| && s[p] == x && s[q] == y
  }

  lemma PairInPrefix(a: seq<Item>, rest: seq<Item>, x: Item, y: Item)
    requires Before(a, x, y)
    ensures Before(a + rest, x, y)
  {
    var p, q :| 0 <= p < q < |a| && a[p] == x && a[q] == y;
    assert (a + rest)[p] == x && (a + rest)[q] == y;
  }

  lemma PairInSegment(a: seq<Item>, x: Item, tail: seq<Item>, y: Item)
    requires y in tail
    ensures Before(a + [x] + tail, x, y)
  {
    var k :| 0 <= k < |tail| && tail[k] == y;
    var out := a + [x] + tail;
    assert out[|a|] == x && out[|a| + 1 + k] == y;
  }

  /** A selected relation appears after every selected entity it touches. */
  lemma {:induction false} AssembleAfterEntity(selected: seq<EntityItem>, rels: seq<RelationItem>, r: RelationItem, i: nat)
    requires r in rels && i < |selected| && TouchesEntity(r, selected[i].id)
    ensures Before(Assemble(selected, rels), EntityHit(selected[i]), RelationHit(r))
  {
    var n := |selected| - 1;
    var init := selected[..n];
    var e := selected[n];
    var a, tail := Assemble(init, rels), Hits(Touching(rels, e.id));
    assert Assemble(selected, rels) == a + [EntityHit(e)] + tail by {
      AssembleUnfold(selected, rels);
    }
    if i < n {
      assert Before(a, EntityHit(selected[i]), RelationHit(r)) by {
        assert init[i] == selected[i];
        AssembleAfterEntity(init, rels, r, i);
      }
      PairInPrefix(a, [EntityHit(e)] + tail, EntityHit(selected[i]), RelationHit(r));
      ItemsAssoc(a, [EntityHit(e)], tail);
    } else {
      EntityBeforeTouching(a, e, rels, r);
    }
  }

  lemma ItemsAssoc(a: seq<Item>, b: seq<Item>, c: seq<Item>)
    ensures a + b + c == a + (b + c)
  {
  }

  /** In an entity's segment, the entity comes before each relation touching it. */
  lemma EntityBeforeTouching(a: seq<Item>, e: EntityItem, rels: seq<RelationItem>, r: RelationItem)
    requires r in rels && TouchesEntity(r, e.id)
    ensures Before(a + [EntityHit(e)] + Hits(Touching(rels, e.id)), EntityHit(e), RelationHit(r))
  {
    var tail := Hits(Touching(rels, e.id));
    assert r in Touching(rels, e.id);
    var k :| 0 <= k < |Touching(rels, e.id)| && Touching(rels, e.id)[k] == r;
    assert tail[k] == RelationHit(r);
    PairInSegment(a, EntityHit(e), tail, RelationHit(r));
  }

  /** Relations with pairwise distinct ids. */
  ghost predicate DistinctIds(xs: seq<Scored>) {
    forall i, j :: 0 <= i < j < |xs| ==> xs[i].1.id != xs[j].1.id
  }

  lemma {:induction false} InsertByScoreDistinct(x: Scored, sorted: seq<Scored>)
    requires DistinctIds(sorted)
    requires forall y :: y in sorted ==> y.1.id != x.1.id
    ensures DistinctIds(InsertByScore(x, sorted))
  {
    if sorted != [] && x.0 > sorted[0].0 {
      var tail := sorted[1..];
      var rest := InsertByScore(x, tail);
      DistinctTail(sorted);
      InsertByScoreDistinct(x, tail);
      forall z | z in rest ensures z.1.id != sorted[0].1.id {
        InsertByScoreMember(x, tail, z);
      }
      ConsDistinct(sorted[0], rest);
    } else {
      ConsDistinct(x, sorted);
    }
  }

  /** Dropping the head keeps the ids distinct, and no later id equals the head's. */
  lemma DistinctTail(xs: seq<Scored>)
    requires DistinctIds(xs) && xs != []
    ensures DistinctIds(xs[1..])
    ensures forall z :: z in xs[1..] ==> z.1.id != xs[0].1.id
  {
    forall z | z in xs[1..] ensures z.1.id != xs[0].1.id {
      var k :| 0 <= k < |xs[1..]| && xs[1..][k] == z;
      assert xs[k + 1] == z;
    }
  }

  /** An element of an insertion is the inserted one or comes from the list. */
  lemma InsertByScoreMember(x: Scored, sorted: seq<Scored>, z: Scored)
    requires z in InsertByScore(x, sorted)
    ensures z == x || z in sorted
  {
    InsertByScorePerm(x, sorted);
    assert z in multiset(InsertByScore(x, sorted));
  }

  /** A head whose id no later element has, in front of a list of distinct ids. */
  lemma ConsDistinct(y: Scored, rest: seq<Scored>)
    requires DistinctIds(rest)
    requires forall z :: z in rest ==> z.1.id != y.1.id
    ensures DistinctIds([y] + rest)
  {
    var u := [y] + rest;
    forall i, j | 0 <= i < j < |u| ensures u[i].1.id != u[j].1.id {
      assert u[j] == rest[j - 1];
      if i > 0 {
        assert u[i] == rest[i - 1];
      } else {
        assert rest[j - 1] in rest;
      }
    }
  }

  lemma {:induction false} SortByScoreDistinct(xs: seq<Scored>)
    requires DistinctIds(xs)
    ensures DistinctIds(SortByScore(xs))
  {
    if xs != [] {
      var rest := SortByScore(xs[1..]);
      SortByScoreDistinct(xs[1..]);
      SortByScoreSpec(xs[1..]);
      forall y | y in rest ensures y.1.id != xs[0].1.id {
        assert y in multiset(xs[1..]);
        var k :| 0 <= k < |xs[1..]| && xs[1..][k] == y;
        assert xs[k + 1] == y;
      }
      InsertByScoreDistinct(xs[0], rest);
    }
  }

  lemma ValuesDistinct(t: ScoreTable)
    requires DistinctKeys(t)
    requires forall e :: e in t ==> e.1.1.id == e.0
    ensures DistinctIds(Values(t))
  {
    forall i, j | 0 <= i < j < |t| ensures Values(t)[i].1.id != Values(t)[j].1.id {
      assert t[i] in t && t[j] in t;
    }
  }

  lemma {:induction false} DistinctOnce(rs: seq<RelationItem>, r: RelationItem)
    requires forall i, j :: 0 <= i < j < |rs| ==> rs[i] != rs[j]
    ensures multiset(rs)[r] <= 1
  {
    if rs != [] {
      DistinctOnce(rs[1..], r);
      assert rs == [rs[0]] + rs[1..];
      if rs[0] == r {
        assert r !in rs[1..] by {
          forall k | 0 <= k < |rs[1..]| ensures rs[1..][k] != r {
            assert rs[1..][k] == rs[k + 1];
          }
        }
      }
    }
  }

  /** Every relation in score order is a different relation. */
  lemma SortedRelationsOnce(selected: seq<EntityItem>, rels: seq<RelationItem>, r: RelationItem)
    ensures multiset(SortedRelations(selected, rels))[r] <= 1
  {
    var t := Scores(selected, rels);
    ScoresSpec(selected, rels);
    assert forall e :: e in t ==> EntryFrom(selected, rels, e);
    ValuesDistinct(t);
    SortByScoreDistinct(Values(t));
    var sorted := SortByScore(Values(t));
    var rs := SortedRelations(selected, rels);
    forall i, j | 0 <= i < j < |rs| ensures rs[i] != rs[j] {
      assert rs[i] == sorted[i].1 && rs[j] == sorted[j].1;
    }
    DistinctOnce(rs, r);
  }

  /**
   * In the selected context a relation is listed once per selected entity it
   * touches if it won a bucket place, and not at all otherwise; so a relation
   * between two selected entities appears twice, and after both of them.
   */
  lemma SelectedContextCounts(items: seq<Item>, maxEntities: int, order: seq<string>, r: RelationItem)
    requires Enumerates(order, IdsOf(Selected(items, maxEntities)))
    ensures var bucketed := BucketedRelations(items, maxEntities, order);
      multiset(SelectedContext(items, maxEntities, order))[RelationHit(r)] ==
        if r in bucketed then TouchCount(Selected(items, maxEntities), r) else 0
    ensures forall i :: (0 <= i < |Selected(items, maxEntities)| &&
      r in BucketedRelations(items, maxEntities, order) && TouchesEntity(r, Selected(items, maxEntities)[i].id)) ==>
      Before(SelectedContext(items, maxEntities, order), EntityHit(Selected(items, maxEntities)[i]), RelationHit(r))
  {
    var selected := Selected(items, maxEntities);
    var bucketed := BucketedRelations(items, maxEntities, order);
    var out := SelectedContext(items, maxEntities, order);
    assert out == Assemble(selected, bucketed);
    BucketedCountOnce(items, maxEntities, order, r);
    AssembleCount(selected, bucketed, r);
    forall i | 0 <= i < |selected| && r in bucketed && TouchesEntity(r, selected[i].id)
      ensures Before(out, EntityHit(selected[i]), RelationHit(r))
    {
      AssembleAfterEntity(selected, bucketed, r, i);
    }
  }

  /** The number of (selected entity, listed relation touching it) pairs. */
  function TouchTotal(selected: seq<EntityItem>, rels: seq<RelationItem>): nat {
    if selected == [] then 0
    else TouchTotal(selected[..|selected| - 1], rels) + |Touching(rels, selected[|selected| - 1].id)|
  }

  lemma {:induction false} RelationsOfConcat(a: seq<Item>, b: seq<Item>)
    ensures RelationsOf(a + b) == RelationsOf(a) + RelationsOf(b)
    decreases |a|
  {
    if a != [] {
      RelationsOfConcat(a[1..], b);
      assert (a + b)[0] == a[0];
      assert (a + b)[1..] == a[1..] + b;
      var head := if a[0].RelationHit? then [a[0].relation] else [];
      assert RelationsOf(a + b) == head + RelationsOf(a[1..] + b);
      assert RelationsOf(a) == head + RelationsOf(a[1..]);
      AppendAssoc(head, RelationsOf(a[1..]), RelationsOf(b));
    } else {
      assert a + b == b;
    }
  }

  lemma {:induction false} RelationsOfHits(rels: seq<RelationItem>)
    ensures RelationsOf(Hits(rels)) == rels
    decreases |rels|
  {
    if rels != [] {
      RelationsOfHits(rels[1..]);
      assert Hits(rels)[1..] == Hits(rels[1..]);
    }
  }

  /** The assembled list holds one relation item per selected entity and listed relation touching it. */
  lemma {:induction false} AssembleRelationCount(selected: seq<EntityItem>, rels: seq<RelationItem>)
    ensures |RelationsOf(Assemble(selected, rels))| == TouchTotal(selected, rels)
    decreases |selected|
  {
    if selected != [] {
      var e := selected[|selected| - 1];
      var init := Assemble(selected[..|selected| - 1], rels);
      AssembleRelationCount(selected[..|selected| - 1], rels);
      AssembleUnfold(selected, rels);
      RelationsOfConcat(init + [EntityHit(e)], Hits(Touching(rels, e.id)));
      RelationsOfConcat(init, [EntityHit(e)]);
      RelationsOfHits(Touching(rels, e.id));
      assert RelationsOf([EntityHit(e)]) == [];
    }
  }

  /** No relation wins more than one bucket place. */
  lemma BucketedCountOnce(items: seq<Item>, maxEntities: int, order: seq<string>, r: RelationItem)
    requires Enumerates(order, IdsOf(Selected(items, maxEntities)))
    ensures multiset(BucketedRelations(items, maxEntities, order))[r] ==
      if r in BucketedRelations(items, maxEntities, order) then 1 else 0
  {
    BucketedRelationsSpec(items, maxEntities, order);
    SortedRelationsOnce(Selected(items, maxEntities), RelationsOf(items), r);
  }

  // ---------------------------------------------------------------------
  // _clean_pub_name, _format_context, _extract_sources
  // ---------------------------------------------------------------------

  const PubPrefix: string := "PUB_"

  /** `_clean_pub_name`: drops one leading "PUB_". */
  function CleanPubName(name: string): (r: string)
    ensures name == r || name == PubPrefix + r
    ensures StartsWith(name, PubPrefix) <==> name == PubPrefix + r
  {
    if StartsWith(name, PubPrefix) then name[|PubPrefix|..] else name
  }

  /** Cleaning undoes exactly one prefix, and leaves unprefixed names alone. */
  lemma CleanPubNameInverse(r: string)
    ensures CleanPubName(PubPrefix + r) == r
    ensures !StartsWith(r, PubPrefix) ==> CleanPubName(r) == r
  {
    assert (PubPrefix + r)[..|PubPrefix|] == PubPrefix;
  }

  /** Only one prefix goes: "PUB_PUB_x" becomes "PUB_x". */
  lemma CleanPubNameOnce()
    ensures CleanPubName("PUB_PUB_x") == "PUB_x"
  {
    CleanPubNameInverse("PUB_x");
    assert PubPrefix + "PUB_x" == "PUB_PUB_x";
  }

  const ClinicalTrialUrl: string := "https://app.dimensions.ai/details/clinical_trial/"
  const PublicationUrl: string := "https://app.dimensions.ai/details/publication/"
  const UnnamedPublication: string := "Unnamed Publication"

  /** The shown id and the base URL for a publication name. */
  function LinkTarget(name: string): (r: (string, string))
    ensures StartsWith(name, "pub") ==> r.1 == PublicationUrl && '_' !in r.0 && |r.0| == |name|
    ensures StartsWith(name, "pub") ==>
      forall i :: 0 <= i < |name| ==> r.0[i] == (if name[i] == '_' then '.' else name[i])
    ensures !StartsWith(name, "pub") ==> r == (name, ClinicalTrialUrl)
  {
    if StartsWith(name, "pub") then
      ReplaceCharRemoves(name, '_', '.');
      (ReplaceChar(name, '_', '.'), PublicationUrl)
    else (name, ClinicalTrialUrl)
  }

  /** The markdown link `[id](url id)` for one publication. */
  function PubLink(pub: Publication): (link: string)
    ensures StartsWith(link, "[") && EndsWith(link, ")")
  {
    var (id, base) := LinkTarget(pub.name.GetOr(UnnamedPublication));
    "[" + id + "](" + base + id + ")"
  }

  function PubLinks(pubs: seq<Publication>): (links: seq<string>)
    ensures |links| == |pubs| && forall i :: 0 <= i < |pubs| ==> links[i] == PubLink(pubs[i])
  {
    seq(|pubs|, i requires 0 <= i < |pubs| => PubLink(pubs[i]))
  }

  /** Where the sentence says the relation comes from. */
  function Attribution(links: seq<string>): string {
    if links == [] then "research" else Join(links, ", ")
  }

  /** An entity name as shown: '_' read as a space, case kept. */
  function DisplayName(name: string): (r: string)
    ensures |r| == |name| && '_' !in r
    ensures forall i :: 0 <= i < |name| ==> r[i] == (if name[i] == '_' then ' ' else name[i])
  {
    ReplaceCharRemoves(name, '_', ' ');
    ReplaceChar(name, '_', ' ')
  }

  /** A predicate as shown: '_' read as a space, lower-cased. */
  function DisplayPredicate(p: string): (r: string)
    ensures |r| == |p| && '_' !in r && NoUpper(r)
    ensures forall i :: 0 <= i < |p| ==> r[i] == LowerChar(if p[i] == '_' then ' ' else p[i])
  {
    ReplaceCharRemoves(p, '_', ' ');
    Lower(ReplaceChar(p, '_', ' '))
  }

  const According: string := ", according to "

  /** "<subj> (<type>) <pred> <obj> (<type>), according to " */
  function SentenceHead(rel: RelationItem): (h: string)
    ensures EndsWith(h, According)
  {
    var h := DisplayName(rel.subject.name) + " (" + Lower(rel.subject.endpointType) + ") " +
      DisplayPredicate(rel.predicateName) + " " +
      DisplayName(rel.obj.name) + " (" + Lower(rel.obj.endpointType) + ")";
    assert (h + According)[|h|..] == According;
    h + According
  }

  /** "<subj> (<type>) <pred> <obj> (<type>), according to <links or research>." */
  function Sentence(rel: RelationItem): string {
    SentenceHead(rel) + Attribution(PubLinks(rel.publications)) + "."
  }

  /** The sentence of a relation item; an entity item has none. */
  function ItemSentences(item: Item): seq<string> {
    if item.RelationHit? then [Sentence(item.relation)] else []
  }

  /** The sentences of the relation items, entity items skipped. */
  function Sentences(items: seq<Item>): (ss: seq<string>)
    ensures |ss| == |RelationsOf(items)|
  {
    if items == [] then [] else ItemSentences(items[0]) + Sentences(items[1..])
  }

  /** `_format_context`: the sentences separated by blank lines. */
  function FormattedContext(items: seq<Item>): string {
    Join(Sentences(items), BlockSeparator)
  }

  method FormatContext(context: seq<Item>) returns (s: string)
    ensures s == FormattedContext(context)
  {
    var formatted: seq<string> := [];
    for i := 0 to |context|
      invariant formatted == Sentences(context[..i])
    {
      SentencesStep(context, i);
      var item := context[i];
      if item.RelationHit? {
        var relStr := FormatRelation(item.relation);
        formatted := formatted + [relStr];
      }
    }
    assert context[..|context|] == context;
    s := Join(formatted, BlockSeparator);
  }

  /** The body of `_format_context`'s loop for one relation item. */
  method FormatRelation(rel: RelationItem) returns (relStr: string)
    ensures relStr == Sentence(rel)
  {
    var pubLinks: seq<string> := [];
    for j := 0 to |rel.publications|
      invariant pubLinks == PubLinks(rel.publications[..j])
    {
      assert PubLinks(rel.publications[..j + 1]) == PubLinks(rel.publications[..j]) + [PubLink(rel.publications[j])];
      var pubName := rel.publications[j].name.GetOr(UnnamedPublication);
      var baseUrl, formattedPubId;
      if StartsWith(pubName, "pub") {
        baseUrl := PublicationUrl;
        formattedPubId := ReplaceChar(pubName, '_', '.');
      } else {
        baseUrl := ClinicalTrialUrl;
        formattedPubId := pubName;
      }
      pubLinks := pubLinks + ["[" + formattedPubId + "](" + baseUrl + formattedPubId + ")"];
    }
    assert rel.publications[..|rel.publications|] == rel.publications;
    var attribution := if pubLinks != [] then Join(pubLinks, ", ") else "research";
    relStr := SentenceHead(rel) + attribution + ".";
  }

  lemma {:induction false} SentencesAppend(a: seq<Item>, b: seq<Item>)
    ensures Sentences(a + b) == Sentences(a) + Sentences(b)
  {
    if a == [] {
      assert a + b == b;
    } else {
      var h := ItemSentences(a[0]);
      assert (a + b)[0] == a[0] && (a + b)[1..] == a[1..] + b;
      assert Sentences(a + b) == h + Sentences(a[1..] + b);
      SentencesAppend(a[1..], b);
      AppendAssoc(h, Sentences(a[1..]), Sentences(b));
    }
  }

  lemma SentencesStep(items: seq<Item>, i: nat)
    requires i < |items|
    ensures Sentences(items[..i + 1]) == Sentences(items[..i]) + ItemSentences(items[i])
  {
    assert Sentences([items[i]]) == ItemSentences(items[i]) + [];
    assert items[..i + 1] == items[..i] + [items[i]];
    SentencesAppend(items[..i], [items[i]]);
  }

  /**
   * A sentence ends "according to research." exactly when the relation
   * has no publications; otherwise it ends with a link.
   */
  lemma SentenceAttribution(rel: RelationItem)
    ensures EndsWith(Sentence(rel), "according to research.") <==> rel.publications == []
    ensures rel.publications != [] ==> EndsWith(Sentence(rel), ").")
  {
    var h := SentenceHead(rel);
    var links := PubLinks(rel.publications);
    var a := Attribution(links);
    if rel.publications != [] {
      JoinEndsWithLast(links, ", ");
      var last := links[|links| - 1];
      assert EndsWith(last, ")");
      assert a[|a| - 1] == last[|last| - 1] == ')';
      EndsWithCloser(h, a);
    } else {
      ResearchEnding(h);
    }
  }

  lemma EndsWithCloser(h: string, a: string)
    requires |a| > 0 && a[|a| - 1] == ')'
    ensures EndsWith(h + a + ".", ").")
    ensures !EndsWith(h + a + ".", "according to research.")
  {
    var s := h + a + ".";
    assert s[|s| - 2] == ')';
    assert s[|s| - 2..] == ").";
    if |s| >= 22 {
      assert "according to research."[20] == 'h';
    }
  }

  lemma ResearchEnding(h: string)
    requires EndsWith(h, According)
    ensures EndsWith(h + "research" + ".", "according to research.")
  {
    var s := h + "research" + ".";
    assert s[|s| - 23..] == h[|h| - 14..] + "research.";
  }

  /** Entity items add nothing to the rendered context, and no relations render as "". */
  lemma FormattedContextSpec(items: seq<Item>)
    ensures FormattedContext(items) == Join(Sentences(Hits(RelationsOf(items))), BlockSeparator)
    ensures RelationsOf(items) == [] ==> FormattedContext(items) == ""
  {
    HitsSentences(RelationsOf(items));
    SentencesOfRelations(items);
  }

  /** The sentence of each relation, in order. */
  function SentenceList(rels: seq<RelationItem>): (ss: seq<string>)
    ensures |ss| == |rels|
  {
    if rels == [] then [] else [Sentence(rels[0])] + SentenceList(rels[1..])
  }

  /** Listing the relations as hits and rendering them gives each relation's sentence. */
  lemma {:induction false} HitsSentences(rels: seq<RelationItem>)
    ensures Sentences(Hits(rels)) == SentenceList(rels)
  {
    if rels != [] {
      HitsSentences(rels[1..]);
      assert Hits(rels)[1..] == Hits(rels[1..]);
    }
  }

  /** The rendered sentences are those of the relation items, entity items skipped. */
  lemma {:induction false} SentencesOfRelations(items: seq<Item>)
    ensures Sentences(items) == SentenceList(RelationsOf(items))
  {
    if items != [] {
      SentencesOfRelations(items[1..]);
      var rest := RelationsOf(items[1..]);
      if items[0].RelationHit? {
        assert RelationsOf(items) == [items[0].relation] + rest;
        assert RelationsOf(items)[1..] == rest;
      } else {
        assert RelationsOf(items) == rest;
        assert Sentences(items) == Sentences(items[1..]);
      }
    }
  }

  /** A source as listed: the publication name with '_' read as '.'. */
  function SourceName(name: string): (r: string)
    ensures |r| == |name| && '_' !in r
    ensures forall i :: 0 <= i < |name| ==> r[i] == (if name[i] == '_' then '.' else name[i])
  {
    ReplaceCharRemoves(name, '_', '.');
    ReplaceChar(name, '_', '.')
  }

  /** The sources one relation's named publications contribute. */
  function PubSources(pubs: seq<Publication>): set<string> {
    set p | p in pubs && p.name.Some? :: SourceName(p.name.value)
  }

  /** The set `_extract_sources` builds from the relation items of `items`. */
  function SourcesOf(items: seq<Item>): set<string> {
    if items == [] then {}
    else
      var last := items[|items| - 1];
      SourcesOf(items[..|items| - 1]) + if last.RelationHit? then PubSources(last.relation.publications) else {}
  }

  /**
   * `_extract_sources`. Python then lists the set in an unspecified order;
   * the model returns the set itself.
   */
  method ExtractSources(context: seq<Item>) returns (sources: set<string>)
    ensures sources == SourcesOf(context)
  {
    sources := {};
    for i := 0 to |context|
      invariant sources == SourcesOf(context[..i])
    {
      assert context[..i + 1][..i] == context[..i];
      var item := context[i];
      if item.RelationHit? {
        var pubs := item.relation.publications;
        ghost var before := sources;
        for j := 0 to |pubs|
          invariant sources == before + PubSources(pubs[..j])
        {
          assert PubSources(pubs[..j + 1]) ==
            PubSources(pubs[..j]) + if pubs[j].name.Some? then {SourceName(pubs[j].name.value)} else {} by {
            assert pubs[..j + 1] == pubs[..j] + [pubs[j]];
          }
          if pubs[j].name.Some? {
            sources := sources + {ReplaceChar(pubs[j].name.value, '_', '.')};
          }
        }
        assert pubs[..|pubs|] == pubs;
      }
    }
    assert context[..|context|] == context;
  }

  /** A source is listed iff some relation item has a named publication that renders to it. */
  lemma {:induction false} SourcesOfSpec(items: seq<Item>, src: string)
    ensures src in SourcesOf(items) <==>
      exists r, p :: RelationHit(r) in items && p in r.publications && p.name.Some? && src == SourceName(p.name.value)
    ensures src in SourcesOf(items) ==> '_' !in src
  {
    if items != [] {
      var n := |items| - 1;
      SourcesOfSpec(items[..n], src);
      assert items == items[..n] + [items[n]];
      if src in SourcesOf(items) && src !in SourcesOf(items[..n]) {
        var p :| p in items[n].relation.publications && p.name.Some? && src == SourceName(p.name.value);
        assert RelationHit(items[n].relation) in items;
      }
      if exists r, p :: RelationHit(r) in items && p in r.publications && p.name.Some? && src == SourceName(p.name.value) {
        var r, p :| RelationHit(r) in items && p in r.publications && p.name.Some? && src == SourceName(p.name.value);
        if RelationHit(r) !in items[..n] {
          assert items[n] == RelationHit(r);
        }
      }
    }
  }

  // ---------------------------------------------------------------------
  // query: everything after the search
  // ---------------------------------------------------------------------

  /** The dictionary `query` returns. */
  datatype QueryResult = QueryResult(
    question: string,
    context: string,
    sources: set<string>,
    contextEntities: nat,
    contextRelations: nat,
    error: Option<string>)

  const NoContext: string := "No context found"
  const NothingFound: string := "No relevant information found"

  /** The result of `query` for the search hits `hits`. */
  function Answer(question: string, hits: seq<Item>, maxContextLength: int, maxEntities: int, order: seq<string>): QueryResult
    requires Enumerates(order, IdsOf(Selected(hits, maxEntities)))
  {
    if hits == [] then QueryResult(question, NoContext, {}, 0, 0, Some(NothingFound))
    else
      var relevant := SelectedContext(hits, maxEntities, order);
      var formatted := FormattedContext(relevant);
      var context := if |formatted| > maxContextLength then Trimmed(formatted, maxContextLength) else formatted;
      QueryResult(question, context, SourcesOf(relevant), |EntitiesOf(relevant)|, |RelationsOf(relevant)|, None)
  }

  /**
   * `query` after `_hybrid_search` has returned `hits`; the iteration order of
   * the selected-id set is `bucketOrder`.
   */
  method Query(question: string, hits: seq<Item>, maxContextLength: int, maxEntities: int, bucketOrder: seq<string>)
    returns (result: QueryResult)
    requires Enumerates(bucketOrder, IdsOf(Selected(hits, maxEntities)))
    ensures result == Answer(question, hits, maxContextLength, maxEntities, bucketOrder)
  {
    result := QueryResult(question, NoContext, {}, 0, 0, None);
    if hits == [] {
      result := result.(error := Some(NothingFound));
      return;
    }
    var relevantContext := SelectRelevantContext(hits, maxEntities, bucketOrder);
    var contextStr := FormatContext(relevantContext);
    if |contextStr| > maxContextLength {
      contextStr := TrimContext(contextStr, maxContextLength);
    }
    var sources := ExtractSources(relevantContext);
    result := result.(context := contextStr, sources := sources,
                      contextEntities := |EntitiesOf(relevantContext)|,
                      contextRelations := |RelationsOf(relevantContext)|);
  }

  /**
   * An empty search reports "No relevant information found" and keeps the
   * placeholder context. Otherwise there is no error, one entity is counted
   * per selected entity, the context is a prefix of the rendering that fits
   * the budget, each bucketed relation is counted once per selected entity
   * it touches, and the sources are the publications of the listed relations.
   */
  lemma AnswerSpec(question: string, hits: seq<Item>, maxContextLength: int, maxEntities: int, order: seq<string>)
    requires Enumerates(order, IdsOf(Selected(hits, maxEntities)))
    ensures var a := Answer(question, hits, maxContextLength, maxEntities, order);
      && a.question == question
      && (hits == [] <==> a.error == Some(NothingFound))
      && (hits == [] ==> a.context == NoContext && a.sources == {} && a.contextEntities == a.contextRelations == 0)
      && (hits != [] ==> a.error.None? && a.contextEntities == |Selected(hits, maxEntities)|)
      && (hits != [] ==> a.context <= FormattedContext(SelectedContext(hits, maxEntities, order)))
      && (hits != [] && maxContextLength >= 0 ==> |a.context| <= maxContextLength)
      && (hits != [] ==>
            a.contextRelations == TouchTotal(Selected(hits, maxEntities), BucketedRelations(hits, maxEntities, order)))
      && (hits != [] ==>
            forall src :: src in a.sources <==>
              exists r, p :: RelationHit(r) in SelectedContext(hits, maxEntities, order) &&
                p in r.publications && p.name.Some? && src == SourceName(p.name.value))
  {
    if hits != [] {
      var relevant := SelectedContext(hits, maxEntities, order);
      SelectedContextShape(hits, maxEntities, order);
      var formatted := FormattedContext(relevant);
      TrimmedSpec(formatted, maxContextLength);
      AssembleRelationCount(Selected(hits, maxEntities), BucketedRelations(hits, maxEntities, order));
      forall src
        ensures src in SourcesOf(relevant) <==>
          exists r, p :: RelationHit(r) in relevant && p in r.publications && p.name.Some? && src == SourceName(p.name.value)
      {
        SourcesOfSpec(relevant, src);
      }
    }
  }
}
