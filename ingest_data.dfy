/**
 * Copying the graph store's entities, publications and relations into the
 * vector store. The two module-level dictionaries from IRI to the uuid the
 * vector store returned are the fields of `Ingestion`; what each insert
 * returns is an input (`Some(uuid)`, or `None` where the insert raises).
 */
module IngestData {
  import opened Wrappers
  import opened Strings
  import opened SparqlResults

  /** `uri_to_local_name`: the text after the last '#' if there is one, else after the last '/'. */
  function LocalName(uri: string): (r: string)
    ensures '#' !in r
    ensures '#' !in uri ==> '/' !in r
  {
    if '#' in uri then AfterLast(uri, '#') else AfterLast(uri, '/')
  }

  /** The separator the local name follows. */
  function Separator(uri: string): char {
    if '#' in uri then '#' else '/'
  }

  /**
   * The local name is the longest suffix free of the separator: it is
   * preceded by the separator unless it is the whole IRI, and it is empty
   * exactly when the IRI is empty or ends in the separator (no trailing
   * slashes are removed).
   */
  lemma LocalNameSpec(uri: string)
    ensures var r, c := LocalName(uri), Separator(uri);
      |r| <= |uri| && r == uri[|uri| - |r|..] && c !in r &&
      (|r| < |uri| ==> uri[|uri| - |r| - 1] == c) &&
      (r == "" <==> uri == "" || uri[|uri| - 1] == c)
  {
    var c := Separator(uri);
    assert LocalName(uri) == AfterLast(uri, c);
  }

  /** Unlike the fragment of the relations table, the local name keeps a trailing slash: "a/b/" gives "". */
  lemma LocalNameKeepsTrailingSlash()
    ensures LocalName("a/b/") == ""
  {
    assert "a/b/"[3] == '/';
  }

  /** `label if label else uri_to_local_name(iri)`: the name of an entity or publication. */
  function DisplayName(iri: string, labelText: string): string {
    if labelText != "" then labelText else LocalName(iri)
  }

  /** `type_ if type_ else "Entity"` */
  function EntityType(t: string): string {
    if t != "" then t else "Entity"
  }

  /**
   * The stored name is the label when there is one and otherwise the local
   * name, so it is empty only for an unlabelled IRI ending in its separator;
   * the stored type is never empty.
   */
  lemma NameDefaults(iri: string, labelText: string, t: string)
    ensures labelText != "" ==> DisplayName(iri, labelText) == labelText
    ensures DisplayName(iri, labelText) == "" <==> labelText == "" && (iri == "" || iri[|iri| - 1] == Separator(iri))
    ensures EntityType(t) != "" && (t != "" ==> EntityType(t) == t)
  {
    LocalNameSpec(iri);
  }

  /** An object written to the vector store. */
  datatype StoredObject =
    | EntityObject(name: string, entityType: string)
    | PublicationObject(name: string)
    | RelationObject(relationName: string, subjectUuid: string, objectUuid: string, publicationUuid: Option<string>)

  /**
   * The state of an entity or publication pass: the uuid map, what was
   * stored, whether the loop variable holding the IRI has been bound yet,
   * and whether the pass was aborted.
   */
  datatype Run = Run(uuids: map<string, string>, stored: seq<StoredObject>, bound: bool, aborted: bool)

  /**
   * One row of a pass over `key`. A row without an IRI is skipped, but its
   * error handler reads the IRI variable, so when no earlier row has bound
   * it the `NameError` ends the whole pass. `stored1` is what a successful
   * insert stores for the IRI; the insert's reply is `reply`.
   */
  function RowStep(st: Run, iri: Option<string>, stored1: Option<StoredObject>, reply: Option<string>): Run {
    if st.aborted then st
    else if iri.None? then (if st.bound then st else st.(aborted := true))
    else
      var st := st.(bound := true);
      if stored1.None? || reply.None? then st
      else st.(uuids := st.uuids[iri.value := reply.value], stored := st.stored + [stored1.value])
  }

  /** What `create_entity` stores for a row of the entity query, `None` when the row lacks a type. */
  function EntityOf(row: Binding): Option<StoredObject> {
    match (Value(row, "entity"), Value(row, "entityType"))
    case (Some(iri), Some(typeIri)) => Some(EntityObject(DisplayName(iri, ValueOr(row, "label", "")), EntityType(LocalName(typeIri))))
    case _ => None
  }

  /** What `create_publication` stores for a row of the publication query. */
  function PublicationOf(row: Binding): Option<StoredObject> {
    match Value(row, "pub")
    case Some(iri) => Some(PublicationObject(DisplayName(iri, ValueOr(row, "label", ""))))
    case None => None
  }

  /** The entity pass over `rows` started in `st`. */
  function Entities(st: Run, rows: seq<Binding>, replies: seq<Option<string>>): Run
    requires |replies| == |rows|
  {
    if rows == [] then st
    else
      var n := |rows| - 1;
      RowStep(Entities(st, rows[..n], replies[..n]), Value(rows[n], "entity"), EntityOf(rows[n]), replies[n])
  }

  /** The publication pass over `rows` started in `st`. */
  function Publications(st: Run, rows: seq<Binding>, replies: seq<Option<string>>): Run
    requires |replies| == |rows|
  {
    if rows == [] then st
    else
      var n := |rows| - 1;
      RowStep(Publications(st, rows[..n], replies[..n]), Value(rows[n], "pub"), PublicationOf(rows[n]), replies[n])
  }

  /**
   * The relation a row of the relation query creates. It is skipped when
   * it lacks the subject, predicate or object, when the subject or object
   * IRI has no (truthy) uuid, or when the insert raises (`accepted` false);
   * an unmapped publication becomes `None`.
   */
  function RelationOf(row: Binding, entityUuids: map<string, string>, publicationUuids: map<string, string>, accepted: bool)
    : (r: Option<StoredObject>)
    ensures r.Some? <==>
      Value(row, "subj").Some? && Value(row, "pred").Some? && Value(row, "obj").Some? &&
      Value(row, "subj").value in entityUuids && entityUuids[Value(row, "subj").value] != "" &&
      Value(row, "obj").value in entityUuids && entityUuids[Value(row, "obj").value] != "" &&
      accepted
    ensures r.Some? ==>
      r.value.RelationObject? &&
      r.value.subjectUuid == entityUuids[Value(row, "subj").value] &&
      r.value.objectUuid == entityUuids[Value(row, "obj").value] &&
      r.value.relationName == LocalName(Value(row, "pred").value) &&
      (r.value.publicationUuid.None? <==> ValueOr(row, "publication", "") !in publicationUuids)
  {
    match (Value(row, "subj"), Value(row, "pred"), Value(row, "obj"))
    case (Some(subj), Some(pred), Some(obj)) =>
      var subjUuid := if subj in entityUuids then Some(entityUuids[subj]) else None;
      var objUuid := if obj in entityUuids then Some(entityUuids[obj]) else None;
      var publication := ValueOr(row, "publication", "");
      var pubUuid := if publication in publicationUuids then Some(publicationUuids[publication]) else None;
      if !Truthy(subjUuid) || !Truthy(objUuid) then None
      else if !accepted then None
      else Some(RelationObject(LocalName(pred), subjUuid.value, objUuid.value, pubUuid))
    case _ => None
  }

  /** The relations the relation pass creates, in order. */
  function Relations(rows: seq<Binding>, entityUuids: map<string, string>, publicationUuids: map<string, string>, accepted: seq<bool>)
    : (created: seq<StoredObject>)
    requires |accepted| == |rows|
    ensures |created| <= |rows|
  {
    if rows == [] then []
    else
      var n := |rows| - 1;
      var init := Relations(rows[..n], entityUuids, publicationUuids, accepted[..n]);
      match RelationOf(rows[n], entityUuids, publicationUuids, accepted[n])
      case Some(r) => init + [r]
      case None => init
  }

  class Ingestion {
    /** `entity_uuid_map` */
    var entityUuids: map<string, string>
    /** `publication_uuid_map` */
    var publicationUuids: map<string, string>
    /** Everything inserted into the vector store so far, in order. */
    var stored: seq<StoredObject>

    constructor ()
      ensures entityUuids == map[] && publicationUuids == map[] && stored == []
    {
      entityUuids := map[];
      publicationUuids := map[];
      stored := [];
    }

    /** `ingest_entities` over the rows the entity query returned. */
    method IngestEntities(bindings: seq<Binding>, replies: seq<Option<string>>)
      requires |replies| == |bindings|
      modifies this
      ensures var run := Entities(Run(old(entityUuids), old(stored), false, false), bindings, replies);
        entityUuids == run.uuids && stored == run.stored
      ensures publicationUuids == old(publicationUuids)
    {
      ghost var start := Run(entityUuids, stored, false, false);
      var bound := false;
      var i := 0;
      while i < |bindings|
        invariant 0 <= i <= |bindings|
        invariant Entities(start, bindings[..i], replies[..i]) == Run(entityUuids, stored, bound, false)
        invariant publicationUuids == old(publicationUuids)
        decreases |bindings| - i
      {
        var row := bindings[i];
        EntitiesStep(start, bindings, replies, i);
        var entityIri := Value(row, "entity");
        if entityIri.None? {
          if !bound {
            // the error handler's NameError ends the pass
            EntitiesAborted(start, bindings, replies, i + 1);
            return;
          }
          i := i + 1;
          continue;
        }
        bound := true;
        var entityTypeIri := Value(row, "entityType");
        if entityTypeIri.None? {
          i := i + 1;
          continue;
        }
        var labelText := ValueOr(row, "label", "");
        var entitySubclass := LocalName(entityTypeIri.value);
        var wUuid := replies[i];
        if wUuid.None? {
          i := i + 1;
          continue;
        }
        assert EntityOf(row) == Some(EntityObject(DisplayName(entityIri.value, labelText), EntityType(entitySubclass)));
        stored := stored + [EntityObject(DisplayName(entityIri.value, labelText), EntityType(entitySubclass))];
        entityUuids := entityUuids[entityIri.value := wUuid.value];
        i := i + 1;
      }
      assert bindings[..i] == bindings && replies[..i] == replies;
    }

    /** `ingest_publications` over the rows the publication query returned. */
    method IngestPublications(bindings: seq<Binding>, replies: seq<Option<string>>)
      requires |replies| == |bindings|
      modifies this
      ensures var run := Publications(Run(old(publicationUuids), old(stored), false, false), bindings, replies);
        publicationUuids == run.uuids && stored == run.stored
      ensures entityUuids == old(entityUuids)
    {
      ghost var start := Run(publicationUuids, stored, false, false);
      var bound := false;
      var i := 0;
      while i < |bindings|
        invariant 0 <= i <= |bindings|
        invariant Publications(start, bindings[..i], replies[..i]) == Run(publicationUuids, stored, bound, false)
        invariant entityUuids == old(entityUuids)
        decreases |bindings| - i
      {
        var row := bindings[i];
        PublicationsStep(start, bindings, replies, i);
        var pubIri := Value(row, "pub");
        if pubIri.None? {
          if !bound {
            PublicationsAborted(start, bindings, replies, i + 1);
            return;
          }
          i := i + 1;
          continue;
        }
        bound := true;
        var labelText := ValueOr(row, "label", "");
        var wUuid := replies[i];
        if wUuid.None? {
          i := i + 1;
          continue;
        }
        stored := stored + [PublicationObject(DisplayName(pubIri.value, labelText))];
        publicationUuids := publicationUuids[pubIri.value := wUuid.value];
        i := i + 1;
      }
      assert bindings[..i] == bindings && replies[..i] == replies;
    }

    /**
     * `ingest_relations` over the rows the relation query returned, where
     * `accepted[i]` says whether the insert of row `i` returned; `count` is
     * the number it reports.
     */
    method IngestRelations(bindings: seq<Binding>, accepted: seq<bool>) returns (count: nat)
      requires |accepted| == |bindings|
      modifies this`stored
      ensures var created := Relations(bindings, entityUuids, publicationUuids, accepted);
        stored == old(stored) + created && count == |created|
    {
      count := 0;
      for i := 0 to |bindings|
        invariant var created := Relations(bindings[..i], entityUuids, publicationUuids, accepted[..i]);
          stored == old(stored) + created && count == |created|
      {
        var row := bindings[i];
        assert bindings[..i + 1][..i] == bindings[..i] && accepted[..i + 1][..i] == accepted[..i];
        var subjIri, predIri, objIri := Value(row, "subj"), Value(row, "pred"), Value(row, "obj");
        if subjIri.None? || predIri.None? || objIri.None? {
          continue;
        }
        var publicationIri := ValueOr(row, "publication", "");
        var subjUuid := if subjIri.value in entityUuids then Some(entityUuids[subjIri.value]) else None;
        var objUuid := if objIri.value in entityUuids then Some(entityUuids[objIri.value]) else None;
        var pubUuid := if publicationIri in publicationUuids then Some(publicationUuids[publicationIri]) else None;
        if !Truthy(subjUuid) || !Truthy(objUuid) {
          continue;
        }
        var relationName := LocalName(predIri.value);
        if !accepted[i] {
          continue;
        }
        stored := stored + [RelationObject(relationName, subjUuid.value, objUuid.value, pubUuid)];
        count := count + 1;
      }
      assert bindings[..|bindings|] == bindings && accepted[..|accepted|] == accepted;
    }
  }

  // Properties of the passes.

  /** The entity pass over one more row is one more `RowStep`. */
  lemma EntitiesStep(st: Run, rows: seq<Binding>, replies: seq<Option<string>>, i: nat)
    requires |replies| == |rows| && i < |rows|
    ensures Entities(st, rows[..i + 1], replies[..i + 1]) ==
      RowStep(Entities(st, rows[..i], replies[..i]), Value(rows[i], "entity"), EntityOf(rows[i]), replies[i])
  {
    assert rows[..i + 1][..i] == rows[..i] && replies[..i + 1][..i] == replies[..i];
  }

  /** The publication pass over one more row is one more `RowStep`. */
  lemma PublicationsStep(st: Run, rows: seq<Binding>, replies: seq<Option<string>>, i: nat)
    requires |replies| == |rows| && i < |rows|
    ensures Publications(st, rows[..i + 1], replies[..i + 1]) ==
      RowStep(Publications(st, rows[..i], replies[..i]), Value(rows[i], "pub"), PublicationOf(rows[i]), replies[i])
  {
    assert rows[..i + 1][..i] == rows[..i] && replies[..i + 1][..i] == replies[..i];
  }

  /** Once the pass is aborted, the remaining rows change nothing. */
  lemma {:induction false} EntitiesAborted(st: Run, rows: seq<Binding>, replies: seq<Option<string>>, k: nat)
    requires |replies| == |rows| && 0 < k <= |rows|
    requires Entities(st, rows[..k], replies[..k]).aborted
    ensures Entities(st, rows, replies) == Entities(st, rows[..k], replies[..k])
    decreases |rows| - k
  {
    if k < |rows| {
      assert rows[..k + 1][..k] == rows[..k] && replies[..k + 1][..k] == replies[..k];
      EntitiesAborted(st, rows, replies, k + 1);
    } else {
      assert rows[..k] == rows && replies[..k] == replies;
    }
  }

  lemma {:induction false} PublicationsAborted(st: Run, rows: seq<Binding>, replies: seq<Option<string>>, k: nat)
    requires |replies| == |rows| && 0 < k <= |rows|
    requires Publications(st, rows[..k], replies[..k]).aborted
    ensures Publications(st, rows, replies) == Publications(st, rows[..k], replies[..k])
    decreases |rows| - k
  {
    if k < |rows| {
      assert rows[..k + 1][..k] == rows[..k] && replies[..k + 1][..k] == replies[..k];
      PublicationsAborted(st, rows, replies, k + 1);
    } else {
      assert rows[..k] == rows && replies[..k] == replies;
    }
  }

  /**
   * The entity pass is aborted exactly when its first row has no entity
   * IRI, and then it stores nothing and maps nothing; every other row
   * without an IRI is merely skipped.
   */
  lemma {:induction false} EntitiesAbortOnFirstRow(m: map<string, string>, stored: seq<StoredObject>, rows: seq<Binding>, replies: seq<Option<string>>)
    requires |replies| == |rows|
    ensures var run := Entities(Run(m, stored, false, false), rows, replies);
      run.aborted <==> rows != [] && Value(rows[0], "entity").None?
    ensures var run := Entities(Run(m, stored, false, false), rows, replies);
      run.aborted ==> run.uuids == m && run.stored == stored
    ensures var run := Entities(Run(m, stored, false, false), rows, replies);
      run.bound <==> exists i :: 0 <= i < |rows| && Value(rows[i], "entity").Some? && !run.aborted
    decreases |rows|
  {
    if rows != [] {
      var n := |rows| - 1;
      EntitiesAbortOnFirstRow(m, stored, rows[..n], replies[..n]);
      assert forall i :: 0 <= i < n ==> rows[..n][i] == rows[i];
    }
  }

  /**
   * A repeated IRI overwrites: the uuid an IRI ends up with is the reply to
   * the last row that stored it.
   */
  lemma {:induction false} LastEntityWins(st: Run, rows: seq<Binding>, replies: seq<Option<string>>, k: nat, iri: string)
    requires |replies| == |rows| && k < |rows|
    requires !Entities(st, rows, replies).aborted
    requires Value(rows[k], "entity") == Some(iri) && EntityOf(rows[k]).Some? && replies[k].Some?
    requires forall j :: k < j < |rows| && Value(rows[j], "entity") == Some(iri) ==> EntityOf(rows[j]).None? || replies[j].None?
    ensures iri in Entities(st, rows, replies).uuids && Entities(st, rows, replies).uuids[iri] == replies[k].value
    decreases |rows|
  {
    var n := |rows| - 1;
    EntitiesStep(st, rows, replies, n);
    assert rows[..n + 1] == rows && replies[..n + 1] == replies;
    var prev := Entities(st, rows[..n], replies[..n]);
    RowStepUuid(prev, Value(rows[n], "entity"), EntityOf(rows[n]), replies[n], iri);
    if k < n {
      var rs, ps := rows[..n], replies[..n];
      assert rs[k] == rows[k] && ps[k] == replies[k];
      assert forall j :: k < j < n && Value(rs[j], "entity") == Some(iri) ==> EntityOf(rs[j]).None? || ps[j].None? by {
        forall j | k < j < n ensures rs[j] == rows[j] && ps[j] == replies[j] { }
      }
      LastEntityWins(st, rs, ps, k, iri);
    }
  }

  /** What one row does to the uuid an IRI maps to: the row for that IRI sets it, any other row keeps it. */
  lemma RowStepUuid(prev: Run, v: Option<string>, stored1: Option<StoredObject>, reply: Option<string>, iri: string)
    requires !RowStep(prev, v, stored1, reply).aborted
    ensures !prev.aborted
    ensures v == Some(iri) && stored1.Some? && reply.Some? ==>
      iri in RowStep(prev, v, stored1, reply).uuids && RowStep(prev, v, stored1, reply).uuids[iri] == reply.value
    ensures (v != Some(iri) || stored1.None? || reply.None?) && iri in prev.uuids ==>
      iri in RowStep(prev, v, stored1, reply).uuids && RowStep(prev, v, stored1, reply).uuids[iri] == prev.uuids[iri]
  {
  }

  /** Every created relation comes from a row that passed the skip rule, in row order. */
  lemma {:induction false} RelationsSound(rows: seq<Binding>, entityUuids: map<string, string>, publicationUuids: map<string, string>, accepted: seq<bool>)
    requires |accepted| == |rows|
    ensures forall r :: r in Relations(rows, entityUuids, publicationUuids, accepted) ==>
      exists i :: 0 <= i < |rows| && RelationOf(rows[i], entityUuids, publicationUuids, accepted[i]) == Some(r)
    ensures (forall i :: 0 <= i < |rows| ==> !accepted[i]) ==> Relations(rows, entityUuids, publicationUuids, accepted) == []
    decreases |rows|
  {
    if rows != [] {
      var n := |rows| - 1;
      RelationsSound(rows[..n], entityUuids, publicationUuids, accepted[..n]);
      assert forall i :: 0 <= i < n ==> rows[..n][i] == rows[i] && accepted[..n][i] == accepted[i];
    }
  }
}
