/**
 * The DeepSeek-R1 extraction path: pulling relation objects out of the
 * model's reply text and rendering a list of relations as one SPARQL
 * `INSERT DATA` update.
 */
module EnrichDeepseek {
  import opened Wrappers
  import opened Strings
  import BulkRelations

  // ---------------------------------------------------------------------
  // re.findall(r'\{.*?\}', content, re.DOTALL)
  // ---------------------------------------------------------------------

  /** The first position at or after `from` holding `c`, or -1. */
  function FindChar(s: string, c: char, from: nat): (k: int)
    requires from <= |s|
    ensures k == -1 || from <= k < |s|
    ensures k >= 0 ==> s[k] == c
    ensures forall j :: from <= j < |s| && (k < 0 || j < k) ==> s[j] != c
    decreases |s| - from
  {
    if from == |s| then -1
    else if s[from] == c then from
    else FindChar(s, c, from + 1)
  }

  /**
   * The spans the lazy pattern finds from `from` on: each runs from the next
   * '{' to the first '}' after it, newlines included, and the search resumes
   * after that '}'. A '{' with no later '}' ends the search.
   */
  function Spans(s: string, from: nat): (spans: seq<string>)
    requires from <= |s|
    decreases |s| - from
  {
    var i := FindChar(s, '{', from);
    if i < 0 then []
    else
      var j := FindChar(s, '}', i + 1);
      if j < 0 then [] else [s[i..j + 1]] + Spans(s, j + 1)
  }

  /** Each span opens with '{' and its only '}' is its last character. */
  ghost predicate WellFormedSpan(span: string) {
    |span| >= 2 && span[0] == '{' && span[|span| - 1] == '}' &&
    forall k :: 0 <= k < |span| - 1 ==> span[k] != '}'
  }

  /** Every span is a shortest '{'..'}' stretch of the text. */
  lemma {:induction false} SpansWellFormed(s: string, from: nat)
    requires from <= |s|
    ensures forall k :: 0 <= k < |Spans(s, from)| ==> WellFormedSpan(Spans(s, from)[k])
    decreases |s| - from
  {
    var i := FindChar(s, '{', from);
    if i >= 0 {
      var j := FindChar(s, '}', i + 1);
      if j >= 0 {
        SpansWellFormed(s, j + 1);
        var span := s[i..j + 1];
        assert forall k :: 0 <= k < |span| ==> span[k] == s[i + k];
        assert WellFormedSpan(span);
        assert Spans(s, from) == [span] + Spans(s, j + 1);
      }
    }
  }

  /** There is no span exactly when no '{' is followed, anywhere later, by a '}'. */
  lemma SpansNone(s: string, from: nat)
    requires from <= |s|
    ensures Spans(s, from) == [] <==> !exists i, j :: from <= i < j < |s| && s[i] == '{' && s[j] == '}'
  {
    var i := FindChar(s, '{', from);
    if i >= 0 {
      var j := FindChar(s, '}', i + 1);
      if j < 0 {
        forall i', j' | from <= i' < j' < |s| && s[i'] == '{'
          ensures s[j'] != '}'
        {
          assert i <= i';
        }
      } else {
        assert Spans(s, from) != [];
      }
    }
  }

  // ---------------------------------------------------------------------
  // json.loads, for the flat objects of string values the model writes
  // ---------------------------------------------------------------------

  /** JSON white space. */
  predicate IsJsonSpace(c: char) {
    c == ' ' || c == '\t' || c == '\n' || c == '\r'
  }

  /** The first position at or after `i` that is not JSON white space. */
  function SkipSpace(s: string, i: nat): (k: nat)
    requires i <= |s|
    ensures i <= k <= |s| && (k < |s| ==> !IsJsonSpace(s[k]))
    ensures forall j :: i <= j < k ==> IsJsonSpace(s[j])
    decreases |s| - i
  {
    if i < |s| && IsJsonSpace(s[i]) then SkipSpace(s, i + 1) else i
  }

  /**
   * The position of the quote closing the string whose opening quote is at
   * `i`. A backslash escape or a raw control character makes the decoder
   * fail here.
   */
  function StringEnd(s: string, i: nat): (k: Option<nat>)
    requires i < |s|
    ensures k.Some? ==> i < k.value < |s| && s[k.value] == '"' && forall j :: i < j < k.value ==> s[j] != '"'
    decreases |s| - i
  {
    if i + 1 == |s| then None
    else if s[i + 1] == '"' then Some(i + 1)
    else if s[i + 1] == '\\' || s[i + 1] < ' ' then None
    else StringEnd(s, i + 1)
  }

  /**
   * One `"key" : "value"` member whose key opens at `i`: the key, the value
   * and the first position after the value and the white space that
   * follows it.
   */
  function Member(s: string, i: nat): (m: Option<(string, string, nat)>)
    requires i <= |s|
    ensures m.Some? ==> i < m.value.2 <= |s|
  {
    if i == |s| || s[i] != '"' then None
    else match StringEnd(s, i)
      case None => None
      case Some(k) =>
        var colon := SkipSpace(s, k + 1);
        if colon == |s| || s[colon] != ':' then None
        else
          var v := SkipSpace(s, colon + 1);
          if v == |s| || s[v] != '"' then None
          else match StringEnd(s, v)
            case None => None
            case Some(e) => Some((s[i + 1..k], s[v + 1..e], SkipSpace(s, e + 1)))
  }

  /**
   * The members of an object from `i` on, separated by ',' and closed by
   * '}' followed only by white space, added to `acc`. A repeated key keeps
   * its last value.
   */
  function Members(s: string, i: nat, acc: map<string, string>): (d: Option<map<string, string>>)
    requires i <= |s|
    ensures d.Some? ==> acc.Keys <= d.value.Keys
    decreases |s| - i
  {
    match Member(s, i)
    case None => None
    case Some((key, value, t)) =>
      var acc' := acc[key := value];
      if t == |s| then None
      else if s[t] == ',' then Members(s, SkipSpace(s, t + 1), acc')
      else if s[t] == '}' && SkipSpace(s, t + 1) == |s| then Some(acc')
      else None
  }

  /** `json.loads` of a span: the object it denotes, or `None` for a `JSONDecodeError`. */
  function DecodeObject(s: string): Option<map<string, string>> {
    if s == [] || s[0] != '{' then None
    else
      var i := SkipSpace(s, 1);
      if i < |s| && s[i] == '}' then (if SkipSpace(s, i + 1) == |s| then Some(map[]) else None)
      else Members(s, i, map[])
  }

  // ---------------------------------------------------------------------
  // convert_relations
  // ---------------------------------------------------------------------

  /** The keys a decoded object must have to be kept. */
  const RequiredKeys: set<string> := {"relation_type", "entity1_type", "entity1_name", "entity2_type", "entity2_name"}

  /** What one span yields: its object, with every `'` turned into `"` first, if it decodes and has the keys. */
  function Kept(span: string): Option<map<string, string>> {
    match DecodeObject(ReplaceChar(span, '\'', '"'))
    case Some(d) => if RequiredKeys <= d.Keys then Some(d) else None
    case None => None
  }

  /** The relations kept from the spans, in order. */
  function KeptAll(spans: seq<string>): (rs: seq<map<string, string>>)
    ensures |rs| <= |spans|
  {
    if spans == [] then []
    else
      var init := KeptAll(spans[..|spans| - 1]);
      match Kept(spans[|spans| - 1])
      case Some(d) => init + [d]
      case None => init
  }

  /**
   * `convert_relations`, `content` being `response['message']['content']`
   * (`None` when either key is missing).
   */
  method ConvertRelations(content: Option<string>) returns (relations: seq<map<string, string>>)
    ensures content.None? ==> relations == []
    ensures content.Some? ==> relations == KeptAll(Spans(content.value, 0))
  {
    if content.None? {
      return [];
    }
    var rawContent := content.value;
    var matches := Spans(rawContent, 0);
    if matches == [] {
      return [];
    }
    relations := [];
    for i := 0 to |matches|
      invariant relations == KeptAll(matches[..i])
    {
      assert matches[..i + 1][..i] == matches[..i];
      var relation := DecodeObject(ReplaceChar(matches[i], '\'', '"'));
      if relation.Some? && RequiredKeys <= relation.value.Keys {
        relations := relations + [relation.value];
      }
    }
    assert matches[..|matches|] == matches;
  }

  /**
   * Every kept relation has the five keys (more are allowed, labels are not
   * checked), and comes from a span, in span order; conversely every span
   * that decodes to an object with the five keys is kept.
   */
  lemma KeptAllSpec(spans: seq<string>)
    ensures forall d :: d in KeptAll(spans) ==> RequiredKeys <= d.Keys
    ensures forall d :: d in KeptAll(spans) ==> exists k :: 0 <= k < |spans| && Kept(spans[k]) == Some(d)
    ensures forall k :: 0 <= k < |spans| && Kept(spans[k]).Some? ==> Kept(spans[k]).value in KeptAll(spans)
    ensures forall k :: 0 <= k <= |spans| ==> KeptAll(spans[..k]) <= KeptAll(spans)
  {
    KeptAllKeys(spans);
    KeptAllFromSpans(spans);
    forall k | 0 <= k <= |spans|
      ensures KeptAll(spans[..k]) <= KeptAll(spans)
    {
      KeptAllPrefix(spans, k);
    }
    forall k | 0 <= k < |spans| && Kept(spans[k]).Some?
      ensures Kept(spans[k]).value in KeptAll(spans)
    {
      KeptAllComplete(spans, k);
    }
  }

  /** A span that yields a relation has it in the result. */
  lemma {:induction false} KeptAllComplete(spans: seq<string>, k: nat)
    requires k < |spans| && Kept(spans[k]).Some?
    ensures Kept(spans[k]).value in KeptAll(spans)
    decreases |spans|
  {
    var d := Kept(spans[k]).value;
    if k == |spans| - 1 {
      KeptLast(spans, d);
    } else {
      var init := spans[..|spans| - 1];
      assert init[k] == spans[k];
      KeptAllComplete(init, k);
      KeptAllGrows(spans);
      PrefixKeepsMember(KeptAll(init), KeptAll(spans), d);
    }
  }

  /** When the last span yields `d`, the result ends with `d`. */
  lemma KeptLast(spans: seq<string>, d: map<string, string>)
    requires spans != [] && Kept(spans[|spans| - 1]) == Some(d)
    ensures |KeptAll(spans)| > 0 && KeptAll(spans)[|KeptAll(spans)| - 1] == d
  {
  }

  lemma PrefixKeepsMember<T>(a: seq<T>, b: seq<T>, x: T)
    requires a <= b && x in a
    ensures x in b
  {
    var i :| 0 <= i < |a| && a[i] == x;
    assert b[i] == a[i];
  }

  /** What `Kept` yields has the five keys. */
  lemma KeptHasKeys(span: string)
    ensures Kept(span).Some? ==> RequiredKeys <= Kept(span).value.Keys
  {
  }

  /** `KeptAll` of a non-empty list: that of all but the last span, then what the last span yields. */
  lemma KeptAllSnoc(spans: seq<string>)
    requires spans != []
    ensures var init := KeptAll(spans[..|spans| - 1]);
      KeptAll(spans) == (match Kept(spans[|spans| - 1]) case Some(d) => init + [d] case None => init)
  {
  }

  /** One more span never takes a kept relation away. */
  lemma KeptAllGrows(spans: seq<string>)
    requires spans != []
    ensures KeptAll(spans[..|spans| - 1]) <= KeptAll(spans)
  {
    KeptAllSnoc(spans);
    var init := KeptAll(spans[..|spans| - 1]);
    match Kept(spans[|spans| - 1])
    case Some(d) => assert (init + [d])[..|init|] == init;
    case None =>
  }

  lemma PrefixTrans<T>(a: seq<T>, b: seq<T>, c: seq<T>)
    requires a <= b && b <= c
    ensures a <= c
  {
    assert c[..|a|] == b[..|a|];
  }

  lemma {:induction false} KeptAllKeys(spans: seq<string>)
    ensures forall d :: d in KeptAll(spans) ==> RequiredKeys <= d.Keys
    decreases |spans|
  {
    if spans != [] {
      var n := |spans| - 1;
      KeptAllKeys(spans[..n]);
      KeptHasKeys(spans[n]);
      KeptAllSnoc(spans);
    }
  }

  lemma {:induction false} KeptAllFromSpans(spans: seq<string>)
    ensures forall d :: d in KeptAll(spans) ==> exists k :: 0 <= k < |spans| && Kept(spans[k]) == Some(d)
    decreases |spans|
  {
    if spans != [] {
      var n := |spans| - 1;
      var init := spans[..n];
      KeptAllFromSpans(init);
      KeptAllSnoc(spans);
      forall d | d in KeptAll(spans)
        ensures exists k :: 0 <= k < |spans| && Kept(spans[k]) == Some(d)
      {
        if d in KeptAll(init) {
          var k :| 0 <= k < n && Kept(init[k]) == Some(d);
          assert init[k] == spans[k];
        } else {
          assert Kept(spans[n]) == Some(d);
        }
      }
    }
  }

  /** The relations kept from a prefix of the spans are a prefix of those kept from all of them. */
  lemma {:induction false} KeptAllPrefix(spans: seq<string>, k: nat)
    requires k <= |spans|
    ensures KeptAll(spans[..k]) <= KeptAll(spans)
    decreases |spans| - k
  {
    if k < |spans| {
      KeptAllPrefix(spans, k + 1);
      KeptAllStep(spans, k);
      PrefixTrans(KeptAll(spans[..k]), KeptAll(spans[..k + 1]), KeptAll(spans));
    } else {
      assert spans[..k] == spans;
    }
  }

  /** One span further along, the kept relations only grow. */
  lemma KeptAllStep(spans: seq<string>, k: nat)
    requires k < |spans|
    ensures KeptAll(spans[..k]) <= KeptAll(spans[..k + 1])
  {
    var p := spans[..k + 1];
    KeptAllGrows(p);
    assert p[..|p| - 1] == spans[..k];
  }

  // The quote count of a decodable object.

  /** The number of positions from `lo` to `hi - 1` holding `c`. */
  function CountIn(s: string, c: char, lo: nat, hi: nat): nat
    requires lo <= hi <= |s|
    decreases hi - lo
  {
    if lo == hi then 0 else CountIn(s, c, lo, hi - 1) + (if s[hi - 1] == c then 1 else 0)
  }

  /** The number of occurrences of `c` in `s`. */
  function Occurrences(s: string, c: char): nat {
    CountIn(s, c, 0, |s|)
  }

  lemma {:induction false} CountSplit(s: string, c: char, lo: nat, mid: nat, hi: nat)
    requires lo <= mid <= hi <= |s|
    ensures CountIn(s, c, lo, hi) == CountIn(s, c, lo, mid) + CountIn(s, c, mid, hi)
    decreases hi - mid
  {
    if mid < hi {
      CountSplit(s, c, lo, mid, hi - 1);
    }
  }

  lemma {:induction false} CountAbsent(s: string, c: char, lo: nat, hi: nat)
    requires lo <= hi <= |s| && forall k :: lo <= k < hi ==> s[k] != c
    ensures CountIn(s, c, lo, hi) == 0
    decreases hi - lo
  {
    if lo < hi {
      CountAbsent(s, c, lo, hi - 1);
    }
  }

  /** A string literal from its opening quote `i` to its closing quote `k` holds two quotes. */
  lemma StringQuotes(s: string, i: nat, k: nat)
    requires i < k < |s| && s[i] == '"' && s[k] == '"' && forall j :: i < j < k ==> s[j] != '"'
    ensures CountIn(s, '"', i, k + 1) == 2
  {
    CountSplit(s, '"', i, i + 1, k + 1);
    CountSplit(s, '"', i + 1, k, k + 1);
    CountAbsent(s, '"', i + 1, k);
  }

  /** The quotes of an accepted member: two per string and none around them. */
  lemma {:induction false} MemberQuotes(s: string, i: nat)
    requires i <= |s| && Member(s, i).Some?
    ensures CountIn(s, '"', i, Member(s, i).value.2) == 4
  {
    var k := StringEnd(s, i).value;
    var colon := SkipSpace(s, k + 1);
    var v := SkipSpace(s, colon + 1);
    var e := StringEnd(s, v).value;
    var t := SkipSpace(s, e + 1);
    assert Member(s, i).value.2 == t;
    CountSplit(s, '"', i, k + 1, t);
    StringQuotes(s, i, k);
    CountSplit(s, '"', k + 1, v, t);
    assert s[colon] == ':';
    CountAbsent(s, '"', k + 1, v);
    CountSplit(s, '"', v, e + 1, t);
    StringQuotes(s, v, e);
    CountAbsent(s, '"', e + 1, t);
  }

  /** What the members parser accepts holds an even number of quotes, four per member. */
  lemma {:induction false} MembersEvenQuotes(s: string, i: nat, acc: map<string, string>)
    requires i <= |s| && Members(s, i, acc).Some?
    ensures CountIn(s, '"', i, |s|) % 2 == 0
    decreases |s| - i
  {
    var (key, value, t) := Member(s, i).value;
    MemberQuotes(s, i);
    CountSplit(s, '"', i, t, |s|);
    if s[t] == ',' {
      var next := SkipSpace(s, t + 1);
      CountSplit(s, '"', t, next, |s|);
      CountAbsent(s, '"', t, next);
      MembersEvenQuotes(s, next, acc[key := value]);
    } else {
      CountAbsent(s, '"', t, |s|);
    }
  }

  /** A decodable object holds an even number of quotes. */
  lemma DecodeEvenQuotes(s: string)
    requires DecodeObject(s).Some?
    ensures Occurrences(s, '"') % 2 == 0
  {
    var i := SkipSpace(s, 1);
    CountSplit(s, '"', 0, i, |s|);
    CountAbsent(s, '"', 0, i);
    if i < |s| && s[i] == '}' {
      CountAbsent(s, '"', i, |s|);
    } else {
      MembersEvenQuotes(s, i, map[]);
    }
  }

  /** Turning `'` into `"` adds the apostrophes to the quotes. */
  lemma {:induction false} ReplaceQuotes(s: string, hi: nat)
    requires hi <= |s|
    ensures CountIn(ReplaceChar(s, '\'', '"'), '"', 0, hi) == CountIn(s, '\'', 0, hi) + CountIn(s, '"', 0, hi)
  {
    if hi > 0 {
      ReplaceQuotes(s, hi - 1);
    }
  }

  /**
   * A span whose apostrophes and quotes together are odd in number yields
   * nothing. A relation written with single quotes has an even number of
   * them, so one name holding an apostrophe ("Bruch's membrane") loses the
   * whole relation.
   */
  lemma OddQuotesDropped(span: string)
    requires (Occurrences(span, '\'') + Occurrences(span, '"')) % 2 == 1
    ensures Kept(span).None?
    ensures KeptAll([span]) == []
  {
    var replaced := ReplaceChar(span, '\'', '"');
    ReplaceQuotes(span, |span|);
    if DecodeObject(replaced).Some? {
      DecodeEvenQuotes(replaced);
    }
    assert [span][..0] == [];
  }

  /** `{'x': 'Bruch's'}`, with its five apostrophes, is dropped. */
  lemma ApostropheExample()
    ensures Kept("{'x': 'B's'}").None?
  {
    var span := "{'x': 'B's'}";
    CountAbsent(span, '"', 0, |span|);
    assert CountIn(span, '\'', 0, 1) == 0;
    assert CountIn(span, '\'', 0, 2) == 1;
    assert CountIn(span, '\'', 0, 3) == 1;
    assert CountIn(span, '\'', 0, 4) == 2;
    assert CountIn(span, '\'', 0, 5) == 2;
    assert CountIn(span, '\'', 0, 6) == 2;
    assert CountIn(span, '\'', 0, 7) == 3;
    assert CountIn(span, '\'', 0, 8) == 3;
    assert CountIn(span, '\'', 0, 9) == 4;
    assert CountIn(span, '\'', 0, 10) == 4;
    assert CountIn(span, '\'', 0, 11) == 5;
    assert CountIn(span, '\'', 0, 12) == 5;
    OddQuotesDropped(span);
  }

  /** A flat object in the model's single-quote style decodes to its pairs once quotes are swapped. */
  lemma DecodeExample()
    ensures DecodeObject("{\"a\": \"b\"}") == Some(map["a" := "b"])
  {
    var s := "{\"a\": \"b\"}";
    assert SkipSpace(s, 1) == 1;
    assert StringEnd(s, 1) == Some(3);
    assert SkipSpace(s, 4) == 4;
    assert SkipSpace(s, 5) == 6;
    assert StringEnd(s, 6) == Some(8);
    assert SkipSpace(s, 9) == 9;
    assert SkipSpace(s, 10) == 10;
    assert s[2..3] == "a" && s[7..8] == "b";
  }

  // ---------------------------------------------------------------------
  // create_sparql_query
  // ---------------------------------------------------------------------

  /** The relation a kept dict describes; the publication is `relation.get("pub_id")`. */
  function AsRelation(d: map<string, string>): BulkRelations.BulkRelation
    requires RequiredKeys <= d.Keys
  {
    BulkRelations.BulkRelation(d["relation_type"], d["entity1_type"], d["entity1_name"],
      d["entity2_type"], d["entity2_name"], if "pub_id" in d then Some(d["pub_id"]) else None)
  }

  /** The relations the kept dicts describe, in order. */
  function AsRelations(ds: seq<map<string, string>>): (rs: seq<BulkRelations.BulkRelation>)
    requires forall k :: 0 <= k < |ds| ==> RequiredKeys <= ds[k].Keys
    ensures |rs| == |ds|
    ensures forall k :: 0 <= k < |ds| ==>
      && [rs[k].relationType, rs[k].entity1Type, rs[k].entity1Name, rs[k].entity2Type, rs[k].entity2Name]
         == [ds[k]["relation_type"], ds[k]["entity1_type"], ds[k]["entity1_name"], ds[k]["entity2_type"], ds[k]["entity2_name"]]
      && (rs[k].pubId.Some? <==> "pub_id" in ds[k])
      && ("pub_id" in ds[k] ==> rs[k].pubId.value == ds[k]["pub_id"])
  {
    seq(|ds|, k requires 0 <= k < |ds| => AsRelation(ds[k]))
  }

  /**
   * `create_sparql_query` over the dicts `convert_relations` keeps, the
   * relation ids being `ids`: the same header, per-relation block and footer
   * as one batch of the bulk importer.
   */
  method CreateSparqlQuery(relations: seq<map<string, string>>, ids: seq<string>) returns (query: string)
    requires forall k :: 0 <= k < |relations| ==> RequiredKeys <= relations[k].Keys
    requires |ids| == |relations|
    ensures query == BulkRelations.BatchQuery(BulkRelations.RenderedBlocks(AsRelations(relations), ids), 0, |relations|)
  {
    ghost var rendered := BulkRelations.RenderedBlocks(AsRelations(relations), ids);
    query := BulkRelations.Prefixes + BulkRelations.InsertOpen;
    for i := 0 to |relations|
      invariant query == BulkRelations.Prefixes + BulkRelations.InsertOpen + Concat(rendered, 0, i)
    {
      var triple := BulkRelations.BuildBlock(AsRelation(relations[i]), ids[i]);
      AppendAssoc(BulkRelations.Prefixes + BulkRelations.InsertOpen, Concat(rendered, 0, i), triple);
      query := query + triple;
    }
    query := query + BulkRelations.InsertClose;
  }

  /** A batch size at least the number of blocks makes one batch of them all. */
  lemma OneBatch(bs: seq<string>, b: nat)
    requires 0 < |bs| <= b
    ensures BulkRelations.Queries(bs, b, 0) == [BulkRelations.BatchQuery(bs, 0, |bs|)]
  {
    BulkRelations.QueriesStep(bs, b, 0);
  }

  /**
   * The single update equals the bulk importer's output for any batch size
   * at least the number of relations: one query for a non-empty list.
   */
  lemma SingleQueryIsOneBatch(relations: seq<BulkRelations.BulkRelation>, ids: seq<string>, batchSize: nat)
    requires |ids| == |relations| && 0 < |relations| <= batchSize
    ensures BulkRelations.BulkQueries(relations, ids, batchSize) ==
      Success([BulkRelations.BatchQuery(BulkRelations.RenderedBlocks(relations, ids), 0, |relations|)])
  {
    OneBatch(BulkRelations.RenderedBlocks(relations, ids), batchSize);
  }
}
