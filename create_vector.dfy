/**
 * The text stored beside each relation in the vector store: one line per
 * field of a row of the relations table, in a fixed order, with the field
 * values written in as they are.
 */
module CreateVector {
  import opened Wrappers
  import opened Strings
  import GetData

  /** A row of the relations table as read back from the CSV file: every cell is text. */
  datatype TableRow = TableRow(
    subjectType: string,
    subjectName: string,
    relation: string,
    objectType: string,
    objectName: string,
    sourcePublication: string)

  /** How a missing value prints once the table has been read back. */
  const MissingText: string := "nan"

  /** The cell texts the CSV reader takes for a missing value by default. */
  const MissingMarkers: set<string> := {
    "", "#N/A", "#N/A N/A", "#NA", "-1.#IND", "-1.#QNAN", "-NaN", "-nan",
    "1.#IND", "1.#QNAN", "<NA>", "N/A", "NA", "NULL", "NaN", "None", "n/a",
    "nan", "null"
  }

  /**
   * A cell written to the CSV file and read back, as an f-string prints it:
   * an absent value is written as an empty cell, and an empty cell, like
   * any other missing-value marker, reads back as a missing value.
   */
  function ReadBackCell(v: Option<string>): (r: string)
    ensures v.None? ==> r == MissingText
    ensures v.Some? && v.value !in MissingMarkers ==> r == v.value
    ensures v.Some? && v.value in MissingMarkers ==> r == MissingText
  {
    match v
    case None => MissingText
    case Some(t) => if t in MissingMarkers then MissingText else t
  }

  /** A row written by the table export, as the ingestion reads it back. */
  function ReadBack(row: GetData.Row): (r: TableRow)
    ensures r.relation == ReadBackCell(Some(row.relation))
    ensures r.sourcePublication == ReadBackCell(row.sourcePublication)
  {
    TableRow(
      ReadBackCell(Some(row.subjectType)),
      ReadBackCell(Some(row.subjectName)),
      ReadBackCell(Some(row.relation)),
      ReadBackCell(Some(row.objectType)),
      ReadBackCell(Some(row.objectName)),
      ReadBackCell(row.sourcePublication))
  }

  /** The four lines of a snippet, without their line breaks. */
  function SnippetLines(r: TableRow): (ls: seq<string>)
    ensures |ls| == 4
    ensures StartsWith(ls[0], "Relation: ") && StartsWith(ls[1], "Subject: ")
    ensures StartsWith(ls[2], "Object: ") && StartsWith(ls[3], "Source Publication: ")
  {
    [ "Relation: " + r.relation,
      "Subject: " + r.subjectName + " (Type: " + r.subjectType + ")",
      "Object: " + r.objectName + " (Type: " + r.objectType + ")",
      "Source Publication: " + r.sourcePublication ]
  }

  /** `make_text_snippet`: each of the four lines followed by a line break. */
  function MakeTextSnippet(r: TableRow): (s: string)
    ensures StartsWith(s, "Relation: ")
    ensures |s| > 0 && s[|s| - 1] == '\n'
  {
    var ls := SnippetLines(r);
    ls[0] + "\n" + ls[1] + "\n" + ls[2] + "\n" + ls[3] + "\n"
  }

  /** No field of the row holds a line break. */
  predicate SingleLineFields(r: TableRow) {
    '\n' !in r.subjectType && '\n' !in r.subjectName && '\n' !in r.relation &&
    '\n' !in r.objectType && '\n' !in r.objectName && '\n' !in r.sourcePublication
  }

  /** A join of two or more parts: the first, the separator, then the join of the rest. */
  lemma JoinCons(p: string, rest: seq<string>, sep: string)
    requires |rest| > 0
    ensures Join([p] + rest, sep) == p + sep + Join(rest, sep)
  {
    assert ([p] + rest)[1..] == rest;
  }

  /** Four lines and an empty tail, joined by a separator: each line followed by it. */
  lemma JoinFourLines(a: string, b: string, c: string, d: string, sep: string)
    ensures Join([a, b, c, d, ""], sep) == a + sep + (b + sep + (c + sep + (d + sep)))
  {
    assert Join([d, ""], sep) == d + sep by {
      JoinCons(d, [""], sep);
      assert [d] + [""] == [d, ""];
      assert d + sep + "" == d + sep;
    }
    assert Join([c, d, ""], sep) == c + sep + (d + sep) by {
      JoinCons(c, [d, ""], sep);
      assert [c] + [d, ""] == [c, d, ""];
    }
    assert Join([b, c, d, ""], sep) == b + sep + (c + sep + (d + sep)) by {
      JoinCons(b, [c, d, ""], sep);
      assert [b] + [c, d, ""] == [b, c, d, ""];
    }
    JoinCons(a, [b, c, d, ""], sep);
    assert [a] + [b, c, d, ""] == [a, b, c, d, ""];
  }

  /** The snippet is its four lines, each followed by a line break. */
  lemma SnippetIsLines(r: TableRow)
    ensures MakeTextSnippet(r) == Join(SnippetLines(r) + [""], "\n")
  {
    var ls := SnippetLines(r);
    assert ls + [""] == [ls[0], ls[1], ls[2], ls[3], ""];
    JoinFourLines(ls[0], ls[1], ls[2], ls[3], "\n");
  }

  /**
   * With single-line fields, splitting the snippet at its line breaks gives
   * exactly the four lines, in the order Relation, Subject, Object, Source
   * Publication, and nothing after the last break.
   */
  lemma SnippetSplit(r: TableRow)
    requires SingleLineFields(r)
    ensures Split(MakeTextSnippet(r), "\n") == SnippetLines(r) + [""]
  {
    var parts := SnippetLines(r) + [""];
    SnippetIsLines(r);
    forall i | 0 <= i < |parts| ensures '\n' !in parts[i] {
      NoBreakInLine(r, i);
    }
    SplitJoin(parts, '\n');
  }

  lemma NoBreakInLine(r: TableRow, i: nat)
    requires SingleLineFields(r) && i <= 4
    ensures '\n' !in (SnippetLines(r) + [""])[i]
  {
    var ls := SnippetLines(r);
    if i == 1 {
      assert ls[1] == "Subject: " + r.subjectName + " (Type: " + r.subjectType + ")";
      assert forall c :: c in ls[1] ==> c in "Subject: " || c in r.subjectName || c in " (Type: " || c in r.subjectType || c in ")";
    } else if i == 2 {
      assert ls[2] == "Object: " + r.objectName + " (Type: " + r.objectType + ")";
      assert forall c :: c in ls[2] ==> c in "Object: " || c in r.objectName || c in " (Type: " || c in r.objectType || c in ")";
    }
  }

  /**
   * The lines carry the field values verbatim: the relation and the
   * publication follow their labels, and the Subject and Object lines give
   * the name, then the type as "(Type: …)".
   */
  lemma LinesCarryFields(r: TableRow)
    ensures var ls := SnippetLines(r);
      ls[0][|"Relation: "|..] == r.relation &&
      ls[3][|"Source Publication: "|..] == r.sourcePublication &&
      ls[1][|"Subject: "|..|"Subject: "| + |r.subjectName|] == r.subjectName &&
      EndsWith(ls[1], " (Type: " + r.subjectType + ")") &&
      ls[2][|"Object: "|..|"Object: "| + |r.objectName|] == r.objectName &&
      EndsWith(ls[2], " (Type: " + r.objectType + ")")
  {
    var ls := SnippetLines(r);
    var st := " (Type: " + r.subjectType + ")";
    var ot := " (Type: " + r.objectType + ")";
    assert ls[1] == "Subject: " + r.subjectName + st;
    assert ls[2] == "Object: " + r.objectName + ot;
  }

  /**
   * Two rows with single-line fields and the same snippet have the same
   * relation, the same publication, and the same subject and object lines.
   */
  lemma SnippetDeterminesLines(r1: TableRow, r2: TableRow)
    requires SingleLineFields(r1) && SingleLineFields(r2)
    requires MakeTextSnippet(r1) == MakeTextSnippet(r2)
    ensures SnippetLines(r1) == SnippetLines(r2)
    ensures r1.relation == r2.relation && r1.sourcePublication == r2.sourcePublication
  {
    SnippetSplit(r1);
    SnippetSplit(r2);
    var l1, l2 := SnippetLines(r1), SnippetLines(r2);
    assert l1 == (l1 + [""])[..4] && l2 == (l2 + [""])[..4];
    LinesCarryFields(r1);
    LinesCarryFields(r2);
  }
}
