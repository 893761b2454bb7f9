/**
 * Removal of a reasoning model's `<think>…</think>` sections from its
 * answer, as both evaluation scripts do before scoring: one left-to-right
 * pass of `re.sub` with a lazy pattern that may cross newlines.
 */
module ThinkTags {
  import opened Wrappers
  import opened Strings

  const Open: string := "<think>"
  const Close: string := "</think>"

  /**
   * One pass of `re.sub(r'<think>.*?</think>', '', s, flags=re.DOTALL)`.
   * At each position, an opening tag with a closing tag somewhere after it
   * is removed together with everything up to the first such closing tag,
   * and the scan resumes after it; any other character is kept.
   */
  function Strip(s: string): (r: string)
    ensures |r| <= |s|
    decreases |s|
  {
    if s == [] then ""
    else if StartsWith(s, Open) && IndexOf(s[|Open|..], Close) >= 0 then
      Strip(s[|Open| + IndexOf(s[|Open|..], Close) + |Close|..])
    else [s[0]] + Strip(s[1..])
  }

  /** `remove_think_tags`: no response gives the empty string. */
  function RemoveThinkTags(response: Option<string>): (r: string)
    ensures response.None? ==> r == ""
    ensures response.Some? ==> |r| <= |response.value|
  {
    match response
    case None => ""
    case Some(s) => Strip(s)
  }

  /** An occurrence in a suffix is an occurrence in the whole string, shifted. */
  lemma OccursInSuffix(s: string, w: string, d: nat, i: nat)
    requires d <= |s|
    ensures OccursAt(s[d..], w, i) <==> OccursAt(s, w, d + i)
  {
    if d + i + |w| <= |s| {
      assert s[d..][i..i + |w|] == s[d + i..d + i + |w|];
    }
  }

  /** A string holding no opening tag comes back unchanged. */
  lemma {:induction false} NoOpenUnchanged(s: string)
    requires !Contains(s, Open)
    ensures Strip(s) == s
    decreases |s|
  {
    if s != [] {
      assert !OccursAt(s, Open, 0);
      forall i: nat ensures !OccursAt(s[1..], Open, i) {
        OccursInSuffix(s, Open, 1, i);
      }
      NoOpenUnchanged(s[1..]);
    }
  }

  /** A string holding no closing tag comes back unchanged: an unclosed `<think>` is kept. */
  lemma {:induction false} NoCloseUnchanged(s: string)
    requires !Contains(s, Close)
    ensures Strip(s) == s
    decreases |s|
  {
    if s != [] {
      if StartsWith(s, Open) {
        var k := IndexOf(s[|Open|..], Close);
        if k >= 0 {
          OccursInSuffix(s, Close, |Open|, k);
        }
      }
      forall i: nat ensures !OccursAt(s[1..], Close, i) {
        OccursInSuffix(s, Close, 1, i);
      }
      NoCloseUnchanged(s[1..]);
    }
  }

  /** Text with no '<' in it passes through, and the scan goes on after it. */
  lemma {:induction false} PlainPrefix(p: string, rest: string)
    requires '<' !in p
    ensures Strip(p + rest) == p + Strip(rest)
    decreases |p|
  {
    if p != [] {
      var s := p + rest;
      assert s[0] == p[0] != '<' == Open[0];
      assert !StartsWith(s, Open);
      assert s[1..] == p[1..] + rest;
      assert Strip(s) == [s[0]] + Strip(s[1..]);
      PlainPrefix(p[1..], rest);
      assert p + Strip(rest) == [p[0]] + (p[1..] + Strip(rest));
    } else {
      assert p + rest == rest;
    }
  }

  /** The first closing tag after a text holding none is the one right after it. */
  lemma FirstClose(m: string, q: string)
    requires !Contains(m, Close)
    ensures IndexOf(m + Close + q, Close) == |m|
  {
    var t := m + Close + q;
    assert t[|m|..|m| + |Close|] == Close;
    assert OccursAt(t, Close, |m|);
    forall j | 0 <= j < |m| ensures !OccursAt(t, Close, j) {
      if j + |Close| <= |m| {
        assert t[j..j + |Close|] == m[j..j + |Close|];
        assert !OccursAt(m, Close, j);
      } else {
        assert t[|m|] == '<';
        assert Close[|m| - j] != '<';
        CharOfOccurrence(t, Close, j, |m| - j);
      }
    }
  }

  /** Each character of an occurrence is the matching character of the string found. */
  lemma CharOfOccurrence(t: string, w: string, j: nat, x: nat)
    requires x < |w|
    ensures OccursAt(t, w, j) ==> t[j + x] == w[x]
  {
    if OccursAt(t, w, j) {
      assert t[j..j + |w|][x] == t[j + x];
    }
  }

  /**
   * An opening tag, a text holding no closing tag, and a closing tag are
   * removed together, and the scan resumes right after the closing tag.
   */
  lemma SpanDropped(m: string, q: string)
    requires !Contains(m, Close)
    ensures Strip(Open + m + Close + q) == Strip(q)
  {
    var s := Open + m + Close + q;
    assert s[..|Open|] == Open;
    assert s[|Open|..] == m + Close + q;
    FirstClose(m, q);
    assert s[|Open| + |m| + |Close|..] == q;
  }

  /** The tail of the example holds a closing tag but no opening tag, so the pass keeps it. */
  lemma TailKept()
    ensures Strip("nk></think>") == "nk></think>"
  {
    var rest := "nk></think>";
    assert !Contains(rest, Open) by {
      forall i | 0 <= i <= |rest| - |Open| ensures !OccursAt(rest, Open, i) {
        CharOfOccurrence(rest, Open, i, 0);
        CharOfOccurrence(rest, Open, i, 1);
        if i == 3 {
          assert rest[i + 1] != Open[1];
        } else {
          assert rest[i] != Open[0];
        }
      }
    }
    NoOpenUnchanged(rest);
  }

  /**
   * The pass does not rescan what it leaves behind: removing a span can
   * join the text around it into a new span, which only a second pass
   * removes.
   */
  lemma NotIdempotent()
    ensures Strip("<thi" + Open + Close + "nk>" + Close) == Open + Close
    ensures Strip(Open + Close) == ""
  {
    var rest := "nk>" + Close;
    var t := "thi" + (Open + "" + Close + rest);
    var s := "<" + t;
    assert s == "<thi" + Open + Close + "nk>" + Close;
    assert Strip(t) == "thi" + rest by {
      assert rest == "nk></think>";
      TailKept();
      assert !Contains("", Close);
      SpanDropped("", rest);
      PlainPrefix("thi", Open + "" + Close + rest);
    }
    assert s[4] == '<' && Open[4] == 'n';
    assert s[..|Open|][4] != Open[4];
    assert s[1..] == t;
    assert "<" + ("thi" + rest) == ("<thi" + "nk>") + Close;
    assert "<thi" + "nk>" == Open;
    assert Strip(Open + Close) == "" by {
      assert !Contains("", Close);
      SpanDropped("", "");
      assert Open + "" + Close + "" == Open + Close;
    }
  }
}
