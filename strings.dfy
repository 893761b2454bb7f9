/**
 * The pieces of Python's `str` and `re` behaviour the modelled code relies on,
 * restricted to ASCII: character classes, case mapping, `split`, `join`,
 * `strip`, substring search and "text after the last separator".
 */
module Strings {

  // ---------------------------------------------------------------------
  // Character classes
  // ---------------------------------------------------------------------

  /** White space as `str.split()`, `str.strip()` and the regex class `\s` see it (ASCII part). */
  predicate IsSpace(c: char) {
    c == ' ' || c == '\t' || c == '\n' || c == '\r' || c == '\U{0B}' || c == '\U{0C}' || '\U{1C}' <= c <= '\U{1F}'
  }

  /** The regex class `\w` (ASCII part): letters, digits and underscore. */
  predicate IsWordChar(c: char) {
    'a' <= c <= 'z' || 'A' <= c <= 'Z' || '0' <= c <= '9' || c == '_'
  }

  predicate IsUpperChar(c: char) { 'A' <= c <= 'Z' }

  predicate IsLowerChar(c: char) { 'a' <= c <= 'z' }

  function LowerChar(c: char): (d: char)
    ensures !IsUpperChar(d)
    ensures !IsUpperChar(c) ==> d == c
    ensures IsUpperChar(c) ==> d as int == c as int + 32
  {
    if IsUpperChar(c) then (c as int + 32) as char else c
  }

  function UpperChar(c: char): (d: char)
    ensures !IsLowerChar(d)
    ensures !IsLowerChar(c) ==> d == c
    ensures IsLowerChar(c) ==> d as int == c as int - 32
  {
    if IsLowerChar(c) then (c as int - 32) as char else c
  }

  ghost predicate NoUpper(s: string) {
    forall c :: c in s ==> !IsUpperChar(c)
  }

  ghost predicate NoLower(s: string) {
    forall c :: c in s ==> !IsLowerChar(c)
  }

  /** `str.lower()` */
  function Lower(s: string): (r: string)
    ensures |r| == |s| && NoUpper(r)
    ensures forall i :: 0 <= i < |s| ==> r[i] == LowerChar(s[i])
  {
    seq(|s|, i requires 0 <= i < |s| => LowerChar(s[i]))
  }

  /** `str.upper()` */
  function Upper(s: string): (r: string)
    ensures |r| == |s| && NoLower(r)
    ensures forall i :: 0 <= i < |s| ==> r[i] == UpperChar(s[i])
  {
    seq(|s|, i requires 0 <= i < |s| => UpperChar(s[i]))
  }

  /** `s.replace(a, b)` for one-character `a` and `b`. */
  function ReplaceChar(s: string, a: char, b: char): (r: string)
    ensures |r| == |s|
    ensures forall i :: 0 <= i < |s| ==> r[i] == (if s[i] == a then b else s[i])
  {
    seq(|s|, i requires 0 <= i < |s| => if s[i] == a then b else s[i])
  }

  lemma ReplaceCharRemoves(s: string, a: char, b: char)
    requires a != b
    ensures a !in ReplaceChar(s, a, b)
  {
    var r := ReplaceChar(s, a, b);
    forall i | 0 <= i < |r| ensures r[i] != a {}
  }

  // ---------------------------------------------------------------------
  // Substrings
  // ---------------------------------------------------------------------

  predicate OccursAt(s: string, w: string, i: int) {
    0 <= i && i + |w| <= |s| && s[i..i + |w|] == w
  }

  /** `s.startswith(p)` */
  predicate StartsWith(s: string, p: string) {
    |p| <= |s| && s[..|p|] == p
  }

  /** `s.endswith(p)` */
  predicate EndsWith(s: string, p: string) {
    |p| <= |s| && s[|s| - |p|..] == p
  }

  /** Python's `w in s` for strings. */
  ghost predicate Contains(s: string, w: string) {
    exists i :: OccursAt(s, w, i)
  }

  /** `s.find(w)`: the first index where `w` occurs, or -1. */
  function IndexOf(s: string, w: string): (k: int)
    ensures -1 <= k <= |s|
    ensures k >= 0 ==> OccursAt(s, w, k)
    ensures forall j :: 0 <= j && (k < 0 || j < k) ==> !OccursAt(s, w, j)
  {
    IndexFrom(s, w, 0)
  }

  /** The first index at or after `i` where `w` occurs, or -1. */
  function IndexFrom(s: string, w: string, i: nat): (k: int)
    ensures -1 <= k <= |s|
    ensures k >= 0 ==> i <= k && OccursAt(s, w, k)
    ensures forall j :: i <= j && (k < 0 || j < k) ==> !OccursAt(s, w, j)
    decreases |s| - i
  {
    if i + |w| > |s| then -1
    else if OccursAt(s, w, i) then i
    else IndexFrom(s, w, i + 1)
  }

  lemma IndexOfContains(s: string, w: string)
    ensures IndexOf(s, w) >= 0 <==> Contains(s, w)
  {
  }

  // ---------------------------------------------------------------------
  // str.split() on white space, and ' '.join(...)
  // ---------------------------------------------------------------------

  /** A token of `str.split()`: non-empty and free of white space. */
  ghost predicate IsToken(w: string) {
    |w| > 0 && forall c :: c in w ==> !IsSpace(c)
  }

  /** Length of the leading run of non-space characters. */
  function SpanNonSpace(s: string): (k: nat)
    ensures k <= |s|
    ensures forall i :: 0 <= i < k ==> !IsSpace(s[i])
    ensures k < |s| ==> IsSpace(s[k])
  {
    if s == [] || IsSpace(s[0]) then 0 else 1 + SpanNonSpace(s[1..])
  }

  /** `s.split()` with no argument: the maximal runs of non-space characters, in order. */
  function Words(s: string): (ws: seq<string>)
    ensures forall i :: 0 <= i < |ws| ==> IsToken(ws[i])
    ensures forall i :: 0 <= i < |ws| ==> (forall c :: c in ws[i] ==> c in s)
    decreases |s|
  {
    if s == [] then []
    else if IsSpace(s[0]) then Words(s[1..])
    else
      var k := SpanNonSpace(s);
      [s[..k]] + Words(s[k..])
  }

  /** `sep.join(parts)` */
  function Join(parts: seq<string>, sep: string): string {
    if |parts| == 0 then ""
    else if |parts| == 1 then parts[0]
    else parts[0] + sep + Join(parts[1..], sep)
  }

  /** A join ends with its last part. */
  lemma {:induction false} JoinEndsWithLast(parts: seq<string>, sep: string)
    requires |parts| > 0
    ensures EndsWith(Join(parts, sep), parts[|parts| - 1])
  {
    if |parts| > 1 {
      JoinEndsWithLast(parts[1..], sep);
      var j := Join(parts[1..], sep);
      var last := parts[|parts| - 1];
      assert parts[1..][|parts[1..]| - 1] == last;
      var whole := parts[0] + sep + j;
      assert whole[|whole| - |last|..] == j[|j| - |last|..];
    }
  }

  /** `' '.join(s.split())`: white space collapsed to single spaces and trimmed. */
  function Collapse(s: string): string {
    Join(Words(s), " ")
  }

  /** Single-spaced and trimmed: the only white space is a lone ' ' between two other characters. */
  ghost predicate IsCollapsed(s: string) {
    && (forall i :: 0 <= i < |s| && IsSpace(s[i]) ==> s[i] == ' ' && 0 < i < |s| - 1)
    && (forall i :: 0 <= i < |s| - 1 && s[i] == ' ' ==> s[i + 1] != ' ')
  }

  lemma JoinSnoc(parts: seq<string>, p: string, sep: string)
    requires |parts| > 0
    ensures Join(parts + [p], sep) == Join(parts, sep) + sep + p
    decreases |parts|
  {
    if |parts| == 1 {
      assert parts + [p] == [parts[0], p];
      assert Join([p], sep) == p;
    } else {
      assert (parts + [p])[1..] == parts[1..] + [p];
      JoinSnoc(parts[1..], p, sep);
    }
  }

  /** Total length of a list of strings. */
  function SumLengths(parts: seq<string>): nat {
    if parts == [] then 0 else |parts[0]| + SumLengths(parts[1..])
  }

  lemma {:induction false} JoinLength(parts: seq<string>, sep: string)
    requires |parts| > 0
    ensures |Join(parts, sep)| == SumLengths(parts) + |sep| * (|parts| - 1)
    decreases |parts|
  {
    if |parts| > 1 {
      JoinLength(parts[1..], sep);
    }
  }

  /** Joining the first `k` parts gives a prefix of joining them all. */
  lemma {:induction false} JoinPrefix(parts: seq<string>, sep: string, k: nat)
    requires k <= |parts|
    ensures Join(parts[..k], sep) <= Join(parts, sep)
    decreases |parts|
  {
    if k >= 2 {
      assert parts[..k][1..] == parts[1..][..k - 1];
      JoinPrefix(parts[1..], sep, k - 1);
    } else if k == 1 && |parts| > 1 {
      assert Join(parts[..1], sep) == parts[0];
    }
  }

  lemma {:induction false} JoinTokensCollapsed(ts: seq<string>)
    requires forall i :: 0 <= i < |ts| ==> IsToken(ts[i])
    ensures IsCollapsed(Join(ts, " "))
    ensures |ts| > 0 ==> IsToken(ts[0]) && |Join(ts, " ")| > 0 && Join(ts, " ")[0] == ts[0][0]
    ensures |ts| > 0 ==> Join(ts, " ")[|Join(ts, " ")| - 1] != ' '
    decreases |ts|
  {
    if |ts| == 0 {
    } else if |ts| == 1 {
      assert Join(ts, " ") == ts[0];
      forall i | 0 <= i < |ts[0]| ensures !IsSpace(ts[0][i]) {
        assert ts[0][i] in ts[0];
      }
    } else {
      var t, rest := ts[0], Join(ts[1..], " ");
      JoinTokensCollapsed(ts[1..]);
      var s := t + " " + rest;
      assert Join(ts, " ") == s;
      forall i | 0 <= i < |t| ensures !IsSpace(t[i]) {
        assert t[i] in t;
      }
      assert rest[0] == ts[1][0] && ts[1][0] in ts[1];
      forall i | 0 <= i < |s| && IsSpace(s[i]) ensures s[i] == ' ' && 0 < i < |s| - 1 {
        if i > |t| {
          assert s[i] == rest[i - |t| - 1];
        }
      }
      forall i | 0 <= i < |s| - 1 && s[i] == ' ' ensures s[i + 1] != ' ' {
        if i > |t| {
          assert s[i] == rest[i - |t| - 1] && s[i + 1] == rest[i - |t|];
        }
      }
      assert s[|s| - 1] == rest[|rest| - 1];
    }
  }

  lemma CollapseIsCollapsed(s: string)
    ensures IsCollapsed(Collapse(s))
  {
    JoinTokensCollapsed(Words(s));
  }

  lemma SpanOfTokenThenSpace(t: string, rest: string)
    requires forall c :: c in t ==> !IsSpace(c)
    requires |rest| > 0 && IsSpace(rest[0])
    ensures SpanNonSpace(t + rest) == |t|
    decreases |t|
  {
    if t == [] {
      assert t + rest == rest;
    } else {
      assert t[0] in t;
      assert (t + rest)[1..] == t[1..] + rest;
      forall c | c in t[1..] ensures !IsSpace(c) { assert c in t; }
      SpanOfTokenThenSpace(t[1..], rest);
    }
  }

  lemma SpanOfToken(t: string)
    requires forall c :: c in t ==> !IsSpace(c)
    ensures SpanNonSpace(t) == |t|
    decreases |t|
  {
    if t != [] {
      assert t[0] in t;
      forall c | c in t[1..] ensures !IsSpace(c) { assert c in t; }
      SpanOfToken(t[1..]);
    }
  }

  /** Splitting a space-joined list of tokens gives the tokens back. */
  lemma {:induction false} WordsOfJoin(ts: seq<string>)
    requires forall i :: 0 <= i < |ts| ==> IsToken(ts[i])
    ensures Words(Join(ts, " ")) == ts
    decreases |ts|
  {
    if |ts| == 0 {
    } else if |ts| == 1 {
      var t := ts[0];
      assert Join(ts, " ") == t;
      assert t[0] in t;
      SpanOfToken(t);
      assert t[..|t|] == t && t[|t|..] == [];
      assert Words(t) == [t] + Words([]);
    } else {
      var t, rest := ts[0], Join(ts[1..], " ");
      var s := t + " " + rest;
      assert Join(ts, " ") == s;
      assert t[0] in t;
      assert s == t + (" " + rest);
      SpanOfTokenThenSpace(t, " " + rest);
      assert s[..|t|] == t;
      assert s[|t|..] == " " + rest;
      assert (" " + rest)[1..] == rest;
      WordsOfJoin(ts[1..]);
      assert Words(s) == [t] + Words(s[|t|..]);
    }
  }

  lemma CollapseIdempotent(s: string)
    ensures Words(Collapse(s)) == Words(s)
    ensures Collapse(Collapse(s)) == Collapse(s)
  {
    WordsOfJoin(Words(s));
  }

  // ---------------------------------------------------------------------
  // strip
  // ---------------------------------------------------------------------

  function StripLeftSpace(s: string): (r: string)
    ensures |r| <= |s| && r == s[|s| - |r|..]
    ensures r != [] ==> !IsSpace(r[0])
  {
    if s != [] && IsSpace(s[0]) then StripLeftSpace(s[1..]) else s
  }

  function StripRightSpace(s: string): (r: string)
    ensures |r| <= |s| && r == s[..|r|]
    ensures r != [] ==> !IsSpace(r[|r| - 1])
  {
    if s != [] && IsSpace(s[|s| - 1]) then StripRightSpace(s[..|s| - 1]) else s
  }

  /** `s.strip()` */
  function StripSpace(s: string): string {
    StripRightSpace(StripLeftSpace(s))
  }

  lemma WordsAppendSpace(x: string, c: char)
    requires IsSpace(c)
    ensures Words(x + [c]) == Words(x)
    decreases |x|
  {
    if x == [] {
      assert Words([c]) == Words([c][1..]);
    } else if IsSpace(x[0]) {
      assert (x + [c])[1..] == x[1..] + [c];
      WordsAppendSpace(x[1..], c);
    } else {
      var k := SpanNonSpace(x);
      SpanAppendSpace(x, c);
      assert (x + [c])[..k] == x[..k];
      assert (x + [c])[k..] == x[k..] + [c];
      WordsAppendSpace(x[k..], c);
    }
  }

  lemma SpanAppendSpace(x: string, c: char)
    requires IsSpace(c)
    ensures SpanNonSpace(x + [c]) == SpanNonSpace(x)
    decreases |x|
  {
    if x != [] && !IsSpace(x[0]) {
      assert (x + [c])[1..] == x[1..] + [c];
      SpanAppendSpace(x[1..], c);
    }
  }

  lemma WordsStripRight(s: string)
    ensures Words(StripRightSpace(s)) == Words(s)
    decreases |s|
  {
    if s != [] && IsSpace(s[|s| - 1]) {
      WordsStripRight(s[..|s| - 1]);
      assert s == s[..|s| - 1] + [s[|s| - 1]];
      WordsAppendSpace(s[..|s| - 1], s[|s| - 1]);
    }
  }

  lemma WordsStripLeft(s: string)
    ensures Words(StripLeftSpace(s)) == Words(s)
    decreases |s|
  {
    if s != [] && IsSpace(s[0]) {
      WordsStripLeft(s[1..]);
    }
  }

  /** Stripping before splitting changes nothing: `s.strip().split() == s.split()`. */
  lemma WordsStrip(s: string)
    ensures Words(StripSpace(s)) == Words(s)
  {
    WordsStripLeft(s);
    WordsStripRight(StripLeftSpace(s));
  }

  /** `s.lstrip(chars)` for a set of characters. */
  function LStripChars(s: string, cs: set<char>): (r: string)
    ensures |r| <= |s|
    ensures r != [] ==> r[0] !in cs
    ensures r == s || s[0] in cs
  {
    if s != [] && s[0] in cs then LStripChars(s[1..], cs) else s
  }

  /** What `lstrip` leaves is a suffix of its argument. */
  lemma {:induction false} LStripCharsSuffix(s: string, cs: set<char>)
    ensures LStripChars(s, cs) == s[|s| - |LStripChars(s, cs)|..]
    decreases |s|
  {
    if s != [] && s[0] in cs {
      LStripCharsSuffix(s[1..], cs);
      assert s[1..][|s| - 1 - |LStripChars(s, cs)|..] == s[|s| - |LStripChars(s, cs)|..];
    }
  }

  /** `s.rstrip(chars)` for a set of characters. */
  function RStripChars(s: string, cs: set<char>): (r: string)
    ensures |r| <= |s| && r == s[..|r|]
    ensures r != [] ==> r[|r| - 1] !in cs
    ensures forall i :: |r| <= i < |s| ==> s[i] in cs
  {
    s[..KeptLength(s, cs, |s|)]
  }

  /** The length of `s[..n]` once its trailing characters from `cs` go. */
  function KeptLength(s: string, cs: set<char>, n: nat): (k: nat)
    requires n <= |s|
    ensures k <= n
    ensures k > 0 ==> s[k - 1] !in cs
    ensures forall i :: k <= i < n ==> s[i] in cs
  {
    if n > 0 && s[n - 1] in cs then KeptLength(s, cs, n - 1) else n
  }

  // ---------------------------------------------------------------------
  // str.split(sep)
  // ---------------------------------------------------------------------

  /** `s.split(sep)` for a non-empty separator: cut at every leftmost non-overlapping occurrence. */
  function Split(s: string, sep: string): (parts: seq<string>)
    requires |sep| > 0
    ensures |parts| >= 1
    decreases |s|
  {
    var k := IndexOf(s, sep);
    if k < 0 then [s] else [s[..k]] + Split(s[k + |sep|..], sep)
  }

  /** Joining the pieces of a split gives the string back. */
  lemma {:induction false} JoinSplit(s: string, sep: string)
    requires |sep| > 0
    ensures Join(Split(s, sep), sep) == s
    decreases |s|
  {
    var k := IndexOf(s, sep);
    if k < 0 {
      assert Split(s, sep) == [s];
    } else {
      var rest := s[k + |sep|..];
      var ps := Split(rest, sep);
      assert s == s[..k] + sep + rest by {
        assert s[k..k + |sep|] == sep by { assert OccursAt(s, sep, k); }
        CutAround(s, k, k + |sep|);
      }
      calc {
        Join(Split(s, sep), sep);
        Join([s[..k]] + ps, sep);
        { JoinCons(s[..k], ps, sep); }
        s[..k] + sep + Join(ps, sep);
        { JoinSplit(rest, sep); }
        s[..k] + sep + rest;
      }
    }
  }

  /** Joining a part in front of a non-empty list puts the separator between them. */
  lemma JoinCons(p: string, ps: seq<string>, sep: string)
    requires |ps| > 0
    ensures Join([p] + ps, sep) == p + sep + Join(ps, sep)
  {
    assert ([p] + ps)[1..] == ps;
  }

  /** A string is its three pieces cut at `i` and `j`. */
  lemma CutAround<T>(s: seq<T>, i: nat, j: nat)
    requires i <= j <= |s|
    ensures s == s[..i] + s[i..j] + s[j..]
  {
  }

  /** Splitting a list of parts joined by a one-character separator that none of them holds gives the parts back. */
  lemma {:induction false} SplitJoin(parts: seq<string>, c: char)
    requires |parts| > 0
    requires forall i :: 0 <= i < |parts| ==> c !in parts[i]
    ensures Split(Join(parts, [c]), [c]) == parts
    decreases |parts|
  {
    var s := Join(parts, [c]);
    if |parts| == 1 {
      assert s == parts[0];
      forall j | 0 <= j < |s| ensures !OccursAt(s, [c], j) {
        assert s[j] in s;
        assert s[j..j + 1] == [s[j]];
      }
      assert IndexOf(s, [c]) < 0;
      assert Split(s, [c]) == [s];
    } else {
      var p, rest := parts[0], Join(parts[1..], [c]);
      assert s == p + [c] + rest;
      forall j | 0 <= j < |p| ensures !OccursAt(s, [c], j) {
        assert s[j] == p[j];
        assert p[j] in p;
      }
      assert OccursAt(s, [c], |p|);
      var k := IndexOf(s, [c]);
      assert k == |p|;
      assert s[..k] == p;
      assert s[k + 1..] == rest;
      SplitJoin(parts[1..], c);
    }
  }

  // ---------------------------------------------------------------------
  // The text after the last occurrence of a character
  // ---------------------------------------------------------------------

  /** `s.split(c)[-1]`, which is also `s.rsplit(c, 1)[-1]`. */
  function AfterLast(s: string, c: char): (r: string)
    ensures |r| <= |s| && r == s[|s| - |r|..]
    ensures c !in r
    ensures |r| < |s| ==> s[|s| - |r| - 1] == c
  {
    var k := LastBefore(s, c, |s|);
    var r := s[k + 1..];
    assert forall j :: 0 <= j < |r| ==> r[j] == s[k + 1 + j];
    r
  }

  /** The last index below `n` holding `c`, or -1. */
  function LastBefore(s: string, c: char, n: nat): (k: int)
    requires n <= |s|
    ensures -1 <= k < n
    ensures k >= 0 ==> s[k] == c
    ensures forall j :: k < j < n ==> s[j] != c
  {
    if n == 0 then -1
    else if s[n - 1] == c then n - 1
    else LastBefore(s, c, n - 1)
  }

  /** When `c` does not occur, the whole string is "after the last `c`". */
  lemma AfterLastAbsent(s: string, c: char)
    requires c !in s
    ensures AfterLast(s, c) == s
  {
  }

  /** The text after the last `c` of `a + [c] + b`, when `b` holds no `c`, is `b`. */
  lemma AfterLastOfJoin(a: string, b: string, c: char)
    requires c !in b
    ensures AfterLast(a + [c] + b, c) == b
    decreases |b|
  {
    var s := a + [c] + b;
    if b == [] {
    } else {
      assert b[|b| - 1] in b;
      assert s[..|s| - 1] == a + [c] + b[..|b| - 1];
      assert c !in b[..|b| - 1];
      AfterLastOfJoin(a, b[..|b| - 1], c);
    }
  }

  // ---------------------------------------------------------------------
  // Concatenation of a range of strings
  // ---------------------------------------------------------------------

  /** The strings at positions `lo` to `hi - 1`, one after the other: `"".join(bs[lo:hi])`. */
  function Concat(bs: seq<string>, lo: nat, hi: nat): string
    requires lo <= hi <= |bs|
    decreases hi - lo
  {
    if hi == lo then "" else Concat(bs, lo, hi - 1) + bs[hi - 1]
  }

  /** Splitting a range at `mid` splits its concatenation. */
  lemma {:induction false} ConcatSplit(bs: seq<string>, lo: nat, mid: nat, hi: nat)
    requires lo <= mid <= hi <= |bs|
    ensures Concat(bs, lo, hi) == Concat(bs, lo, mid) + Concat(bs, mid, hi)
    decreases hi - mid
  {
    if hi == mid {
      assert Concat(bs, lo, mid) + "" == Concat(bs, lo, mid);
    } else {
      ConcatSplit(bs, lo, mid, hi - 1);
      AppendAssoc(Concat(bs, lo, mid), Concat(bs, mid, hi - 1), bs[hi - 1]);
    }
  }

  /** A range of a prefix concatenates as the same range of the whole. */
  lemma {:induction false} ConcatPrefix(bs: seq<string>, n: nat)
    requires n <= |bs|
    ensures Concat(bs[..n], 0, n) == Concat(bs, 0, n)
    decreases n
  {
    if n > 0 {
      assert bs[..n][..n - 1] == bs[..n - 1];
      ConcatPrefix(bs[..n], n - 1);
      ConcatPrefix(bs, n - 1);
    }
  }

  lemma AppendAssoc<T>(a: seq<T>, b: seq<T>, c: seq<T>)
    ensures a + b + c == a + (b + c)
  {
  }
}
