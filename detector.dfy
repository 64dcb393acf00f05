/**
 * Content normalisation and page fingerprinting (detector.py).
 *
 * `Normalize` is `normalize_content`: `str.strip()` followed by
 * `re.sub(r"\s+", " ", ...)`.  `GetPageHash` is `get_page_hash` with the
 * network call turned into an input (`Fetch`) and the SHA-256 hex digest
 * turned into a parameter (`digest`).
 */
module Detector {
  import opened Wrappers

  /** Python's whitespace: the characters for which `str.isspace()` holds, which
      are also the ones `\s` matches in a `str` pattern and `str.strip()` removes. */
  predicate IsWhitespace(c: char) {
    || ('\t' <= c <= '\r')
    || ('\U{1C}' <= c <= '\U{1F}')
    || c == ' '
    || c == '\U{85}'
    || c == '\U{A0}'
    || c == '\U{1680}'
    || ('\U{2000}' <= c <= '\U{200A}')
    || c == '\U{2028}'
    || c == '\U{2029}'
    || c == '\U{202F}'
    || c == '\U{205F}'
    || c == '\U{3000}'
  }

  predicate AllWhitespace(s: string) {
    forall i :: 0 <= i < |s| ==> IsWhitespace(s[i])
  }

  predicate NoWhitespace(s: string) {
    forall i :: 0 <= i < |s| ==> !IsWhitespace(s[i])
  }

  /** The only whitespace is the plain space, and no two whitespace characters are adjacent. */
  ghost predicate SingleSpaced(s: string) {
    && (forall i :: 0 <= i < |s| && IsWhitespace(s[i]) ==> s[i] == ' ')
    && (forall i, j :: 0 <= i < j < |s| && j == i + 1 ==> !IsWhitespace(s[i]) || !IsWhitespace(s[j]))
  }

  function Last(s: string): char
    requires s != []
  {
    s[|s| - 1]
  }

  /** `str.lstrip()`: the suffix left after the leading whitespace run. */
  function StripLeft(s: string): (r: string)
    ensures |r| <= |s| && r == s[|s| - |r|..]
    ensures AllWhitespace(s[..|s| - |r|])
    ensures r == [] || !IsWhitespace(r[0])
  {
    if s != [] && IsWhitespace(s[0]) then
      var r := StripLeft(s[1..]);
      assert s[..|s| - |r|] == [s[0]] + s[1..][..|s| - 1 - |r|];
      r
    else s
  }

  /** `str.rstrip()`: the prefix left before the trailing whitespace run. */
  function StripRight(s: string): (r: string)
    ensures |r| <= |s| && r == s[..|r|]
    ensures AllWhitespace(s[|r|..])
    ensures r == [] || !IsWhitespace(r[|r| - 1])
  {
    if s != [] && IsWhitespace(s[|s| - 1]) then
      var r := StripRight(s[..|s| - 1]);
      assert s[|r|..] == s[..|s| - 1][|r|..] + [s[|s| - 1]];
      r
    else s
  }

  /** `str.strip()` with no argument. */
  function Strip(s: string): (r: string)
    ensures |r| <= |s|
    ensures r == [] || (!IsWhitespace(r[0]) && !IsWhitespace(Last(r)))
    ensures r == [] <==> AllWhitespace(s)
  {
    var left := StripLeft(s);
    assert left == [] ==> AllWhitespace(s) by {
      if left == [] { assert s[..|s| - |left|] == s; }
    }
    var r := StripRight(left);
    assert r != [] ==> r[0] == left[0];
    r
  }

  /** `re.sub(r"\s+", " ", s)`: every maximal whitespace run becomes one space. */
  function CollapseWhitespace(s: string): (r: string)
    ensures |r| <= |s|
    ensures r == [] <==> s == []
    ensures r != [] ==> (IsWhitespace(r[0]) <==> IsWhitespace(s[0]))
    ensures SingleSpaced(r)
    decreases |s|
  {
    if s == [] then []
    else if IsWhitespace(s[0]) then
      var rest := StripLeft(s);
      [' '] + CollapseWhitespace(rest)
    else
      [s[0]] + CollapseWhitespace(s[1..])
  }

  /** `normalize_content` (detector.py:6-14). */
  function Normalize(s: string): (r: string)
    ensures |r| <= |s|
    ensures r == [] || (!IsWhitespace(r[0]) && !IsWhitespace(Last(r)))
    ensures SingleSpaced(r)
    ensures r == [] <==> AllWhitespace(s)
  {
    var stripped := Strip(s);
    CollapseKeepsLastKind(stripped);
    CollapseWhitespace(stripped)
  }

  /** The characters of `s` that are not whitespace, in order. */
  function RemoveWhitespace(s: string): string {
    if s == [] then []
    else if IsWhitespace(s[0]) then RemoveWhitespace(s[1..])
    else [s[0]] + RemoveWhitespace(s[1..])
  }

  // ---------------------------------------------------------------------
  // Reference definition: `" ".join(s.split())`

  /** The longest prefix of `s` without whitespace. */
  function LeadingWord(s: string): (w: string)
    ensures |w| <= |s| && w == s[..|w|] && NoWhitespace(w)
    ensures |w| == |s| || IsWhitespace(s[|w|])
  {
    if s == [] || IsWhitespace(s[0]) then [] else [s[0]] + LeadingWord(s[1..])
  }

  /** `s.split()`: the maximal non-whitespace runs of `s`, in order. */
  function Words(s: string): (ws: seq<string>)
    ensures forall i :: 0 <= i < |ws| ==> ws[i] != [] && NoWhitespace(ws[i])
    decreases |s|
  {
    if s == [] then []
    else if IsWhitespace(s[0]) then Words(s[1..])
    else
      var w := LeadingWord(s);
      assert |w| > 0;
      [w] + Words(s[|w|..])
  }

  /** `" ".join(ws)` */
  function Join(ws: seq<string>): string {
    if ws == [] then []
    else if |ws| == 1 then ws[0]
    else ws[0] + [' '] + Join(ws[1..])
  }

  predicate ValidWords(ws: seq<string>) {
    forall i :: 0 <= i < |ws| ==> ws[i] != [] && NoWhitespace(ws[i])
  }

  // ---------------------------------------------------------------------
  // get_page_hash

  /** The parts of a `requests.Response` that `get_page_hash` depends on: the
      status code, with its reason phrase and final URL (both part of the
      error text), and the decoded body. */
  datatype Response = Response(statusCode: int, reason: string, url: string, text: string)

  /** What `requests.get` produced: the text of an exception it raised, or a response. */
  datatype Fetch = Raised(message: string) | Received(response: Response)

  /** The status codes for which `raise_for_status` raises. */
  predicate IsHttpError(code: int) {
    400 <= code < 600
  }

  function Digit(d: nat): (c: char)
    requires d < 10
    ensures '0' <= c <= '9'
  {
    "0123456789"[d]
  }

  /** The decimal representation of `n`, as `str(n)` writes it. */
  function DecimalText(n: nat): (t: string)
    ensures t != [] && forall i :: 0 <= i < |t| ==> '0' <= t[i] <= '9'
  {
    if n < 10 then [Digit(n)] else DecimalText(n / 10) + [Digit(n % 10)]
  }

  /** The text of the `HTTPError` that `raise_for_status` raises, in the layout
      of the requests library: the status code comes first. */
  function HttpErrorText(r: Response): (t: string)
    requires IsHttpError(r.statusCode)
    ensures DecimalText(r.statusCode) <= t
  {
    var kind := if r.statusCode < 500 then " Client Error: " else " Server Error: ";
    DecimalText(r.statusCode) + kind + r.reason + " for url: " + r.url
  }

  /** `get_page_hash` (detector.py:17-28): fail on an exception or an HTTP error
      status, otherwise digest the normalised body. */
  function GetPageHash(fetch: Fetch, digest: string -> string): (r: Result<string, string>)
    ensures r.Success? <==> fetch.Received? && !IsHttpError(fetch.response.statusCode)
  {
    match fetch
    case Raised(message) => Failure(message)
    case Received(response) =>
      if IsHttpError(response.statusCode) then Failure(HttpErrorText(response))
      else Success(digest(Normalize(response.text)))
  }

  /** Two responses whose bodies have the same words get the same fingerprint. */
  lemma HashIgnoresWhitespaceLayout(a: Response, b: Response, digest: string -> string)
    requires a.statusCode == b.statusCode && a.reason == b.reason && a.url == b.url
    requires Words(a.text) == Words(b.text)
    ensures GetPageHash(Received(a), digest) == GetPageHash(Received(b), digest)
  {
    if IsHttpError(a.statusCode) {
      assert a.(text := b.text) == b;
    } else {
      NormalizeEqualIffSameWords(a.text, b.text);
    }
  }

  /** With a collision-free digest, two successful responses get the same
      fingerprint exactly when their bodies have the same words. */
  lemma HashDetectsWordChanges(a: Response, b: Response, digest: string -> string)
    requires forall x, y :: digest(x) == digest(y) ==> x == y
    requires !IsHttpError(a.statusCode) && !IsHttpError(b.statusCode)
    ensures GetPageHash(Received(a), digest) == GetPageHash(Received(b), digest)
        <==> Words(a.text) == Words(b.text)
  {
    NormalizeEqualIffSameWords(a.text, b.text);
  }

  // ---------------------------------------------------------------------
  // Properties of Strip

  /** `lstrip` removes exactly a leading whitespace run. */
  lemma {:induction false} StripLeftOfPadded(p: string, u: string)
    requires AllWhitespace(p)
    requires u == [] || !IsWhitespace(u[0])
    ensures StripLeft(p + u) == u
    decreases |p|
  {
    if p == [] {
      assert p + u == u;
    } else {
      assert (p + u)[1..] == p[1..] + u;
      StripLeftOfPadded(p[1..], u);
    }
  }

  /** `rstrip` removes exactly a trailing whitespace run. */
  lemma {:induction false} StripRightOfPadded(u: string, q: string)
    requires AllWhitespace(q)
    requires u == [] || !IsWhitespace(Last(u))
    ensures StripRight(u + q) == u
    decreases |q|
  {
    if q == [] {
      assert u + q == u;
    } else {
      assert (u + q)[..|u + q| - 1] == u + q[..|q| - 1];
      StripRightOfPadded(u, q[..|q| - 1]);
    }
  }

  /** A text that neither starts nor ends with whitespace is already stripped. */
  lemma StripOfStripped(u: string)
    requires u == [] || (!IsWhitespace(u[0]) && !IsWhitespace(Last(u)))
    ensures Strip(u) == u
  {
    assert StripLeft(u) == u;
    assert StripRight(u) == u;
  }

  /** `strip` gives back any text that neither starts nor ends with whitespace,
      whatever whitespace surrounds it. */
  lemma {:induction false} StripOfPadded(p: string, u: string, q: string)
    requires AllWhitespace(p) && AllWhitespace(q)
    requires u == [] || (!IsWhitespace(u[0]) && !IsWhitespace(Last(u)))
    ensures Strip(p + u + q) == u
  {
    AppendAssociative(p, u, q);
    if u == [] {
      assert AllWhitespace(p + u + q);
    } else {
      StripLeftOfPadded(p, u + q);
      StripRightOfPadded(u, q);
    }
  }

  // ---------------------------------------------------------------------
  // Properties of Normalize

  /** Characterisation: `normalize_content(s) == " ".join(s.split())`. */
  lemma {:induction false} NormalizeIsJoinOfWords(s: string)
    ensures Normalize(s) == Join(Words(s))
  {
    WordsOfStrip(s);
    CollapseOfStripped(Strip(s));
  }

  /** Normalising never changes the words of a text. */
  lemma {:induction false} WordsOfNormalize(s: string)
    ensures Words(Normalize(s)) == Words(s)
  {
    NormalizeIsJoinOfWords(s);
    WordsOfJoin(Words(s));
  }

  /** `normalize_content` is idempotent. */
  lemma {:induction false} NormalizeIdempotent(s: string)
    ensures Normalize(Normalize(s)) == Normalize(s)
  {
    NormalizeIsJoinOfWords(Normalize(s));
    WordsOfNormalize(s);
    NormalizeIsJoinOfWords(s);
  }

  /** A text that is already single words separated by single spaces is left as it is. */
  lemma NormalizeOfJoin(ws: seq<string>)
    requires ValidWords(ws)
    ensures Normalize(Join(ws)) == Join(ws)
  {
    NormalizeIsJoinOfWords(Join(ws));
    WordsOfJoin(ws);
  }

  /** Two texts normalise equally exactly when they differ only in where and how
      much whitespace separates their words. */
  lemma {:induction false} NormalizeEqualIffSameWords(s: string, t: string)
    ensures Normalize(s) == Normalize(t) <==> Words(s) == Words(t)
  {
    NormalizeIsJoinOfWords(s);
    NormalizeIsJoinOfWords(t);
    WordsOfNormalize(s);
    WordsOfNormalize(t);
  }

  /** Every non-whitespace character survives, in order, and no other is added. */
  lemma {:induction false} NormalizeKeepsNonWhitespace(s: string)
    ensures RemoveWhitespace(Normalize(s)) == RemoveWhitespace(s)
  {
    RemoveWhitespaceOfStripLeft(s);
    RemoveWhitespaceOfStripRight(StripLeft(s));
    RemoveWhitespaceOfCollapse(Strip(s));
  }

  /** Any non-empty whitespace gap, wherever it stands in the text, however long
      and whatever its characters (spaces, tabs, blank lines), normalises like a
      single space. */
  lemma WhitespaceGapIsOneSpace(before: string, gap: string, after: string)
    requires gap != [] && AllWhitespace(gap)
    ensures Normalize(before + gap + after) == Normalize(before + " " + after)
  {
    WordsAroundGap(before, gap, after);
    WordsAroundGap(before, " ", after);
    NormalizeEqualIffSameWords(before + gap + after, before + " " + after);
  }

  /** Two gaps at once: `a + g1 + b + g2 + c` normalises like `a + " " + b + " " + c`,
      e.g. `"a   b\n\nc"` like `"a b c"`. */
  lemma {:induction false} TwoGapsAreSpaces(a: string, g1: string, b: string, g2: string, c: string)
    requires g1 != [] && AllWhitespace(g1)
    requires g2 != [] && AllWhitespace(g2)
    ensures Normalize(a + g1 + b + g2 + c) == Normalize(a + " " + b + " " + c)
  {
    WordsAroundGap(a, g1, b);
    WordsAroundGap(a + g1 + b, g2, c);
    WordsAroundGap(a, " ", b);
    WordsAroundGap(a + " " + b, " ", c);
    NormalizeEqualIffSameWords(a + g1 + b + g2 + c, a + " " + b + " " + c);
  }

  // ---------------------------------------------------------------------
  // Helper lemmas

  lemma {:induction false} RemoveWhitespaceAppend(s: string, t: string)
    ensures RemoveWhitespace(s + t) == RemoveWhitespace(s) + RemoveWhitespace(t)
  {
    if s == [] {
      assert s + t == t;
    } else {
      assert (s + t)[1..] == s[1..] + t;
      RemoveWhitespaceAppend(s[1..], t);
    }
  }

  lemma {:induction false} RemoveWhitespaceOfAllWhitespace(s: string)
    requires AllWhitespace(s)
    ensures RemoveWhitespace(s) == []
  {
    if s != [] {
      RemoveWhitespaceOfAllWhitespace(s[1..]);
    }
  }

  lemma RemoveWhitespaceOfStripLeft(s: string)
    ensures RemoveWhitespace(StripLeft(s)) == RemoveWhitespace(s)
  {
    var r := StripLeft(s);
    var gap := s[..|s| - |r|];
    assert s == gap + r;
    RemoveWhitespaceAppend(gap, r);
    RemoveWhitespaceOfAllWhitespace(gap);
  }

  lemma RemoveWhitespaceOfStripRight(s: string)
    ensures RemoveWhitespace(StripRight(s)) == RemoveWhitespace(s)
  {
    var r := StripRight(s);
    var gap := s[|r|..];
    assert s == r + gap;
    RemoveWhitespaceAppend(r, gap);
    RemoveWhitespaceOfAllWhitespace(gap);
  }

  lemma {:induction false} RemoveWhitespaceOfCollapse(s: string)
    ensures RemoveWhitespace(CollapseWhitespace(s)) == RemoveWhitespace(s)
    decreases |s|
  {
    if s == [] {
    } else if IsWhitespace(s[0]) {
      var rest := StripLeft(s);
      RemoveWhitespaceOfCollapse(rest);
      RemoveWhitespaceOfStripLeft(s);
      assert RemoveWhitespace([' '] + CollapseWhitespace(rest)) == RemoveWhitespace(CollapseWhitespace(rest));
    } else {
      RemoveWhitespaceOfCollapse(s[1..]);
      assert ([s[0]] + CollapseWhitespace(s[1..]))[1..] == CollapseWhitespace(s[1..]);
    }
  }

  /** Collapsing keeps whether the text ends in whitespace. */
  lemma {:induction false} CollapseKeepsLastKind(s: string)
    ensures CollapseWhitespace(s) != [] ==>
      (IsWhitespace(Last(CollapseWhitespace(s))) <==> IsWhitespace(Last(s)))
    decreases |s|
  {
    if s == [] {
    } else if IsWhitespace(s[0]) {
      var rest := StripLeft(s);
      assert CollapseWhitespace(s) == [' '] + CollapseWhitespace(rest);
      if rest == [] {
        assert s[..|s| - |rest|] == s;
        assert IsWhitespace(Last(s));
      } else {
        CollapseKeepsLastKind(rest);
        assert Last(rest) == Last(s);
        assert Last(CollapseWhitespace(s)) == Last(CollapseWhitespace(rest));
      }
    } else {
      var tail := s[1..];
      assert CollapseWhitespace(s) == [s[0]] + CollapseWhitespace(tail);
      if tail == [] {
        assert CollapseWhitespace(s) == [s[0]];
      } else {
        CollapseKeepsLastKind(tail);
        assert Last(tail) == Last(s);
        assert Last(CollapseWhitespace(s)) == Last(CollapseWhitespace(tail));
      }
    }
  }

  /** Collapsing a text that starts with a word emits that word first. */
  lemma {:induction false} CollapseAfterWord(s: string)
    requires s != [] && !IsWhitespace(s[0])
    ensures CollapseWhitespace(s) == LeadingWord(s) + CollapseWhitespace(s[|LeadingWord(s)|..])
    decreases |s|
  {
    var t := s[1..];
    assert CollapseWhitespace(s) == [s[0]] + CollapseWhitespace(t);
    if t == [] || IsWhitespace(t[0]) {
      assert LeadingWord(t) == [];
      assert LeadingWord(s) == [s[0]];
      assert s[|LeadingWord(s)|..] == t;
    } else {
      var w := LeadingWord(t);
      var rest := t[|w|..];
      CollapseAfterWord(t);
      assert LeadingWord(s) == [s[0]] + w;
      assert s[|LeadingWord(s)|..] == rest;
      AppendAssociative([s[0]], w, CollapseWhitespace(rest));
    }
  }

  lemma {:induction false} WordsOfStripLeft(s: string)
    ensures Words(StripLeft(s)) == Words(s)
    decreases |s|
  {
    if s != [] && IsWhitespace(s[0]) {
      WordsOfStripLeft(s[1..]);
    }
  }

  lemma {:induction false} LeadingWordAppendWhitespace(s: string, c: char)
    requires IsWhitespace(c)
    ensures LeadingWord(s + [c]) == LeadingWord(s)
  {
    if s != [] && !IsWhitespace(s[0]) {
      assert (s + [c])[1..] == s[1..] + [c];
      LeadingWordAppendWhitespace(s[1..], c);
    }
  }

  lemma {:induction false} WordsAppendWhitespace(s: string, c: char)
    requires IsWhitespace(c)
    ensures Words(s + [c]) == Words(s)
    decreases |s|
  {
    if s == [] {
      assert Words([c]) == Words([c][1..]);
    } else if IsWhitespace(s[0]) {
      assert (s + [c])[1..] == s[1..] + [c];
      WordsAppendWhitespace(s[1..], c);
    } else {
      var w := LeadingWord(s);
      LeadingWordAppendWhitespace(s, c);
      assert (s + [c])[|w|..] == s[|w|..] + [c];
      WordsAppendWhitespace(s[|w|..], c);
    }
  }

  lemma {:induction false} WordsOfStripRight(s: string)
    ensures Words(StripRight(s)) == Words(s)
    decreases |s|
  {
    if s != [] && IsWhitespace(s[|s| - 1]) {
      var init := s[..|s| - 1];
      WordsOfStripRight(init);
      assert s == init + [s[|s| - 1]];
      WordsAppendWhitespace(init, s[|s| - 1]);
    }
  }

  lemma WordsOfStrip(s: string)
    ensures Words(Strip(s)) == Words(s)
  {
    WordsOfStripLeft(s);
    WordsOfStripRight(StripLeft(s));
  }

  /** A whitespace gap separates words: the words around it are the words before
      it followed by the words after it. */
  lemma {:induction false} WordsAroundGap(a: string, gap: string, b: string)
    requires gap != [] && AllWhitespace(gap)
    ensures Words(a + gap + b) == Words(a) + Words(b)
    decreases |a|
  {
    var s := a + gap + b;
    if a == [] {
      assert s == gap + b;
      WordsAfterGap(gap, b);
    } else if IsWhitespace(a[0]) {
      assert s[1..] == a[1..] + gap + b;
      WordsAroundGap(a[1..], gap, b);
    } else {
      var w := LeadingWord(a);
      var t := a[|w|..] + gap + b;
      assert a == w + a[|w|..];
      assert s == w + t;
      LeadingWordOfWordThen(w, t);
      assert s[|w|..] == t;
      WordsAroundGap(a[|w|..], gap, b);
    }
  }

  lemma {:induction false} WordsAfterGap(gap: string, rest: string)
    requires AllWhitespace(gap)
    ensures Words(gap + rest) == Words(rest)
  {
    if gap == [] {
      assert gap + rest == rest;
    } else {
      assert (gap + rest)[1..] == gap[1..] + rest;
      WordsAfterGap(gap[1..], rest);
    }
  }

  lemma AppendAssociative(a: string, b: string, c: string)
    ensures a + (b + c) == a + b + c
  {
  }

  lemma JoinCons(w: string, ws: seq<string>)
    requires ws != []
    ensures Join([w] + ws) == w + [' '] + Join(ws)
  {
    assert ([w] + ws)[1..] == ws;
  }

  /** Stripping leading whitespace from a text that ends in a non-whitespace
      character leaves that character last. */
  lemma {:induction false} StripLeftKeepsLast(s: string)
    requires s != [] && !IsWhitespace(Last(s))
    ensures StripLeft(s) != [] && Last(StripLeft(s)) == Last(s)
  {
    if IsWhitespace(s[0]) {
      StripLeftKeepsLast(s[1..]);
    }
  }

  /** On a text without surrounding whitespace, collapsing is joining its words. */
  lemma {:induction false} CollapseOfStripped(x: string)
    requires x == [] || (!IsWhitespace(x[0]) && !IsWhitespace(Last(x)))
    ensures CollapseWhitespace(x) == Join(Words(x))
    decreases |x|
  {
    if x != [] {
      var w := LeadingWord(x);
      var rest := x[|w|..];
      CollapseAfterWord(x);
      assert Words(x) == [w] + Words(rest);
      if rest == [] {
        assert Join([w]) == w;
        assert w + [] == w;
      } else {
        assert Last(rest) == Last(x);
        var y := StripLeft(rest);
        StripLeftKeepsLast(rest);
        assert CollapseWhitespace(rest) == [' '] + CollapseWhitespace(y);
        WordsOfStripLeft(rest);
        CollapseOfStripped(y);
        assert Words(y) != [];
        JoinCons(w, Words(y));
        AppendAssociative(w, [' '], Join(Words(y)));
      }
    }
  }

  lemma {:induction false} LeadingWordOfWordThen(w: string, t: string)
    requires NoWhitespace(w)
    requires t == [] || IsWhitespace(t[0])
    ensures LeadingWord(w + t) == w
  {
    if w != [] {
      assert (w + t)[1..] == w[1..] + t;
      LeadingWordOfWordThen(w[1..], t);
    }
  }

  lemma {:induction false} WordsOfJoin(ws: seq<string>)
    requires ValidWords(ws)
    ensures Words(Join(ws)) == ws
  {
    if ws == [] {
    } else if |ws| == 1 {
      var w := ws[0];
      LeadingWordOfWordThen(w, []);
      assert w + [] == w;
      assert w[|w|..] == [];
    } else {
      var w, j := ws[0], Join(ws[1..]);
      var t := [' '] + j;
      assert Join(ws) == w + t;
      LeadingWordOfWordThen(w, t);
      assert (w + t)[|w|..] == t;
      assert Words(t) == Words(j) by { assert t[1..] == j; }
      WordsOfJoin(ws[1..]);
    }
  }
}
