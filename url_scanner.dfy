/** `BaseParser.URL_RE.findall`: the non-overlapping, left-to-right matches of
    `((http|https)://([\w:@\-\./]*?)[^ \n\r\t"'<>]*)`. The lazy host group
    accepts only characters the greedy tail accepts as well, so a match is
    `http://` or `https://` followed by the longest run of characters other
    than space, `\n`, `\r`, `\t`, `"`, `'`, `<` and `>`. */
module UrlScanner {

  /** The characters the tail class `[^ \n\r\t"'<>]` excludes. */
  const StopChars: set<char> := {' ', '\n', '\r', '\t', '"', '\'', '<', '>'}

  /** True for a character the tail of the pattern accepts. */
  predicate IsUrlChar(c: char)
  {
    c !in StopChars
  }

  /** True when `w` occurs in `s` at position `p`. */
  predicate HasAt(s: string, p: nat, w: string)
  {
    p + |w| <= |s| && s[p..p + |w|] == w
  }

  /** True when a match of the pattern starts at `p`. */
  predicate SchemeAt(s: string, p: nat)
  {
    HasAt(s, p, "http://") || HasAt(s, p, "https://")
  }

  /** The length of the scheme part `http://` or `https://` at `p`
      (the alternation tries `http` first). */
  function SchemeLen(s: string, p: nat): (n: nat)
    requires SchemeAt(s, p)
    ensures n == 7 || n == 8
    ensures p + n <= |s| && HasAt(s, p, if n == 7 then "http://" else "https://")
  {
    if HasAt(s, p, "http://") then 7 else 8
  }

  /** Where the greedy tail that starts at `i` stops: the first character
      the tail does not accept, or the end of the text. */
  function RunEnd(s: string, i: nat): (e: nat)
    requires i <= |s|
    ensures i <= e <= |s|
    ensures forall k :: i <= k < e ==> IsUrlChar(s[k])
    ensures e == |s| || !IsUrlChar(s[e])
    decreases |s| - i
  {
    if i == |s| || !IsUrlChar(s[i]) then i else RunEnd(s, i + 1)
  }

  /** A match, as the half-open range `[start, end)` of the text. */
  datatype Span = Span(start: nat, end: nat) {
    /** True when position `q` lies in the match. */
    predicate Contains(q: nat)
    {
      start <= q < end
    }
  }

  /** True when `m` is the match the pattern makes at `m.start`. */
  predicate IsMatch(s: string, m: Span)
  {
    m.start < |s| && SchemeAt(s, m.start) && m.end == RunEnd(s, m.start + SchemeLen(s, m.start))
  }

  /** The matches `findall` makes from position `p` on: where a match
      starts it is taken whole and the scan resumes after it; elsewhere the
      scan moves on by one character. */
  function MatchesFrom(s: string, p: nat): (r: seq<Span>)
    requires p <= |s|
    ensures forall k :: 0 <= k < |r| ==> p <= r[k].start && IsMatch(s, r[k])
    ensures forall i, j :: 0 <= i < j < |r| ==> r[i].end <= r[j].start
    decreases |s| - p
  {
    if p == |s| then []
    else if SchemeAt(s, p) then
      var e := RunEnd(s, p + SchemeLen(s, p));
      [Span(p, e)] + MatchesFrom(s, e)
    else MatchesFrom(s, p + 1)
  }

  /** The matches in the whole text, in order. */
  function Matches(s: string): seq<Span>
  {
    MatchesFrom(s, 0)
  }

  /** `URL_RE.findall(s)`, reduced to the whole match of each tuple
      (`url[0]`). */
  function FindAll(s: string): (r: seq<string>)
    ensures |r| == |Matches(s)|
  {
    var ms := Matches(s);
    seq(|ms|, k requires 0 <= k < |ms| => s[ms[k].start..ms[k].end])
  }

  /** The scheme part of a match holds no stop character. */
  lemma SchemeAccepted(w: string)
    requires w == "http://" || w == "https://"
    ensures forall i :: 0 <= i < |w| ==> IsUrlChar(w[i])
  {
  }

  /** Every candidate starts with `http://` or `https://` and holds none of
      the stop characters. */
  lemma CandidateShape(s: string, k: nat)
    requires k < |FindAll(s)|
    ensures var c := FindAll(s)[k];
      (|c| >= 7 && c[..7] == "http://") || (|c| >= 8 && c[..8] == "https://")
    ensures forall i :: 0 <= i < |FindAll(s)[k]| ==> IsUrlChar(FindAll(s)[k][i])
  {
    var m := Matches(s)[k];
    var c := FindAll(s)[k];
    var n := SchemeLen(s, m.start);
    var w := if n == 7 then "http://" else "https://";
    assert c == s[m.start..m.end];
    assert c[..n] == w;
    SchemeAccepted(w);
    forall i | 0 <= i < |c| ensures IsUrlChar(c[i]) {
      if i >= n {
        assert c[i] == s[m.start + i];
      } else {
        assert c[i] == w[i];
      }
    }
  }

  /** No scheme occurrence is skipped: every position where `http://` or
      `https://` occurs lies inside some match (at its start, or within a
      match that began earlier). */
  lemma {:induction false} MatchesCover(s: string, p: nat, q: nat)
    requires p <= q < |s| && SchemeAt(s, q)
    ensures exists k :: 0 <= k < |MatchesFrom(s, p)| && MatchesFrom(s, p)[k].Contains(q)
    decreases |s| - p
  {
    if SchemeAt(s, p) {
      var e := RunEnd(s, p + SchemeLen(s, p));
      var rest := MatchesFrom(s, e);
      var r := [Span(p, e)] + rest;
      assert MatchesFrom(s, p) == r;
      if q < e {
        assert r[0].Contains(q);
      } else {
        MatchesCover(s, e, q);
        var k :| 0 <= k < |rest| && rest[k].Contains(q);
        assert r[k + 1] == rest[k];
      }
    } else {
      assert MatchesFrom(s, p) == MatchesFrom(s, p + 1);
      MatchesCover(s, p + 1, q);
    }
  }

  /** `findall` yields nothing exactly when the text holds no `http://` and
      no `https://`. */
  lemma NoCandidatesIffNoScheme(s: string)
    ensures FindAll(s) == [] <==> forall q :: 0 <= q < |s| ==> !SchemeAt(s, q)
  {
    if FindAll(s) != [] {
      assert SchemeAt(s, Matches(s)[0].start);
    }
    if exists q :: 0 <= q < |s| && SchemeAt(s, q) {
      var q :| 0 <= q < |s| && SchemeAt(s, q);
      MatchesCover(s, 0, q);
    }
  }
}
