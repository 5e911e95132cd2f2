/**
 * The site counts of a "Finished scan" line: the leftmost match of the pattern
 * `Visited (\d+) sites and errored on (\d+)`, with both groups read as decimal numbers.
 */
module SiteCounts {
  import opened Results
  import opened Strings

  const VisitedMarker := "Visited "
  const ErroredMarker := " sites and errored on "

  /** The two numbers a scan reports: sites visited and sites that errored. */
  datatype SiteCount = SiteCount(visited: nat, errored: nat)

  /** The value of the longest digit run at `i`, as `int()` reads it. */
  function RunValue(s: string, i: nat): nat
    requires i <= |s|
  {
    DigitRunMaximal(s, i);
    DigitsValue(s[i..i + DigitRun(s, i)])
  }

  /** Two numbers read at index `a`: a digit run, the errored marker, a digit run. */
  function CountsAt(line: string, a: nat): Option<SiteCount>
    requires a <= |line|
  {
    var n1 := DigitRun(line, a);
    if n1 == 0 || !OccursAt(line, ErroredMarker, a + n1) then None
    else
      var b := a + n1 + |ErroredMarker|;
      if DigitRun(line, b) == 0 then None
      else Some(SiteCount(RunValue(line, a), RunValue(line, b)))
  }

  /**
   * The pattern anchored at index `i`. A greedy `\d+` followed by a space can only
   * end where the digits end, so each group is the longest digit run at its place.
   */
  function MatchAt(line: string, i: nat): (r: Option<SiteCount>)
    requires i <= |line|
    ensures r.Some? ==> OccursAt(line, VisitedMarker, i)
    ensures r.Some? ==> i < |line| && line[i] == 'V'
  {
    if OccursAt(line, VisitedMarker, i) then CountsAt(line, i + |VisitedMarker|) else None
  }

  /** The pattern matches nowhere in `[from, to)`. */
  predicate NoMatchIn(line: string, from: nat, to: nat)
    requires to <= |line| + 1
  {
    forall k: nat | from <= k < to :: MatchAt(line, k).None?
  }

  /** Where the leftmost match at index `i` or later starts. */
  function FindFrom(line: string, i: nat): (r: Option<nat>)
    requires i <= |line|
    ensures r.Some? ==> i <= r.value <= |line|
    decreases |line| - i
  {
    if MatchAt(line, i).Some? then Some(i)
    else if i == |line| then None
    else FindFrom(line, i + 1)
  }

  /** `FindFrom` finds the leftmost match from `i` on, and finds nothing only when there is none. */
  lemma {:induction false} FindFromLeftmost(line: string, i: nat)
    requires i <= |line|
    ensures FindFrom(line, i).None? ==> NoMatchIn(line, i, |line| + 1)
    ensures FindFrom(line, i).Some? ==>
      var j := FindFrom(line, i).value;
      i <= j <= |line| && MatchAt(line, j).Some? && NoMatchIn(line, i, j)
    decreases |line| - i
  {
    if MatchAt(line, i).None? && i < |line| {
      FindFromLeftmost(line, i + 1);
      var r := FindFrom(line, i + 1);
      assert FindFrom(line, i) == r;
      NoMatchExtend(line, i, if r.Some? then r.value else |line| + 1);
    }
  }

  lemma NoMatchExtend(line: string, i: nat, j: nat)
    requires i < j <= |line| + 1
    requires MatchAt(line, i).None? && NoMatchIn(line, i + 1, j)
    ensures NoMatchIn(line, i, j)
  {
  }

  /**
   * `re.search` of the site-count pattern over the whole line; `None` when it does not occur.
   * A line without the literal "Visited " cannot match.
   */
  function Search(line: string): (r: Option<SiteCount>)
    ensures r.Some? ==> Contains(line, VisitedMarker)
  {
    match FindFrom(line, 0)
    case None => None
    case Some(j) => MatchAt(line, j)
  }

  /**
   * The search fails exactly when the pattern matches nowhere; otherwise it reads the
   * match that starts leftmost.
   */
  lemma SearchLeftmost(line: string)
    ensures Search(line).None? <==> NoMatchIn(line, 0, |line| + 1)
    ensures forall j: nat | j <= |line| && MatchAt(line, j).Some? && NoMatchIn(line, 0, j) ::
      Search(line) == MatchAt(line, j)
  {
    FindFromLeftmost(line, 0);
    forall j: nat | j <= |line| && MatchAt(line, j).Some? && NoMatchIn(line, 0, j)
      ensures Search(line) == MatchAt(line, j)
    {
      var k := FindFrom(line, 0).value;
      assert !(k < j) && !(j < k);
    }
  }

  /** The text a scan writes for its site counts. */
  function Render(sc: SiteCount): string {
    VisitedMarker + Show(sc.visited) + ErroredMarker + Show(sc.errored)
  }

  /** Two digit runs around the errored marker, the second not continued by a digit, read as their values. */
  lemma CountsAtReads(s: string, a: nat, d1: string, d2: string)
    requires AllDigits(d1) && AllDigits(d2) && d1 != [] && d2 != []
    requires OccursAt(s, d1, a)
    requires OccursAt(s, ErroredMarker, a + |d1|)
    requires OccursAt(s, d2, a + |d1| + |ErroredMarker|)
    requires a + |d1| + |ErroredMarker| + |d2| == |s| || !IsDigit(s[a + |d1| + |ErroredMarker| + |d2|])
    ensures CountsAt(s, a) == Some(SiteCount(DigitsValue(d1), DigitsValue(d2)))
  {
    var b := a + |d1| + |ErroredMarker|;
    assert DigitRun(s, a) == |d1| by {
      assert s[a + |d1|..b] == ErroredMarker;
      assert s[a + |d1|] == ErroredMarker[0] == ' ';
      DigitRunOf(s, a, d1);
    }
    assert DigitRun(s, b) == |d2| by {
      DigitRunOf(s, b, d2);
    }
    CountsAtOfRuns(s, a, d1, d2);
  }

  lemma CountsAtOfRuns(s: string, a: nat, d1: string, d2: string)
    requires AllDigits(d1) && AllDigits(d2) && d1 != [] && d2 != []
    requires OccursAt(s, d1, a)
    requires OccursAt(s, ErroredMarker, a + |d1|)
    requires OccursAt(s, d2, a + |d1| + |ErroredMarker|)
    requires DigitRun(s, a) == |d1|
    requires DigitRun(s, a + |d1| + |ErroredMarker|) == |d2|
    ensures CountsAt(s, a) == Some(SiteCount(DigitsValue(d1), DigitsValue(d2)))
  {
  }

  /** No match starts inside text that holds no 'V'. */
  lemma NoMatchInText(pre: string, rest: string)
    requires 'V' !in pre
    ensures NoMatchIn(pre + rest, 0, |pre|)
  {
    var s := pre + rest;
    forall j: nat | j < |pre|
      ensures MatchAt(s, j).None?
    {
      assert s[j] == pre[j];
    }
  }

  /** Where the pieces of a line built as `pre + m1 + d1 + m2 + d2 + post` sit. */
  lemma PiecesAt(pre: string, m1: string, d1: string, m2: string, d2: string, post: string)
    ensures var s := pre + m1 + d1 + m2 + d2 + post;
      && OccursAt(s, m1, |pre|)
      && OccursAt(s, d1, |pre| + |m1|)
      && OccursAt(s, m2, |pre| + |m1| + |d1|)
      && OccursAt(s, d2, |pre| + |m1| + |d1| + |m2|)
      && (post != [] ==> s[|pre| + |m1| + |d1| + |m2| + |d2|] == post[0])
  {
    var x1 := pre + m1;
    var x2 := x1 + d1;
    var x3 := x2 + m2;
    var x4 := x3 + d2;
    OccursAtEnd(pre, m1);
    OccursAtEnd(x1, d1);
    OccursAtEnd(x2, m2);
    OccursAtEnd(x3, d2);
    OccursExtend(x1, m1, |pre|, d1);
    OccursExtend(x2, m1, |pre|, m2);
    OccursExtend(x3, m1, |pre|, d2);
    OccursExtend(x4, m1, |pre|, post);
    OccursExtend(x2, d1, |x1|, m2);
    OccursExtend(x3, d1, |x1|, d2);
    OccursExtend(x4, d1, |x1|, post);
    OccursExtend(x3, m2, |x2|, d2);
    OccursExtend(x4, m2, |x2|, post);
    OccursExtend(x4, d2, |x3|, post);
  }

  lemma OccursAtEnd(x: string, y: string)
    ensures OccursAt(x + y, y, |x|)
  {
    assert (x + y)[|x|..] == y;
  }

  lemma OccursExtend(s: string, pat: string, k: nat, t: string)
    requires OccursAt(s, pat, k)
    ensures OccursAt(s + t, pat, k)
  {
    assert (s + t)[k..k + |pat|] == s[k..k + |pat|];
  }

  /** Two digit runs written around the markers, the second not continued by a digit, match where the first marker starts. */
  lemma MatchAtPieces(pre: string, d1: string, d2: string, post: string)
    requires AllDigits(d1) && AllDigits(d2) && d1 != [] && d2 != []
    requires post == [] || !IsDigit(post[0])
    ensures MatchAt(pre + VisitedMarker + d1 + ErroredMarker + d2 + post, |pre|) ==
      Some(SiteCount(DigitsValue(d1), DigitsValue(d2)))
  {
    var s := pre + VisitedMarker + d1 + ErroredMarker + d2 + post;
    PiecesAt(pre, VisitedMarker, d1, ErroredMarker, d2, post);
    CountsAtReads(s, |pre| + |VisitedMarker|, d1, d2);
  }

  /**
   * The text of a match and what follows it: "Visited ", a digit run, the errored marker and a
   * digit run that no digit continues, with the count read from the two runs.
   */
  predicate Shape(t: string, d1: string, d2: string, post: string, sc: SiteCount) {
    && AllDigits(d1) && AllDigits(d2) && d1 != [] && d2 != []
    && (post == [] || !IsDigit(post[0]))
    && t == VisitedMarker + d1 + ErroredMarker + d2 + post
    && sc == SiteCount(DigitsValue(d1), DigitsValue(d2))
  }

  /** A match at `i` is two maximal digit runs around the errored marker, read as their values. */
  lemma MatchAtShape(line: string, i: nat, sc: SiteCount)
    requires i <= |line| && MatchAt(line, i) == Some(sc)
    ensures exists d1, d2, post :: Shape(line[i..], d1, d2, post, sc)
  {
    CountsAtShape(line, i, sc);
  }

  /** "Visited " at `i` and a successful read after it give the shape from `i`. */
  lemma CountsAtShape(line: string, i: nat, sc: SiteCount)
    requires OccursAt(line, VisitedMarker, i) && CountsAt(line, i + |VisitedMarker|) == Some(sc)
    ensures exists d1, d2, post :: Shape(line[i..], d1, d2, post, sc)
  {
    var a := i + |VisitedMarker|;
    var n1 := DigitRun(line, a);
    assert 0 < n1 && OccursAt(line, ErroredMarker, a + n1);
    var b := a + n1 + |ErroredMarker|;
    assert 0 < DigitRun(line, b) && sc == SiteCount(RunValue(line, a), RunValue(line, b));
    RunsShape(line, i, a, b, sc);
  }

  /** The longest digit runs at `a` and `b` around the errored marker give the shape from `i`. */
  lemma RunsShape(line: string, i: nat, a: nat, b: nat, sc: SiteCount)
    requires OccursAt(line, VisitedMarker, i) && a == i + |VisitedMarker|
    requires 0 < DigitRun(line, a) && OccursAt(line, ErroredMarker, a + DigitRun(line, a))
    requires b == a + DigitRun(line, a) + |ErroredMarker|
    requires 0 < DigitRun(line, b) && sc == SiteCount(RunValue(line, a), RunValue(line, b))
    ensures exists d1, d2, post :: Shape(line[i..], d1, d2, post, sc)
  {
    var n1, n2 := DigitRun(line, a), DigitRun(line, b);
    DigitRunMaximal(line, a);
    DigitRunMaximal(line, b);
    assert AllDigits(line[a..a + n1]) && AllDigits(line[b..b + n2]);
    assert b + n2 < |line| ==> !IsDigit(line[b + n2]);
    assert sc == SiteCount(DigitsValue(line[a..a + n1]), DigitsValue(line[b..b + n2]));
    ShapeFromRuns(line, i, a, n1, b, n2, sc);
  }

  /** Runs of `n1` digits at `a` and `n2` digits at `b` around the markers, the second maximal, give the shape from `i`. */
  lemma ShapeFromRuns(line: string, i: nat, a: nat, n1: nat, b: nat, n2: nat, sc: SiteCount)
    requires OccursAt(line, VisitedMarker, i) && a == i + |VisitedMarker|
    requires 0 < n1 && OccursAt(line, ErroredMarker, a + n1) && b == a + n1 + |ErroredMarker|
    requires 0 < n2 && b + n2 <= |line|
    requires AllDigits(line[a..a + n1]) && AllDigits(line[b..b + n2])
    requires b + n2 < |line| ==> !IsDigit(line[b + n2])
    requires sc == SiteCount(DigitsValue(line[a..a + n1]), DigitsValue(line[b..b + n2]))
    ensures Shape(line[i..], line[a..a + n1], line[b..b + n2], line[b + n2..], sc)
  {
    JoinFive(line, i, VisitedMarker, n1, ErroredMarker, n2);
    assert line[b + n2..] != [] ==> line[b + n2..][0] == line[b + n2];
  }

  /** A suffix that starts with `m1`, `n1` characters, `m2` and `n2` characters is their concatenation with the rest. */
  lemma JoinFive(s: string, i: nat, m1: string, n1: nat, m2: string, n2: nat)
    requires OccursAt(s, m1, i)
    requires var c := i + |m1| + n1; OccursAt(s, m2, c) && c + |m2| + n2 <= |s|
    ensures var a, c := i + |m1|, i + |m1| + n1;
      var b := c + |m2|;
      s[i..] == m1 + s[a..c] + m2 + s[b..b + n2] + s[b + n2..]
  {
    var a, c := i + |m1|, i + |m1| + n1;
    var b := c + |m2|;
    var rest := s[b..b + n2] + s[b + n2..];
    SliceJoin(s, b, b + n2);
    SliceJoin(s, c, b);
    SliceJoin(s, a, c);
    SliceJoin(s, i, a);
    assert s[i..] == m1 + (s[a..c] + (m2 + rest));
  }

  /** A suffix is the slice up to a later cut followed by the suffix from there. */
  lemma SliceJoin(s: string, i: nat, j: nat)
    requires i <= j <= |s|
    ensures s[i..] == s[i..j] + s[j..]
  {
  }

  /** Text of the shape at `i` matches there and reads as its count. */
  lemma ShapeMatches(line: string, i: nat, d1: string, d2: string, post: string, sc: SiteCount)
    requires i <= |line| && Shape(line[i..], d1, d2, post, sc)
    ensures MatchAt(line, i) == Some(sc)
  {
    var pre := line[..i];
    assert line == pre + VisitedMarker + d1 + ErroredMarker + d2 + post by {
      assert line == line[..i] + line[i..];
    }
    MatchAtPieces(pre, d1, d2, post);
  }

  /** The pattern matches at `i` with a count exactly when the text from `i` has the shape of that count. */
  lemma MatchAtIffShape(line: string, i: nat, sc: SiteCount)
    requires i <= |line|
    ensures MatchAt(line, i) == Some(sc) <==> exists d1, d2, post :: Shape(line[i..], d1, d2, post, sc)
  {
    if MatchAt(line, i) == Some(sc) {
      MatchAtShape(line, i, sc);
    }
    if exists d1, d2, post :: Shape(line[i..], d1, d2, post, sc) {
      var d1, d2, post :| Shape(line[i..], d1, d2, post, sc);
      ShapeMatches(line, i, d1, d2, post, sc);
    }
  }

  /** A rendered site count, followed by a non-digit or nothing, matches where it starts. */
  lemma MatchAtRendered(pre: string, sc: SiteCount, post: string)
    requires post == [] || !IsDigit(post[0])
    ensures MatchAt(pre + Render(sc) + post, |pre|) == Some(sc)
  {
    var d1, d2 := Show(sc.visited), Show(sc.errored);
    assert pre + Render(sc) + post == pre + VisitedMarker + d1 + ErroredMarker + d2 + post;
    MatchAtPieces(pre, d1, d2, post);
    ShowRoundTrip(sc.visited);
    ShowRoundTrip(sc.errored);
  }

  /**
   * Searching a line that carries a rendered site count gives back that count, provided
   * no match can start earlier (the text before holds no 'V') and the second number is
   * not continued by further digits.
   */
  lemma SearchReadsRendered(pre: string, sc: SiteCount, post: string)
    requires 'V' !in pre
    requires post == [] || !IsDigit(post[0])
    ensures Search(pre + Render(sc) + post) == Some(sc)
  {
    var s := pre + Render(sc) + post;
    assert s == pre + (Render(sc) + post);
    MatchAtRendered(pre, sc, post);
    NoMatchInText(pre, Render(sc) + post);
    SearchLeftmost(s);
  }
}
