/** DOI extraction from free text (refkit's `util/doi.py`). */
module Doi {

  import opened Wrappers
  import opened Text
  import opened Matching

  predicate IsPrefixChar(c: char) { IsDigit(c) || c == '.' }

  /**
   * `s[p..e]` is a match of `10\.[0-9\.]+/\S+(?!\w)` at `p` whose slash is at `d`: "10.", a
   * non-empty run of digits and dots, the slash, then a non-empty whitespace-free token that
   * runs to whitespace or the end of the text.
   */
  predicate IsDoiMatch(s: string, p: nat, d: nat, e: nat) {
    p + 3 < d && d + 1 < e <= |s| && s[p..p + 3] == "10." &&
    (forall j :: p + 3 <= j < d ==> IsPrefixChar(s[j])) && s[d] == '/' &&
    (forall j :: d < j < e ==> !IsSpace(s[j])) && (e == |s| || IsSpace(s[e]))
  }

  /**
   * The DOI pattern `10\.[0-9\.]+/\S+(?!\w)` tried at `p`. The run of digits and dots is
   * greedy and cannot give back a '/', and `\S+` stops only at whitespace or the end of the
   * text, where the look-ahead `(?!\w)` always holds, so the match ends where the
   * whitespace-free token ends.
   */
  function MatchAt(s: string, p: nat): (r: Option<nat>)
    ensures r.Some? ==> p + 5 <= r.value <= |s|
    ensures r.Some? ==> s[p..p + 3] == "10."
    ensures r.Some? ==> forall j :: p <= j < r.value ==> !IsSpace(s[j])
    ensures r.Some? ==> r.value == |s| || IsSpace(s[r.value])
    ensures r.Some? ==> exists d: nat :: IsDoiMatch(s, p, d, r.value)
    ensures forall d: nat, e: nat :: IsDoiMatch(s, p, d, e) ==> r == Some(e)
  {
    if !(p + 3 <= |s| && s[p..p + 3] == "10.") then None
    else
      var d := SpanEnd(s, p + 3, IsPrefixChar);
      forall d': nat, e': nat | IsDoiMatch(s, p, d', e')
        ensures d' == d && SpanEnd(s, d' + 1, NotSpace) == e'
      {
        SpanEndIs(s, p + 3, IsPrefixChar, d');
        SpanEndIs(s, d' + 1, NotSpace, e');
      }
      if d == p + 3 || d == |s| || s[d] != '/' then None
      else
        var e := SpanEnd(s, d + 1, NotSpace);
        if e == d + 1 then None
        else
          assert forall j :: p <= j < p + 3 ==> s[j] == s[p..p + 3][j - p];
          assert IsDoiMatch(s, p, d, e);
          Some(e)
  }

  lemma {:induction false} MatchAtAdvances(s: string)
    ensures Advances(MatchAt, s)
  {
  }

  /** The characters `rstrip('-./')` removes from the end of a DOI */
  const TrailingJunk: set<char> := {'-', '.', '/'}

  /** `_validateStart`: the match is at the start of the text or after a character other than `\w` */
  predicate ValidStart(s: string, i: nat) { i == 0 || (i <= |s| && !IsWordChar(s[i - 1])) }

  function StartOk(s: string): Span -> bool { (sp: Span) => ValidStart(s, sp.start) }

  /** The match at `i` with trailing junk stripped */
  function Stripped(s: string, i: nat): string
    requires MatchAt(s, i).Some?
  {
    RStripSet(s[i..MatchAt(s, i).value], TrailingJunk)
  }

  /** `d` is what the DOI pattern matched at a valid start `i`, with trailing junk stripped. */
  predicate ExtractedAt(s: string, i: nat, d: string) {
    ValidStart(s, i) && MatchAt(s, i).Some? && d == Stripped(s, i)
  }

  /** What `extract` promises of a DOI: it begins with "10", holds no whitespace and does not end in `-./`. */
  predicate IsDoiText(d: string) {
    StartsWith(d, "10") && (forall j :: 0 <= j < |d| ==> !IsSpace(d[j])) && d[|d| - 1] !in TrailingJunk
  }

  /** What a match leaves after `rstrip('-./')`: at least the leading "10", with no whitespace. */
  lemma {:induction false} StrippedMatch(s: string, i: nat)
    requires MatchAt(s, i).Some?
    ensures IsDoiText(Stripped(s, i))
  {
    var e := MatchAt(s, i).value;
    var t := s[i..e];
    var d := RStripSet(t, TrailingJunk);
    assert t[..3] == s[i..i + 3];
    assert t[1] == '0';
    assert |d| >= 2;
    assert d[..2] == t[..2];
    forall j | 0 <= j < |d| ensures !IsSpace(d[j]) {
      assert d[j] == t[j] == s[i + j];
    }
  }

  /**
   * The `i`-th match of the scan is the first one that passes `_validateStart`: every
   * earlier match was rejected and skipped over.
   */
  ghost predicate AcceptedFirst(value: string, i: nat)
    requires Advances(MatchAt, value)
  {
    var ms := FindIter(MatchAt, value, 0);
    i < |ms| && ValidStart(value, ms[i].start) && forall j :: 0 <= j < i ==> !ValidStart(value, ms[j].start)
  }

  /** The start of the first match of the scan that passes `_validateStart` */
  function FirstStart(value: string): (r: Option<nat>)
    ensures r.Some? ==> ValidStart(value, r.value) && MatchAt(value, r.value).Some?
    ensures r.Some? ==>
      (MatchAtAdvances(value);
       exists i: nat :: AcceptedFirst(value, i) && FindIter(MatchAt, value, 0)[i].start == r.value)
  {
    MatchAtAdvances(value);
    var ms := FindIter(MatchAt, value, 0);
    match FirstValid(ms, StartOk(value), 0)
    case Some(i) =>
      assert StartOk(value)(ms[i]);
      assert forall j :: 0 <= j < i ==> !StartOk(value)(ms[j]);
      assert AcceptedFirst(value, i);
      Some(ms[i].start)
    case None => None
  }

  function Extract(value: string): (r: Result<string>)
    ensures r.Success? ==> exists i :: ExtractedAt(value, i, r.value)
    ensures r.Success? ==>
      (MatchAtAdvances(value);
       exists i: nat :: AcceptedFirst(value, i) && r.value == Stripped(value, FindIter(MatchAt, value, 0)[i].start))
    ensures r.Success? ==> IsDoiText(r.value)
    ensures r.Failure? ==> r.error == ValueError("DOI could not be extracted from string")
  {
    match FirstStart(value)
    case Some(start) =>
      StrippedMatch(value, start);
      MatchAtAdvances(value);
      assert exists i: nat :: AcceptedFirst(value, i) && FindIter(MatchAt, value, 0)[i].start == start;
      assert ExtractedAt(value, start, Stripped(value, start));
      Success(Stripped(value, start))
    case None => Failure(ValueError("DOI could not be extracted from string"))
  }

  /**
   * A DOI that starts the text or follows whitespace is never missed. (One glued to
   * a preceding `\w` character is rejected, and one inside a longer token that began
   * with an invalid match is skipped with it.)
   */
  lemma {:induction false} ExtractFindsDoiAfterSpace(value: string, q: nat)
    requires MatchAt(value, q).Some?
    requires q == 0 || (q <= |value| && IsSpace(value[q - 1]))
    ensures Extract(value).Success?
  {
    MatchAtAdvances(value);
    var ms := FindIter(MatchAt, value, 0);
    FindIterComplete(MatchAt, value, 0, q);
    var i :| 0 <= i < |ms| && ms[i].start <= q < ms[i].end;
    MatchStartsAfterSpace(value, ms[i], q);
    FirstValidFinds(ms, StartOk(value), 0, i);
  }

  /** A match covering a position that starts the text or follows whitespace starts there. */
  lemma {:induction false} MatchStartsAfterSpace(value: string, sp: Span, q: nat)
    requires IsMatch(MatchAt, value, sp) && sp.start <= q < sp.end
    requires q == 0 || (q <= |value| && IsSpace(value[q - 1]))
    ensures sp.start == q && StartOk(value)(sp)
  {
    if sp.start < q {
      assert false;
    }
  }

  /** Failure means every match the scan yields is glued to a preceding word character. */
  lemma {:induction false} ExtractFailure(value: string)
    ensures Extract(value).Failure? <==>
      (MatchAtAdvances(value);
       forall sp :: sp in FindIter(MatchAt, value, 0) ==> sp.start > 0 && IsWordChar(value[sp.start - 1]))
  {
    MatchAtAdvances(value);
    var ms := FindIter(MatchAt, value, 0);
    var valid := StartOk(value);
    if Extract(value).Failure? {
      forall sp | sp in ms ensures sp.start > 0 && IsWordChar(value[sp.start - 1]) {
        var j :| 0 <= j < |ms| && ms[j] == sp;
        assert !valid(ms[j]);
      }
    } else {
      var i := FirstValid(ms, valid, 0).value;
      assert ms[i] in ms && valid(ms[i]);
    }
  }

  lemma {:induction false} NoMatchAt(s: string, p: nat)
    requires p < |s| && s[p] != '1'
    ensures MatchAt(s, p).None?
  {
    if p + 3 <= |s| {
      assert s[p..p + 3][0] == s[p];
    }
  }

  lemma {:induction false} ScanAfterLabel(s: string)
    requires s == "doi:10.1/x"
    ensures Advances(MatchAt, s) && FindIter(MatchAt, s, 0) == [Span(4, 10)]
  {
    MatchAtAdvances(s);
    SpanEndIs(s, 7, IsPrefixChar, 8);
    SpanEndIs(s, 9, NotSpace, 10);
    assert MatchAt(s, 4) == Some(10);
    assert FindIter(MatchAt, s, 4) == [Span(4, 10)];
    NoMatchAt(s, 3);
    assert FindIter(MatchAt, s, 3) == [Span(4, 10)];
    NoMatchAt(s, 2);
    assert FindIter(MatchAt, s, 2) == [Span(4, 10)];
    NoMatchAt(s, 1);
    assert FindIter(MatchAt, s, 1) == [Span(4, 10)];
    NoMatchAt(s, 0);
  }

  /**
   * The first match of the scan with a valid start is the one extracted, whatever
   * rejected matches come before it.
   */
  lemma {:induction false} ExtractFirstMatch(value: string, i: nat)
    requires Advances(MatchAt, value)
    requires var ms := FindIter(MatchAt, value, 0);
      i < |ms| && ValidStart(value, ms[i].start) && forall j :: 0 <= j < i ==> !ValidStart(value, ms[j].start)
    ensures var ms := FindIter(MatchAt, value, 0);
      MatchAt(value, ms[i].start) == Some(ms[i].end) && Extract(value) == Success(Stripped(value, ms[i].start))
  {
    var ms := FindIter(MatchAt, value, 0);
    var valid := StartOk(value);
    FirstValidFinds(ms, valid, 0, i);
    var k := FirstValid(ms, valid, 0).value;
    assert valid(ms[k]) && valid(ms[i]);
    assert k == i;
    assert FirstStart(value) == Some(ms[i].start);
  }

  /** `doi:10.1/x`: the label's colon is not a word character, so the DOI after it is found. */
  lemma {:induction false} ExtractAfterLabel(s: string)
    requires s == "doi:10.1/x"
    ensures Extract(s) == Success("10.1/x")
  {
    ScanAfterLabel(s);
    assert ValidStart(s, 4) by { assert s[3] == ':'; }
    ExtractFirstMatch(s, 0);
    LabelStripped(s);
  }

  lemma {:induction false} LabelStripped(s: string)
    requires s == "doi:10.1/x"
    ensures MatchAt(s, 4) == Some(10) ==> Stripped(s, 4) == "10.1/x"
  {
    if MatchAt(s, 4) == Some(10) {
      var t := s[4..10];
      assert t == "10.1/x";
      assert RStripSet(t, TrailingJunk) == t by { assert t[|t| - 1] == 'x'; }
    }
  }

  lemma {:induction false} ScanStripsTrailingDot(s: string)
    requires s == "10.1/ab."
    ensures Advances(MatchAt, s) && FindIter(MatchAt, s, 0) == [Span(0, 8)]
  {
    MatchAtAdvances(s);
    SpanEndIs(s, 3, IsPrefixChar, 4);
    SpanEndIs(s, 5, NotSpace, 8);
    assert MatchAt(s, 0) == Some(8);
  }

  /** `10.1/ab.`: the sentence's full stop is stripped from the DOI. */
  lemma {:induction false} ExtractStripsTrailingDot(s: string)
    requires s == "10.1/ab."
    ensures Extract(s) == Success("10.1/ab")
  {
    ScanStripsTrailingDot(s);
    ExtractFirstMatch(s, 0);
    StripsOneDot(s);
  }

  lemma {:induction false} StripsOneDot(s: string)
    requires s == "10.1/ab."
    ensures MatchAt(s, 0) == Some(8) ==> Stripped(s, 0) == "10.1/ab"
  {
    if MatchAt(s, 0) == Some(8) {
      assert s[0..8] == s;
      assert RStripSet(s, TrailingJunk) == RStripSet("10.1/ab", TrailingJunk) by {
        assert s[..|s| - 1] == "10.1/ab";
      }
      assert RStripSet("10.1/ab", TrailingJunk) == "10.1/ab" by { assert "10.1/ab"[6] == 'b'; }
    }
  }

  /** A DOI glued to a preceding word character is rejected. */
  lemma {:induction false} ExtractRejectsGluedDoi(s: string)
    requires s == "x10.1/ab"
    ensures Extract(s).Failure?
  {
    ScanGlued(s);
    var ms := FindIter(MatchAt, s, 0);
    assert !StartOk(s)(ms[0]) by { assert s[0] == 'x'; }
    assert FirstValid(ms, StartOk(s), 0) == None;
  }

  lemma {:induction false} ScanGlued(s: string)
    requires s == "x10.1/ab"
    ensures Advances(MatchAt, s) && FindIter(MatchAt, s, 0) == [Span(1, 8)]
  {
    MatchAtAdvances(s);
    SpanEndIs(s, 4, IsPrefixChar, 5);
    SpanEndIs(s, 6, NotSpace, 8);
    assert MatchAt(s, 1) == Some(8);
    assert FindIter(MatchAt, s, 1) == [Span(1, 8)];
    NoMatchAt(s, 0);
  }

  /**
   * `x10.1/a 10.2/b 10.3/c`: the glued first match is rejected, the second is the first
   * accepted one and wins, and the third is never reached.
   */
  lemma {:induction false} ExtractSkipsRejectedMatch(s: string)
    requires s == "x10.1/a 10.2/b 10.3/c"
    ensures Extract(s) == Success("10.2/b")
  {
    ScanThree(s);
    ThreeStarts(s);
    ExtractFirstMatch(s, 1);
    SecondStripped(s);
  }

  lemma {:induction false} ThreeStarts(s: string)
    requires s == "x10.1/a 10.2/b 10.3/c"
    ensures !ValidStart(s, 1) && ValidStart(s, 8)
  {
    assert s[0] == 'x' && s[7] == ' ';
  }

  lemma {:induction false} SecondStripped(s: string)
    requires s == "x10.1/a 10.2/b 10.3/c"
    ensures MatchAt(s, 8) == Some(14) ==> Stripped(s, 8) == "10.2/b"
  {
    if MatchAt(s, 8) == Some(14) {
      var t := s[8..14];
      assert t == "10.2/b";
      assert RStripSet(t, TrailingJunk) == t by { assert t[5] == 'b'; }
    }
  }

  /** A token `10.D/T` at `p`, followed by a space or the end of the text, is matched whole. */
  lemma {:induction false} ShortDoiAt(s: string, p: nat)
    requires p + 6 <= |s| && s[p] == '1' && s[p + 1] == '0' && s[p + 2] == '.'
    requires IsDigit(s[p + 3]) && s[p + 4] == '/' && !IsSpace(s[p + 5])
    requires p + 6 == |s| || IsSpace(s[p + 6])
    ensures MatchAt(s, p) == Some(p + 6)
  {
    assert s[p..p + 3] == "10.";
    assert IsDoiMatch(s, p, p + 4, p + 6);
  }

  lemma {:induction false} ThreeMatches(s: string)
    requires s == "x10.1/a 10.2/b 10.3/c"
    ensures MatchAt(s, 1) == Some(7) && MatchAt(s, 8) == Some(14) && MatchAt(s, 15) == Some(21)
    ensures MatchAt(s, 0).None? && MatchAt(s, 7).None? && MatchAt(s, 14).None?
  {
    ThreeMatchAt(s, 1);
    ThreeMatchAt(s, 8);
    ThreeMatchAt(s, 15);
    NoMatchAt(s, 0);
    NoMatchAt(s, 7);
    NoMatchAt(s, 14);
  }

  lemma {:induction false} ThreeMatchAt(s: string, p: nat)
    requires s == "x10.1/a 10.2/b 10.3/c" && (p == 1 || p == 8 || p == 15)
    ensures MatchAt(s, p) == Some(p + 6)
  {
    ShortDoiAt(s, p);
  }

  lemma {:induction false} ScanThree(s: string)
    requires s == "x10.1/a 10.2/b 10.3/c"
    ensures Advances(MatchAt, s) && FindIter(MatchAt, s, 0) == [Span(1, 7), Span(8, 14), Span(15, 21)]
  {
    MatchAtAdvances(s);
    ThreeMatches(s);
    ScanFrom(s, 15, [], 21);
    ScanFrom(s, 8, [Span(15, 21)], 14);
    ScanFrom(s, 1, [Span(8, 14), Span(15, 21)], 7);
  }

  /**
   * One step of the scan: a match at `p` ending at `e`, and nothing matching between `e`
   * and the rest's first match.
   */
  lemma {:induction false} ScanFrom(s: string, p: nat, rest: seq<Span>, e: nat)
    requires Advances(MatchAt, s) && MatchAt(s, p) == Some(e)
    requires FindIter(MatchAt, s, e + 1) == rest
    requires e < |s| ==> MatchAt(s, e).None?
    ensures FindIter(MatchAt, s, p) == [Span(p, e)] + rest
    ensures p > 0 && MatchAt(s, p - 1).None? ==> FindIter(MatchAt, s, p - 1) == [Span(p, e)] + rest
  {
  }
}
