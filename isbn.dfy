/** ISBN extraction from free text (refkit's `util/isbn.py`). */
module Isbn {

  import opened Wrappers
  import opened Text
  import opened Matching

  /** The pattern `[0-9]{13}|[0-9]{10}` tried at `p`: the first alternative wins. */
  function MatchAt(s: string, p: nat): (r: Option<nat>)
    ensures r.Some? ==> r.value == p + 13 || r.value == p + 10
    ensures r.Some? ==> r.value <= |s| && AllDigits(s[p..r.value])
    ensures r.None? ==> !(p + 10 <= |s| && AllDigits(s[p..p + 10]))
    ensures p + 13 <= |s| && AllDigits(s[p..p + 13]) ==> r == Some(p + 13)
  {
    if p + 13 <= |s| && AllDigits(s[p..p + 13]) then Some(p + 13)
    else if p + 10 <= |s| && AllDigits(s[p..p + 10]) then Some(p + 10)
    else None
  }

  lemma {:induction false} MatchAtAdvances(s: string)
    ensures Advances(MatchAt, s)
  {
  }

  /** `_validateStart`: not preceded by a `\w` character */
  predicate ValidStart(s: string, i: nat) { i == 0 || (i <= |s| && !IsWordChar(s[i - 1])) }

  /** `_validateEnd`: not followed by a `\w` character */
  predicate ValidEnd(s: string, e: nat) { e >= |s| || !IsWordChar(s[e]) }

  function Bounded(s: string): Span -> bool { (sp: Span) => ValidStart(s, sp.start) && ValidEnd(s, sp.end) }

  /** `d` occurs at `i` in `v` with no `\w` character on either side */
  predicate FoundAt(v: string, i: nat, d: string) {
    i + |d| <= |v| && v[i..i + |d|] == d && Bounded(v)(Span(i, i + |d|))
  }

  /** Hyphens are dropped, then the first run of 13 or 10 digits not touching a `\w` character is the ISBN. */
  function Extract(value: string): (r: Result<string>)
    ensures r.Success? ==> (|r.value| == 10 || |r.value| == 13) && AllDigits(r.value)
    ensures r.Success? ==> exists i :: FoundAt(RemoveChar(value, '-'), i, r.value)
    ensures r.Failure? ==> r.error == ValueError("ISBN could not be extracted from string")
  {
    var v := RemoveChar(value, '-');
    MatchAtAdvances(v);
    var ms := FindIter(MatchAt, v, 0);
    match FirstValid(ms, Bounded(v), 0)
    case Some(i) =>
      assert FoundAt(v, ms[i].start, v[ms[i].start..ms[i].end]);
      Success(v[ms[i].start..ms[i].end])
    case None => Failure(ValueError("ISBN could not be extracted from string"))
  }

  /** Hyphens never matter: the value and the value without hyphens give the same answer. */
  lemma {:induction false} ExtractIgnoresHyphens(value: string)
    ensures Extract(value) == Extract(RemoveChar(value, '-'))
  {
    RemoveCharAbsent(RemoveChar(value, '-'), '-');
  }

  /** A text of digits only holds an ISBN exactly when it has 10 or 13 digits, and then it is the whole text. */
  lemma {:induction false} ExtractDigits(s: string)
    requires AllDigits(s)
    ensures Extract(s).Success? <==> |s| == 10 || |s| == 13
    ensures Extract(s).Success? ==> Extract(s).value == s
  {
    assert '-' !in s;
    RemoveCharAbsent(s, '-');
    MatchAtAdvances(s);
    var ms := FindIter(MatchAt, s, 0);
    forall j | 0 <= j < |ms| && ms[j].start > 0 ensures !Bounded(s)(ms[j]) {
      assert IsDigit(s[ms[j].start - 1]);
    }
    if |s| >= 10 {
      var e := MatchAt(s, 0).value;
      assert ms[0] == Span(0, e);
      assert Bounded(s)(ms[0]) <==> e == |s|;
      if e == |s| {
        assert FirstValid(ms, Bounded(s), 0) == Some(0);
        assert s[0..e] == s;
      } else {
        assert FirstValid(ms, Bounded(s), 0).None?;
      }
    } else {
      assert |ms| == 0;
    }
  }

  /** Extraction fails exactly when every match the scan yields touches a `\w` character. */
  lemma {:induction false} ExtractFailure(value: string)
    ensures var v := RemoveChar(value, '-');
      Extract(value).Failure? <==>
      (MatchAtAdvances(v); forall sp :: sp in FindIter(MatchAt, v, 0) ==> !Bounded(v)(sp))
  {
    var v := RemoveChar(value, '-');
    MatchAtAdvances(v);
    var ms := FindIter(MatchAt, v, 0);
    if Extract(value).Failure? {
      forall sp | sp in ms ensures !Bounded(v)(sp) {
        var j :| 0 <= j < |ms| && ms[j] == sp;
      }
    } else {
      var i := FirstValid(ms, Bounded(v), 0).value;
      assert ms[i] in ms && Bounded(v)(ms[i]);
    }
  }

  /** The first match of the scan not touching a `\w` character is the ISBN returned. */
  lemma {:induction false} ExtractFirstMatch(value: string, i: nat)
    requires Advances(MatchAt, RemoveChar(value, '-'))
    requires var v := RemoveChar(value, '-'); var ms := FindIter(MatchAt, v, 0);
      i < |ms| && Bounded(v)(ms[i]) && forall j :: 0 <= j < i ==> !Bounded(v)(ms[j])
    ensures var v := RemoveChar(value, '-'); var ms := FindIter(MatchAt, v, 0);
      Extract(value) == Success(v[ms[i].start..ms[i].end])
  {
  }

  /** At a run of exactly `n` digits, 10 or 13, the pattern matches those `n` digits. */
  lemma {:induction false} MatchAtRun(v: string, q: nat, n: nat)
    requires n == 10 || n == 13
    requires q + n <= |v| && AllDigits(v[q..q + n]) && ValidEnd(v, q + n)
    ensures MatchAt(v, q) == Some(q + n)
  {
    if n == 10 && q + 13 <= |v| {
      assert v[q..q + 13][10] == v[q + 10];
    }
  }

  /**
   * A match covering a run of exactly 10 or 13 digits with no `\w` character on either side
   * is that run, so its surroundings are valid.
   */
  lemma {:induction false} MatchOfRun(v: string, sp: Span, q: nat, n: nat)
    requires n == 10 || n == 13
    requires q + n <= |v| && AllDigits(v[q..q + n]) && ValidStart(v, q) && ValidEnd(v, q + n)
    requires IsMatch(MatchAt, v, sp) && sp.start <= q < sp.end
    ensures sp == Span(q, q + n) && Bounded(v)(sp)
  {
    if sp.start < q {
      assert false;
    }
    MatchAtRun(v, q, n);
  }

  /** The scan of a text with such a run has a match with valid surroundings. */
  lemma {:induction false} ScanFindsRun(v: string, q: nat, n: nat)
    requires Advances(MatchAt, v)
    requires n == 10 || n == 13
    requires q + n <= |v| && AllDigits(v[q..q + n]) && ValidStart(v, q) && ValidEnd(v, q + n)
    ensures FirstValid(FindIter(MatchAt, v, 0), Bounded(v), 0).Some?
  {
    var ms := FindIter(MatchAt, v, 0);
    MatchAtRun(v, q, n);
    FindIterComplete(MatchAt, v, 0, q);
    var i :| 0 <= i < |ms| && ms[i].start <= q < ms[i].end;
    MatchOfRun(v, ms[i], q, n);
    FirstValidFinds(ms, Bounded(v), 0, i);
  }

  /**
   * A run of exactly 10 or 13 digits (once hyphens are dropped) with no `\w` character on
   * either side is never missed: some ISBN is extracted.
   */
  lemma {:induction false} ExtractFindsIsbn(value: string, q: nat, n: nat)
    requires n == 10 || n == 13
    requires var v := RemoveChar(value, '-');
      q + n <= |v| && AllDigits(v[q..q + n]) && ValidStart(v, q) && ValidEnd(v, q + n)
    ensures Extract(value).Success?
  {
    var v := RemoveChar(value, '-');
    MatchAtAdvances(v);
    ScanFindsRun(v, q, n);
  }
}
