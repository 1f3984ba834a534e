/**
 * The two ways the core drives its regular expressions: `re.finditer` (scan left to right,
 * resume after each match) and `re.search` (leftmost match). A pattern is modelled by a
 * matcher giving, for a start position, the end of the match found there by the regex
 * engine, if any; none of the core's patterns matches the empty string.
 */
module Matching {

  import opened Wrappers

  datatype Span = Span(start: nat, end: nat)

  type Matcher = (string, nat) -> Option<nat>

  /** Every match is non-empty and lies inside the text. */
  ghost predicate Advances(m: Matcher, s: string) {
    forall p: nat :: m(s, p).Some? ==> p < m(s, p).value <= |s|
  }

  predicate IsMatch(m: Matcher, s: string, sp: Span) { m(s, sp.start) == Some(sp.end) }

  /** `re.finditer` from position `pos`: the successive non-overlapping matches. */
  function FindIter(m: Matcher, s: string, pos: nat): (ms: seq<Span>)
    requires Advances(m, s)
    ensures forall i :: 0 <= i < |ms| ==> pos <= ms[i].start < ms[i].end <= |s| && IsMatch(m, s, ms[i])
    ensures forall i, j :: 0 <= i < j < |ms| ==> ms[i].end <= ms[j].start
    decreases |s| - pos
  {
    if pos >= |s| then []
    else match m(s, pos)
      case Some(e) => [Span(pos, e)] + FindIter(m, s, e)
      case None => FindIter(m, s, pos + 1)
  }

  predicate Covered(ms: seq<Span>, q: nat) {
    exists i :: 0 <= i < |ms| && ms[i].start <= q < ms[i].end
  }

  /** The scan misses no match: a position where the pattern matches starts a listed match or lies inside one. */
  lemma {:induction false} FindIterComplete(m: Matcher, s: string, pos: nat, q: nat)
    requires Advances(m, s)
    requires pos <= q && m(s, q).Some?
    ensures Covered(FindIter(m, s, pos), q)
    decreases |s| - pos
  {
    var ms := FindIter(m, s, pos);
    if pos < |s| {
      match m(s, pos)
      case Some(e) =>
        if q < e {
          assert ms[0].start <= q < ms[0].end;
        } else {
          FindIterComplete(m, s, e, q);
          var rest := FindIter(m, s, e);
          var i :| 0 <= i < |rest| && rest[i].start <= q < rest[i].end;
          assert ms[i + 1] == rest[i];
        }
      case None =>
        FindIterComplete(m, s, pos + 1, q);
    }
  }

  /** The index of the first span that passes `valid`. */
  function FirstValid(ms: seq<Span>, valid: Span -> bool, from: nat): (r: Option<nat>)
    ensures r.Some? ==> from <= r.value < |ms| && valid(ms[r.value])
    ensures r.Some? ==> forall j :: from <= j < r.value ==> !valid(ms[j])
    ensures r.None? ==> forall j :: from <= j < |ms| ==> !valid(ms[j])
    decreases |ms| - from
  {
    if from >= |ms| then None
    else if valid(ms[from]) then Some(from)
    else FirstValid(ms, valid, from + 1)
  }

  /** Some span passes `valid`, so the search for the first one succeeds. */
  lemma {:induction false} FirstValidFinds(ms: seq<Span>, valid: Span -> bool, from: nat, i: nat)
    requires from <= i < |ms| && valid(ms[i])
    ensures FirstValid(ms, valid, from).Some?
  {
  }

  /** `re.search` from position `pos`: the leftmost match. */
  function Search(m: Matcher, s: string, pos: nat): (r: Option<Span>)
    requires Advances(m, s)
    ensures r.Some? ==> pos <= r.value.start && IsMatch(m, s, r.value)
    ensures r.Some? ==> forall q :: pos <= q < r.value.start ==> m(s, q).None?
    ensures r.None? ==> forall q: nat :: pos <= q ==> m(s, q).None?
    decreases |s| - pos
  {
    if pos >= |s| then None
    else match m(s, pos)
      case Some(e) => Some(Span(pos, e))
      case None => Search(m, s, pos + 1)
  }

  /** The leftmost match is the first one the scan yields. */
  lemma {:induction false} SearchIsFirstOfFindIter(m: Matcher, s: string, pos: nat)
    requires Advances(m, s)
    ensures Search(m, s, pos).None? <==> |FindIter(m, s, pos)| == 0
    ensures Search(m, s, pos).Some? ==> Search(m, s, pos).value == FindIter(m, s, pos)[0]
    decreases |s| - pos
  {
    if pos < |s| && m(s, pos).None? {
      SearchIsFirstOfFindIter(m, s, pos + 1);
    }
  }

  lemma {:induction false} SearchNone(m: Matcher, s: string, pos: nat)
    requires Advances(m, s)
    requires forall q: nat :: pos <= q < |s| ==> m(s, q).None?
    ensures Search(m, s, pos).None?
    decreases |s| - pos
  {
    if pos < |s| {
      SearchNone(m, s, pos + 1);
    }
  }

  lemma {:induction false} FindIterNone(m: Matcher, s: string, pos: nat)
    requires Advances(m, s)
    requires forall q: nat :: pos <= q < |s| ==> m(s, q).None?
    ensures FindIter(m, s, pos) == []
    decreases |s| - pos
  {
    if pos < |s| {
      FindIterNone(m, s, pos + 1);
    }
  }
}
