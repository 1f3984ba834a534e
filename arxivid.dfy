/** arXiv identifier extraction from free text (refkit's `util/arxivid.py`). */
module ArxivId {

  import opened Wrappers
  import opened Text
  import opened Matching

  /** `IIII.IIII`, the new identifier format */
  predicate IsNewId(t: string) {
    |t| == 9 && AllDigits(t[..4]) && t[4] == '.' && AllDigits(t[5..])
  }

  /** The pattern `[0-9]{4}\.[0-9]{4}` tried at `p` */
  function NewMatchAt(s: string, p: nat): (r: Option<nat>)
    ensures r.Some? ==> r.value == p + 9 <= |s| && IsNewId(s[p..p + 9])
    ensures r.None? ==> !(p + 9 <= |s| && IsNewId(s[p..p + 9]))
  {
    if p + 9 <= |s| && IsNewId(s[p..p + 9]) then Some(p + 9) else None
  }

  predicate IsOldChar(c: char) { IsLetter(c) || c == '-' || c == '.' }

  /** `[a-zA-Z][a-zA-Z\-\.]+/[0-9]{7}`: a letter, more letters, hyphens or dots, a slash and seven digits */
  predicate IsOldShape(t: string) {
    |t| >= 10 && IsLetter(t[0]) && (forall j :: 1 <= j < |t| - 8 ==> IsOldChar(t[j])) &&
    t[|t| - 8] == '/' && AllDigits(t[|t| - 7..])
  }

  /**
   * The old-format pattern tried at `p`. The run of letters, hyphens and dots is greedy
   * and cannot give back a '/', so the slash must follow the whole run.
   */
  function OldMatchAt(s: string, p: nat): (r: Option<nat>)
    ensures r.Some? ==> p + 10 <= r.value <= |s| && IsOldShape(s[p..r.value])
    ensures forall e: nat :: p + 10 <= e <= |s| && IsOldShape(s[p..e]) ==> r == Some(e)
  {
    forall e: nat | p + 10 <= e <= |s| && IsOldShape(s[p..e])
      ensures IsLetter(s[p]) && SpanEnd(s, p + 1, IsOldChar) == e - 8 && s[e - 8] == '/'
      ensures AllDigits(s[e - 7..e])
    {
      OldShapeAt(s, p, e);
    }
    if !(p < |s| && IsLetter(s[p])) then None
    else
      var d := SpanEnd(s, p + 1, IsOldChar);
      if d == p + 1 || d + 8 > |s| || s[d] != '/' || !AllDigits(s[d + 1..d + 8]) then None
      else
        var t := s[p..d + 8];
        forall j | 1 <= j < |t| - 8 ensures IsOldChar(t[j]) {
          assert t[j] == s[p + j];
        }
        assert t[|t| - 7..] == s[d + 1..d + 8];
        Some(d + 8)
  }

  /** An old-shaped text at `p` is what the greedy run of letters, hyphens and dots and the seven digits give. */
  lemma {:induction false} OldShapeAt(s: string, p: nat, e: nat)
    requires p + 10 <= e <= |s| && IsOldShape(s[p..e])
    ensures IsLetter(s[p]) && SpanEnd(s, p + 1, IsOldChar) == e - 8 && s[e - 8] == '/'
    ensures AllDigits(s[e - 7..e])
  {
    var t := s[p..e];
    assert t[0] == s[p];
    forall j | p + 1 <= j < e - 8 ensures IsOldChar(s[j]) {
      assert s[j] == t[j - p];
    }
    assert s[e - 8] == t[|t| - 8];
    SpanEndIs(s, p + 1, IsOldChar, e - 8);
    assert s[e - 7..e] == t[|t| - 7..];
  }

  lemma {:induction false} MatchersAdvance(s: string)
    ensures Advances(NewMatchAt, s) && Advances(OldMatchAt, s)
  {
  }

  /** `_validateStartOfFormat`: not preceded by a `\w` character */
  predicate ValidStart(s: string, i: nat) { i == 0 || (i <= |s| && !IsWordChar(s[i - 1])) }

  /** `_validateEndOfFormat`: not followed by a `\w` character, unless by a version suffix `v` or `V` and a digit */
  predicate ValidEnd(s: string, e: nat) {
    e >= |s| || !IsWordChar(s[e]) || ((s[e] == 'v' || s[e] == 'V') && e + 1 < |s| && IsDigit(s[e + 1]))
  }

  function Bounded(s: string): Span -> bool { (sp: Span) => ValidStart(s, sp.start) && ValidEnd(s, sp.end) }

  /** `_subjects`: the arXiv subject areas an old-format identifier may name */
  const Subjects: set<string> := {
    "stat", "stat.AP", "stat.CO", "stat.ML", "stat.ME", "stat.TH", "q-bio", "q-bio.BM", "q-bio.CB", "q-bio.GN",
    "q-bio.MN", "q-bio.NC", "q-bio.OT", "q-bio.PE", "q-bio.QM", "q-bio.SC", "q-bio.TO", "cs", "cs.AR", "cs.AI",
    "cs.CL", "cs.CC", "cs.CE", "cs.CG", "cs.GT", "cs.CV", "cs.CY", "cs.CR", "cs.DS", "cs.DB", "cs.DL", "cs.DM",
    "cs.DC", "cs.GL", "cs.GR", "cs.HC", "cs.IR", "cs.IT", "cs.LG", "cs.LO", "cs.MS", "cs.MA", "cs.MM", "cs.NI",
    "cs.NE", "cs.NA", "cs.OS", "cs.OH", "cs.PF", "cs.PL", "cs.RO", "cs.SE", "cs.SD", "cs.SC", "nlin", "nlin.AO",
    "nlin.CG", "nlin.CD", "nlin.SI", "nlin.PS", "math", "math.AG", "math.AT", "math.AP", "math.CT", "math.CA",
    "math.CO", "math.AC", "math.CV", "math.DG", "math.DS", "math.FA", "math.GM", "math.GN", "math.GT", "math.GR",
    "math.HO", "math.IT", "math.KT", "math.LO", "math.MP", "math.MG", "math.NT", "math.NA", "math.OA", "math.OC",
    "math.PR", "math.QA", "math.RT", "math.RA", "math.SP", "math.ST", "math.SG", "astro-ph", "cond-mat",
    "cond-mat.dis-nn", "cond-mat.mes-hall", "cond-mat.mtrl-sci", "cond-mat.other", "cond-mat.soft",
    "cond-mat.stat-mech", "cond-mat.str-el", "cond-mat.supr-con", "gr-qc", "hep-ex", "hep-lat", "hep-ph",
    "hep-th", "math-ph", "nucl-ex", "nucl-th", "physics", "physics.acc-ph", "physics.ao-ph", "physics.atom-ph",
    "physics.atm-clus", "physics.bio-ph", "physics.chem-ph", "physics.class-ph", "physics.comp-ph",
    "physics.data-an", "physics.flu-dyn", "physics.gen-ph", "physics.geo-ph", "physics.hist-ph", "physics.ins-det",
    "physics.med-ph", "physics.optics", "physics.ed-ph", "physics.soc-ph", "physics.plasm-ph", "physics.pop-ph",
    "physics.space-ph", "quant-ph"
  }

  /** An old-format identifier: a known subject area, a slash and seven digits. */
  predicate IsOldId(t: string) { IsOldShape(t) && t[..|t| - 8] in Subjects }

  /** `_extractNewFormat`: the first new-format match, in scan order, with valid surroundings. */
  function ExtractNew(value: string): (r: Option<string>)
    ensures r.Some? ==> IsNewId(r.value)
    ensures r.Some? ==> exists i: nat :: OccursAt(value, r.value, i) && Bounded(value)(Span(i, i + 9))
  {
    MatchersAdvance(value);
    var ms := FindIter(NewMatchAt, value, 0);
    match FirstValid(ms, Bounded(value), 0)
    case Some(i) =>
      assert ms[i].end == ms[i].start + 9;
      assert OccursAt(value, value[ms[i].start..ms[i].end], ms[i].start);
      Some(value[ms[i].start..ms[i].end])
    case None => None
  }

  lemma {:induction false} SubjectIsFirstPiece(t: string)
    requires IsOldShape(t)
    ensures Split(t, '/')[0] == t[..|t| - 8]
  {
    var x, y := t[..|t| - 8], t[|t| - 7..];
    assert '/' !in x by {
      forall j | 0 <= j < |x| ensures x[j] != '/' {
        if j > 0 { assert IsOldChar(t[j]); }
      }
    }
    SplitCons(x, y, '/');
    assert t == x + ['/'] + y;
  }

  /**
   * `_extractOldFormat`: only the LEFTMOST old-format match is considered; it counts when
   * the part before its slash is a known subject area and its end is valid. No check is
   * made on the character before it.
   */
  function ExtractOld(value: string): (r: Option<string>)
    ensures r.Some? ==> IsOldId(r.value)
    ensures r.Some? ==> exists i: nat :: OccursAt(value, r.value, i) && ValidEnd(value, i + |r.value|)
  {
    MatchersAdvance(value);
    match Search(OldMatchAt, value, 0)
    case None => None
    case Some(sp) =>
      var id := value[sp.start..sp.end];
      if Split(id, '/')[0] in Subjects && ValidEnd(value, sp.end) then
        SubjectIsFirstPiece(id);
        assert sp.start + |id| == sp.end;
        assert OccursAt(value, id, sp.start);
        Some(id)
      else None
  }

  /** `extract`: the new format first, then the old one. */
  function Extract(value: string): (r: Result<string>)
    ensures r.Success? ==> IsNewId(r.value) || IsOldId(r.value)
    ensures ExtractNew(value).Some? ==> r == Success(ExtractNew(value).value)
    ensures ExtractNew(value).None? && ExtractOld(value).Some? ==> r == Success(ExtractOld(value).value)
    ensures r.Failure? <==> ExtractNew(value).None? && ExtractOld(value).None?
    ensures r.Failure? ==> r.error == ValueError("arXiv identifier could not be extracted from string")
  {
    match ExtractNew(value)
    case Some(id) => Success(id)
    case None =>
      match ExtractOld(value)
      case Some(id) => Success(id)
      case None => Failure(ValueError("arXiv identifier could not be extracted from string"))
  }

  /** A text that is exactly a new-format identifier is returned whole. */
  lemma {:induction false} ExtractWholeNewId(s: string)
    requires IsNewId(s)
    ensures Extract(s) == Success(s)
  {
    MatchersAdvance(s);
    assert s[0..9] == s;
    assert NewMatchAt(s, 0) == Some(9);
    assert FindIter(NewMatchAt, s, 0) == [Span(0, 9)];
    assert Bounded(s)(Span(0, 9));
  }

  /** Without a dot there is no new-format identifier. */
  lemma {:induction false} NoNewWithoutDot(s: string)
    requires '.' !in s
    ensures ExtractNew(s).None?
  {
    MatchersAdvance(s);
    forall q: nat ensures NewMatchAt(s, q).None? {
      if q + 9 <= |s| { assert s[q..q + 9][4] == s[q + 4]; }
    }
    FindIterNone(NewMatchAt, s, 0);
  }

  /** The scan for the new format finds exactly one match, at the start. */
  lemma {:induction false} NewOnlyAtStart(s: string)
    requires 9 < |s| && IsNewId(s[0..9])
    requires forall q: nat :: 0 < q ==> NewMatchAt(s, q).None?
    ensures Advances(NewMatchAt, s) && FindIter(NewMatchAt, s, 0) == [Span(0, 9)]
  {
    MatchersAdvance(s);
    FindIterNone(NewMatchAt, s, 9);
  }

  /** A version suffix after the identifier is allowed. */
  lemma {:induction false} ExtractWithVersion(s: string)
    requires s == "1234.5678v2"
    ensures Extract(s) == Success("1234.5678")
  {
    assert s[0..9] == "1234.5678";
    forall q: nat | 0 < q ensures NewMatchAt(s, q).None? {
      if q + 9 <= |s| { assert s[q..q + 9][4 - q] == s[4]; }
    }
    NewOnlyAtStart(s);
    assert Bounded(s)(Span(0, 9));
    assert FirstValid(FindIter(NewMatchAt, s, 0), Bounded(s), 0) == Some(0);
  }

  /** A fifth digit after the dot makes the identifier invalid (the five-digit numbering is not recognised). */
  lemma {:induction false} ExtractRejectsFiveDigits(s: string)
    requires s == "1234.56789"
    ensures Extract(s).Failure?
  {
    assert s[0..9] == "1234.5678";
    forall q: nat | 0 < q ensures NewMatchAt(s, q).None? {
      if q + 9 <= |s| { assert s[q..q + 9][4 - q] == s[4]; }
    }
    NewOnlyAtStart(s);
    assert !Bounded(s)(Span(0, 9)) by { assert !ValidEnd(s, 9); }
    assert FirstValid(FindIter(NewMatchAt, s, 0), Bounded(s), 0) == None;
    NoOldWithoutLetter(s);
  }

  /** Without a letter there is no old-format identifier. */
  lemma {:induction false} NoOldWithoutLetter(s: string)
    requires forall i :: 0 <= i < |s| ==> !IsLetter(s[i])
    ensures ExtractOld(s).None?
  {
    MatchersAdvance(s);
    SearchNone(OldMatchAt, s, 0);
  }

  lemma {:induction false} OldAfterDigitMatch(s: string)
    requires s == "1hep-th/1234567"
    ensures OldMatchAt(s, 1) == Some(15) && s[1..15] == "hep-th/1234567"
  {
    assert s[8..15] == "1234567";
    assert AllDigits("1234567");
    SpanEndIs(s, 2, IsOldChar, 7);
  }

  lemma {:induction false} ScanOldAfterDigit(s: string)
    requires s == "1hep-th/1234567"
    ensures Advances(OldMatchAt, s)
    ensures Search(OldMatchAt, s, 0) == Some(Span(1, 15)) && s[1..15] == "hep-th/1234567"
  {
    MatchersAdvance(s);
    OldAfterDigitMatch(s);
    assert OldMatchAt(s, 0).None? by { assert !IsLetter(s[0]); }
  }

  lemma {:induction false} OldAfterDigitSubject(t: string)
    requires t == "hep-th/1234567"
    ensures IsOldShape(t) && Split(t, '/')[0] in Subjects
  {
    assert IsOldShape(t) by {
      assert t[|t| - 7..] == "1234567";
      assert AllDigits("1234567");
    }
    SubjectIsFirstPiece(t);
    assert t[..6] == "hep-th";
  }

  /** The old format has no check on the character before the identifier. */
  lemma {:induction false} ExtractOldAfterDigit(s: string)
    requires s == "1hep-th/1234567"
    ensures Extract(s) == Success("hep-th/1234567")
  {
    NoNewWithoutDot(s);
    ScanOldAfterDigit(s);
    OldAfterDigitSubject(s[1..15]);
    assert ValidEnd(s, 15);
  }

  lemma {:induction false} OldLeftmostMatch(s: string)
    requires s == "cs/12345678 cs/1234567"
    ensures OldMatchAt(s, 0) == Some(10)
  {
    assert IsLetter(s[0]) && IsOldChar(s[1]) && s[2] == '/';
    SpanEndIs(s, 1, IsOldChar, 2);
    assert s[3..10] == "1234567";
    assert AllDigits(s[3..10]);
  }

  /**
   * Only the leftmost old-format match is tried: the valid cs/1234567 after the rejected
   * cs/1234567 glued to an eighth digit is missed.
   */
  lemma {:induction false} ExtractOldLeftmostOnly(s: string)
    requires s == "cs/12345678 cs/1234567"
    ensures Extract(s).Failure?
  {
    NoNewWithoutDot(s);
    MatchersAdvance(s);
    OldLeftmostMatch(s);
    assert Search(OldMatchAt, s, 0) == Some(Span(0, 10));
    assert !ValidEnd(s, 10) by { assert IsDigit(s[10]); }
  }

  /** The new format is missed exactly when every match the scan yields has invalid surroundings. */
  lemma {:induction false} ExtractNewNone(value: string)
    ensures ExtractNew(value).None? <==>
      (MatchersAdvance(value); forall sp :: sp in FindIter(NewMatchAt, value, 0) ==> !Bounded(value)(sp))
  {
    MatchersAdvance(value);
    var ms := FindIter(NewMatchAt, value, 0);
    if ExtractNew(value).None? {
      forall sp | sp in ms ensures !Bounded(value)(sp) {
        var j :| 0 <= j < |ms| && ms[j] == sp;
      }
    } else {
      var i := FirstValid(ms, Bounded(value), 0).value;
      assert ms[i] in ms && Bounded(value)(ms[i]);
    }
  }

  /** The first match of the scan with valid surroundings is the identifier returned. */
  lemma {:induction false} ExtractNewFirstMatch(value: string, i: nat)
    requires Advances(NewMatchAt, value)
    requires var ms := FindIter(NewMatchAt, value, 0);
      i < |ms| && Bounded(value)(ms[i]) && forall j :: 0 <= j < i ==> !Bounded(value)(ms[j])
    ensures var ms := FindIter(NewMatchAt, value, 0);
      ExtractNew(value) == Some(value[ms[i].start..ms[i].end])
  {
  }

  /** A new-format match holds only digits and dots. */
  lemma {:induction false} NewMatchChars(v: string, sp: Span)
    requires IsMatch(NewMatchAt, v, sp)
    ensures forall k :: sp.start <= k < sp.end ==> IsDigit(v[k]) || v[k] == '.'
  {
    var t := v[sp.start..sp.end];
    forall k | sp.start <= k < sp.end ensures IsDigit(v[k]) || v[k] == '.' {
      var i := k - sp.start;
      assert v[k] == t[i];
      if i < 4 { assert t[i] == t[..4][i]; } else if i > 4 { assert t[i] == t[5..][i - 5]; }
    }
  }

  /** A match covering a position after a character that is neither `\w` nor a dot starts there. */
  lemma {:induction false} NewMatchStartsAt(v: string, sp: Span, q: nat)
    requires IsMatch(NewMatchAt, v, sp) && sp.start <= q < sp.end
    requires ValidStart(v, q) && (q == 0 || v[q - 1] != '.')
    ensures sp.start == q
  {
    NewMatchChars(v, sp);
  }

  /**
   * An IIII.IIII identifier with valid surroundings is never missed when the character
   * before it is not a dot. (After a dot it may lie inside an earlier, rejected match.)
   */
  lemma {:induction false} ExtractNewFinds(value: string, q: nat)
    requires q + 9 <= |value| && IsNewId(value[q..q + 9])
    requires ValidStart(value, q) && (q == 0 || value[q - 1] != '.') && ValidEnd(value, q + 9)
    ensures ExtractNew(value).Some?
  {
    MatchersAdvance(value);
    var ms := FindIter(NewMatchAt, value, 0);
    FindIterComplete(NewMatchAt, value, 0, q);
    var i :| 0 <= i < |ms| && ms[i].start <= q < ms[i].end;
    NewMatchStartsAt(value, ms[i], q);
    assert Bounded(value)(ms[i]);
    FirstValidFinds(ms, Bounded(value), 0, i);
  }

  /** The old format gives the leftmost old-shaped match exactly when it names a known subject and ends validly. */
  lemma {:induction false} ExtractOldLeftmost(value: string)
    ensures (MatchersAdvance(value);
      match Search(OldMatchAt, value, 0)
      case None => ExtractOld(value).None?
      case Some(sp) =>
        ExtractOld(value) == if IsOldId(value[sp.start..sp.end]) && ValidEnd(value, sp.end)
          then Some(value[sp.start..sp.end]) else None)
  {
    MatchersAdvance(value);
    match Search(OldMatchAt, value, 0)
    case None =>
    case Some(sp) =>
      SubjectIsFirstPiece(value[sp.start..sp.end]);
  }

  /**
   * An old-format identifier with a valid end and no letter before it is the one
   * extracted, whatever the character before it.
   */
  lemma {:induction false} ExtractOldFinds(value: string, q: nat, e: nat)
    requires q + 10 <= e <= |value| && IsOldId(value[q..e]) && ValidEnd(value, e)
    requires forall i :: 0 <= i < q ==> !IsLetter(value[i])
    ensures ExtractOld(value) == Some(value[q..e])
  {
    MatchersAdvance(value);
    assert OldMatchAt(value, q) == Some(e);
    forall i: nat | i < q ensures OldMatchAt(value, i).None? {
      assert !IsLetter(value[i]);
    }
    assert Search(OldMatchAt, value, 0) == Some(Span(q, e)) by {
      var r := Search(OldMatchAt, value, 0);
      assert r.Some?;
    }
    ExtractOldLeftmost(value);
  }
}
