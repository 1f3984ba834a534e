/**
 * Journal-name abbreviation (refkit's `format/journal.py`): a lookup of the whole name, then
 * per-word abbreviation through four dictionary tiers. The pickled dictionaries are parameters.
 */
module Journal {

  import opened Wrappers
  import opened Text

  /** The five read-only abbreviation tables */
  datatype Tables = Tables(
    journals: map<string, string>,
    infixes: map<string, string>,
    prefixes: map<string, string>,
    suffixes: map<string, string>,
    replacements: map<string, string>)

  /** `re.sub('[\W]', '', s)`: only the word characters, in order */
  function KeepWordChars(s: string): (r: string)
    ensures All(r, IsWordChar)
    ensures |r| <= |s|
    ensures All(s, IsWordChar) ==> r == s
    decreases |s|
  {
    if |s| == 0 then ""
    else (if IsWordChar(s[0]) then [s[0]] else "") + KeepWordChars(s[1..])
  }

  /** The key under which a whole journal name is looked up */
  function JournalKey(name: string): string { KeepWordChars(LowerStr(name)) }

  /** `_getJournalAbbreviation`: the dictionary lookup raises KeyError for an unknown name. */
  function JournalAbbreviation(t: Tables, name: string): (r: Result<string>)
    ensures r.Success? <==> JournalKey(name) in t.journals
    ensures r.Success? ==> r.value == t.journals[JournalKey(name)]
    ensures r.Failure? ==> r.error == KeyError
  {
    var key := JournalKey(name);
    if key in t.journals then Success(t.journals[key]) else Failure(KeyError)
  }

  // ---------------------------------------------------------------------------------------------
  // The four tiers

  /** `_getFullReplacement` */
  function FullReplacement(t: Tables, name: string): (r: Option<string>)
    ensures r.Some? <==> name in t.replacements
    ensures r.Some? ==> r.value == t.replacements[name]
  {
    if name in t.replacements then Some(t.replacements[name]) else None
  }

  /** The first `i` characters of `name` are a key of `m`. */
  predicate PrefixKey(m: map<string, string>, name: string, i: nat) { i <= |name| && name[..i] in m }

  /** The longest prefix length `<= i` that is a key: the descending loop of `_getPrefixReplacement` */
  function LongestPrefix(m: map<string, string>, name: string, i: int): (r: Option<nat>)
    requires i <= |name|
    ensures r.Some? ==> r.value <= i && PrefixKey(m, name, r.value)
    ensures r.Some? ==> forall j: nat :: r.value < j <= i ==> !PrefixKey(m, name, j)
    ensures r.None? ==> forall j: nat :: j <= i ==> !PrefixKey(m, name, j)
    decreases i + 1
  {
    if i < 0 then None
    else if name[..i] in m then Some(i)
    else LongestPrefix(m, name, i - 1)
  }

  /** `_getPrefixReplacement`: the replacement of the longest key prefix, and nothing of the rest of the word. */
  function PrefixReplacement(t: Tables, name: string): (r: Option<string>)
    ensures r.Some? <==> exists i: nat :: PrefixKey(t.prefixes, name, i)
    ensures r.Some? ==> exists i: nat :: (PrefixKey(t.prefixes, name, i) && r.value == t.prefixes[name[..i]] &&
      forall j: nat :: i < j ==> !PrefixKey(t.prefixes, name, j))
  {
    match LongestPrefix(t.prefixes, name, |name|)
    case Some(i) => Some(t.prefixes[name[..i]])
    case None => None
  }

  /** The text of `name` from `i` on is a key of `m`. */
  predicate SuffixKey(m: map<string, string>, name: string, i: nat) { i <= |name| && name[i..] in m }

  /** The smallest start `>= i` of a key suffix: the ascending loop of `_getSuffixReplacement` */
  function LongestSuffix(m: map<string, string>, name: string, i: nat): (r: Option<nat>)
    requires i <= |name| + 1
    ensures r.Some? ==> i <= r.value && SuffixKey(m, name, r.value)
    ensures r.Some? ==> forall j: nat :: i <= j < r.value ==> !SuffixKey(m, name, j)
    ensures r.None? ==> forall j: nat :: i <= j ==> !SuffixKey(m, name, j)
    decreases |name| + 1 - i
  {
    if i > |name| then None
    else if name[i..] in m then Some(i)
    else LongestSuffix(m, name, i + 1)
  }

  /** `_getSuffixReplacement`: the head of the word, then the replacement of its longest key suffix. */
  function SuffixReplacement(t: Tables, name: string): (r: Option<string>)
    ensures r.Some? <==> exists i: nat :: SuffixKey(t.suffixes, name, i)
    ensures r.Some? ==> exists i: nat :: (SuffixKey(t.suffixes, name, i) && r.value == name[..i] + t.suffixes[name[i..]] &&
      forall j: nat :: j < i ==> !SuffixKey(t.suffixes, name, j))
  {
    match LongestSuffix(t.suffixes, name, 0)
    case Some(i) => Some(name[..i] + t.suffixes[name[i..]])
    case None => None
  }

  /** The `n` characters of `name` from `j` are a key of `m`. */
  predicate InfixKey(m: map<string, string>, name: string, n: nat, j: nat) { j + n <= |name| && name[j..j + n] in m }

  /** The leftmost start `>= j` of a key infix of length `n`: the inner loop of `_getInfixReplacement` */
  function LeftmostInfix(m: map<string, string>, name: string, n: nat, j: nat): (r: Option<nat>)
    requires n <= |name| && j <= |name| - n + 1
    ensures r.Some? ==> j <= r.value && InfixKey(m, name, n, r.value)
    ensures r.Some? ==> forall k: nat :: j <= k < r.value ==> !InfixKey(m, name, n, k)
    ensures r.None? ==> forall k: nat :: j <= k ==> !InfixKey(m, name, n, k)
    decreases |name| - n + 1 - j
  {
    if j > |name| - n then None
    else if name[j..j + n] in m then Some(j)
    else LeftmostInfix(m, name, n, j + 1)
  }

  /** The longest key infix of length `<= n`, leftmost among equal lengths: the outer loop */
  function LongestInfix(m: map<string, string>, name: string, n: int): (r: Option<(nat, nat)>)
    requires n <= |name|
    ensures r.Some? ==> r.value.0 <= n && InfixKey(m, name, r.value.0, r.value.1)
    ensures r.Some? ==> forall k: nat :: k < r.value.1 ==> !InfixKey(m, name, r.value.0, k)
    ensures r.Some? ==> forall l: nat, k: nat :: r.value.0 < l <= n ==> !InfixKey(m, name, l, k)
    ensures r.None? ==> forall l: nat, k: nat :: l <= n ==> !InfixKey(m, name, l, k)
    decreases n + 1
  {
    if n < 0 then None
    else
      match LeftmostInfix(m, name, n, 0)
      case Some(j) => Some((n, j))
      case None => LongestInfix(m, name, n - 1)
  }

  /**
   * `_getInfixReplacement`: the head before the longest (then leftmost) key infix, then its
   * replacement; the tail after the infix is dropped.
   */
  function InfixReplacement(t: Tables, name: string): (r: Option<string>)
    ensures r.Some? <==> exists n: nat, j: nat :: InfixKey(t.infixes, name, n, j)
    ensures r.Some? ==> exists n: nat, j: nat :: (InfixKey(t.infixes, name, n, j) &&
      r.value == name[..j] + t.infixes[name[j..j + n]] &&
      (forall k: nat :: k < j ==> !InfixKey(t.infixes, name, n, k)) &&
      (forall l: nat, k: nat :: n < l ==> !InfixKey(t.infixes, name, l, k)))
  {
    match LongestInfix(t.infixes, name, |name|)
    case Some((n, j)) => Some(name[..j] + t.infixes[name[j..j + n]])
    case None =>
      assert forall l: nat, k: nat :: |name| < l ==> !InfixKey(t.infixes, name, l, k);
      None
  }

  /** The tiers in order, the first answer winning */
  function TierReplacement(t: Tables, lower: string): (r: Option<string>)
    ensures r.Some? <==> (FullReplacement(t, lower).Some? || PrefixReplacement(t, lower).Some? ||
      SuffixReplacement(t, lower).Some? || InfixReplacement(t, lower).Some?)
    ensures FullReplacement(t, lower).Some? ==> r == FullReplacement(t, lower)
    ensures FullReplacement(t, lower).None? && PrefixReplacement(t, lower).Some? ==> r == PrefixReplacement(t, lower)
    ensures FullReplacement(t, lower).None? && PrefixReplacement(t, lower).None? && SuffixReplacement(t, lower).Some? ==>
      r == SuffixReplacement(t, lower)
    ensures FullReplacement(t, lower).None? && PrefixReplacement(t, lower).None? && SuffixReplacement(t, lower).None? ==>
      r == InfixReplacement(t, lower)
  {
    match FullReplacement(t, lower)
    case Some(x) => Some(x)
    case None =>
      match PrefixReplacement(t, lower)
      case Some(x) => Some(x)
      case None =>
        match SuffixReplacement(t, lower)
        case Some(x) => Some(x)
        case None => InfixReplacement(t, lower)
  }

  /**
   * `_abbreviateWord`: KeyError when no tier answers; the word itself when the answer is
   * only the word with trailing dots (up to case), else the answer.
   */
  function AbbreviateWord(t: Tables, name: string): (r: Result<string>)
    ensures r.Failure? <==> TierReplacement(t, LowerStr(name)).None?
    ensures r.Failure? ==> r.error == KeyError
    ensures r.Success? ==> var a := TierReplacement(t, LowerStr(name)).value;
      (LowerStr(RStripSet(a, {'.'})) == LowerStr(name) ==> r.value == name) &&
      (LowerStr(RStripSet(a, {'.'})) != LowerStr(name) ==> r.value == a)
  {
    var lower := LowerStr(name);
    match TierReplacement(t, lower)
    case None => Failure(KeyError)
    case Some(a) => Success(if LowerStr(RStripSet(a, {'.'})) != lower then a else name)
  }

  // ---------------------------------------------------------------------------------------------
  // Words, hyphen parts and colon segments

  /**
   * Python's `is` between two pieces of one `split` result: the same piece, or equal pieces of
   * at most one character, which CPython 2 shares as one cached object.
   */
  predicate Identical(ps: seq<string>, i: nat, k: nat)
    requires i < |ps| && k < |ps|
  {
    i == k || (ps[i] == ps[k] && |ps[i]| <= 1)
  }

  /** What the loop of `_abbreviateParts` appends for word `i`: nothing or one title-cased word */
  function EmitWord(t: Tables, parts: seq<string>, i: nat, forcePrintFirst: bool): seq<string>
    requires i < |parts|
  {
    match AbbreviateWord(t, parts[i])
    case Success(a) => [Title(a)]
    case Failure(_) =>
      if Identical(parts, i, |parts| - 1) || (forcePrintFirst && Identical(parts, i, 0)) then [Title(parts[i])] else []
  }

  lemma {:induction false} EmitWordTitled(t: Tables, parts: seq<string>, i: nat, forcePrintFirst: bool)
    requires i < |parts|
    ensures var e := EmitWord(t, parts, i, forcePrintFirst); forall k :: 0 <= k < |e| ==> Title(e[k]) == e[k]
  {
    match AbbreviateWord(t, parts[i])
    case Success(a) => TitleFromIdempotent(a, false);
    case Failure(_) => TitleFromIdempotent(parts[i], false);
  }

  /**
   * The words `_abbreviateParts` emits from index `i` on: each one title-cased; a word is
   * dropped only when it has no abbreviation, and never the last word, nor a forced first one.
   */
  function Emitted(t: Tables, parts: seq<string>, i: nat, forcePrintFirst: bool): (r: seq<string>)
    requires i <= |parts|
    ensures |r| <= |parts| - i
    ensures forall k :: 0 <= k < |r| ==> Title(r[k]) == r[k]
    ensures (forall j :: i <= j < |parts| ==> AbbreviateWord(t, parts[j]).Success?) ==> |r| == |parts| - i
    ensures i < |parts| ==> |r| >= 1
    ensures i == 0 && forcePrintFirst && |parts| >= 2 ==> |r| >= 2
    decreases |parts| - i
  {
    if i == |parts| then []
    else
      EmitWordTitled(t, parts, i, forcePrintFirst);
      EmitWord(t, parts, i, forcePrintFirst) + Emitted(t, parts, i + 1, forcePrintFirst)
  }

  /** `_abbreviateParts` */
  function AbbreviateParts(t: Tables, name: string, forcePrintFirst: bool): string {
    Join(Emitted(t, SplitWs(name), 0, forcePrintFirst), " ")
  }

  /** `_abbreviateSubtitle`: a journal-name hit if asked, else every hyphen part abbreviated. */
  function AbbreviateSubtitle(t: Tables, name: string, checkForJournal: bool): string {
    if checkForJournal && JournalAbbreviation(t, name).Success? then JournalAbbreviation(t, name).value
    else
      var parts := Split(name, '-');
      Join(seq(|parts|, k requires 0 <= k < |parts| => AbbreviateParts(t, parts[k], true)), "-")
  }

  /** `getAbbreviation`: the whole-name hit, else every `:` segment abbreviated and joined by ": ". */
  function GetAbbreviation(t: Tables, name: string): (r: string)
    ensures JournalKey(name) in t.journals ==> r == t.journals[JournalKey(name)]
  {
    match JournalAbbreviation(t, name)
    case Success(v) => v
    case Failure(_) =>
      var parts := Split(name, ':');
      Join(seq(|parts|, k requires 0 <= k < |parts| => AbbreviateSubtitle(t, parts[k], Identical(parts, k, 0))), ": ")
  }

  // ---------------------------------------------------------------------------------------------
  // Abbreviation keeps the colon segments and the hyphen parts

  /** No value of `m` contains `c`. */
  predicate ValuesFree(m: map<string, string>, c: char) { forall k :: k in m ==> c !in m[k] }

  /** No value of any table contains `c`. */
  predicate TablesFree(t: Tables, c: char) {
    ValuesFree(t.journals, c) && ValuesFree(t.infixes, c) && ValuesFree(t.prefixes, c) &&
    ValuesFree(t.suffixes, c) && ValuesFree(t.replacements, c)
  }

  function Other(c: char): char -> bool { x => x != c }

  lemma {:induction false} AllOther(s: string, c: char)
    ensures All(s, Other(c)) <==> c !in s
  {
  }

  lemma {:induction false} TierFree(t: Tables, lower: string, c: char)
    requires TablesFree(t, c) && c !in lower
    ensures TierReplacement(t, lower).Some? ==> c !in TierReplacement(t, lower).value
  {
    if FullReplacement(t, lower).None? && PrefixReplacement(t, lower).None? {
      if SuffixReplacement(t, lower).Some? {
        var i: nat :| SuffixKey(t.suffixes, lower, i) &&
          SuffixReplacement(t, lower).value == lower[..i] + t.suffixes[lower[i..]];
        assert c !in lower[..i];
      } else if InfixReplacement(t, lower).Some? {
        var n: nat, j: nat :| InfixKey(t.infixes, lower, n, j) &&
          InfixReplacement(t, lower).value == lower[..j] + t.infixes[lower[j..j + n]];
        assert c !in lower[..j];
      }
    }
  }

  lemma {:induction false} LowerFree(s: string, c: char)
    requires !IsLetter(c) && c !in s
    ensures c !in LowerStr(s)
  {
    assert forall i :: 0 <= i < |s| ==> LowerStr(s)[i] != c;
  }

  lemma {:induction false} TitleFree(s: string, c: char)
    requires !IsLetter(c) && c !in s
    ensures c !in Title(s)
  {
    var r := Title(s);
    assert forall i :: 0 <= i < |r| ==> r[i] != c;
  }

  lemma {:induction false} AbbreviateWordFree(t: Tables, w: string, c: char)
    requires TablesFree(t, c) && !IsLetter(c) && c !in w
    ensures AbbreviateWord(t, w).Success? ==> c !in AbbreviateWord(t, w).value
  {
    LowerFree(w, c);
    TierFree(t, LowerStr(w), c);
  }

  /** No string of `ss` contains `c`. */
  predicate NoneHas(ss: seq<string>, c: char) { forall k :: 0 <= k < |ss| ==> c !in ss[k] }

  lemma {:induction false} NoneHasAppend(a: seq<string>, b: seq<string>, c: char)
    requires NoneHas(a, c) && NoneHas(b, c)
    ensures NoneHas(a + b, c)
  {
    forall k | 0 <= k < |a + b| ensures c !in (a + b)[k] {
      if k >= |a| {
        assert (a + b)[k] == b[k - |a|];
      }
    }
  }

  lemma {:induction false} EmittedFree(t: Tables, parts: seq<string>, i: nat, forcePrintFirst: bool, c: char)
    requires i <= |parts|
    requires TablesFree(t, c) && !IsLetter(c) && NoneHas(parts, c)
    ensures NoneHas(Emitted(t, parts, i, forcePrintFirst), c)
    decreases |parts| - i
  {
    if i < |parts| {
      EmittedFree(t, parts, i + 1, forcePrintFirst, c);
      EmitWordFree(t, parts, i, forcePrintFirst, c);
      NoneHasAppend(EmitWord(t, parts, i, forcePrintFirst), Emitted(t, parts, i + 1, forcePrintFirst), c);
    }
  }

  lemma {:induction false} EmitWordFree(t: Tables, parts: seq<string>, i: nat, forcePrintFirst: bool, c: char)
    requires i < |parts|
    requires TablesFree(t, c) && !IsLetter(c) && c !in parts[i]
    ensures NoneHas(EmitWord(t, parts, i, forcePrintFirst), c)
  {
    AbbreviateWordFree(t, parts[i], c);
    match AbbreviateWord(t, parts[i])
    case Success(a) => TitleFree(a, c);
    case Failure(_) => TitleFree(parts[i], c);
  }

  lemma {:induction false} AbbreviatePartsFree(t: Tables, name: string, forcePrintFirst: bool, c: char)
    requires TablesFree(t, c) && !IsLetter(c) && c != ' ' && c !in name
    ensures c !in AbbreviateParts(t, name, forcePrintFirst)
  {
    var ws := SplitWs(name);
    AllOther(name, c);
    SplitWsKeepsAll(name, Other(c));
    forall k | 0 <= k < |ws| ensures c !in ws[k] {
      AllOther(ws[k], c);
    }
    var es := Emitted(t, ws, 0, forcePrintFirst);
    EmittedFree(t, ws, 0, forcePrintFirst, c);
    forall k | 0 <= k < |es| ensures All(es[k], Other(c)) {
      AllOther(es[k], c);
    }
    JoinKeepsAll(es, " ", Other(c));
    AllOther(Join(es, " "), c);
  }

  /** Every hyphen part yields one abbreviated part: as many hyphens come out as went in. */
  lemma {:induction false} AbbreviateSubtitleHyphens(t: Tables, name: string)
    requires TablesFree(t, '-')
    ensures CountChar(AbbreviateSubtitle(t, name, false), '-') == CountChar(name, '-')
  {
    var parts := Split(name, '-');
    var rs := seq(|parts|, k requires 0 <= k < |parts| => AbbreviateParts(t, parts[k], true));
    assert AbbreviateSubtitle(t, name, false) == Join(rs, "-");
    PartsFree(t, parts, '-');
    CountJoinHyphens(rs, |parts|);
    CountSplit(name, '-');
  }

  lemma {:induction false} PartsFree(t: Tables, parts: seq<string>, c: char)
    requires TablesFree(t, c) && !IsLetter(c) && c != ' '
    requires forall k :: 0 <= k < |parts| ==> c !in parts[k]
    ensures forall k :: 0 <= k < |parts| ==> c !in AbbreviateParts(t, parts[k], true)
  {
    forall k | 0 <= k < |parts| ensures c !in AbbreviateParts(t, parts[k], true) {
      AbbreviatePartsFree(t, parts[k], true, c);
    }
  }

  lemma {:induction false} CountJoinHyphens(rs: seq<string>, n: nat)
    requires |rs| == n > 0
    requires forall k :: 0 <= k < |rs| ==> '-' !in rs[k]
    ensures CountChar(Join(rs, "-"), '-') == n - 1
  {
    CountJoinFree(rs, "-", '-');
  }

  lemma {:induction false} AbbreviateSubtitleNoColon(t: Tables, name: string, checkForJournal: bool)
    requires TablesFree(t, ':') && ':' !in name
    ensures ':' !in AbbreviateSubtitle(t, name, checkForJournal)
  {
    if !(checkForJournal && JournalAbbreviation(t, name).Success?) {
      var parts := Split(name, '-');
      var rs := seq(|parts|, k requires 0 <= k < |parts| => AbbreviateParts(t, parts[k], true));
      AllOther(name, ':');
      SplitKeepsAll(name, '-', Other(':'));
      forall k | 0 <= k < |rs| ensures All(rs[k], Other(':')) {
        AllOther(parts[k], ':');
        AbbreviatePartsFree(t, parts[k], true, ':');
        AllOther(rs[k], ':');
      }
      JoinKeepsAll(rs, "-", Other(':'));
      AllOther(Join(rs, "-"), ':');
    }
  }

  lemma {:induction false} ColonSpaceCount()
    ensures CountChar(": ", ':') == 1
  {
    assert ": "[1..] == " " && " "[1..] == "";
  }

  /**
   * An unknown journal name yields one abbreviated segment per `:` segment: as many colons
   * come out as went in.
   */
  lemma {:induction false} GetAbbreviationColons(t: Tables, name: string)
    requires TablesFree(t, ':') && JournalKey(name) !in t.journals
    ensures CountChar(GetAbbreviation(t, name), ':') == CountChar(name, ':')
  {
    var parts := Split(name, ':');
    var rs := seq(|parts|, k requires 0 <= k < |parts| => AbbreviateSubtitle(t, parts[k], Identical(parts, k, 0)));
    forall k | 0 <= k < |rs| ensures ':' !in rs[k] {
      AbbreviateSubtitleNoColon(t, parts[k], Identical(parts, k, 0));
    }
    assert GetAbbreviation(t, name) == Join(rs, ": ");
    ColonSpaceCount();
    CountJoinOnce(rs, ": ", ':');
    CountSplit(name, ':');
  }
}
