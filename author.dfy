/** Person-name capitalisation, initials and full-name splitting (refkit's `format/author.py`). */
module Author {

  import opened Wrappers
  import opened Text

  /** The result of `splitName`: a dictionary with exactly these two keys */
  datatype Person = Person(givenName: string, familyName: string)

  // ---------------------------------------------------------------------------------------------
  // Capitalisation

  /**
   * One `'`-separated piece of a lower-cased family-name segment. `lstrip` takes a SET of
   * characters, so every leading 'm', 'a' or 'c' goes, not just the prefix: "mccarthy"
   * keeps only "arthy".
   */
  function CapitalizePiece(p: string): string {
    if StartsWith(p, "mc") then "Mc" + Title(LStripSet(p, {'m', 'c'}))
    else if StartsWith(p, "mac") then "Mac" + Title(LStripSet(p, {'m', 'a', 'c'}))
    else Title(p)
  }

  /** `_setCapitalization` */
  function SetCapitalization(name: string): string {
    var ps := Split(LowerStr(name), '\'');
    Join(seq(|ps|, k requires 0 <= k < |ps| => CapitalizePiece(ps[k])), "'")
  }

  /** The loop body of `_capitalizeHyphenatedName`: only an all-uppercase segment is re-cased. */
  function CapitalizeSegment(seg: string, isFamilyName: bool): string {
    if !IsUpperStr(seg) then seg
    else if isFamilyName then SetCapitalization(seg)
    else Title(seg)
  }

  /** `_capitalizeHyphenatedName` */
  function CapitalizeHyphenatedName(name: string, isFamilyName: bool): string {
    var segs := Split(name, '-');
    Join(seq(|segs|, k requires 0 <= k < |segs| => CapitalizeSegment(segs[k], isFamilyName)), "-")
  }

  /** `_capitalizeName` */
  function CapitalizeName(name: string, isFamilyName: bool): string {
    var ws := SplitWs(name);
    Join(seq(|ws|, k requires 0 <= k < |ws| => CapitalizeHyphenatedName(ws[k], isFamilyName)), " ")
  }

  /** `formatGivenName`: capitalise, put a space after every dot, collapse whitespace, strip; then abbreviate if asked. */
  function FormatGivenName(name: string, abbreviate: bool): string {
    var c := Strip(CollapseWs(ReplaceBy(CapitalizeName(name, false), '.', ". ")));
    if abbreviate then AbbreviateName(c) else c
  }

  /** `formatFamilyName` */
  function FormatFamilyName(name: string): string { CapitalizeName(name, true) }

  /** `formatName` */
  function FormatName(givenName: string, familyName: string, abbreviate: bool, familyNameFirst: bool): string {
    var g, f := FormatGivenName(givenName, abbreviate), FormatFamilyName(familyName);
    if familyNameFirst then f + ", " + g else g + " " + f
  }

  // ---------------------------------------------------------------------------------------------
  // Abbreviation

  /** The initials of the non-empty pieces, in order: first character and a dot (`i[0] + '.'`, empty pieces skipped). */
  function Initials(ps: seq<string>): (r: seq<string>)
    ensures |r| <= |ps|
    ensures forall k :: 0 <= k < |r| ==> |r[k]| == 2 && r[k][1] == '.'
    decreases |ps|
  {
    if |ps| == 0 then []
    else (if |ps[0]| > 0 then [[ps[0][0], '.']] else []) + Initials(ps[1..])
  }

  /** `_abbreviateAbbreviatedName` */
  function AbbreviateAbbreviatedName(name: string): string { Join(Initials(Split(name, '.')), " ") }

  /** `_abbreviateHyphenatedName` */
  function AbbreviateHyphenatedName(name: string): string {
    var segs := Split(name, '-');
    Join(seq(|segs|, k requires 0 <= k < |segs| => AbbreviateAbbreviatedName(segs[k])), "-")
  }

  /** `_abbreviateName` */
  function AbbreviateName(name: string): string {
    var ws := SplitWs(name);
    Join(seq(|ws|, k requires 0 <= k < |ws| => AbbreviateHyphenatedName(ws[k])), " ")
  }

  // ---------------------------------------------------------------------------------------------
  // Splitting a full name

  /** `s.split(c, 1)` */
  function SplitOnce(s: string, c: char): (parts: seq<string>)
    ensures |parts| == 1 ==> parts[0] == s && c !in s
    ensures |parts| == 2 ==> parts[0] + [c] + parts[1] == s && c !in parts[0]
    ensures 1 <= |parts| <= 2
  {
    var k := SpanEnd(s, 0, x => x != c);
    if k == |s| then
      assert s[..k] == s;
      [s]
    else
      assert s == s[..k] + [c] + s[k + 1..];
      [s[..k], s[k + 1..]]
  }

  /** `filter(len, ps)` */
  function NonEmpty(ps: seq<string>): (r: seq<string>)
    ensures |r| <= |ps|
    ensures forall k :: 0 <= k < |r| ==> |r[k]| > 0
    decreases |ps|
  {
    if |ps| == 0 then [] else (if |ps[0]| > 0 then [ps[0]] else []) + NonEmpty(ps[1..])
  }

  /** `_splitNameAtComma`: the stripped, non-empty sides of the first comma */
  function SplitNameAtComma(name: string): (parts: seq<string>)
    ensures |parts| <= 2
    ensures forall k :: 0 <= k < |parts| ==> |parts[k]| > 0
    ensures ',' !in name ==> |parts| <= 1
  {
    var ps := SplitOnce(name, ',');
    NonEmpty(seq(|ps|, k requires 0 <= k < |ps| => Strip(ps[k])))
  }

  /** A word that `_splitNameByAbbreviations` reads as a family-name word: longer than one character, no final dot */
  predicate IsFullWord(w: string) { |w| > 1 && !EndsWith(w, ".") }

  /** The first index at or after `from` holding a full word */
  function FirstFullWord(parts: seq<string>, from: nat): (r: Option<nat>)
    ensures r.Some? ==> from <= r.value < |parts| && IsFullWord(parts[r.value])
    ensures r.Some? ==> forall j :: from <= j < r.value ==> !IsFullWord(parts[j])
    ensures r.None? ==> forall j :: from <= j < |parts| ==> !IsFullWord(parts[j])
    decreases |parts| - from
  {
    if from >= |parts| then None
    else if IsFullWord(parts[from]) then Some(from)
    else FirstFullWord(parts, from + 1)
  }

  /**
   * `_splitNameByAbbreviations`: when the first word is an initial, the family name starts at
   * the first later full word; otherwise, or with no such word, ValueError.
   */
  function SplitNameByAbbreviations(parts: seq<string>): (r: Result<Person>)
    requires |parts| >= 1
    ensures r.Success? <==> (|parts[0]| == 1 || EndsWith(parts[0], ".")) && FirstFullWord(parts, 1).Some?
    ensures r.Success? ==> var i := FirstFullWord(parts, 1).value;
      r.value == Person(Join(parts[..i], " "), Join(parts[i..], " "))
    ensures r.Failure? ==> r.error == ValueError("Could not split name on abbreviations")
  {
    if |parts[0]| == 1 || EndsWith(parts[0], ".") then
      match FirstFullWord(parts, 1)
      case Some(i) => Success(Person(Join(parts[..i], " "), Join(parts[i..], " ")))
      case None => Failure(ValueError("Could not split name on abbreviations"))
    else Failure(ValueError("Could not split name on abbreviations"))
  }

  /**
   * `_identifyPartsOfName`, called with three or more words: split on abbreviations, or else
   * every word but the last is the given name. Either way the two halves partition the words.
   */
  function IdentifyPartsOfName(parts: seq<string>): (p: Person)
    requires |parts| >= 3
    ensures exists i :: 0 < i < |parts| && p == Person(Join(parts[..i], " "), Join(parts[i..], " "))
    ensures p.givenName + " " + p.familyName == Join(parts, " ")
    ensures (|parts[0]| == 1 || EndsWith(parts[0], ".")) && FirstFullWord(parts, 1).Some? ==>
      p.familyName == Join(parts[FirstFullWord(parts, 1).value..], " ")
    ensures !((|parts[0]| == 1 || EndsWith(parts[0], ".")) && FirstFullWord(parts, 1).Some?) ==>
      p.familyName == parts[|parts| - 1]
  {
    match SplitNameByAbbreviations(parts)
    case Success(q) =>
      var i := FirstFullWord(parts, 1).value;
      JoinAt(parts, i, " ");
      q
    case Failure(_) =>
      var n := |parts|;
      JoinAt(parts, n - 1, " ");
      assert parts[n - 1..] == [parts[n - 1]];
      Person(Join(parts[..n - 1], " "), parts[n - 1])
  }

  /** `_splitNameByWords` */
  function SplitNameByWords(name: string): (p: Person)
    ensures |SplitWs(name)| == 0 ==> p == Person("", "")
    ensures |SplitWs(name)| == 1 ==> p == Person("", SplitWs(name)[0])
    ensures |SplitWs(name)| == 2 ==> p == Person(SplitWs(name)[0], SplitWs(name)[1])
    ensures |SplitWs(name)| >= 2 ==> p.givenName + " " + p.familyName == Join(SplitWs(name), " ")
  {
    var parts := SplitWs(name);
    if |parts| == 0 then Person("", "")
    else if |parts| == 1 then Person("", parts[0])
    else if |parts| == 2 then Person(parts[0], parts[1])
    else IdentifyPartsOfName(parts)
  }

  /** `_splitNameIntoParts` and `splitName`: "Family, Given" first, else by words. */
  function SplitName(name: string): (p: Person)
    ensures |SplitNameAtComma(name)| == 2 ==> p == Person(SplitNameAtComma(name)[1], SplitNameAtComma(name)[0])
    ensures |SplitNameAtComma(name)| != 2 ==> p == SplitNameByWords(name)
  {
    var parts := SplitNameAtComma(name);
    if |parts| == 2 then Person(parts[1], parts[0]) else SplitNameByWords(name)
  }

  // ---------------------------------------------------------------------------------------------
  // Capitalisation keeps the shape of the name

  /** Neither a hyphen nor whitespace: what a hyphen segment of a word is made of */
  predicate Plain(c: char) { c != '-' && !IsSpace(c) }

  lemma {:induction false} JoinPartsAll(ps: seq<string>, sep: string, p: char -> bool)
    requires All(Join(ps, sep), p)
    ensures forall k :: 0 <= k < |ps| ==> All(ps[k], p)
    decreases |ps|
  {
    if |ps| > 1 {
      var j := Join(ps, sep);
      assert j == ps[0] + (sep + Join(ps[1..], sep));
      assert forall i :: 0 <= i < |ps[0]| ==> j[i] == ps[0][i];
      assert forall i :: 0 <= i < |Join(ps[1..], sep)| ==> Join(ps[1..], sep)[i] == j[|ps[0]| + |sep| + i];
      JoinPartsAll(ps[1..], sep, p);
      assert forall k :: 1 <= k < |ps| ==> ps[k] == ps[1..][k - 1];
    }
  }

  lemma {:induction false} CapitalizePiecePlain(p: string)
    requires All(p, Plain)
    ensures All(CapitalizePiece(p), Plain)
    ensures |p| > 0 ==> |CapitalizePiece(p)| > 0
  {
    if StartsWith(p, "mc") {
      LStripSetSuffix(p, {'m', 'c'});
      TitlePlainAfter("Mc", LStripSet(p, {'m', 'c'}));
    } else if StartsWith(p, "mac") {
      LStripSetSuffix(p, {'m', 'a', 'c'});
      TitlePlainAfter("Mac", LStripSet(p, {'m', 'a', 'c'}));
    } else {
      TitlePlainAfter("", p);
      assert "" + Title(p) == Title(p);
    }
  }

  /** A plain head followed by a title-cased plain word is plain, and non-empty when the head is. */
  lemma {:induction false} TitlePlainAfter(head: string, x: string)
    requires All(head, Plain) && All(x, Plain)
    ensures All(head + Title(x), Plain) && |head + Title(x)| == |head| + |x|
  {
    var t := Title(x);
    forall i | 0 <= i < |t| ensures Plain(t[i]) {
      assert Plain(x[i]);
    }
    forall i | 0 <= i < |head + t| ensures Plain((head + t)[i]) {
      if i >= |head| {
        assert (head + t)[i] == t[i - |head|];
      }
    }
  }

  lemma {:induction false} SetCapitalizationPlain(x: string)
    requires All(x, Plain)
    ensures All(SetCapitalization(x), Plain)
    ensures |x| > 0 ==> |SetCapitalization(x)| > 0
  {
    var l := LowerStr(x);
    assert All(l, Plain);
    var ps := Split(l, '\'');
    var cs := seq(|ps|, k requires 0 <= k < |ps| => CapitalizePiece(ps[k]));
    SplitKeepsAll(l, '\'', Plain);
    forall k | 0 <= k < |ps| ensures All(cs[k], Plain) && (|ps[k]| > 0 ==> |cs[k]| > 0) {
      CapitalizePiecePlain(ps[k]);
    }
    JoinKeepsAll(cs, "'", Plain);
    if |x| > 0 {
      JoinEmpty(cs, "'");
      if |ps| == 1 {
        JoinSplit(l, '\'');
      }
    }
  }

  lemma {:induction false} CapitalizeSegmentPlain(seg: string, isFamilyName: bool)
    requires All(seg, Plain)
    ensures All(CapitalizeSegment(seg, isFamilyName), Plain)
    ensures |seg| > 0 ==> |CapitalizeSegment(seg, isFamilyName)| > 0
  {
    if IsUpperStr(seg) && isFamilyName {
      SetCapitalizationPlain(seg);
    }
  }

  /** A capitalised word is a word again, whose hyphen segments are the capitalised segments. */
  lemma {:induction false} CapitalizeHyphenatedNameShape(w: string, isFamilyName: bool)
    requires IsWord(w)
    ensures var segs := Split(w, '-');
      Split(CapitalizeHyphenatedName(w, isFamilyName), '-')
        == seq(|segs|, k requires 0 <= k < |segs| => CapitalizeSegment(segs[k], isFamilyName))
    ensures IsWord(CapitalizeHyphenatedName(w, isFamilyName))
  {
    var segs := Split(w, '-');
    var cs := seq(|segs|, k requires 0 <= k < |segs| => CapitalizeSegment(segs[k], isFamilyName));
    assert All(w, NotSpace);
    SplitKeepsAll(w, '-', NotSpace);
    forall k | 0 <= k < |segs| ensures All(cs[k], Plain) && All(cs[k], NotSpace) && (|segs[k]| > 0 ==> |cs[k]| > 0) {
      assert All(segs[k], Plain);
      CapitalizeSegmentPlain(segs[k], isFamilyName);
    }
    SplitJoin(cs, '-');
    JoinKeepsAll(cs, "-", NotSpace);
    JoinEmpty(cs, "-");
    if |segs| == 1 {
      JoinSplit(w, '-');
    }
  }

  /**
   * Capitalising keeps the number of words and of hyphen segments: the words of the result
   * are the capitalised words of the name.
   */
  lemma {:induction false} CapitalizeNameShape(name: string, isFamilyName: bool)
    ensures var ws := SplitWs(name);
      SplitWs(CapitalizeName(name, isFamilyName))
        == seq(|ws|, k requires 0 <= k < |ws| => CapitalizeHyphenatedName(ws[k], isFamilyName))
  {
    var ws := SplitWs(name);
    var hs := seq(|ws|, k requires 0 <= k < |ws| => CapitalizeHyphenatedName(ws[k], isFamilyName));
    forall k | 0 <= k < |ws| ensures IsWord(hs[k]) {
      CapitalizeHyphenatedNameShape(ws[k], isFamilyName);
    }
    SplitWsJoin(hs);
  }

  /** A name with no upper-case letter is only re-spaced: every segment is kept as written. */
  lemma {:induction false} CapitalizeLowerCaseName(name: string, isFamilyName: bool)
    requires All(name, NotUpper)
    ensures CapitalizeName(name, isFamilyName) == Join(SplitWs(name), " ")
  {
    var ws := SplitWs(name);
    SplitWsKeepsAll(name, NotUpper);
    forall k | 0 <= k < |ws| ensures CapitalizeHyphenatedName(ws[k], isFamilyName) == ws[k] {
      var segs := Split(ws[k], '-');
      SplitKeepsAll(ws[k], '-', NotUpper);
      assert seq(|segs|, j requires 0 <= j < |segs| => CapitalizeSegment(segs[j], isFamilyName)) == segs;
      JoinSplit(ws[k], '-');
    }
    assert seq(|ws|, k requires 0 <= k < |ws| => CapitalizeHyphenatedName(ws[k], isFamilyName)) == ws;
  }

  // ---------------------------------------------------------------------------------------------
  // formatFamilyName is idempotent

  predicate NotLower(c: char) { !IsLower(c) }

  /** A "Mc"/"Mac" piece keeps a lower-case letter. */
  lemma {:induction false} PrefixedPieceHasLower(p: string)
    ensures StartsWith(p, "mc") || StartsWith(p, "mac") ==> !All(CapitalizePiece(p), NotLower)
  {
    if StartsWith(p, "mc") || StartsWith(p, "mac") {
      assert !NotLower(CapitalizePiece(p)[1]);
    }
  }

  /** In an all-uppercase result no piece was a "Mc"/"Mac" piece, so lower-casing gives the pieces back. */
  lemma {:induction false} UpperPiecesAreTitled(ps: seq<string>)
    requires forall k :: 0 <= k < |ps| ==> All(ps[k], NotUpper)
    requires forall k :: 0 <= k < |ps| ==> All(CapitalizePiece(ps[k]), NotLower)
    ensures seq(|ps|, k requires 0 <= k < |ps| => LowerStr(CapitalizePiece(ps[k]))) == ps
  {
    forall k | 0 <= k < |ps| ensures LowerStr(CapitalizePiece(ps[k])) == ps[k] {
      PrefixedPieceHasLower(ps[k]);
      LowerStrTitle(ps[k], false);
      LowerStrOfLower(ps[k]);
    }
  }

  lemma {:induction false} LowerPieces(cs: seq<string>, ps: seq<string>)
    requires |cs| == |ps|
    requires forall k :: 0 <= k < |ps| ==> cs[k] == CapitalizePiece(ps[k])
    requires seq(|ps|, k requires 0 <= k < |ps| => LowerStr(CapitalizePiece(ps[k]))) == ps
    ensures LowerStr(Join(cs, "'")) == Join(ps, "'")
  {
    assert LowerStr("'") == "'";
    LowerStrJoin(cs, "'");
    assert seq(|cs|, k requires 0 <= k < |cs| => LowerStr(cs[k])) == ps;
  }

  /** An all-uppercase `_setCapitalization` result lower-cases to the lower-cased input. */
  lemma {:induction false} SetCapitalizationLower(x: string)
    requires IsUpperStr(SetCapitalization(x))
    ensures LowerStr(SetCapitalization(x)) == LowerStr(x)
  {
    var l := LowerStr(x);
    var ps := Split(l, '\'');
    var cs := seq(|ps|, k requires 0 <= k < |ps| => CapitalizePiece(ps[k]));
    var r := SetCapitalization(x);
    assert r == Join(cs, "'");
    assert All(r, NotLower);
    JoinPartsAll(cs, "'", NotLower);
    LowerStrIsLower(x);
    SplitKeepsAll(l, '\'', NotUpper);
    assert forall k :: 0 <= k < |ps| ==> All(CapitalizePiece(ps[k]), NotLower) by {
      assert forall k :: 0 <= k < |ps| ==> cs[k] == CapitalizePiece(ps[k]);
    }
    UpperPiecesAreTitled(ps);
    LowerPieces(cs, ps);
    JoinSplit(l, '\'');
  }

  lemma {:induction false} CapitalizeSegmentIdempotent(seg: string)
    ensures CapitalizeSegment(CapitalizeSegment(seg, true), true) == CapitalizeSegment(seg, true)
  {
    if IsUpperStr(seg) {
      var r := SetCapitalization(seg);
      if IsUpperStr(r) {
        SetCapitalizationLower(seg);
        assert SetCapitalization(r) == r;
      }
    }
  }

  lemma {:induction false} CapitalizeHyphenatedNameIdempotent(w: string)
    requires IsWord(w)
    ensures CapitalizeHyphenatedName(CapitalizeHyphenatedName(w, true), true) == CapitalizeHyphenatedName(w, true)
  {
    var segs := Split(w, '-');
    var cs := seq(|segs|, k requires 0 <= k < |segs| => CapitalizeSegment(segs[k], true));
    CapitalizeHyphenatedNameShape(w, true);
    forall k | 0 <= k < |cs| ensures CapitalizeSegment(cs[k], true) == cs[k] {
      CapitalizeSegmentIdempotent(segs[k]);
    }
    assert seq(|cs|, k requires 0 <= k < |cs| => CapitalizeSegment(cs[k], true)) == cs;
  }

  /** Formatting a family name twice changes nothing more. */
  lemma {:induction false} FormatFamilyNameIdempotent(name: string)
    ensures FormatFamilyName(FormatFamilyName(name)) == FormatFamilyName(name)
  {
    var ws := SplitWs(name);
    var hs := seq(|ws|, k requires 0 <= k < |ws| => CapitalizeHyphenatedName(ws[k], true));
    CapitalizeNameShape(name, true);
    forall k | 0 <= k < |hs| ensures CapitalizeHyphenatedName(hs[k], true) == hs[k] {
      CapitalizeHyphenatedNameIdempotent(ws[k]);
    }
    assert seq(|hs|, k requires 0 <= k < |hs| => CapitalizeHyphenatedName(hs[k], true)) == hs;
  }

  // ---------------------------------------------------------------------------------------------
  // formatGivenName: tidy text with a space after every inner dot

  /** Every dot is followed by a space. */
  predicate DotThenSpace(t: string) {
    forall i :: 0 <= i < |t| && t[i] == '.' ==> i + 1 < |t| && t[i + 1] == ' '
  }

  /** Every dot but a final one is followed by a space. */
  predicate InnerDotThenSpace(t: string) {
    forall i :: 0 <= i < |t| - 1 && t[i] == '.' ==> t[i + 1] == ' '
  }

  /** A dot, if any, is the last character. */
  predicate DotOnlyLast(w: string) { forall i :: 0 <= i < |w| - 1 ==> w[i] != '.' }

  lemma {:induction false} ReplaceDotsSpaced(s: string)
    ensures DotThenSpace(ReplaceBy(s, '.', ". "))
    decreases |s|
  {
    if |s| > 0 {
      ReplaceDotsSpaced(s[1..]);
      var h := if s[0] == '.' then ". " else [s[0]];
      var rest := ReplaceBy(s[1..], '.', ". ");
      var t := h + rest;
      assert ReplaceBy(s, '.', ". ") == t;
      forall i | 0 <= i < |t| && t[i] == '.' ensures i + 1 < |t| && t[i + 1] == ' ' {
        if i >= |h| {
          assert t[i] == rest[i - |h|];
          assert t[i + 1] == rest[i - |h| + 1];
        }
      }
    }
  }

  /** The words of a text in which dots are followed by whitespace carry a dot only at their end. */
  lemma {:induction false} WordsDotOnlyLast(s: string)
    requires InnerDotThenSpace(s)
    ensures forall k :: 0 <= k < |SplitWs(s)| ==> DotOnlyLast(SplitWs(s)[k])
    decreases |s|
  {
    if |s| > 0 {
      if IsSpace(s[0]) {
        WordsDotOnlyLast(s[1..]);
      } else {
        var k := SpanEnd(s, 0, NotSpace);
        var w := s[..k];
        forall i | 0 <= i < k - 1 ensures w[i] != '.' {
          assert w[i] == s[i] && NotSpace(s[i + 1]);
        }
        assert InnerDotThenSpace(s[k..]) by {
          assert forall i :: 0 <= i < |s[k..]| ==> s[k..][i] == s[k + i];
        }
        WordsDotOnlyLast(s[k..]);
        assert SplitWs(s) == [w] + SplitWs(s[k..]);
      }
    }
  }

  lemma {:induction false} JoinDotsSpaced(ws: seq<string>)
    requires forall k :: 0 <= k < |ws| ==> DotOnlyLast(ws[k])
    ensures InnerDotThenSpace(Join(ws, " "))
    decreases |ws|
  {
    if |ws| > 1 {
      var w, r := ws[0], Join(ws[1..], " ");
      JoinDotsSpaced(ws[1..]);
      var t := w + " " + r;
      assert t == Join(ws, " ");
      forall i | 0 <= i < |t| - 1 && t[i] == '.' ensures t[i + 1] == ' ' {
        if i < |w| {
          assert t[i] == w[i];
        } else if i > |w| {
          assert t[i] == r[i - |w| - 1];
          assert t[i + 1] == r[i - |w|];
        }
      }
    }
  }

  /**
   * An unabbreviated given name is the words of the capitalised name, with every dot made
   * into a dot and a space, joined by single spaces.
   */
  lemma {:induction false} FormatGivenNameWords(name: string)
    ensures FormatGivenName(name, false) == Join(SplitWs(ReplaceBy(CapitalizeName(name, false), '.', ". ")), " ")
  {
    StripCollapse(ReplaceBy(CapitalizeName(name, false), '.', ". "));
  }

  /** The result is tidy (single inner spaces, none at the ends) and every inner dot is followed by a space. */
  lemma {:induction false} FormatGivenNameTidy(name: string)
    ensures IsTidy(FormatGivenName(name, false))
    ensures InnerDotThenSpace(FormatGivenName(name, false))
  {
    var x := ReplaceBy(CapitalizeName(name, false), '.', ". ");
    FormatGivenNameWords(name);
    JoinWordsTidy(SplitWs(x));
    ReplaceDotsSpaced(CapitalizeName(name, false));
    WordsDotOnlyLast(x);
    JoinDotsSpaced(SplitWs(x));
  }

  // ---------------------------------------------------------------------------------------------
  // Abbreviation keeps one initial per non-empty piece

  /** The initials are the first characters of exactly the non-empty pieces. */
  lemma {:induction false} InitialsOfNonEmpty(ps: seq<string>)
    ensures var ne := NonEmpty(ps);
      Initials(ps) == seq(|ne|, k requires 0 <= k < |ne| => [ne[k][0], '.'])
    decreases |ps|
  {
    if |ps| > 0 {
      InitialsOfNonEmpty(ps[1..]);
    }
  }

  // ---------------------------------------------------------------------------------------------
  // Worked examples

  lemma {:induction false} CapitalizeOneWord(w: string, isFamilyName: bool)
    requires IsWord(w)
    ensures CapitalizeName(w, isFamilyName) == CapitalizeHyphenatedName(w, isFamilyName)
  {
    SplitWsOfWord(w);
  }

  lemma {:induction false} AbbreviateOneWord(w: string)
    requires IsWord(w)
    ensures AbbreviateName(w) == AbbreviateHyphenatedName(w)
  {
    SplitWsOfWord(w);
  }

  lemma {:induction false} SplitPair(a: string, b: string)
    requires '-' !in a && '-' !in b
    ensures Split(a + "-" + b, '-') == [a, b]
  {
    SplitCons(a, b, '-');
    SplitFree(b, '-');
  }

  lemma {:induction false} CapitalizeTwoSegments(a: string, b: string, isFamilyName: bool)
    requires '-' !in a && '-' !in b
    ensures CapitalizeHyphenatedName(a + "-" + b, isFamilyName)
      == CapitalizeSegment(a, isFamilyName) + "-" + CapitalizeSegment(b, isFamilyName)
  {
    SplitPair(a, b);
    var segs := Split(a + "-" + b, '-');
    var x, y := CapitalizeSegment(a, isFamilyName), CapitalizeSegment(b, isFamilyName);
    assert seq(|segs|, k requires 0 <= k < |segs| => CapitalizeSegment(segs[k], isFamilyName)) == [x] + [y];
    JoinCons(x, [y], "-");
  }

  lemma {:induction false} AbbreviateTwoSegments(a: string, b: string)
    requires '-' !in a && '-' !in b
    ensures AbbreviateHyphenatedName(a + "-" + b) == AbbreviateAbbreviatedName(a) + "-" + AbbreviateAbbreviatedName(b)
  {
    SplitPair(a, b);
    var segs := Split(a + "-" + b, '-');
    var x, y := AbbreviateAbbreviatedName(a), AbbreviateAbbreviatedName(b);
    assert seq(|segs|, k requires 0 <= k < |segs| => AbbreviateAbbreviatedName(segs[k])) == [x] + [y];
    JoinCons(x, [y], "-");
  }

  lemma {:induction false} CapitalizeOneSegment(a: string, isFamilyName: bool)
    requires '-' !in a
    ensures CapitalizeHyphenatedName(a, isFamilyName) == CapitalizeSegment(a, isFamilyName)
  {
    SplitFree(a, '-');
  }

  /** A word without a dot abbreviates to its first character and a dot. */
  lemma {:induction false} InitialOfPiece(p: string)
    requires |p| > 0 && '.' !in p
    ensures AbbreviateAbbreviatedName(p) == [p[0], '.']
  {
    SplitFree(p, '.');
  }

  lemma {:induction false} SetCapitalizationOnePiece(x: string)
    requires '\'' !in LowerStr(x)
    ensures SetCapitalization(x) == CapitalizePiece(LowerStr(x))
  {
    SplitFree(LowerStr(x), '\'');
  }

  /** An all-uppercase family name of one word, without hyphen or apostrophe, is one capitalised piece. */
  lemma {:induction false} FamilyNameOnePiece(w: string)
    requires IsWord(w) && '-' !in w && IsUpperStr(w) && '\'' !in LowerStr(w)
    ensures FormatFamilyName(w) == CapitalizePiece(LowerStr(w))
  {
    CapitalizeOneWord(w, true);
    CapitalizeOneSegment(w, true);
    SetCapitalizationOnePiece(w);
  }

  /** A given name whose capitalised form is one word without dots is that word, or its abbreviation. */
  lemma {:induction false} GivenNameOneWord(name: string, c: string)
    requires CapitalizeName(name, false) == c && IsWord(c) && '.' !in c
    ensures FormatGivenName(name, false) == c
    ensures FormatGivenName(name, true) == AbbreviateName(c)
  {
    ReplaceByAbsent(c, '.', ". ");
    StripCollapse(c);
    SplitWsOfWord(c);
  }

  /** Two hyphenated dot-free segments abbreviate to two initials. */
  lemma {:induction false} AbbreviateTwoInitials(a: string, b: string)
    requires |a| > 0 && |b| > 0 && '-' !in a && '-' !in b && '.' !in a && '.' !in b
    requires IsWord(a + "-" + b)
    ensures AbbreviateName(a + "-" + b) == [a[0], '.', '-', b[0], '.']
  {
    AbbreviateOneWord(a + "-" + b);
    AbbreviateTwoSegments(a, b);
    InitialOfPiece(a);
    InitialOfPiece(b);
  }

  /** A "mc" piece: "Mc", then the rest after the stripped run, title-cased */
  lemma {:induction false} McPieceIs(p: string, rest: string, t: string, r: string)
    requires StartsWith(p, "mc") && LStripSet(p, {'m', 'c'}) == rest && Title(rest) == t && "Mc" + t == r
    ensures CapitalizePiece(p) == r
  {
  }

  /**
   * A one-word family name in upper case made of a run of 'M' and 'C' letters beginning "MC",
   * then a letter `c` other than those two, then more upper-case letters. `lstrip('mc')`
   * removes the whole lower-cased run, so the name becomes "Mc", then `c`, then the rest in
   * lower case.
   */
  lemma {:induction false} McFamilyName(u: string, run: string, c: char, tail: string, r: string)
    requires |run| >= 2 && run[0] == 'M' && run[1] == 'C' && forall i :: 0 <= i < |run| ==> run[i] in {'M', 'C'}
    requires IsUpper(c) && c != 'M' && c != 'C' && forall i :: 0 <= i < |tail| ==> IsUpper(tail[i])
    requires u == run + ([c] + tail) && r == "Mc" + ([c] + LowerStr(tail))
    ensures FormatFamilyName(u) == r
  {
    var lrun, ltail := LowerStr(run), LowerStr(tail);
    var l := LowerStr(u);
    UpperRunWord(u, run, c, tail);
    FamilyNameOnePiece(u);
    assert l[..2] == "mc" by { assert l[0] == lrun[0] && l[1] == lrun[1]; }
    LStripSetRun(lrun, [Lower(c)] + ltail, {'m', 'c'});
    TitleLowerWord(Lower(c), ltail);
    McPieceIs(l, [Lower(c)] + ltail, [c] + ltail, "Mc" + ([c] + ltail));
  }

  /** The word facts `McFamilyName` needs: an upper-case word whose lower-casing splits like the word. */
  lemma {:induction false} UpperRunWord(u: string, run: string, c: char, tail: string)
    requires |run| >= 2 && run[0] == 'M' && run[1] == 'C' && forall i :: 0 <= i < |run| ==> run[i] in {'M', 'C'}
    requires IsUpper(c) && forall i :: 0 <= i < |tail| ==> IsUpper(tail[i])
    requires u == run + ([c] + tail)
    ensures IsWord(u) && '-' !in u && IsUpperStr(u) && '\'' !in LowerStr(u)
    ensures LowerStr(u) == LowerStr(run) + ([Lower(c)] + LowerStr(tail))
  {
    var l := LowerStr(u);
    forall i | 0 <= i < |u| ensures IsUpper(u[i]) && l[i] != '\'' {
      if i > |run| {
        assert u[i] == tail[i - |run| - 1];
      }
    }
    assert IsUpper(u[0]);
    forall i | 0 <= i < |l| ensures l[i] == (LowerStr(run) + ([Lower(c)] + LowerStr(tail)))[i] {
      if i > |run| {
        assert u[i] == tail[i - |run| - 1];
      }
    }
  }

  /**
   * `lstrip('mc')` strips every leading 'm' and 'c', so the second C of McCarthy is lost:
   * "MCCARTHY" becomes "McArthy".
   */
  lemma {:induction false} FormatFamilyNameMcCarthy()
    ensures FormatFamilyName("MCCARTHY") == "McArthy"
  {
    McFamilyName("MCCARTHY", "MCC", 'A', "RTHY", "McArthy");
  }

  lemma {:induction false} McDonaldFamily(f: string)
    requires f == "MCDONALD"
    ensures FormatFamilyName(f) == "McDonald"
  {
    McFamilyName(f, "MC", 'D', "ONALD", "McDonald");
  }

  lemma {:induction false} JeanPaulSegments()
    ensures "JEAN-PAUL" == "JEAN" + "-" + "PAUL" && IsWord("JEAN-PAUL") && '-' !in "JEAN" && '-' !in "PAUL"
  {
  }

  lemma {:induction false} JeanTitled()
    ensures IsUpperStr("JEAN") && CapitalizeSegment("JEAN", false) == "Jean"
  {
    assert IsUpper("JEAN"[0]);
    assert Title("JEAN") == "Jean";
  }

  lemma {:induction false} PaulTitled()
    ensures IsUpperStr("PAUL") && CapitalizeSegment("PAUL", false) == "Paul"
  {
    assert IsUpper("PAUL"[0]);
    assert Title("PAUL") == "Paul";
  }

  lemma {:induction false} CapitalizeTwoSegmentWord(w: string, a: string, b: string, isFamilyName: bool, x: string, y: string, r: string)
    requires w == a + "-" + b && IsWord(w) && '-' !in a && '-' !in b
    requires CapitalizeSegment(a, isFamilyName) == x && CapitalizeSegment(b, isFamilyName) == y && x + "-" + y == r
    ensures CapitalizeName(w, isFamilyName) == r
  {
    CapitalizeOneWord(w, isFamilyName);
    CapitalizeTwoSegments(a, b, isFamilyName);
  }

  lemma {:induction false} CapitalizeJeanPaul(w: string)
    requires w == "JEAN-PAUL"
    ensures CapitalizeName(w, false) == "Jean-Paul"
  {
    JeanPaulSegments();
    JeanTitled();
    PaulTitled();
    JeanPaulWord();
    CapitalizeTwoSegmentWord(w, "JEAN", "PAUL", false, "Jean", "Paul", "Jean-Paul");
  }

  lemma {:induction false} JeanPaulWord()
    ensures "Jean-Paul" == "Jean" + "-" + "Paul" && IsWord("Jean-Paul") && '.' !in "Jean-Paul"
    ensures '-' !in "Jean" && '-' !in "Paul" && '.' !in "Jean" && '.' !in "Paul"
  {
  }

  lemma {:induction false} FormatGivenNameJeanPaul()
    ensures FormatGivenName("JEAN-PAUL", false) == "Jean-Paul"
    ensures FormatGivenName("JEAN-PAUL", true) == "J.-P."
  {
    CapitalizeJeanPaul("JEAN-PAUL");
    JeanPaulWord();
    GivenNameOneWord("JEAN-PAUL", "Jean-Paul");
    AbbreviateTwoInitials("Jean", "Paul");
  }

  /** Abbreviating "jean-paul" keeps one initial per hyphen segment: "j.-p.". */
  lemma {:induction false} AbbreviateJeanPaul()
    ensures AbbreviateName("jean-paul") == "j.-p."
  {
    assert "jean-paul" == "jean" + "-" + "paul" && IsWord("jean-paul");
    AbbreviateTwoInitials("jean", "paul");
  }

  /** Given name first: the words of the result are the given name's words, then the family name's. */
  lemma {:induction false} FormatNameGivenFirstWords(g: string, f: string, abbreviate: bool)
    ensures SplitWs(FormatName(g, f, abbreviate, false)) ==
      SplitWs(FormatGivenName(g, abbreviate)) + SplitWs(FormatFamilyName(f))
  {
    var gn, fn := FormatGivenName(g, abbreviate), FormatFamilyName(f);
    assert gn + " " + fn == gn + [' '] + fn;
    SplitWsAtSpace(gn, ' ', fn);
  }

  /**
   * Family name first: the first ", " of the result ends the formatted family name and the
   * formatted given name follows it, provided the family name does not itself hold ", ".
   */
  lemma {:induction false} FormatNameFamilyFirstParts(g: string, f: string, abbreviate: bool)
    requires forall i: nat :: !OccursAt(FormatFamilyName(f), ", ", i)
    ensures IndexOf(FormatName(g, f, abbreviate, true), ", ", 0) == Some(|FormatFamilyName(f)|)
    ensures FormatName(g, f, abbreviate, true)[..|FormatFamilyName(f)|] == FormatFamilyName(f)
    ensures FormatName(g, f, abbreviate, true)[|FormatFamilyName(f)| + 2..] == FormatGivenName(g, abbreviate)
  {
    var gn, fn := FormatGivenName(g, abbreviate), FormatFamilyName(f);
    var r := FormatName(g, f, abbreviate, true);
    assert r == fn + ", " + gn;
    assert OccursAt(r, ", ", |fn|) by { assert r[|fn|..|fn| + 2] == ", "; }
    forall i: nat | i < |fn| ensures !OccursAt(r, ", ", i) {
      if i + 2 <= |fn| {
        assert r[i..i + 2] == fn[i..i + 2];
        assert !OccursAt(fn, ", ", i);
      } else {
        assert r[i + 1] == ',';
      }
    }
    var k := IndexOf(r, ", ", 0);
    assert k.Some? && k.value == |fn|;
    assert r[..|fn|] == fn;
    assert r[|fn| + 2..] == gn;
  }

  /** The two layouts of `formatName` over already formatted parts */
  lemma {:induction false} FormatNameJoins(g: string, f: string, abbreviate: bool, gn: string, fn: string)
    requires FormatGivenName(g, abbreviate) == gn && FormatFamilyName(f) == fn
    ensures FormatName(g, f, abbreviate, true) == fn + ", " + gn
    ensures FormatName(g, f, abbreviate, false) == gn + " " + fn
  {
  }

  /** The joined example names, character by character */
  lemma {:induction false} NameLiterals(fn: string, gAbbr: string, famFirst: string, gFull: string, givenFirst: string)
    requires (fn == "McDonald" && gAbbr == "J.-P." && famFirst == "McDonald, J.-P." && gFull == "Jean-Paul"
      && givenFirst == "Jean-Paul McDonald") ||
      (fn == "mcdonald" && gAbbr == "j.-p." && famFirst == "mcdonald, j.-p." && gFull == "jean-paul"
      && givenFirst == "jean-paul mcdonald")
    ensures fn + ", " + gAbbr == famFirst && gFull + " " + fn == givenFirst
  {
  }

  /** Family name first, given name abbreviated: "McDonald, J.-P."; or in full, given name first. */
  lemma {:induction false} FormatNameExample(g: string, f: string)
    requires g == "JEAN-PAUL" && f == "MCDONALD"
    ensures FormatName(g, f, true, true) == "McDonald, J.-P."
    ensures FormatName(g, f, false, false) == "Jean-Paul McDonald"
  {
    FormatGivenNameJeanPaul();
    McDonaldFamily(f);
    FormatNameJoins(g, f, true, "J.-P.", "McDonald");
    FormatNameJoins(g, f, false, "Jean-Paul", "McDonald");
    NameLiterals("McDonald", "J.-P.", "McDonald, J.-P.", "Jean-Paul", "Jean-Paul McDonald");
  }

  /** A lower-case given name is only re-spaced: "jean-paul" stays "jean-paul", or "j.-p." abbreviated. */
  lemma {:induction false} FormatGivenNameLowerJeanPaul(g: string)
    requires g == "jean-paul"
    ensures FormatGivenName(g, false) == g && FormatGivenName(g, true) == "j.-p."
  {
    assert All(g, NotUpper) && IsWord(g) && '.' !in g;
    CapitalizeLowerCaseName(g, false);
    SplitWsOfWord(g);
    assert Join([g], " ") == g;
    GivenNameOneWord(g, g);
    AbbreviateJeanPaul();
  }

  /** A one-word family name without upper-case letters is left as written. */
  lemma {:induction false} FormatFamilyNameLowerWord(f: string)
    requires IsWord(f) && All(f, NotUpper)
    ensures FormatFamilyName(f) == f
  {
    CapitalizeLowerCaseName(f, true);
    SplitWsOfWord(f);
    assert Join([f], " ") == f;
  }

  /** "mcdonald" does not become "McDonald": the Mc rule applies only to all-uppercase segments. */
  lemma {:induction false} FormatFamilyNameLowerMcDonald(f: string)
    requires f == "mcdonald"
    ensures FormatFamilyName(f) == f
  {
    assert IsWord(f) && All(f, NotUpper);
    FormatFamilyNameLowerWord(f);
  }

  /**
   * The same name spelt in lower case is left as written, because only all-uppercase
   * segments are re-cased: "jean-paul" and "mcdonald" give "mcdonald, j.-p.", not
   * "McDonald, J.-P.".
   */
  lemma {:induction false} FormatNameLowerCaseExample(g: string, f: string)
    requires g == "jean-paul" && f == "mcdonald"
    ensures FormatName(g, f, true, true) == "mcdonald, j.-p."
    ensures FormatName(g, f, false, false) == "jean-paul mcdonald"
  {
    FormatGivenNameLowerJeanPaul(g);
    FormatFamilyNameLowerMcDonald(f);
    FormatNameJoins(g, f, true, "j.-p.", f);
    FormatNameJoins(g, f, false, g, f);
    NameLiterals(f, "j.-p.", "mcdonald, j.-p.", g, "jean-paul mcdonald");
  }

}
