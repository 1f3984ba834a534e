/**
 * ASCII character classes and the Python 2 `str` operations the core relies on
 * (`split`, `join`, `strip`, `lower`, `title`, `isupper`, `re.sub('\s+', ' ', ...)`),
 * written out over `seq<char>`.
 */
module Text {

  import opened Wrappers

  predicate IsDigit(c: char) { '0' <= c <= '9' }
  predicate IsUpper(c: char) { 'A' <= c <= 'Z' }
  predicate IsLower(c: char) { 'a' <= c <= 'z' }
  predicate IsLetter(c: char) { IsUpper(c) || IsLower(c) }

  /** `\w` of Python 2 on byte strings: [A-Za-z0-9_] */
  predicate IsWordChar(c: char) { IsLetter(c) || IsDigit(c) || c == '_' }

  /** `\s` and `str.isspace` of Python 2: space, tab, newline, carriage return, vertical tab, form feed */
  predicate IsSpace(c: char) {
    c == ' ' || c == '\t' || c == '\n' || c == '\r' || c == '\U{000B}' || c == '\U{000C}'
  }

  predicate NotSpace(c: char) { !IsSpace(c) }

  predicate AllDigits(s: string) { forall i :: 0 <= i < |s| ==> IsDigit(s[i]) }

  function Lower(c: char): char { if IsUpper(c) then (c as int + 32) as char else c }
  function Upper(c: char): char { if IsLower(c) then (c as int - 32) as char else c }

  /** `str.lower()` */
  function LowerStr(s: string): string { seq(|s|, i requires 0 <= i < |s| => Lower(s[i])) }

  /**
   * `str.title()` of Python 2: a letter is upper-cased when the character before it is not
   * a letter and lower-cased otherwise; every other character is kept.
   */
  function TitleFrom(s: string, afterLetter: bool): (r: string)
    ensures |r| == |s|
    ensures forall i :: 0 <= i < |s| ==> (IsLetter(r[i]) <==> IsLetter(s[i]))
    ensures forall i :: 0 <= i < |s| && !IsLetter(s[i]) ==> r[i] == s[i]
    ensures forall i :: 0 <= i < |s| ==> Lower(r[i]) == Lower(s[i])
    decreases |s|
  {
    if |s| == 0 then ""
    else if IsLetter(s[0]) then [if afterLetter then Lower(s[0]) else Upper(s[0])] + TitleFrom(s[1..], true)
    else [s[0]] + TitleFrom(s[1..], false)
  }

  function Title(s: string): string { TitleFrom(s, false) }

  /** Title-casing a title-cased text changes nothing. */
  lemma {:induction false} TitleFromIdempotent(s: string, afterLetter: bool)
    ensures TitleFrom(TitleFrom(s, afterLetter), afterLetter) == TitleFrom(s, afterLetter)
    decreases |s|
  {
    if |s| > 0 {
      var r := TitleFrom(s, afterLetter);
      var b := IsLetter(s[0]);
      TitleFromIdempotent(s[1..], b);
      assert r[1..] == TitleFrom(s[1..], b);
    }
  }

  /** After a letter, a run of lower-case letters is left as it is. */
  lemma {:induction false} TitleFromLowerRun(s: string)
    requires forall i :: 0 <= i < |s| ==> IsLower(s[i])
    ensures TitleFrom(s, true) == s
    decreases |s|
  {
    if |s| > 0 {
      TitleFromLowerRun(s[1..]);
      assert s == [s[0]] + s[1..];
    }
  }

  /** A lower-case word is title-cased by upper-casing its first letter. */
  lemma {:induction false} TitleLowerWord(c: char, rest: string)
    requires IsLower(c) && forall i :: 0 <= i < |rest| ==> IsLower(rest[i])
    ensures Title([c] + rest) == [Upper(c)] + rest
  {
    TitleFromLowerRun(rest);
    assert ([c] + rest)[1..] == rest;
  }

  /** `str.isupper()`: at least one upper-case letter and no lower-case one */
  predicate IsUpperStr(s: string) {
    (exists i :: 0 <= i < |s| && IsUpper(s[i])) && forall i :: 0 <= i < |s| ==> !IsLower(s[i])
  }

  predicate StartsWith(s: string, p: string) { |p| <= |s| && s[..|p|] == p }
  predicate EndsWith(s: string, p: string) { |p| <= |s| && s[|s| - |p|..] == p }

  /** `sub` occurs in `s` at index `i` */
  predicate OccursAt(s: string, sub: string, i: nat) { i + |sub| <= |s| && s[i..i + |sub|] == sub }

  /** `s.split(sep)` for a one-character separator: the pieces between separators, empty ones included. */
  function Split(s: string, sep: char): (parts: seq<string>)
    ensures |parts| >= 1
    ensures forall k :: 0 <= k < |parts| ==> sep !in parts[k]
    decreases |s|
  {
    if |s| == 0 then [""]
    else
      var rest := Split(s[1..], sep);
      if s[0] == sep then [""] + rest
      else [[s[0]] + rest[0]] + rest[1..]
  }

  /** `sep.join(parts)` */
  function Join(parts: seq<string>, sep: string): string
    decreases |parts|
  {
    if |parts| == 0 then ""
    else if |parts| == 1 then parts[0]
    else parts[0] + sep + Join(parts[1..], sep)
  }

  /** The end of the run of characters satisfying `p` that starts at `i`. */
  function SpanEnd(s: string, i: nat, p: char -> bool): (k: nat)
    requires i <= |s|
    ensures i <= k <= |s|
    ensures forall j :: i <= j < k ==> p(s[j])
    ensures k < |s| ==> !p(s[k])
    decreases |s| - i
  {
    if i == |s| || !p(s[i]) then i else SpanEnd(s, i + 1, p)
  }

  predicate IsWord(w: string) { |w| > 0 && forall j :: 0 <= j < |w| ==> !IsSpace(w[j]) }

  /** `s.split()`: the maximal runs of non-space characters. */
  function SplitWs(s: string): (words: seq<string>)
    ensures forall k :: 0 <= k < |words| ==> IsWord(words[k])
    decreases |s|
  {
    if |s| == 0 then []
    else if IsSpace(s[0]) then SplitWs(s[1..])
    else
      var k := SpanEnd(s, 0, NotSpace);
      [s[..k]] + SplitWs(s[k..])
  }

  function LStrip(s: string): string { s[SpanEnd(s, 0, IsSpace)..] }

  function RStrip(s: string): string
    decreases |s|
  {
    if |s| > 0 && IsSpace(s[|s| - 1]) then RStrip(s[..|s| - 1]) else s
  }

  /** `str.strip()` */
  function Strip(s: string): string { RStrip(LStrip(s)) }

  /** `re.sub('\s+', ' ', s)`: every maximal run of whitespace becomes one space. */
  function CollapseWs(s: string): string
    decreases |s|
  {
    if |s| == 0 then ""
    else if IsSpace(s[0]) then " " + CollapseWs(s[SpanEnd(s, 0, IsSpace)..])
    else
      var k := SpanEnd(s, 0, NotSpace);
      s[..k] + CollapseWs(s[k..])
  }

  /** `s.replace(a, b)` for one-character `a` and `b` */
  function ReplaceChar(s: string, a: char, b: char): string {
    seq(|s|, i requires 0 <= i < |s| => if s[i] == a then b else s[i])
  }

  /** `s.replace(a, r)` for a one-character `a` */
  function ReplaceBy(s: string, a: char, r: string): string
    decreases |s|
  {
    if |s| == 0 then "" else (if s[0] == a then r else [s[0]]) + ReplaceBy(s[1..], a, r)
  }

  /** `s.replace(a, '')` */
  function RemoveChar(s: string, a: char): (r: string)
    ensures a !in r
    decreases |s|
  {
    if |s| == 0 then "" else (if s[0] == a then "" else [s[0]]) + RemoveChar(s[1..], a)
  }

  /** `s.lstrip(chars)`: strips a leading run of characters from the SET `cs` */
  function LStripSet(s: string, cs: set<char>): string
    decreases |s|
  {
    if |s| > 0 && s[0] in cs then LStripSet(s[1..], cs) else s
  }

  /** `lstrip(chars)` removes a prefix made of `cs` and stops at a character outside it. */
  lemma {:induction false} LStripSetSuffix(s: string, cs: set<char>)
    ensures var r := LStripSet(s, cs);
      |r| <= |s| && r == s[|s| - |r|..] && (|r| > 0 ==> r[0] !in cs) &&
      forall i :: 0 <= i < |s| - |r| ==> s[i] in cs
    decreases |s|
  {
    if |s| > 0 && s[0] in cs {
      LStripSetSuffix(s[1..], cs);
    }
  }

  lemma {:induction false} LStripSetDrop(c: char, s: string, cs: set<char>)
    requires c in cs
    ensures LStripSet([c] + s, cs) == LStripSet(s, cs)
  {
    assert ([c] + s)[1..] == s;
  }

  /** A leading run of characters from the set, up to one outside it, is stripped whole. */
  lemma {:induction false} LStripSetRun(run: string, s: string, cs: set<char>)
    requires forall i :: 0 <= i < |run| ==> run[i] in cs
    requires |s| > 0 && s[0] !in cs
    ensures LStripSet(run + s, cs) == s
    decreases |run|
  {
    if |run| == 0 {
      assert run + s == s;
      LStripSetStop(s, cs);
    } else {
      assert run + s == [run[0]] + (run[1..] + s);
      LStripSetDrop(run[0], run[1..] + s, cs);
      LStripSetRun(run[1..], s, cs);
    }
  }

  lemma {:induction false} LStripSetStop(s: string, cs: set<char>)
    requires |s| > 0 && s[0] !in cs
    ensures LStripSet(s, cs) == s
  {
  }

  /** `s.rstrip(chars)` */
  function RStripSet(s: string, cs: set<char>): (r: string)
    ensures |r| <= |s| && r == s[..|r|]
    ensures |r| > 0 ==> r[|r| - 1] !in cs
    ensures forall i :: |r| <= i < |s| ==> s[i] in cs
    decreases |s|
  {
    if |s| > 0 && s[|s| - 1] in cs then RStripSet(s[..|s| - 1], cs) else s
  }

  /** The first index at or after `from` where `sub` occurs in `s`. */
  function IndexOf(s: string, sub: string, from: nat): (r: Option<nat>)
    requires |sub| > 0
    ensures r.Some? ==> from <= r.value && OccursAt(s, sub, r.value)
    ensures r.Some? ==> forall i :: from <= i < r.value ==> !OccursAt(s, sub, i)
    ensures r.None? ==> forall i :: from <= i ==> !OccursAt(s, sub, i)
    decreases |s| - from
  {
    if from + |sub| > |s| then None
    else if OccursAt(s, sub, from) then Some(from)
    else IndexOf(s, sub, from + 1)
  }

  // ---------------------------------------------------------------------------------------------
  // split / join

  lemma {:induction false} JoinCons(x: string, ps: seq<string>, sep: string)
    requires |ps| >= 1
    ensures Join([x] + ps, sep) == x + sep + Join(ps, sep)
  {
    assert ([x] + ps)[1..] == ps;
  }

  lemma {:induction false} JoinSplit(s: string, sep: char)
    ensures Join(Split(s, sep), [sep]) == s
    decreases |s|
  {
    if |s| > 0 {
      var rest := Split(s[1..], sep);
      JoinSplit(s[1..], sep);
      if s[0] == sep {
        JoinCons("", rest, [sep]);
        assert s == [sep] + s[1..];
      } else if |rest| == 1 {
        assert s == [s[0]] + s[1..];
      } else {
        assert rest == [rest[0]] + rest[1..];
        JoinCons(rest[0], rest[1..], [sep]);
        JoinCons([s[0]] + rest[0], rest[1..], [sep]);
        assert s == [s[0]] + s[1..];
      }
    }
  }

  lemma {:induction false} SplitFree(x: string, sep: char)
    requires sep !in x
    ensures Split(x, sep) == [x]
    decreases |x|
  {
    if |x| > 0 {
      SplitFree(x[1..], sep);
      assert x == [x[0]] + x[1..];
    }
  }

  /** The first piece of a split is the text up to the first separator, or all of it. */
  lemma {:induction false} SplitFirst(s: string, sep: char)
    ensures StartsWith(s, Split(s, sep)[0])
    ensures |Split(s, sep)[0]| == |s| || s[|Split(s, sep)[0]|] == sep
    decreases |s|
  {
    if |s| > 0 && s[0] != sep {
      SplitFirst(s[1..], sep);
      var h := Split(s[1..], sep)[0];
      assert Split(s, sep)[0] == [s[0]] + h;
      assert s[..|h| + 1] == [s[0]] + s[1..][..|h|];
    }
  }

  lemma {:induction false} SplitCons(x: string, y: string, sep: char)
    requires sep !in x
    ensures Split(x + [sep] + y, sep) == [x] + Split(y, sep)
    decreases |x|
  {
    var s := x + [sep] + y;
    if |x| == 0 {
      assert s[1..] == y;
    } else {
      assert s[1..] == x[1..] + [sep] + y;
      SplitCons(x[1..], y, sep);
      assert [s[0]] + x[1..] == x;
    }
  }

  /** Splitting undoes joining when no part holds the separator. */
  lemma {:induction false} SplitJoin(ps: seq<string>, sep: char)
    requires |ps| >= 1
    requires forall k :: 0 <= k < |ps| ==> sep !in ps[k]
    ensures Split(Join(ps, [sep]), sep) == ps
    decreases |ps|
  {
    if |ps| == 1 {
      SplitFree(ps[0], sep);
    } else {
      SplitJoin(ps[1..], sep);
      SplitCons(ps[0], Join(ps[1..], [sep]), sep);
      assert ps == [ps[0]] + ps[1..];
    }
  }

  /** Every character of `s` has property `p`. */
  predicate All(s: string, p: char -> bool) { forall i :: 0 <= i < |s| ==> p(s[i]) }

  /** The pieces of a split keep any property all characters of the text have. */
  lemma {:induction false} SplitKeepsAll(s: string, sep: char, p: char -> bool)
    requires All(s, p)
    ensures forall k :: 0 <= k < |Split(s, sep)| ==> All(Split(s, sep)[k], p)
    decreases |s|
  {
    if |s| > 0 {
      SplitKeepsAll(s[1..], sep, p);
    }
  }

  /** The words of a text keep any property all its characters have. */
  lemma {:induction false} SplitWsKeepsAll(s: string, p: char -> bool)
    requires All(s, p)
    ensures forall k :: 0 <= k < |SplitWs(s)| ==> All(SplitWs(s)[k], p)
    decreases |s|
  {
    if |s| > 0 {
      if IsSpace(s[0]) {
        SplitWsKeepsAll(s[1..], p);
      } else {
        var k := SpanEnd(s, 0, NotSpace);
        SplitWsKeepsAll(s[k..], p);
        assert SplitWs(s) == [s[..k]] + SplitWs(s[k..]);
      }
    }
  }

  /** A join keeps any property all characters of the parts and of the separator have. */
  lemma {:induction false} JoinKeepsAll(ps: seq<string>, sep: string, p: char -> bool)
    requires All(sep, p)
    requires forall k :: 0 <= k < |ps| ==> All(ps[k], p)
    ensures All(Join(ps, sep), p)
    decreases |ps|
  {
    if |ps| > 1 {
      JoinKeepsAll(ps[1..], sep, p);
      var t := Join(ps[1..], sep);
      forall i | 0 <= i < |ps[0] + sep + t| ensures p((ps[0] + sep + t)[i]) {
        if i < |ps[0]| {
        } else if i < |ps[0]| + |sep| {
          assert (ps[0] + sep + t)[i] == sep[i - |ps[0]|];
        } else {
          assert (ps[0] + sep + t)[i] == t[i - |ps[0]| - |sep|];
        }
      }
    }
  }

  /** A join is empty only when there is no part, or one empty part. */
  lemma {:induction false} JoinEmpty(ps: seq<string>, sep: string)
    requires |sep| > 0
    ensures |Join(ps, sep)| == 0 <==> |ps| == 0 || (|ps| == 1 && |ps[0]| == 0)
  {
  }

  lemma {:induction false} JoinAt(ps: seq<string>, i: nat, sep: string)
    requires 0 < i < |ps|
    ensures Join(ps[..i], sep) + sep + Join(ps[i..], sep) == Join(ps, sep)
    decreases i
  {
    if i == 1 {
      assert ps[..1] == [ps[0]];
      assert ps[1..] == ps[i..];
    } else {
      JoinAt(ps[1..], i - 1, sep);
      assert ps[1..][..i - 1] == ps[1..i];
      assert ps[1..][i - 1..] == ps[i..];
      assert ps[..i] == [ps[0]] + ps[1..i];
      JoinCons(ps[0], ps[1..i], sep);
    }
  }

  // ---------------------------------------------------------------------------------------------
  // split() on whitespace

  /** `SpanEnd` is determined by its contract. */
  lemma {:induction false} SpanEndIs(s: string, i: nat, p: char -> bool, k: nat)
    requires i <= k <= |s|
    requires forall j :: i <= j < k ==> p(s[j])
    requires k < |s| ==> !p(s[k])
    ensures SpanEnd(s, i, p) == k
  {
  }

  lemma {:induction false} SplitWsOfWord(w: string)
    requires IsWord(w)
    ensures SplitWs(w) == [w]
  {
    SpanEndIs(w, 0, NotSpace, |w|);
    assert w[..|w|] == w;
    assert w[|w|..] == "";
  }

  lemma {:induction false} SplitWsWordThen(w: string, t: string)
    requires IsWord(w) && |t| > 0 && IsSpace(t[0])
    ensures SplitWs(w + t) == [w] + SplitWs(t)
  {
    var s := w + t;
    SpanEndIs(s, 0, NotSpace, |w|);
    assert s[..|w|] == w;
    assert s[|w|..] == t;
  }

  /** Splitting on whitespace undoes joining words with single spaces. */
  lemma {:induction false} SplitWsJoin(ws: seq<string>)
    requires forall k :: 0 <= k < |ws| ==> IsWord(ws[k])
    ensures SplitWs(Join(ws, " ")) == ws
    decreases |ws|
  {
    if |ws| == 1 {
      SplitWsOfWord(ws[0]);
    } else if |ws| > 1 {
      var t := " " + Join(ws[1..], " ");
      SplitWsJoin(ws[1..]);
      assert Join(ws, " ") == ws[0] + t;
      SplitWsWordThen(ws[0], t);
      assert t[1..] == Join(ws[1..], " ");
      assert ws == [ws[0]] + ws[1..];
    }
  }

  /** Every whitespace character separates words. */
  lemma {:induction false} SplitWsAtSpace(a: string, x: char, b: string)
    requires IsSpace(x)
    ensures SplitWs(a + [x] + b) == SplitWs(a) + SplitWs(b)
    decreases |a|
  {
    var s := a + [x] + b;
    if |a| == 0 {
      assert s[1..] == b;
    } else if IsSpace(a[0]) {
      assert s[1..] == a[1..] + [x] + b;
      SplitWsAtSpace(a[1..], x, b);
    } else {
      var k := SpanEnd(a, 0, NotSpace);
      SpanEndIs(s, 0, NotSpace, k);
      assert s[..k] == a[..k];
      assert s[k..] == a[k..] + [x] + b;
      SplitWsAtSpace(a[k..], x, b);
    }
  }

  /** Two strings with the same whitespace positions and the same other characters have the same words. */
  lemma {:induction false} SplitWsSameShape(s: string, t: string)
    requires |s| == |t|
    requires forall i :: 0 <= i < |s| ==> (IsSpace(s[i]) <==> IsSpace(t[i]))
    requires forall i :: 0 <= i < |s| && !IsSpace(s[i]) ==> s[i] == t[i]
    ensures SplitWs(s) == SplitWs(t)
    decreases |s|
  {
    if |s| > 0 {
      if IsSpace(s[0]) {
        SplitWsSameShape(s[1..], t[1..]);
      } else {
        var k := SpanEnd(s, 0, NotSpace);
        SpanEndIs(t, 0, NotSpace, k);
        assert s[..k] == t[..k];
        SplitWsSameShape(s[k..], t[k..]);
      }
    }
  }

  lemma {:induction false} SplitWsDropLeading(s: string)
    ensures SplitWs(s[SpanEnd(s, 0, IsSpace)..]) == SplitWs(s)
    decreases |s|
  {
    if |s| > 0 && IsSpace(s[0]) {
      var m := SpanEnd(s, 0, IsSpace);
      SpanEndIs(s[1..], 0, IsSpace, m - 1);
      SplitWsDropLeading(s[1..]);
      assert s[1..][m - 1..] == s[m..];
    } else {
      SpanEndIs(s, 0, IsSpace, 0);
    }
  }

  /** No whitespace but single inner spaces, none at either end. */
  predicate IsTidy(t: string) {
    forall i :: 0 <= i < |t| && IsSpace(t[i]) ==> t[i] == ' ' && 0 < i < |t| - 1 && !IsSpace(t[i + 1])
  }

  lemma {:induction false} JoinWordsTidy(ws: seq<string>)
    requires forall k :: 0 <= k < |ws| ==> IsWord(ws[k])
    ensures IsTidy(Join(ws, " "))
    ensures |ws| > 0 ==> |Join(ws, " ")| > 0
    decreases |ws|
  {
    if |ws| > 1 {
      var w, r := ws[0], Join(ws[1..], " ");
      JoinWordsTidy(ws[1..]);
      var t := w + " " + r;
      assert t == Join(ws, " ");
      forall i | 0 <= i < |t| && IsSpace(t[i])
        ensures t[i] == ' ' && 0 < i < |t| - 1 && !IsSpace(t[i + 1])
      {
        if i == |w| {
          assert t[i + 1] == r[0];
        } else if i > |w| {
          assert t[i] == r[i - |w| - 1];
          if i < |t| - 1 { assert t[i + 1] == r[i - |w|]; }
        }
      }
    }
  }

  lemma {:induction false} StripAround(n: string, l: string, t: string)
    requires |n| > 0 && !IsSpace(n[0]) && !IsSpace(n[|n| - 1])
    requires l == "" || l == " "
    requires t == "" || t == " "
    ensures Strip(l + n + t) == n
  {
    var s := l + n + t;
    SpanEndIs(s, 0, IsSpace, |l|);
    assert LStrip(s) == n + t;
    assert RStrip(n) == n;
    if t == " " {
      assert (n + t)[..|n + t| - 1] == n;
    }
  }

  /** One space standing for a trailing run of whitespace. */
  function Trail(s: string): string { if |s| > 0 && IsSpace(s[|s| - 1]) then " " else "" }

  /** `re.sub('\s+', ' ', s)` started on a non-space: the words joined by one space, and one space for a trailing run. */
  lemma {:induction false} CollapseFromWord(s: string)
    requires |s| > 0 && !IsSpace(s[0])
    ensures CollapseWs(s) == Join(SplitWs(s), " ") + Trail(s)
    ensures |SplitWs(s)| > 0
    decreases |s|
  {
    var k := SpanEnd(s, 0, NotSpace);
    var w, rest := s[..k], s[k..];
    assert CollapseWs(s) == w + CollapseWs(rest);
    assert SplitWs(s) == [w] + SplitWs(rest);
    if |rest| == 0 {
      assert SplitWs(s) == [w];
      assert s[|s| - 1] == w[|w| - 1];
      assert Trail(s) == "";
      assert CollapseWs(s) == w;
      assert Join(SplitWs(s), " ") == w;
      assert CollapseWs(s) == Join(SplitWs(s), " ") + Trail(s);
    } else {
      assert IsSpace(rest[0]);
      var m := SpanEnd(rest, 0, IsSpace);
      var r2 := rest[m..];
      assert CollapseWs(rest) == " " + CollapseWs(r2);
      SplitWsDropLeading(rest);
      assert SplitWs(s) == [w] + SplitWs(r2);
      assert s[|s| - 1] == rest[|rest| - 1];
      if |r2| == 0 {
        assert m == |rest|;
        assert Trail(s) == " ";
        assert SplitWs(s) == [w];
        assert CollapseWs(s) == w + " ";
        assert Join(SplitWs(s), " ") == w;
        assert CollapseWs(s) == Join(SplitWs(s), " ") + Trail(s);
      } else {
        CollapseFromWord(r2);
        var n2 := Join(SplitWs(r2), " ");
        assert r2[|r2| - 1] == rest[|rest| - 1];
        assert Trail(r2) == Trail(s);
        JoinCons(w, SplitWs(r2), " ");
        assert Join(SplitWs(s), " ") == w + " " + n2;
        assert CollapseWs(s) == w + (" " + (n2 + Trail(s)));
        Assoc(w, " ", n2, Trail(s));
      }
    }
  }

  lemma {:induction false} Assoc(a: string, b: string, c: string, d: string)
    ensures a + (b + (c + d)) == a + b + c + d
  {
  }

  lemma {:induction false} StripCollapseFromWord(s: string)
    requires |s| > 0 && !IsSpace(s[0])
    ensures Strip(CollapseWs(s)) == Join(SplitWs(s), " ")
  {
    CollapseFromWord(s);
    JoinWordsTidy(SplitWs(s));
    StripTidyPlus(CollapseWs(s), "", Join(SplitWs(s), " "), Trail(s));
  }

  lemma {:induction false} StripTidyPlus(c: string, l: string, n: string, t: string)
    requires IsTidy(n) && |n| > 0
    requires l == "" || l == " "
    requires t == "" || t == " "
    requires c == l + n + t
    ensures Strip(c) == n
  {
    assert !IsSpace(n[0]) && !IsSpace(n[|n| - 1]);
    StripAround(n, l, t);
  }

  /** `re.sub('\s+', ' ', s).strip()` is `' '.join(s.split())`. */
  lemma {:induction false} StripCollapse(s: string)
    ensures Strip(CollapseWs(s)) == Join(SplitWs(s), " ")
  {
    if |s| > 0 {
      if IsSpace(s[0]) {
        var m := SpanEnd(s, 0, IsSpace);
        var r := s[m..];
        SplitWsDropLeading(s);
        assert CollapseWs(s) == " " + CollapseWs(r);
        if |r| == 0 {
          SpanEndIs(" ", 0, IsSpace, 1);
          assert Strip(" ") == "";
        } else {
          CollapseFromWord(r);
          JoinWordsTidy(SplitWs(r));
          StripTidyPlus(CollapseWs(s), " ", Join(SplitWs(r), " "), Trail(r));
        }
      } else {
        StripCollapseFromWord(s);
      }
    }
  }

  /** `re.sub('\s+', ' ', s.replace('\n', ' ')).strip()`: the clean-up applied to every text value. */
  function TidyText(s: string): string { Strip(CollapseWs(ReplaceChar(s, '\n', ' '))) }

  /** Tidying keeps exactly the words of the text, joined by single spaces. */
  lemma {:induction false} TidyTextWords(s: string)
    ensures TidyText(s) == Join(SplitWs(s), " ")
  {
    var r := ReplaceChar(s, '\n', ' ');
    StripCollapse(r);
    SplitWsSameShape(r, s);
  }

  lemma {:induction false} TidyTextIsTidy(s: string)
    ensures IsTidy(TidyText(s))
  {
    TidyTextWords(s);
    JoinWordsTidy(SplitWs(s));
  }

  lemma {:induction false} TidyTextKeepsWords(s: string)
    ensures SplitWs(TidyText(s)) == SplitWs(s)
  {
    TidyTextWords(s);
    SplitWsJoin(SplitWs(s));
  }

  lemma {:induction false} TidyTextIdempotent(s: string)
    ensures TidyText(TidyText(s)) == TidyText(s)
  {
    TidyTextWords(s);
    TidyTextWords(TidyText(s));
    TidyTextKeepsWords(s);
  }

  /** Removing a character twice removes nothing more. */
  lemma {:induction false} RemoveCharAbsent(s: string, a: char)
    requires a !in s
    ensures RemoveChar(s, a) == s
    decreases |s|
  {
    if |s| > 0 {
      RemoveCharAbsent(s[1..], a);
      assert s == [s[0]] + s[1..];
    }
  }

  /** The number of occurrences of `c` in `s` */
  function CountChar(s: string, c: char): (n: nat)
    ensures n == 0 <==> c !in s
    ensures n <= |s|
    decreases |s|
  {
    if |s| == 0 then 0
    else
      assert s == [s[0]] + s[1..];
      (if s[0] == c then 1 else 0) + CountChar(s[1..], c)
  }

  lemma {:induction false} CountConcat(a: string, b: string, c: char)
    ensures CountChar(a + b, c) == CountChar(a, c) + CountChar(b, c)
    decreases |a|
  {
    if |a| > 0 {
      CountConcat(a[1..], b, c);
      assert (a + b)[0] == a[0] && (a + b)[1..] == a[1..] + b;
      assert CountChar(a + b, c) == (if a[0] == c then 1 else 0) + CountChar(a[1..] + b, c);
    } else {
      assert a + b == b;
    }
  }

  /** Joining `c`-free parts adds the separator's occurrences once per gap. */
  lemma {:induction false} CountJoinFree(ps: seq<string>, sep: string, c: char)
    requires |ps| > 0
    requires forall k :: 0 <= k < |ps| ==> c !in ps[k]
    ensures CountChar(Join(ps, sep), c) == (|ps| - 1) * CountChar(sep, c)
    decreases |ps|
  {
    if |ps| > 1 {
      CountJoinFree(ps[1..], sep, c);
      CountConcat(ps[0], sep, c);
      CountConcat(ps[0] + sep, Join(ps[1..], sep), c);
    }
  }

  lemma {:induction false} CountJoinOnce(ps: seq<string>, sep: string, c: char)
    requires |ps| > 0 && CountChar(sep, c) == 1
    requires forall k :: 0 <= k < |ps| ==> c !in ps[k]
    ensures CountChar(Join(ps, sep), c) == |ps| - 1
  {
    CountJoinFree(ps, sep, c);
  }

  /** A split on `c` has one piece more than `s` has occurrences of `c`. */
  lemma {:induction false} CountSplit(s: string, c: char)
    ensures CountChar(s, c) == |Split(s, c)| - 1
  {
    var ps := Split(s, c);
    JoinSplit(s, c);
    CountJoinFree(ps, [c], c);
  }

  /** Replacing a character that does not occur changes nothing. */
  lemma {:induction false} ReplaceByAbsent(s: string, a: char, r: string)
    requires a !in s
    ensures ReplaceBy(s, a, r) == s
    decreases |s|
  {
    if |s| > 0 {
      ReplaceByAbsent(s[1..], a, r);
      assert s == [s[0]] + s[1..];
    }
  }

  predicate NotUpper(c: char) { !IsUpper(c) }

  lemma {:induction false} LowerStrIsLower(s: string)
    ensures All(LowerStr(s), NotUpper)
  {
  }

  lemma {:induction false} LowerStrOfLower(s: string)
    requires All(s, NotUpper)
    ensures LowerStr(s) == s
  {
  }

  lemma {:induction false} LowerStrTitle(s: string, afterLetter: bool)
    ensures LowerStr(TitleFrom(s, afterLetter)) == LowerStr(s)
  {
  }

  lemma {:induction false} LowerStrJoin(ps: seq<string>, sep: string)
    requires LowerStr(sep) == sep
    ensures LowerStr(Join(ps, sep)) == Join(seq(|ps|, k requires 0 <= k < |ps| => LowerStr(ps[k])), sep)
    decreases |ps|
  {
    var lps := seq(|ps|, k requires 0 <= k < |ps| => LowerStr(ps[k]));
    if |ps| > 1 {
      LowerStrJoin(ps[1..], sep);
      var rest := seq(|ps| - 1, k requires 0 <= k < |ps| - 1 => LowerStr(ps[1..][k]));
      assert lps[1..] == rest;
      assert LowerStr(ps[0] + sep + Join(ps[1..], sep)) == LowerStr(ps[0]) + sep + LowerStr(Join(ps[1..], sep));
    }
  }

  /** Text that is already words joined by single spaces is left as it is by tidying. */
  lemma {:induction false} TidyTextOfWords(ws: seq<string>)
    requires forall k :: 0 <= k < |ws| ==> IsWord(ws[k])
    ensures TidyText(Join(ws, " ")) == Join(ws, " ")
  {
    TidyTextWords(Join(ws, " "));
    SplitWsJoin(ws);
  }

  lemma {:induction false} JoinFirst(ps: seq<string>, sep: string)
    requires |ps| > 0
    ensures StartsWith(Join(ps, sep), ps[0])
  {
    if |ps| > 1 {
      var j := Join(ps, sep);
      assert j == ps[0] + (sep + Join(ps[1..], sep));
      assert j[..|ps[0]|] == ps[0];
    }
  }

  lemma {:induction false} JoinLast(ps: seq<string>, sep: string)
    requires |ps| > 0
    ensures EndsWith(Join(ps, sep), ps[|ps| - 1])
    decreases |ps|
  {
    if |ps| > 1 {
      JoinLast(ps[1..], sep);
      var j, t := Join(ps, sep), Join(ps[1..], sep);
      assert j == (ps[0] + sep) + t;
      assert ps[1..][|ps| - 2] == ps[|ps| - 1];
      assert j[|j| - |ps[|ps| - 1]|..] == t[|t| - |ps[|ps| - 1]|..];
    }
  }
}
