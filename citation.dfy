/** The word-overlap score used to judge a looked-up record against a citation (refkit's `util/citation.py`). */
module Citation {

  import opened Wrappers
  import opened Text

  /** `re.sub('\W', ' ', s)`: every character outside [A-Za-z0-9_] becomes a space */
  function NonWordToSpace(s: string): string {
    seq(|s|, i requires 0 <= i < |s| => if IsWordChar(s[i]) then s[i] else ' ')
  }

  /** A word as the score sees it: non-empty, lower-case letters, digits and underscores only */
  predicate IsScoreWord(w: string) {
    |w| > 0 && forall j :: 0 <= j < |w| ==> IsWordChar(w[j]) && !IsUpper(w[j])
  }

  /** The words of a text: `re.sub('\W', ' ', s).lower().split()` */
  function Words(s: string): (ws: seq<string>)
    ensures forall k :: 0 <= k < |ws| ==> IsScoreWord(ws[k])
  {
    var t := LowerStr(NonWordToSpace(s));
    WordsOfWordText(t);
    SplitWs(t)
  }

  lemma {:induction false} WordsOfWordText(t: string)
    requires forall i :: 0 <= i < |t| ==> t[i] == ' ' || (IsWordChar(t[i]) && !IsUpper(t[i]))
    ensures forall k :: 0 <= k < |SplitWs(t)| ==> IsScoreWord(SplitWs(t)[k])
    decreases |t|
  {
    if |t| > 0 {
      if IsSpace(t[0]) {
        WordsOfWordText(t[1..]);
      } else {
        var k := SpanEnd(t, 0, NotSpace);
        WordsOfWordText(t[k..]);
        assert SplitWs(t) == [t[..k]] + SplitWs(t[k..]);
      }
    }
  }

  /** How many entries of `ws` (repeats included) occur in `cs` */
  function CountIn(ws: seq<string>, cs: seq<string>): (n: nat)
    ensures n <= |ws|
    ensures n == |ws| <==> forall k :: 0 <= k < |ws| ==> ws[k] in cs
    ensures n == 0 <==> forall k :: 0 <= k < |ws| ==> ws[k] !in cs
    decreases |ws|
  {
    if |ws| == 0 then 0
    else (if ws[0] in cs then 1 else 0) + CountIn(ws[1..], cs)
  }

  /** `overlap`: the share of the lookup's words that occur in the citation; no words in the lookup divides by zero. */
  function Overlap(lookup: string, citation: string): (r: Result<real>)
    ensures r.Failure? <==> |Words(lookup)| == 0
    ensures r.Failure? ==> r.error == ZeroDivisionError
    ensures r.Success? ==> 0.0 <= r.value <= 1.0
    ensures r.Success? ==> (r.value == 1.0 <==> forall w :: w in Words(lookup) ==> w in Words(citation))
    ensures r.Success? ==> (r.value == 0.0 <==> forall w :: w in Words(lookup) ==> w !in Words(citation))
  {
    var ws, cs := Words(lookup), Words(citation);
    if |ws| == 0 then Failure(ZeroDivisionError)
    else
      var n := CountIn(ws, cs);
      assert n == |ws| <==> forall w :: w in ws ==> w in cs;
      assert n == 0 <==> forall w :: w in ws ==> w !in cs;
      Ratio(n, |ws|);
      Success(n as real / |ws| as real)
  }

  lemma {:induction false} Ratio(n: nat, d: nat)
    requires 0 < d && n <= d
    ensures 0.0 <= n as real / d as real <= 1.0
    ensures n as real / d as real == 1.0 <==> n == d
    ensures n as real / d as real == 0.0 <==> n == 0
  {
    var q := n as real / d as real;
    assert q * d as real == n as real;
  }

  lemma {:induction false} RatioMonotone(n1: nat, n2: nat, d: nat)
    requires 0 < d && n1 <= n2
    ensures n1 as real / d as real <= n2 as real / d as real
  {
    var q1, q2 := n1 as real / d as real, n2 as real / d as real;
    assert q1 * d as real == n1 as real && q2 * d as real == n2 as real;
  }

  /** The score depends on the citation only through the set of its words. */
  lemma {:induction false} CountInSameWords(ws: seq<string>, cs1: seq<string>, cs2: seq<string>)
    requires forall w :: w in cs1 <==> w in cs2
    ensures CountIn(ws, cs1) == CountIn(ws, cs2)
    decreases |ws|
  {
    if |ws| > 0 {
      CountInSameWords(ws[1..], cs1, cs2);
    }
  }

  lemma {:induction false} CountInMore(ws: seq<string>, cs: seq<string>, more: seq<string>)
    ensures CountIn(ws, cs) <= CountIn(ws, cs + more)
    decreases |ws|
  {
    if |ws| > 0 {
      CountInMore(ws[1..], cs, more);
    }
  }

  /** Text joined by a space has the words of both parts. */
  lemma {:induction false} WordsConcat(c: string, d: string)
    ensures Words(c + " " + d) == Words(c) + Words(d)
  {
    var a, b := LowerStr(NonWordToSpace(c)), LowerStr(NonWordToSpace(d));
    assert NonWordToSpace(c + " " + d) == NonWordToSpace(c) + " " + NonWordToSpace(d);
    assert LowerStr(NonWordToSpace(c) + " " + NonWordToSpace(d)) == a + [' '] + b;
    SplitWsAtSpace(a, ' ', b);
  }

  /** Adding text to the citation never lowers the score. */
  lemma {:induction false} OverlapGrowsWithCitation(lookup: string, citation: string, more: string)
    requires |Words(lookup)| > 0
    ensures Overlap(lookup, citation).value <= Overlap(lookup, citation + " " + more).value
  {
    WordsConcat(citation, more);
    CountInMore(Words(lookup), Words(citation), Words(more));
    var n1, n2 := CountIn(Words(lookup), Words(citation)), CountIn(Words(lookup), Words(citation + " " + more));
    RatioMonotone(n1, n2, |Words(lookup)|);
  }

  /** Reordering or repeating the citation's words leaves the score unchanged. */
  lemma {:induction false} OverlapSameWords(lookup: string, c1: string, c2: string)
    requires forall w :: w in Words(c1) <==> w in Words(c2)
    ensures Overlap(lookup, c1) == Overlap(lookup, c2)
  {
    CountInSameWords(Words(lookup), Words(c1), Words(c2));
  }

  /** Any text with words matches itself completely. */
  lemma {:induction false} OverlapSelf(s: string)
    requires |Words(s)| > 0
    ensures Overlap(s, s) == Success(1.0)
  {
  }

  lemma {:induction false} NonWordLower(s: string)
    ensures LowerStr(NonWordToSpace(LowerStr(s))) == LowerStr(NonWordToSpace(s))
  {
  }

  /** Case does not matter. */
  lemma {:induction false} OverlapIgnoresCase(lookup: string, citation: string)
    ensures Overlap(LowerStr(lookup), citation) == Overlap(lookup, citation)
    ensures Overlap(lookup, LowerStr(citation)) == Overlap(lookup, citation)
  {
    NonWordLower(lookup);
    NonWordLower(citation);
  }
}
