/**
 * lookup/crossref.py: finding the DOI of a lookup text on CrossRef.org and filling a
 * `Metadata` object from the answer. The two web services are function parameters
 * (`runQuery` for the free-text search, `fetch` for the record of a DOI), and the person at
 * the prompt is the function `user`, which gives the lines they type when shown the candidates.
 */
module Crossref {

  import opened Wrappers
  import opened Text
  import opened JsonValue
  import Doi
  import Isbn
  import Citation
  import opened Author
  import opened MetadataRecord

  /** The defaults of `autoSaveMinimum` and `autoSaveMaximum` */
  const DefaultAutoSaveMinimum: real := 0.99
  const DefaultAutoSaveMaximum: real := 0.7

  /** The lines typed at the prompt: an integer, or text that `int()` rejects */
  type Replies = seq<Option<int>>

  // ---------------------------------------------------------------------------------------------
  // Ranking the answers of a free-text query (`_getBestQueryResult`)

  /** One query result with its overlap score and its position in the answer */
  datatype Candidate = Candidate(score: real, index: nat, item: Json)

  /** `i['fullCitation']`, as a text `overlap` can read */
  function FullCitation(item: Json): (r: Result<string>)
    ensures r.Success? <==> Lookup(item, "fullCitation").Success? && Lookup(item, "fullCitation").value.JStr?
    ensures r.Success? ==> r.value == item.fields["fullCitation"].s
  {
    var c :- Lookup(item, "fullCitation");
    if c.JStr? then Success(c.s) else Failure(TypeError)
  }

  /** `citation.overlap(lookup, i['fullCitation'])` */
  function ScoreOf(lookup: string, item: Json): (r: Result<real>)
    ensures r.Success? ==> FullCitation(item).Success? && 0.0 <= r.value <= 1.0
  {
    var c :- FullCitation(item);
    Citation.Overlap(lookup, c)
  }

  /** `c` is the candidate the comprehension makes of `item` at position `pos` */
  predicate ScoredAs(lookup: string, item: Json, pos: nat, c: Candidate) {
    ScoreOf(lookup, item) == Success(c.score) && c.index == pos && c.item == item
  }

  /** Every item from `i` on has a score, and `cs` pairs each with its score and position */
  predicate ScoredFrom(lookup: string, items: seq<Json>, i: nat, cs: seq<Candidate>) {
    i <= |items| && |cs| == |items| - i &&
    forall k :: 0 <= k < |cs| ==> ScoredAs(lookup, items[i + k], i + k, cs[k])
  }

  lemma {:induction false} ScoredFromCons(lookup: string, items: seq<Json>, i: nat, c: Candidate, rest: seq<Candidate>)
    requires i < |items| && ScoredAs(lookup, items[i], i, c) && ScoredFrom(lookup, items, i + 1, rest)
    ensures ScoredFrom(lookup, items, i, [c] + rest)
  {
    var cs := [c] + rest;
    forall k | 0 <= k < |cs| ensures ScoredAs(lookup, items[i + k], i + k, cs[k]) {
      if k > 0 {
        assert cs[k] == rest[k - 1];
      }
    }
  }

  /** The comprehension over `items[i..]`; the first item without a score stops it */
  function ScoreItems(lookup: string, items: seq<Json>, i: nat): (r: Result<seq<Candidate>>)
    requires i <= |items|
    ensures r.Success? ==> ScoredFrom(lookup, items, i, r.value)
    ensures r.Failure? ==> exists k :: i <= k < |items| && ScoreOf(lookup, items[k]) == Failure(r.error)
    decreases |items| - i
  {
    if i == |items| then Success([])
    else
      match ScoreOf(lookup, items[i])
      case Failure(e) => Failure(e)
      case Success(s) =>
        match ScoreItems(lookup, items, i + 1)
        case Failure(e) => Failure(e)
        case Success(rest) =>
          ScoredFromCons(lookup, items, i, Candidate(s, i, items[i]), rest);
          Success([Candidate(s, i, items[i])] + rest)
  }

  /**
   * `[(citation.overlap(lookup, i['fullCitation']), i) for i in queryResults]`. Iterating over
   * a text or a dictionary gives texts, which have no `'fullCitation'`; anything else cannot be
   * iterated.
   */
  function Scored(lookup: string, queryResults: Json): (r: Result<seq<Candidate>>)
    ensures r.Success? && |r.value| > 0 ==> queryResults.JArr? && ScoredFrom(lookup, queryResults.items, 0, r.value)
    ensures queryResults.JArr? ==> r == ScoreItems(lookup, queryResults.items, 0)
    ensures r.Success? && !queryResults.JArr? ==> r.value == []
  {
    match queryResults
    case JArr(items) => ScoreItems(lookup, items, 0)
    case JStr(s) => if |s| == 0 then Success([]) else Failure(TypeError)
    case JObj(fields) => if |fields| == 0 then Success([]) else Failure(TypeError)
    case _ => Failure(TypeError)
  }

  /** `a` comes before `b` in `sorted(..., key = itemgetter(0), reverse = True)`: a higher score, or the same score and earlier in the input */
  predicate Before(a: Candidate, b: Candidate) {
    a.score > b.score || (a.score == b.score && a.index < b.index)
  }

  /** Descending scores, ties in input order */
  predicate Ranked(cs: seq<Candidate>) {
    forall i, j :: 0 <= i < j < |cs| ==> Before(cs[i], cs[j])
  }

  /** The positions increase along `cs`, as they do in the comprehension */
  predicate InInputOrder(cs: seq<Candidate>) {
    forall i, j :: 0 <= i < j < |cs| ==> cs[i].index < cs[j].index
  }

  /** Puts `x` after every candidate of `ys` whose score is at least its own */
  function Insert(ys: seq<Candidate>, x: Candidate): (zs: seq<Candidate>)
    ensures multiset(zs) == multiset(ys) + multiset{x}
    decreases |ys|
  {
    if |ys| == 0 || ys[|ys| - 1].score >= x.score then ys + [x]
    else
      var init := ys[..|ys| - 1];
      assert ys == init + [ys[|ys| - 1]];
      Insert(init, x) + [ys[|ys| - 1]]
  }

  /** Python's stable `sorted` by descending score, as an insertion sort */
  function SortByScore(cs: seq<Candidate>): (rs: seq<Candidate>)
    ensures multiset(rs) == multiset(cs)
    decreases |cs|
  {
    if |cs| == 0 then []
    else
      var init := cs[..|cs| - 1];
      assert cs == init + [cs[|cs| - 1]];
      Insert(SortByScore(init), cs[|cs| - 1])
  }

  lemma {:induction false} InsertRanked(ys: seq<Candidate>, x: Candidate)
    requires Ranked(ys)
    requires forall k :: 0 <= k < |ys| ==> ys[k].index < x.index
    ensures Ranked(Insert(ys, x))
    decreases |ys|
  {
    if |ys| == 0 || ys[|ys| - 1].score >= x.score {
      var zs := ys + [x];
      forall i, j | 0 <= i < j < |zs| ensures Before(zs[i], zs[j]) {
        if j == |ys| && i < |ys| - 1 {
          assert Before(ys[i], ys[|ys| - 1]);
        }
      }
    } else {
      var init, last := ys[..|ys| - 1], ys[|ys| - 1];
      InsertRanked(init, x);
      var front := Insert(init, x);
      assert forall e :: e in front ==> e in init || e == x by {
        forall e | e in front ensures e in init || e == x {
          assert e in multiset(front);
        }
      }
      forall i | 0 <= i < |front| ensures Before(front[i], last) {
        assert front[i] in front;
        if front[i] != x {
          var k :| 0 <= k < |init| && init[k] == front[i];
          assert Before(ys[k], ys[|ys| - 1]);
        }
      }
    }
  }

  /** The sorted list of a comprehension is ranked */
  lemma {:induction false} SortRanked(cs: seq<Candidate>)
    requires InInputOrder(cs)
    ensures Ranked(SortByScore(cs))
    decreases |cs|
  {
    if |cs| > 0 {
      var init, last := cs[..|cs| - 1], cs[|cs| - 1];
      SortRanked(init);
      var rs := SortByScore(init);
      forall k | 0 <= k < |rs| ensures rs[k].index < last.index {
        assert rs[k] in multiset(init);
        var j :| 0 <= j < |init| && init[j] == rs[k];
      }
      InsertRanked(rs, last);
    }
  }

  /** `k` holds the highest score, and no earlier candidate has it */
  predicate Best(cs: seq<Candidate>, k: nat) {
    k < |cs| && (forall j :: 0 <= j < |cs| ==> cs[j].score <= cs[k].score) &&
    forall j :: 0 <= j < k ==> cs[j].score < cs[k].score
  }

  /** Overlap scores are never negative */
  predicate NonNegative(cs: seq<Candidate>) {
    forall j :: 0 <= j < |cs| ==> 0.0 <= cs[j].score
  }

  /** The candidates of a comprehension: the `j`th is at position `j` */
  predicate Numbered(cs: seq<Candidate>) {
    forall j :: 0 <= j < |cs| ==> cs[j].index == j
  }

  lemma {:induction false} PositionOf(rs: seq<Candidate>, e: Candidate) returns (i: nat)
    requires e in multiset(rs)
    ensures i < |rs| && rs[i] == e
  {
    assert e in rs;
    i :| 0 <= i < |rs| && rs[i] == e;
  }

  lemma {:induction false} NumberedInOrder(cs: seq<Candidate>)
    requires Numbered(cs)
    ensures InInputOrder(cs)
  {
  }

  lemma {:induction false} SortedLength(cs: seq<Candidate>)
    ensures |SortByScore(cs)| == |cs|
  {
    assert |SortByScore(cs)| == |multiset(SortByScore(cs))| == |multiset(cs)| == |cs|;
  }

  /** The ranking starts with the best candidate */
  lemma {:induction false} RankedHead(cs: seq<Candidate>, rs: seq<Candidate>, k: nat)
    requires Numbered(cs) && Best(cs, k)
    requires rs == SortByScore(cs) && Ranked(rs) && |rs| == |cs|
    ensures rs[0] == cs[k]
  {
    var h := PositionOf(cs, rs[0]);
    var i := PositionOf(rs, cs[k]);
    assert i == 0 || Before(rs[0], rs[i]);
  }

  /** The second of the ranking is another candidate, with the highest score among the others */
  lemma {:induction false} RankedSecond(cs: seq<Candidate>, rs: seq<Candidate>, k: nat) returns (s: nat)
    requires Numbered(cs) && Best(cs, k) && |cs| > 1
    requires rs == SortByScore(cs) && Ranked(rs) && |rs| == |cs| && rs[0] == cs[k]
    ensures s < |cs| && s != k && rs[1] == cs[s]
    ensures forall j :: 0 <= j < |cs| && j != k ==> cs[j].score <= rs[1].score
  {
    assert Before(rs[0], rs[1]);
    s := PositionOf(cs, rs[1]);
    forall j | 0 <= j < |cs| && j != k ensures cs[j].score <= rs[1].score {
      var i := PositionOf(rs, cs[j]);
      if i > 1 {
        assert Before(rs[1], rs[i]);
      }
    }
  }

  /** A reply the loop of `_askUserForBestResult` accepts: 0, or an index `res - 1` Python allows on `n` results */
  predicate ValidReply(n: nat, res: int) { res == 0 || -(n as int) <= res - 1 < n }

  /** `None if res == 0 else queryResults[res - 1]`, negative indices counting from the end */
  function Picked(items: seq<Json>, res: int): (r: Option<Json>)
    requires ValidReply(|items|, res)
    ensures r.None? <==> res == 0
    ensures 1 <= res ==> r == Some(items[res - 1])
    ensures res < 0 ==> r == Some(items[|items| + res - 1])
  {
    if res == 0 then None
    else if res - 1 >= 0 then Some(items[res - 1])
    else Some(items[|items| + res - 1])
  }

  /** `replies[j]` is the first reply the loop accepts */
  predicate FirstValidReply(n: nat, replies: Replies, j: nat) {
    j < |replies| && replies[j].Some? && ValidReply(n, replies[j].value) &&
    forall i :: 0 <= i < j ==> !(replies[i].Some? && ValidReply(n, replies[i].value))
  }

  /**
   * `_askUserForBestResult`: prompts until a reply is accepted; when the replies run out the
   * prompt's KeyboardInterrupt ends the program with `sys.exit(1)`.
   */
  function Choice(items: seq<Json>, replies: Replies): (r: Result<Option<Json>>)
    ensures r.Failure? ==> r.error == SystemExit
    decreases |replies|
  {
    if |replies| == 0 then Failure(SystemExit)
    else if replies[0].Some? && ValidReply(|items|, replies[0].value) then Success(Picked(items, replies[0].value))
    else Choice(items, replies[1..])
  }

  /** The choice is the item named by the first accepted reply, and the program exits when there is none. */
  lemma {:induction false} ChoiceFirstValid(items: seq<Json>, replies: Replies)
    ensures Choice(items, replies).Failure? <==> forall j: nat :: j < |replies| ==> !FirstValidReply(|items|, replies, j)
    ensures forall j: nat :: FirstValidReply(|items|, replies, j) ==> Choice(items, replies) == Success(Picked(items, replies[j].value))
    decreases |replies|
  {
    var n := |items|;
    if |replies| > 0 {
      if replies[0].Some? && ValidReply(n, replies[0].value) {
        assert FirstValidReply(n, replies, 0);
        forall j: nat | FirstValidReply(n, replies, j) ensures j == 0 {
        }
      } else {
        var tail := replies[1..];
        ChoiceFirstValid(items, tail);
        forall j: nat | 0 < j < |replies| ensures FirstValidReply(n, replies, j) <==> FirstValidReply(n, tail, j - 1) {
          assert forall i :: 0 <= i < j - 1 ==> tail[i] == replies[i + 1];
        }
        assert !FirstValidReply(n, replies, 0);
        if Choice(items, tail).Success? {
          var j: nat :| j < |tail| && FirstValidReply(n, tail, j);
          assert FirstValidReply(n, replies, j + 1);
        }
      }
    }
  }

  /** The prompt loop of `_askUserForBestResult` */
  method AskUser(items: seq<Json>, replies: Replies) returns (r: Result<Option<Json>>)
    ensures r == Choice(items, replies)
  {
    var i := 0;
    while i < |replies|
      invariant i <= |replies|
      invariant Choice(items, replies) == Choice(items, replies[i..])
    {
      assert replies[i..][1..] == replies[i + 1..];
      var reply := replies[i];
      if reply.Some? && ValidReply(|items|, reply.value) {
        return Success(Picked(items, reply.value));
      }
      i := i + 1;
    }
    return Failure(SystemExit);
  }

  /** What the prompt shows: the query results, unsorted */
  function Shown(queryResults: Json): seq<Json> {
    if queryResults.JArr? then queryResults.items else []
  }

  /**
   * The decision of `_getBestQueryResult` on the ranked candidates; `ask` is what the prompt
   * would give.
   */
  function Decide(rs: seq<Candidate>, autoSaveMinimum: real, autoSaveMaximum: real,
                  ask: Result<Option<Json>>): (r: Result<Option<Json>>)
    ensures |rs| == 0 ==> r == Success(None)
    ensures |rs| == 1 && rs[0].score >= autoSaveMinimum ==> r == Success(Some(rs[0].item))
    ensures |rs| > 0 && rs[0].score < autoSaveMinimum ==> r == ask
    ensures |rs| > 0 && r != ask ==>
      rs[0].score >= autoSaveMinimum &&
      (r == Success(Some(rs[0].item)) || (|rs| > 1 && rs[0].score == 0.0 && r == Failure(ZeroDivisionError)))
  {
    if |rs| == 1 && rs[0].score >= autoSaveMinimum then Success(Some(rs[0].item))
    else if |rs| > 1 && rs[0].score >= autoSaveMinimum && rs[0].score == 0.0 then Failure(ZeroDivisionError)
    else if |rs| > 1 && rs[0].score >= autoSaveMinimum && rs[1].score / rs[0].score < autoSaveMaximum then
      Success(Some(rs[0].item))
    else if |rs| > 0 then ask
    else Success(None)
  }

  /**
   * `_getBestQueryResult`: one result is accepted when its score reaches `autoSaveMinimum`;
   * of several, the best is accepted when it also leads the second by the ratio
   * `autoSaveMaximum`; otherwise the user picks from the unsorted results, and with no
   * results there is no match.
   */
  function BestQueryResult(lookup: string, queryResults: Json, autoSaveMinimum: real, autoSaveMaximum: real,
                           replies: Replies): (r: Result<Option<Json>>)
    ensures Scored(lookup, queryResults).Failure? ==> r == Failure(Scored(lookup, queryResults).error)
    ensures Scored(lookup, queryResults).Success? && r.Failure? ==> r.error == ZeroDivisionError || r.error == SystemExit
  {
    var cs :- Scored(lookup, queryResults);
    Decide(SortByScore(cs), autoSaveMinimum, autoSaveMaximum, Choice(Shown(queryResults), replies))
  }

  /** The best result clears both thresholds: it reaches the minimum and every other score is below the ratio */
  predicate ClearWinner(cs: seq<Candidate>, k: nat, autoSaveMinimum: real, autoSaveMaximum: real)
    requires Best(cs, k)
  {
    cs[k].score >= autoSaveMinimum &&
    (|cs| == 1 || (cs[k].score > 0.0 && forall j :: 0 <= j < |cs| && j != k ==> cs[j].score / cs[k].score < autoSaveMaximum))
  }

  lemma {:induction false} RatioBelow(a: real, b: real, top: real, m: real)
    requires top > 0.0 && a <= b
    ensures b / top < m ==> a / top < m
  {
    assert a / top <= b / top by {
      assert a / top * top == a;
      assert b / top * top == b;
    }
  }

  /** The outcome of `Decide` once the head and the second of the ranking are known */
  lemma {:induction false} DecideCases(cs: seq<Candidate>, rs: seq<Candidate>, k: nat, s: nat,
                                      autoSaveMinimum: real, autoSaveMaximum: real, ask: Result<Option<Json>>)
    requires Best(cs, k) && NonNegative(cs) && |rs| == |cs| && rs[0] == cs[k]
    requires |cs| > 1 ==> s < |cs| && s != k && rs[1] == cs[s]
    requires |cs| > 1 ==> forall j :: 0 <= j < |cs| && j != k ==> cs[j].score <= rs[1].score
    ensures var r := Decide(rs, autoSaveMinimum, autoSaveMaximum, ask);
      if ClearWinner(cs, k, autoSaveMinimum, autoSaveMaximum) then r == Success(Some(cs[k].item))
      else if |cs| > 1 && cs[k].score >= autoSaveMinimum && cs[k].score == 0.0 then r == Failure(ZeroDivisionError)
      else r == ask
  {
    if |cs| > 1 && cs[k].score > 0.0 && cs[k].score >= autoSaveMinimum {
      if ClearWinner(cs, k, autoSaveMinimum, autoSaveMaximum) {
        assert cs[s].score / cs[k].score < autoSaveMaximum;
      } else {
        var j :| 0 <= j < |cs| && j != k && !(cs[j].score / cs[k].score < autoSaveMaximum);
        RatioBelow(cs[j].score, rs[1].score, cs[k].score, autoSaveMaximum);
      }
    }
  }

  /** `Decide` on the ranking, stated on the unsorted candidates */
  lemma {:induction false} DecideByBest(cs: seq<Candidate>, k: nat, autoSaveMinimum: real, autoSaveMaximum: real,
                                       ask: Result<Option<Json>>)
    requires Numbered(cs) && NonNegative(cs) && Best(cs, k)
    ensures var r := Decide(SortByScore(cs), autoSaveMinimum, autoSaveMaximum, ask);
      if ClearWinner(cs, k, autoSaveMinimum, autoSaveMaximum) then r == Success(Some(cs[k].item))
      else if |cs| > 1 && cs[k].score >= autoSaveMinimum && cs[k].score == 0.0 then r == Failure(ZeroDivisionError)
      else r == ask
  {
    var rs := SortByScore(cs);
    NumberedInOrder(cs);
    SortRanked(cs);
    SortedLength(cs);
    RankedHead(cs, rs, k);
    var s := 0;
    if |cs| > 1 {
      s := RankedSecond(cs, rs, k);
    }
    DecideCases(cs, rs, k, s, autoSaveMinimum, autoSaveMaximum, ask);
  }

  /**
   * The decision of `_getBestQueryResult`, stated on the unsorted scores: the clear winner is
   * the earliest item with the highest score; a best score of 0 that reaches the minimum is a
   * division by zero; otherwise the user chooses among the unsorted results.
   */
  lemma {:induction false} BestQueryResultDecides(lookup: string, queryResults: Json, autoSaveMinimum: real,
                                                 autoSaveMaximum: real, replies: Replies, cs: seq<Candidate>, k: nat)
    requires Scored(lookup, queryResults) == Success(cs) && Best(cs, k)
    ensures var r := BestQueryResult(lookup, queryResults, autoSaveMinimum, autoSaveMaximum, replies);
      if ClearWinner(cs, k, autoSaveMinimum, autoSaveMaximum) then r == Success(Some(queryResults.items[k]))
      else if |cs| > 1 && cs[k].score >= autoSaveMinimum && cs[k].score == 0.0 then r == Failure(ZeroDivisionError)
      else r == Choice(queryResults.items, replies)
  {
    forall j | 0 <= j < |cs| ensures cs[j].index == j && 0.0 <= cs[j].score {
      assert ScoredAs(lookup, queryResults.items[j], j, cs[j]);
    }
    DecideByBest(cs, k, autoSaveMinimum, autoSaveMaximum, Choice(Shown(queryResults), replies));
  }

  /** With no results there is nothing to accept and nobody is asked */
  lemma {:induction false} BestQueryResultEmpty(lookup: string, queryResults: Json, autoSaveMinimum: real,
                                               autoSaveMaximum: real, replies: Replies)
    requires Scored(lookup, queryResults) == Success([])
    ensures BestQueryResult(lookup, queryResults, autoSaveMinimum, autoSaveMaximum, replies) == Success(None)
  {
    assert SortByScore([]) == [];
  }

  // ---------------------------------------------------------------------------------------------
  // Choosing the DOI (`_getDoi`, `_getDoiForCitation`)

  const NoMatch: Error := ValueError("Could not match citation to DOI")

  /**
   * `_getDoiForCitation`: the query's own failure propagates; every other failure to reach a
   * DOI through the best result is reported as `NoMatch`, except the exit from the prompt.
   */
  function DoiForCitation(lookup: string, autoSaveMinimum: real, autoSaveMaximum: real,
                          runQuery: string -> Result<Json>, user: (string, seq<Json>) -> Replies): (r: Result<string>)
    ensures r.Success? ==> Doi.IsDoiText(r.value)
    ensures r.Failure? ==> r.error == NoMatch || r.error == SystemExit || runQuery(lookup) == Failure(r.error)
  {
    var queryResults :- runQuery(lookup);
    var best := BestQueryResult(lookup, queryResults, autoSaveMinimum, autoSaveMaximum,
                                user(lookup, Shown(queryResults)));
    if best.Failure? then Failure(if Caught(best.error) then NoMatch else best.error)
    else if best.value.None? then Failure(NoMatch)
    else
      match Lookup(best.value.value, "doi")
      case Success(JStr(d)) => if Doi.Extract(d).Success? then Doi.Extract(d) else Failure(NoMatch)
      case _ => Failure(NoMatch)
  }

  /** `_getDoi`: a DOI in the lookup text itself wins, and only then is CrossRef.org queried */
  function GetDoi(lookup: string, autoSaveMinimum: real, autoSaveMaximum: real,
                  runQuery: string -> Result<Json>, user: (string, seq<Json>) -> Replies): (r: Result<string>)
    ensures Doi.Extract(lookup).Success? ==> r == Doi.Extract(lookup)
    ensures Doi.Extract(lookup).Failure? ==> r == DoiForCitation(lookup, autoSaveMinimum, autoSaveMaximum, runQuery, user)
    ensures r.Success? ==> Doi.IsDoiText(r.value)
  {
    var d := Doi.Extract(lookup);
    if d.Success? then d else DoiForCitation(lookup, autoSaveMinimum, autoSaveMaximum, runQuery, user)
  }

  // ---------------------------------------------------------------------------------------------
  // Filling a record from the answer for a DOI (`_saveMetadata` and the `_save*` mappers), as
  // functions on the record value

  /** `setattr(metadata, Name(k), v)` */
  function Stored(r: Record, k: Key, v: Json): Saved {
    if v.JStr? then Saved(With(r, k, v.s), true) else Saved(r, false)
  }

  /** `message[key]`, or its first element when it is a list; None where that raises */
  function ValueOf(message: Json, key: string): (r: Option<Json>)
    ensures r.Some? ==> Lookup(message, key).Success?
    ensures r.Some? && !Lookup(message, key).value.JArr? ==> r.value == Lookup(message, key).value
    ensures r.Some? && Lookup(message, key).value.JArr? ==>
      |Lookup(message, key).value.items| > 0 && r.value == Lookup(message, key).value.items[0]
    ensures r.None? ==> Lookup(message, key).Failure? || Lookup(message, key).value == JArr([])
  {
    match Lookup(message, key)
    case Failure(_) => None
    case Success(v) => if !v.JArr? then Some(v) else if |v.items| == 0 then None else Some(v.items[0])
  }

  /** `_saveValue`: only attribute `k` may change, and it becomes the text found at `key` or the first element of the list found there. */
  function ValueSaved(r: Record, message: Json, key: string, k: Key): (s: Saved)
    ensures s.record == With(r, k, Get(s.record, k))
    ensures s.text <==> ValueOf(message, key).None? || ValueOf(message, key).value.JStr?
    ensures s.text && ValueOf(message, key).Some? ==> Get(s.record, k) == ValueOf(message, key).value.s
    ensures !s.text || ValueOf(message, key).None? ==> s.record == r
  {
    match ValueOf(message, key)
    case None => Saved(r, true)
    case Some(v) => Stored(r, k, v)
  }

  /** The characters of a text, each a one-character text, as iterating over it gives them */
  function Chars(s: string): (cs: seq<Json>)
    ensures |cs| == |s| && forall k :: 0 <= k < |s| ==> cs[k] == JStr([s[k]])
  {
    seq(|s|, k requires 0 <= k < |s| => JStr([s[k]]))
  }

  /** What `for i in valuesToTest` visits: the elements of a list, the characters of a text */
  function IsbnCandidates(v: Json): seq<Json> {
    match v
    case JArr(items) => items
    case JStr(s) => Chars(s)
    case _ => []
  }

  /** `isbn.extract(c)` for a candidate `c`; only a text can hold one */
  function IsbnOf(c: Json): (r: Option<string>)
    ensures r.Some? ==> c.JStr? && Isbn.Extract(c.s) == Success(r.value)
    ensures r.Some? ==> (|r.value| == 10 || |r.value| == 13) && AllDigits(r.value)
    ensures r.None? ==> !c.JStr? || Isbn.Extract(c.s).Failure?
  {
    if c.JStr? && Isbn.Extract(c.s).Success? then Some(Isbn.Extract(c.s).value) else None
  }

  /** What `isbn.extract` gives for each candidate in turn */
  function Found(cs: seq<Json>): (f: seq<Option<string>>)
    ensures |f| == |cs| && forall k :: 0 <= k < |cs| ==> f[k] == IsbnOf(cs[k])
  {
    seq(|cs|, k requires 0 <= k < |cs| => IsbnOf(cs[k]))
  }

  /** Nothing was found at the positions `i..j` of `f` */
  predicate NoneIn(f: seq<Option<string>>, i: nat, j: nat) {
    forall l :: i <= l < j && l < |f| ==> f[l].None?
  }

  /** The first position from `i` on where something was found */
  function FirstFound(f: seq<Option<string>>, i: nat): (r: Option<nat>)
    requires i <= |f|
    ensures r.None? <==> NoneIn(f, i, |f|)
    ensures r.Some? ==> i <= r.value < |f| && f[r.value].Some? && NoneIn(f, i, r.value)
    decreases |f| - i
  {
    if i == |f| then None
    else if f[i].Some? then Some(i)
    else FirstFound(f, i + 1)
  }

  /** `cs[j]` is the first candidate that holds an ISBN, and it is `v` */
  predicate FirstIsbnAt(cs: seq<Json>, j: nat, v: string) {
    j < |cs| && IsbnOf(cs[j]) == Some(v) && NoneIn(Found(cs), 0, j)
  }

  /** A one-character text holds no ISBN, so a text in place of the list of ISBNs gives none. */
  lemma {:induction false} NoIsbnInChars(s: string)
    ensures NoneIn(Found(Chars(s)), 0, |s|)
  {
    var cs := Chars(s);
    forall j | 0 <= j < |cs| ensures IsbnOf(cs[j]).None? {
      var c := [s[j]];
      var e := Isbn.Extract(c);
      if e.Success? {
        var i :| Isbn.FoundAt(RemoveChar(c, '-'), i, e.value);
        RemoveCharShorter(c, '-');
      }
    }
  }

  /** A text given in place of the list of ISBNs leaves the record unchanged */
  lemma IsbnFromText(r: Record, message: Json)
    requires Lookup(message, "ISBN").Success? && Lookup(message, "ISBN").value.JStr?
    ensures IsbnSaved(r, message) == r
  {
    NoIsbnInChars(Lookup(message, "ISBN").value.s);
  }

  lemma {:induction false} RemoveCharShorter(s: string, a: char)
    ensures |RemoveChar(s, a)| <= |s|
    decreases |s|
  {
    if |s| > 0 {
      RemoveCharShorter(s[1..], a);
    }
  }

  /** `_saveIsbn`: only the ISBN may change, and it becomes the first ISBN found among the listed values. */
  function IsbnSaved(r: Record, message: Json): (f: Record)
    ensures f == r.(isbn := f.isbn)
    ensures f.isbn != r.isbn ==> (|f.isbn| == 10 || |f.isbn| == 13) && AllDigits(f.isbn)
    ensures f.isbn != r.isbn ==> exists j :: FirstIsbnAt(IsbnValues(message), j, f.isbn)
    ensures NoneIn(Found(IsbnValues(message)), 0, |IsbnValues(message)|) ==> f == r
  {
    var cs := IsbnValues(message);
    match FirstFound(Found(cs), 0)
    case Some(j) =>
      assert FirstIsbnAt(cs, j, Found(cs)[j].value);
      r.(isbn := Found(cs)[j].value)
    case None => r
  }

  /** The values `_saveIsbn` tests: none when the answer has no `ISBN` */
  function IsbnValues(message: Json): (cs: seq<Json>)
    ensures Lookup(message, "ISBN").Failure? ==> cs == []
  {
    match Lookup(message, "ISBN")
    case Success(v) => IsbnCandidates(v)
    case Failure(_) => []
  }

  /** The first candidate holding an ISBN decides it */
  lemma IsbnSavedFirst(r: Record, message: Json, j: nat, v: string)
    requires FirstIsbnAt(IsbnValues(message), j, v)
    ensures IsbnSaved(r, message) == r.(isbn := v)
  {
    FirstFoundAt(Found(IsbnValues(message)), j);
  }

  lemma NoneInExtend(f: seq<Option<string>>, i: nat)
    requires i < |f| && NoneIn(f, 0, i) && f[i].None?
    ensures NoneIn(f, 0, i + 1)
  {
  }

  lemma IsbnSavedNone(r: Record, message: Json)
    requires NoneIn(Found(IsbnValues(message)), 0, |IsbnValues(message)|)
    ensures IsbnSaved(r, message) == r
  {
  }

  /** The first position where something was found is the one before which nothing was */
  lemma FirstFoundAt(f: seq<Option<string>>, j: nat)
    requires j < |f| && f[j].Some? && NoneIn(f, 0, j)
    ensures FirstFound(f, 0) == Some(j)
  {
    var k := FirstFound(f, 0);
    assert k.Some? && f[k.value].Some?;
  }

  /** `crossRefData['issued']['date-parts'][0][0]` */
  function DateValue(message: Json): Result<Json> {
    var issued :- Lookup(message, "issued");
    var parts :- Lookup(issued, "date-parts");
    var first :- Index0(parts);
    Index0(first)
  }

  /** `_saveYear`: only the year may change, and it becomes `str` of the first date part. */
  function YearSaved(r: Record, message: Json): (f: Record)
    ensures f == r.(year := f.year)
    ensures f.year != r.year ==> DateValue(message).Success? && StrOf(DateValue(message).value) == Some(f.year)
    ensures DateValue(message).Success? && DateValue(message).value.JNum? ==> f.year == IntText(DateValue(message).value.n)
    ensures DateValue(message).Success? && DateValue(message).value.JNum? && DateValue(message).value.n >= 0 ==>
      AllDigits(f.year) && NatValue(f.year) == DateValue(message).value.n
    ensures DateValue(message).Success? && StrOf(DateValue(message).value).Some? ==>
      f.year == StrOf(DateValue(message).value).value
    ensures DateValue(message).Failure? || StrOf(DateValue(message).value).None? ==> f == r
  {
    match DateValue(message)
    case Success(v) => (match StrOf(v) case Some(t) => r.(year := t) case None => r)
    case Failure(_) => r
  }

  /** `crossRefData[key][0]` */
  function FirstOf(message: Json, key: string): Result<Json> {
    var v :- Lookup(message, key);
    Index0(v)
  }

  /** The parts `_saveTitle` collects: the first title, then the first subtitle, up to the first failure */
  function TitleParts(message: Json): (ps: seq<Json>)
    ensures |ps| <= 2
    ensures |ps| > 0 <==> FirstOf(message, "title").Success?
    ensures |ps| > 0 ==> ps[0] == FirstOf(message, "title").value
    ensures |ps| > 1 <==> FirstOf(message, "title").Success? && FirstOf(message, "subtitle").Success?
    ensures |ps| > 1 ==> ps[1] == FirstOf(message, "subtitle").value
  {
    match FirstOf(message, "title")
    case Failure(_) => []
    case Success(t) =>
      match FirstOf(message, "subtitle")
      case Failure(_) => [t]
      case Success(u) => [t, u]
  }

  predicate AllText(ps: seq<Json>) { forall k :: 0 <= k < |ps| ==> ps[k].JStr? }

  function Texts(ps: seq<Json>): (ts: seq<string>)
    requires AllText(ps)
    ensures |ts| == |ps| && forall k :: 0 <= k < |ps| ==> ts[k] == ps[k].s
  {
    seq(|ps|, k requires 0 <= k < |ps| => ps[k].s)
  }

  /**
   * `_saveTitle`: only the title may change; it becomes the title, followed by ": " and the
   * subtitle when there is one, or empty when there is neither; a part that is not text makes
   * the join fail and leaves the title as it was.
   */
  function TitleSaved(r: Record, message: Json): (f: Record)
    ensures f == r.(title := f.title)
    ensures !AllText(TitleParts(message)) ==> f == r
    ensures AllText(TitleParts(message)) ==>
      var ps := TitleParts(message);
      f.title == (if |ps| == 0 then "" else if |ps| == 1 then ps[0].s else ps[0].s + ": " + ps[1].s)
  {
    var ps := TitleParts(message);
    if AllText(ps) then
      var ts := Texts(ps);
      assert |ts| == 2 ==> ts[1..] == [ts[1]] && Join(ts[1..], ": ") == ts[1];
      r.(title := Join(ts, ": "))
    else r
  }

  /** `_savePages`: the first and second `-` pieces of a text page range, each where it is not empty. */
  function PagesSaved(r: Record, message: Json): (f: Record)
    ensures f == r.(pageStart := f.pageStart, pageEnd := f.pageEnd)
    ensures f.pageStart != r.pageStart ==>
      Lookup(message, "page").Success? && Lookup(message, "page").value.JStr? &&
      f.pageStart == Split(Lookup(message, "page").value.s, '-')[0] != ""
    ensures f.pageEnd != r.pageEnd ==>
      Lookup(message, "page").Success? && Lookup(message, "page").value.JStr? &&
      |Split(Lookup(message, "page").value.s, '-')| > 1 &&
      f.pageEnd == Split(Lookup(message, "page").value.s, '-')[1] != ""
    ensures Lookup(message, "page").Success? && Lookup(message, "page").value.JStr? ==>
      var ps := Split(Lookup(message, "page").value.s, '-');
      (ps[0] != "" ==> f.pageStart == ps[0]) && (|ps| > 1 && ps[1] != "" ==> f.pageEnd == ps[1])
    ensures !(Lookup(message, "page").Success? && Lookup(message, "page").value.JStr?) ==> f == r
  {
    match Lookup(message, "page")
    case Success(JStr(p)) =>
      var pages := Split(p, '-');
      var f := if |pages[0]| > 0 then r.(pageStart := pages[0]) else r;
      if |pages| > 1 && |pages[1]| > 0 then f.(pageEnd := pages[1]) else f
    case _ => r
  }

  /** A range "a-b" of two non-empty pages is stored as its two ends and rendered back as "a-b". */
  lemma {:induction false} PagesRoundTrip(r: Record, message: Json, a: string, b: string)
    requires Lookup(message, "page") == Success(JStr(a + "-" + b))
    requires a != "" && b != "" && '-' !in a && '-' !in b
    ensures PagesSaved(r, message).pageStart == a && PagesSaved(r, message).pageEnd == b
    ensures PagesAsString(PagesSaved(r, message), false) == a + "-" + b
  {
    SplitTwo(a, b, '-');
  }

  /** A single page is stored as the first page, and the last page is left alone. */
  lemma {:induction false} PagesSingle(r: Record, message: Json, a: string)
    requires Lookup(message, "page") == Success(JStr(a))
    requires a != "" && '-' !in a
    ensures PagesSaved(r, message) == r.(pageStart := a)
  {
    SplitFree(a, '-');
  }

  /** The earliest of the longest lengths */
  function Longest(lens: seq<nat>): (k: nat)
    requires |lens| > 0
    ensures k < |lens|
    ensures forall j :: 0 <= j < |lens| ==> lens[j] <= lens[k]
    ensures forall j :: 0 <= j < k ==> lens[j] < lens[k]
    decreases |lens|
  {
    if |lens| == 1 then 0
    else
      var p := Longest(lens[..|lens| - 1]);
      assert forall j :: 0 <= j < |lens| - 1 ==> lens[..|lens| - 1][j] == lens[j];
      if lens[|lens| - 1] > lens[p] then |lens| - 1 else p
  }

  predicate AllSized(items: seq<Json>) { forall j :: 0 <= j < |items| ==> Len(items[j]).Success? }

  function Lengths(items: seq<Json>): (lens: seq<nat>)
    requires AllSized(items)
    ensures |lens| == |items| && forall j :: 0 <= j < |items| ==> lens[j] == Len(items[j]).value
  {
    seq(|items|, j requires 0 <= j < |items| => Len(items[j]).value)
  }

  /**
   * The index `res` the loop of `_saveJournal` ends with: the earliest longest container title of
   * a list. The loop compares the lengths of the elements from the second on, so with two or more
   * elements each must have a length; on a text every element has length 1; on a dictionary the
   * integer key 1 is missing.
   */
  function LongestAt(journals: Json): (r: Result<nat>)
    ensures journals.JArr? && |journals.items| >= 2 ==> (r.Success? <==> AllSized(journals.items))
    ensures r.Success? && journals.JArr? && |journals.items| >= 2 ==> r.value == Longest(Lengths(journals.items))
    ensures r.Success? ==> r.value == 0 || (journals.JArr? && r.value < |journals.items|)
    ensures r.Failure? ==> r.error == TypeError || (journals.JObj? && r.error == KeyError)
    ensures journals.JStr? || (journals.JArr? && |journals.items| < 2) || (journals.JObj? && |journals.fields| < 2) ==>
      r == Success(0)
    ensures journals.JObj? && |journals.fields| >= 2 ==> r == Failure(KeyError)
    ensures !(journals.JStr? || journals.JArr? || journals.JObj?) ==> r == Failure(TypeError)
  {
    match journals
    case JArr(items) =>
      if |items| < 2 then Success(0)
      else if AllSized(items) then Success(Longest(Lengths(items)))
      else Failure(TypeError)
    case JStr(_) => Success(0)
    case JObj(fields) => if |fields| >= 2 then Failure(KeyError) else Success(0)
    case _ => Failure(TypeError)
  }

  /**
   * `_saveJournal`: the container title is required, and a failure of the loop propagates; the
   * longest title is then stored, the earliest among equal lengths.
   */
  function JournalSaved(r: Record, message: Json): (s: Result<Saved>)
    ensures s.Success? ==> s.value.record == r.(journal := s.value.record.journal)
    ensures s.Success? && s.value.record.journal != r.journal ==>
      Lookup(message, "container-title").Success? &&
      LongestAt(Lookup(message, "container-title").value).Success? &&
      ElemAt(Lookup(message, "container-title").value, LongestAt(Lookup(message, "container-title").value).value)
        == Success(JStr(s.value.record.journal))
    ensures s.Failure? ==> s.error == KeyError || s.error == TypeError
    ensures Lookup(message, "container-title").Failure? ==> s == Failure(Lookup(message, "container-title").error)
    ensures Lookup(message, "container-title").Success? ==>
      var journals := Lookup(message, "container-title").value;
      (s.Success? <==> LongestAt(journals).Success?) &&
      (LongestAt(journals).Failure? ==> s == Failure(LongestAt(journals).error)) &&
      (LongestAt(journals).Success? ==>
        var e := ElemAt(journals, LongestAt(journals).value);
        (e.Success? && e.value.JStr? ==> s == Success(Saved(r.(journal := e.value.s), true))) &&
        (e.Success? && !e.value.JStr? ==> s == Success(Saved(r, false))) &&
        (e.Failure? ==> s == Success(Saved(r, true))))
  {
    var journals :- Lookup(message, "container-title");
    var res :- LongestAt(journals);
    match ElemAt(journals, res)
    case Success(v) => Success(Stored(r, JournalKey, v))
    case Failure(_) => Success(Saved(r, true))
  }

  /** Of a list of texts, the longest is kept, the earliest among equal lengths. */
  lemma {:induction false} JournalLongest(r: Record, message: Json, titles: seq<string>)
    requires |titles| > 0
    requires Lookup(message, "container-title") == Success(JArr(seq(|titles|, k requires 0 <= k < |titles| => JStr(titles[k]))))
    ensures JournalSaved(r, message).Success?
    ensures var t := JournalSaved(r, message).value.record.journal;
      t in titles && (forall j :: 0 <= j < |titles| ==> |titles[j]| <= |t|) &&
      exists k :: 0 <= k < |titles| && titles[k] == t && forall j :: 0 <= j < k ==> |titles[j]| < |t|
  {
    var items := seq(|titles|, k requires 0 <= k < |titles| => JStr(titles[k]));
    var k := 0;
    if |titles| >= 2 {
      assert AllSized(items);
      var lens := Lengths(items);
      assert forall j :: 0 <= j < |titles| ==> lens[j] == |titles[j]|;
      k := Longest(lens);
    }
    assert LongestAt(JArr(items)) == Success(k);
    assert JournalSaved(r, message) == Success(Saved(r.(journal := titles[k]), true));
    assert forall j :: 0 <= j < |titles| ==> |titles[j]| <= |titles[k]|;
    assert forall j :: 0 <= j < k ==> |titles[j]| < |titles[k]|;
  }

  /** Which list of names a mapper fills */
  datatype People = Authors | Editors

  function WithPeople(r: Record, which: People, ps: seq<Person>): Record {
    if which == Authors then r.(author := ps) else r.(editor := ps)
  }

  /** `_saveName` gives a non-empty dictionary: a dictionary with both a `given` and a `family` entry */
  predicate HasName(j: Json) { j.JObj? && "given" in j.fields && "family" in j.fields }

  /** `filter(len, [_saveName(i) for i in names])`: the entries with both parts, in their order */
  function Named(items: seq<Json>): (ns: seq<Json>)
    ensures |ns| <= |items|
    ensures forall j :: 0 <= j < |ns| ==> HasName(ns[j])
    ensures (forall j :: 0 <= j < |items| ==> HasName(items[j])) ==> ns == items
    ensures (forall j :: 0 <= j < |items| ==> !HasName(items[j])) ==> ns == []
    decreases |items|
  {
    if |items| == 0 then []
    else
      var rest := Named(items[1..]);
      assert items == [items[0]] + items[1..];
      if HasName(items[0]) then [items[0]] + rest else rest
  }

  /** Every kept entry is an entry of the list, with its multiplicity at most */
  lemma {:induction false} NamedFromItems(items: seq<Json>)
    ensures multiset(Named(items)) <= multiset(items)
    decreases |items|
  {
    if |items| > 0 {
      NamedFromItems(items[1..]);
      assert items == [items[0]] + items[1..];
    }
  }

  /** Keeping the named entries of two lists one after the other keeps their order. */
  lemma {:induction false} NamedAppend(a: seq<Json>, b: seq<Json>)
    ensures Named(a + b) == Named(a) + Named(b)
    decreases |a|
  {
    if |a| > 0 {
      assert (a + b)[1..] == a[1..] + b;
      NamedAppend(a[1..], b);
    } else {
      assert a + b == b;
    }
  }

  /** Both parts of a name are texts */
  predicate TextName(j: Json) { HasName(j) && j.fields["given"].JStr? && j.fields["family"].JStr? }

  function PersonOf(j: Json): Person requires TextName(j) {
    Person(j.fields["given"].s, j.fields["family"].s)
  }

  function Persons(ns: seq<Json>): (ps: seq<Person>)
    requires forall j :: 0 <= j < |ns| ==> TextName(ns[j])
    ensures |ps| == |ns| && forall j :: 0 <= j < |ns| ==> ps[j] == PersonOf(ns[j])
  {
    seq(|ns|, j requires 0 <= j < |ns| => PersonOf(ns[j]))
  }

  /** A value Python can iterate over: a list, a text or a dictionary */
  predicate Iterable(v: Json) { v.JArr? || v.JStr? || v.JObj? }

  /**
   * `_saveNames`: a list of names becomes its entries with both parts, in order; a text or a
   * dictionary iterates over texts, which have no parts, and gives an empty list; a missing key
   * or a value that cannot be iterated leaves the names alone.
   */
  function NamesSaved(r: Record, message: Json, key: string, which: People): (s: Saved)
    ensures s.record == r || s.record == WithPeople(r, which, if which == Authors then s.record.author else s.record.editor)
    ensures Lookup(message, key).Success? && Lookup(message, key).value.JArr? && s.text ==>
      var ns := Named(Lookup(message, key).value.items);
      (forall j :: 0 <= j < |ns| ==> TextName(ns[j])) && s.record == WithPeople(r, which, Persons(ns))
    ensures Lookup(message, key).Success? && (Lookup(message, key).value.JStr? || Lookup(message, key).value.JObj?) ==>
      s == Saved(WithPeople(r, which, []), true)
    ensures Lookup(message, key).Failure? ==> s == Saved(r, true)
    ensures Lookup(message, key).Success? && Lookup(message, key).value.JArr? ==>
      var ns := Named(Lookup(message, key).value.items);
      (s.text <==> forall j :: 0 <= j < |ns| ==> TextName(ns[j])) && (!s.text ==> s.record == r)
    ensures Lookup(message, key).Success? && !Iterable(Lookup(message, key).value) ==> s == Saved(r, true)
  {
    match Lookup(message, key)
    case Success(JArr(items)) =>
      var ns := Named(items);
      assert ns == Named(Lookup(message, key).value.items);
      if forall j :: 0 <= j < |ns| ==> TextName(ns[j]) then Saved(WithPeople(r, which, Persons(ns)), true)
      else Saved(r, false)
    case Success(JStr(_)) => Saved(WithPeople(r, which, []), true)
    case Success(JObj(_)) => Saved(WithPeople(r, which, []), true)
    case _ => Saved(r, true)
  }

  /** The mappers of `_saveMetadata` up to the journal, in its order, from record `r` */
  function SavedFront(r: Record, message: Json): Result<Saved> {
    var r1 := IsbnSaved(r, message);
    var r2 := YearSaved(r1, message);
    var r3 := TitleSaved(r2, message);
    var r4 := PagesSaved(r3, message);
    JournalSaved(r4, message)
  }

  /** The mappers of `_saveMetadata` after the journal, in its order */
  function AttributesSaved(r: Record, message: Json): Saved {
    var s6 := ValueSaved(r, message, "volume", Volume);
    var s7 := ValueSaved(s6.record, message, "issue", Issue);
    var s8 := ValueSaved(s7.record, message, "DOI", Doi);
    var s9 := ValueSaved(s8.record, message, "ISSN", Issn);
    var s10 := ValueSaved(s9.record, message, "URL", Url);
    var s11 := ValueSaved(s10.record, message, "publisher", Publisher);
    var s12 := NamesSaved(s11.record, message, "author", Authors);
    var s13 := NamesSaved(s12.record, message, "editor", Editors);
    Saved(s13.record, s6.text && s7.text && s8.text && s9.text && s10.text && s11.text && s12.text && s13.text)
  }

  /** Every mapper of `_saveMetadata` */
  function SavedFields(message: Json): Result<Saved> {
    var front :- SavedFront(Defaults, message);
    var rest := AttributesSaved(front.record, message);
    Success(Saved(rest.record, front.text && rest.text))
  }

  /**
   * `_saveMetadata`: the record of `data['message']`, tidied; a missing message and a failing
   * container title propagate, and a stored value that is not text makes `tidy` fail.
   */
  function SaveMetadataResult(data: Json): (r: Result<Record>)
    ensures r.Success? ==> TidyOutsideFill(r.value)
    ensures r.Failure? ==> r.error == KeyError || r.error == TypeError || r.error == AttributeError
  {
    var message :- Lookup(data, "message");
    var s :- SavedFields(message);
    if s.text then
      TidyRecordTidied(s.record);
      Success(TidyRecord(s.record))
    else Failure(AttributeError)
  }

  /** `_saveMetadata` in terms of what its mappers leave */
  lemma SaveMetadataFrom(data: Json, fields: Result<Saved>)
    requires Lookup(data, "message").Success? && SavedFields(Lookup(data, "message").value) == fields
    ensures fields.Failure? ==> SaveMetadataResult(data) == Failure(fields.error)
    ensures fields.Success? ==>
      SaveMetadataResult(data) == if fields.value.text then Success(TidyRecord(fields.value.record)) else Failure(AttributeError)
  {
  }

  /**
   * `search`: the DOI of the lookup text, extracted once more, fetched and turned into a
   * record; every failure propagates.
   */
  function SearchResult(lookup: string, autoSaveMinimum: real, autoSaveMaximum: real,
                        runQuery: string -> Result<Json>, fetch: string -> Result<Json>,
                        user: (string, seq<Json>) -> Replies): (r: Result<Record>)
    ensures r.Success? ==> TidyOutsideFill(r.value)
  {
    var lookupDoi :- GetDoi(lookup, autoSaveMinimum, autoSaveMaximum, runQuery, user);
    MetadataFromDoi(lookupDoi, fetch)
  }

  /** `_getMetadataFromDoi`: the DOI extracted once more, fetched and turned into a record */
  function MetadataFromDoi(lookupDoi: string, fetch: string -> Result<Json>): (r: Result<Record>)
    ensures r.Success? ==> TidyOutsideFill(r.value)
    ensures Doi.Extract(lookupDoi).Failure? ==> r == Failure(Doi.Extract(lookupDoi).error)
  {
    var rawDoi :- Doi.Extract(lookupDoi);
    var data :- fetch(rawDoi);
    SaveMetadataResult(data)
  }

  /** With a DOI in the lookup text, the free-text query and the prompt play no part. */
  lemma {:induction false} SearchByDoiSkipsQuery(lookup: string, autoSaveMinimum: real, autoSaveMaximum: real,
                                                runQuery: string -> Result<Json>, otherQuery: string -> Result<Json>,
                                                fetch: string -> Result<Json>,
                                                user: (string, seq<Json>) -> Replies, otherUser: (string, seq<Json>) -> Replies)
    requires Doi.Extract(lookup).Success?
    ensures SearchResult(lookup, autoSaveMinimum, autoSaveMaximum, runQuery, fetch, user)
         == SearchResult(lookup, autoSaveMinimum, autoSaveMaximum, otherQuery, fetch, otherUser)
  {
    assert GetDoi(lookup, autoSaveMinimum, autoSaveMaximum, runQuery, user)
        == GetDoi(lookup, autoSaveMinimum, autoSaveMaximum, otherQuery, otherUser);
  }

  // ---------------------------------------------------------------------------------------------
  // The mappers on a `Metadata` object

  /** `_saveValue` */
  method SaveValue(m: Metadata, message: Json, key: string, k: Key) returns (text: bool)
    modifies m
    ensures m.Snapshot() == ValueSaved(old(m.Snapshot()), message, key, k).record
    ensures text == ValueSaved(old(m.Snapshot()), message, key, k).text
  {
    var found := Lookup(message, key);
    if found.Failure? {
      return true;
    }
    var value := found.value;
    if value.JArr? {
      if |value.items| == 0 {
        return true;
      }
      value := value.items[0];
    }
    assert ValueOf(message, key) == Some(value);
    if value.JStr? {
      m.SetText(k, value.s);
      return true;
    }
    return false;
  }

  /** `_saveIsbn`: the first listed value from which an ISBN can be extracted */
  method SaveIsbn(m: Metadata, message: Json)
    modifies m
    ensures m.Snapshot() == IsbnSaved(old(m.Snapshot()), message)
  {
    var found := Lookup(message, "ISBN");
    if found.Failure? {
      IsbnSavedNone(m.Snapshot(), message);
      return;
    }
    var valuesToTest := IsbnCandidates(found.value);
    assert valuesToTest == IsbnValues(message);
    ghost var results := Found(valuesToTest);
    var i := 0;
    while i < |valuesToTest|
      invariant i <= |valuesToTest|
      invariant NoneIn(results, 0, i)
      invariant m.Snapshot() == old(m.Snapshot())
    {
      var isbn := TestIsbn(valuesToTest[i]);
      if isbn.Some? {
        IsbnSavedFirst(old(m.Snapshot()), message, i, isbn.value);
        m.SetIsbn(isbn.value);
        return;
      }
      NoneInExtend(results, i);
      i := i + 1;
    }
    IsbnSavedNone(old(m.Snapshot()), message);
  }

  /** The body of the loop of `_saveIsbn`: `isbn.extract(i)`, where a failure is skipped */
  method TestIsbn(candidate: Json) returns (r: Option<string>)
    ensures r == IsbnOf(candidate)
  {
    if candidate.JStr? {
      var isbn := Isbn.Extract(candidate.s);
      if isbn.Success? {
        return Some(isbn.value);
      }
    }
    return None;
  }

  /** `_saveYear` */
  method SaveYear(m: Metadata, message: Json)
    modifies m
    ensures m.Snapshot() == YearSaved(old(m.Snapshot()), message)
  {
    var date := DateValue(message);
    if date.Success? {
      var year := StrOf(date.value);
      if year.Some? {
        m.SetYear(year.value);
      }
    }
  }

  /** `_saveTitle` */
  method SaveTitle(m: Metadata, message: Json)
    modifies m
    ensures m.Snapshot() == TitleSaved(old(m.Snapshot()), message)
  {
    var title: seq<Json> := [];
    var first := FirstOf(message, "title");
    if first.Success? {
      title := title + [first.value];
      var subtitle := FirstOf(message, "subtitle");
      if subtitle.Success? {
        title := title + [subtitle.value];
      }
    }
    assert title == TitleParts(message);
    if AllText(title) {
      m.SetTitle(Join(Texts(title), ": "));
    }
  }

  /** `_savePages` */
  method SavePages(m: Metadata, message: Json)
    modifies m
    ensures m.Snapshot() == PagesSaved(old(m.Snapshot()), message)
  {
    var page := Lookup(message, "page");
    if page.Success? && page.value.JStr? {
      var pages := Split(page.value.s, '-');
      if |pages[0]| > 0 {
        m.SetPageStart(pages[0]);
      }
      if |pages| > 1 && |pages[1]| > 0 {
        m.SetPageEnd(pages[1]);
      }
    }
  }

  /** The loop of `_saveJournal` over `range(1, len(journals))` */
  method LongestIndex(journals: Json) returns (r: Result<nat>)
    ensures r == LongestAt(journals)
  {
    var n := Len(journals);
    if n.Failure? {
      return Failure(n.error);
    }
    var res: nat := 0;
    var i: nat := 1;
    while i < n.value
      invariant res < i && (i <= n.value || i == 1)
      invariant i == 1 ==> res == 0
      invariant journals.JObj? || journals.JStr? ==> res == 0
      invariant journals.JObj? ==> i == 1
      invariant journals.JArr? && i >= 2 ==> ScannedTitles(journals.items, i, res)
    {
      var next := ElemAt(journals, i);
      if next.Failure? {
        return Failure(next.error);
      }
      var nextLen := Len(next.value);
      if nextLen.Failure? {
        assert journals.JArr? && !Len(journals.items[i]).Success?;
        return Failure(nextLen.error);
      }
      var best := ElemAt(journals, res);
      var bestLen := Len(best.value);
      if bestLen.Failure? {
        assert journals.JArr? && !Len(journals.items[res]).Success?;
        return Failure(bestLen.error);
      }
      if journals.JArr? {
        assert next.value == journals.items[i] && best.value == journals.items[res];
        LongestStep(journals.items, i, res);
      }
      if nextLen.value > bestLen.value {
        res := i;
      }
      i := i + 1;
    }
    if journals.JArr? && |journals.items| >= 2 {
      assert journals.items[..i] == journals.items;
    }
    return Success(res);
  }

  /** After the titles before `i`: each has a length, and `res` is the earliest longest */
  predicate ScannedTitles(items: seq<Json>, i: nat, res: nat) {
    0 < i <= |items| && AllSized(items[..i]) && res == Longest(Lengths(items[..i]))
  }

  /** One step of the loop: the earliest longest of one more title */
  lemma LongestStep(items: seq<Json>, i: nat, res: nat)
    requires 1 <= i < |items| && res < i && Len(items[i]).Success? && Len(items[res]).Success?
    requires i == 1 ==> res == 0
    requires i >= 2 ==> ScannedTitles(items, i, res)
    ensures ScannedTitles(items, i + 1, if Len(items[i]).value > Len(items[res]).value then i else res)
  {
    if i == 1 {
      assert items[..1][0] == items[0];
    }
    assert AllSized(items[..i]);
    var lens := Lengths(items[..i]);
    assert res == Longest(lens) by {
      if i == 1 {
        assert |lens| == 1;
      }
    }
    assert lens[res] == Len(items[res]).value by {
      assert items[..i][res] == items[res];
    }
    LengthsSnoc(items, i);
    LongestSnoc(lens, Len(items[i]).value);
  }

  lemma LengthsSnoc(items: seq<Json>, i: nat)
    requires i < |items| && AllSized(items[..i]) && Len(items[i]).Success?
    ensures AllSized(items[..i + 1])
    ensures Lengths(items[..i + 1]) == Lengths(items[..i]) + [Len(items[i]).value]
  {
    assert items[..i + 1] == items[..i] + [items[i]];
  }

  /** The earliest longest of one more length */
  lemma LongestSnoc(lens: seq<nat>, x: nat)
    requires |lens| > 0
    ensures Longest(lens + [x]) == if x > lens[Longest(lens)] then |lens| else Longest(lens)
  {
    assert (lens + [x])[..|lens|] == lens;
  }

  /** `_saveJournal`: a failure before the `try` propagates and leaves the object alone */
  method SaveJournal(m: Metadata, message: Json) returns (r: Result<bool>)
    modifies m
    ensures r.Success? <==> JournalSaved(old(m.Snapshot()), message).Success?
    ensures r.Success? ==> m.Snapshot() == JournalSaved(old(m.Snapshot()), message).value.record &&
                           r.value == JournalSaved(old(m.Snapshot()), message).value.text
    ensures r.Failure? ==> m.Snapshot() == old(m.Snapshot()) && r.error == JournalSaved(old(m.Snapshot()), message).error
  {
    var journals := Lookup(message, "container-title");
    if journals.Failure? {
      return Failure(journals.error);
    }
    var res := LongestIndex(journals.value);
    if res.Failure? {
      return Failure(res.error);
    }
    var journal := ElemAt(journals.value, res.value);
    if journal.Failure? {
      return Success(true);
    }
    if journal.value.JStr? {
      m.SetJournal(journal.value.s);
      return Success(true);
    }
    return Success(false);
  }

  /** `_saveNames` */
  method SaveNames(m: Metadata, message: Json, key: string, which: People) returns (text: bool)
    modifies m
    ensures m.Snapshot() == NamesSaved(old(m.Snapshot()), message, key, which).record
    ensures text == NamesSaved(old(m.Snapshot()), message, key, which).text
  {
    var names := Lookup(message, key);
    if names.Failure? {
      return true;
    }
    var value := names.value;
    var people: seq<Person> := [];
    if value.JArr? {
      var named := Named(value.items);
      if !(forall j :: 0 <= j < |named| ==> TextName(named[j])) {
        return false;
      }
      people := Persons(named);
    } else if !(value.JStr? || value.JObj?) {
      return true;
    }
    if which == Authors {
      m.SetAuthor(people);
    } else {
      m.SetEditor(people);
    }
    return true;
  }

  /** The `_saveValue` and `_saveNames` calls of `_saveMetadata` */
  method SaveAttributes(m: Metadata, message: Json) returns (text: bool)
    modifies m
    ensures m.Snapshot() == AttributesSaved(old(m.Snapshot()), message).record
    ensures text == AttributesSaved(old(m.Snapshot()), message).text
  {
    var t6 := SaveValue(m, message, "volume", Volume);
    var t7 := SaveValue(m, message, "issue", Issue);
    var t8 := SaveValue(m, message, "DOI", Doi);
    var t9 := SaveValue(m, message, "ISSN", Issn);
    var t10 := SaveValue(m, message, "URL", Url);
    var t11 := SaveValue(m, message, "publisher", Publisher);
    var t12 := SaveNames(m, message, "author", Authors);
    var t13 := SaveNames(m, message, "editor", Editors);
    text := t6 && t7 && t8 && t9 && t10 && t11 && t12 && t13;
  }

  /** The mappers of `_saveMetadata` up to the journal; its failure leaves the rest undone */
  method SaveFront(m: Metadata, message: Json) returns (journal: Result<bool>)
    modifies m
    ensures journal.Success? <==> SavedFront(old(m.Snapshot()), message).Success?
    ensures journal.Success? ==> SavedFront(old(m.Snapshot()), message).value == Saved(m.Snapshot(), journal.value)
    ensures journal.Failure? ==> journal.error == SavedFront(old(m.Snapshot()), message).error
  {
    SaveIsbn(m, message);
    SaveYear(m, message);
    SaveTitle(m, message);
    SavePages(m, message);
    journal := SaveJournal(m, message);
  }

  /** `_saveMetadata` */
  method SaveMetadata(data: Json) returns (r: Result<Metadata>)
    ensures r.Success? <==> SaveMetadataResult(data).Success?
    ensures r.Success? ==> fresh(r.value) && r.value.Snapshot() == SaveMetadataResult(data).value
    ensures r.Failure? ==> r.error == SaveMetadataResult(data).error
  {
    var m := new Metadata();
    var found := Lookup(data, "message");
    if found.Failure? {
      return Failure(found.error);
    }
    var message := found.value;
    var journal := SaveFront(m, message);
    if journal.Failure? {
      SaveMetadataFrom(data, SavedFields(message));
      return Failure(journal.error);
    }
    var rest := SaveAttributes(m, message);
    SaveMetadataFrom(data, Success(Saved(m.Snapshot(), journal.value && rest)));
    if !(journal.value && rest) {
      return Failure(AttributeError);
    }
    m.Tidy();
    return Success(m);
  }

  /** `search` */
  method Search(lookup: string, autoSaveMinimum: real, autoSaveMaximum: real,
                runQuery: string -> Result<Json>, fetch: string -> Result<Json>,
                user: (string, seq<Json>) -> Replies) returns (r: Result<Metadata>)
    ensures r.Success? <==> SearchResult(lookup, autoSaveMinimum, autoSaveMaximum, runQuery, fetch, user).Success?
    ensures r.Success? ==>
      fresh(r.value) && r.value.Snapshot() == SearchResult(lookup, autoSaveMinimum, autoSaveMaximum, runQuery, fetch, user).value
    ensures r.Failure? ==> r.error == SearchResult(lookup, autoSaveMinimum, autoSaveMaximum, runQuery, fetch, user).error
  {
    var lookupDoi := GetDoi(lookup, autoSaveMinimum, autoSaveMaximum, runQuery, user);
    if lookupDoi.Failure? {
      return Failure(lookupDoi.error);
    }
    r := GetMetadataFromDoi(lookupDoi.value, fetch);
  }

  /** `_getMetadataFromDoi` */
  method GetMetadataFromDoi(lookupDoi: string, fetch: string -> Result<Json>) returns (r: Result<Metadata>)
    ensures r.Success? <==> MetadataFromDoi(lookupDoi, fetch).Success?
    ensures r.Success? ==> fresh(r.value) && r.value.Snapshot() == MetadataFromDoi(lookupDoi, fetch).value
    ensures r.Failure? ==> r.error == MetadataFromDoi(lookupDoi, fetch).error
  {
    var rawDoi := Doi.Extract(lookupDoi);
    if rawDoi.Failure? {
      return Failure(rawDoi.error);
    }
    var data := fetch(rawDoi.value);
    if data.Failure? {
      return Failure(data.error);
    }
    r := SaveMetadata(data.value);
  }
}
