/**
 * `refkit.reference`: metadata for a reference gathered from the two lookup services, arXiv.org
 * first and CrossRef.org second. The services are parameters: `arxiv` stands for
 * `arxiv.search(input)` and `crossref` for `crossref.search(query, autoSaveMinimum,
 * autoSaveMaximum)`, each giving a record or the exception it raised.
 */
module Reference {

  import opened Wrappers
  import opened MetadataRecord
  import Arxiv
  import Crossref
  import JsonValue

  type ArxivSearch = string -> Result<Record>
  type CrossrefSearch = (string, real, real) -> Result<Record>

  /**
   * `getMetadata(input, autoSaveMinimum, autoSaveMaximum)`; the default thresholds are
   * `Crossref.DefaultAutoSaveMinimum` and `Crossref.DefaultAutoSaveMaximum`.
   */
  function GetMetadata(input: string, autoSaveMinimum: real, autoSaveMaximum: real,
                       arxiv: ArxivSearch, crossref: CrossrefSearch): (r: Result<seq<Record>>)
    ensures r.Failure? ==> !Caught(r.error)
    ensures r.Success? && arxiv(input).Success? ==> |r.value| >= 1 && r.value[0] == arxiv(input).value
  {
    ByLookup(input, autoSaveMinimum, autoSaveMaximum, arxiv, crossref)
  }

  /**
   * `_getMetadataByLookup`: the arXiv list followed by the CrossRef list. Only an exception that
   * `except Exception` lets through (SystemExit from an interrupted prompt) escapes.
   */
  function ByLookup(input: string, autoSaveMinimum: real, autoSaveMaximum: real,
                    arxiv: ArxivSearch, crossref: CrossrefSearch): (r: Result<seq<Record>>)
    ensures r.Failure? ==> !Caught(r.error)
    ensures r.Success? ==> |r.value| <= 2
    ensures r.Success? && arxiv(input).Success? ==> |r.value| >= 1 && r.value[0] == arxiv(input).value
    ensures r.Success? && !arxiv(input).Success? ==> |r.value| <= 1
    ensures r.Success? ==> forall m :: m in r.value ==> Answered(m, input, autoSaveMinimum, autoSaveMaximum, arxiv, crossref)
  {
    var a := FromArxiv(input, arxiv);
    if a.Failure? then Failure(a.error)
    else
      var c := FromCrossref(input, a.value, autoSaveMinimum, autoSaveMaximum, crossref);
      if c.Failure? then Failure(c.error)
      else
        Success(a.value + c.value)
  }

  /** `m` is what one of the services answered */
  ghost predicate Answered(m: Record, input: string, autoSaveMinimum: real, autoSaveMaximum: real,
                     arxiv: ArxivSearch, crossref: CrossrefSearch)
  {
    arxiv(input) == Success(m) || exists q :: crossref(q, autoSaveMinimum, autoSaveMaximum) == Success(m)
  }

  /** `_getMetadataFromArxiv`: the arXiv record, or nothing when the search raised */
  function FromArxiv(input: string, arxiv: ArxivSearch): (r: Result<seq<Record>>)
    ensures r.Success? <==> arxiv(input).Success? || Caught(arxiv(input).error)
    ensures r.Failure? ==> r.error == arxiv(input).error
    ensures r.Success? ==> (|r.value| == 1 <==> arxiv(input).Success?)
    ensures r.Success? ==> |r.value| <= 1
    ensures r.Success? && arxiv(input).Success? ==> r.value == [arxiv(input).value]
  {
    match arxiv(input)
    case Success(m) => Success([m])
    case Failure(e) => if Caught(e) then Success([]) else Failure(e)
  }

  /** The texts `_getMetadataFromCrossref` searches CrossRef.org for, in order */
  function Queries(input: string, existing: seq<Record>): (qs: seq<string>)
    ensures |qs| == |existing| + 1
    ensures forall k :: 0 <= k < |existing| ==> qs[k] == UnformattedString(existing[k])
    ensures qs[|existing|] == input
    decreases |existing|
  {
    if |existing| == 0 then [input]
    else [UnformattedString(existing[0])] + Queries(input, existing[1..])
  }

  /** A search that raised something `except Exception` catches */
  predicate Missed(crossref: CrossrefSearch, q: string, autoSaveMinimum: real, autoSaveMaximum: real) {
    var s := crossref(q, autoSaveMinimum, autoSaveMaximum);
    s.Failure? && Caught(s.error)
  }

  /**
   * The searches of `_getMetadataFromCrossref` tried one after the other: the first record found
   * is the answer, a caught exception moves on, and when every search missed the answer is empty.
   */
  function TryQueries(qs: seq<string>, autoSaveMinimum: real, autoSaveMaximum: real,
                      crossref: CrossrefSearch): (r: Result<seq<Record>>)
    ensures r.Failure? ==> !Caught(r.error)
    ensures r.Success? ==> |r.value| <= 1
    ensures r.Success? && |r.value| == 1 ==>
      exists k :: 0 <= k < |qs| && crossref(qs[k], autoSaveMinimum, autoSaveMaximum) == Success(r.value[0])
    ensures r == Success([]) <==> forall k :: 0 <= k < |qs| ==> Missed(crossref, qs[k], autoSaveMinimum, autoSaveMaximum)
    decreases |qs|
  {
    if |qs| == 0 then Success([])
    else
      var rest := TryQueries(qs[1..], autoSaveMinimum, autoSaveMaximum, crossref);
      assert forall k :: 1 <= k < |qs| ==> qs[k] == qs[1..][k - 1];
      match crossref(qs[0], autoSaveMinimum, autoSaveMaximum)
      case Success(m) => Success([m])
      case Failure(e) =>
        if !Caught(e) then Failure(e) else rest
  }

  /**
   * `_getMetadataFromCrossref`: CrossRef.org searched with `toUnformattedString()` of each
   * record found so far, then with the raw input.
   */
  function FromCrossref(input: string, existing: seq<Record>, autoSaveMinimum: real, autoSaveMaximum: real,
                        crossref: CrossrefSearch): (r: Result<seq<Record>>)
    ensures r.Failure? ==> !Caught(r.error)
    ensures r.Success? ==> |r.value| <= 1
    ensures r.Success? ==> forall m :: m in r.value ==> exists q :: crossref(q, autoSaveMinimum, autoSaveMaximum) == Success(m)
  {
    var qs := Queries(input, existing);
    AnswerOfSomeQuery(qs, autoSaveMinimum, autoSaveMaximum, crossref);
    TryQueries(qs, autoSaveMinimum, autoSaveMaximum, crossref)
  }

  /** The record found is the answer to some text */
  lemma AnswerOfSomeQuery(qs: seq<string>, autoSaveMinimum: real, autoSaveMaximum: real, crossref: CrossrefSearch)
    ensures var r := TryQueries(qs, autoSaveMinimum, autoSaveMaximum, crossref);
      r.Success? ==> forall m :: m in r.value ==> exists q :: crossref(q, autoSaveMinimum, autoSaveMaximum) == Success(m)
  {
    var r := TryQueries(qs, autoSaveMinimum, autoSaveMaximum, crossref);
    if r.Success? && |r.value| == 1 {
      var k :| 0 <= k < |qs| && crossref(qs[k], autoSaveMinimum, autoSaveMaximum) == Success(r.value[0]);
      assert r.value == [r.value[0]];
    }
  }

  /** Searches that missed are passed over: what is left decides */
  lemma {:induction false} SkipMissed(qs: seq<string>, j: nat, autoSaveMinimum: real, autoSaveMaximum: real,
                                      crossref: CrossrefSearch)
    requires j <= |qs|
    requires forall k :: 0 <= k < j ==> Missed(crossref, qs[k], autoSaveMinimum, autoSaveMaximum)
    ensures TryQueries(qs, autoSaveMinimum, autoSaveMaximum, crossref)
         == TryQueries(qs[j..], autoSaveMinimum, autoSaveMaximum, crossref)
    decreases j
  {
    if j > 0 {
      assert Missed(crossref, qs[0], autoSaveMinimum, autoSaveMaximum);
      assert forall k :: 0 <= k < j - 1 ==> qs[1..][k] == qs[k + 1];
      SkipMissed(qs[1..], j - 1, autoSaveMinimum, autoSaveMaximum, crossref);
      assert qs[1..][j - 1..] == qs[j..];
    }
  }

  /** The answer of the first search that did not miss ends the searching */
  lemma FirstAnswer(qs: seq<string>, j: nat, autoSaveMinimum: real, autoSaveMaximum: real,
                    crossref: CrossrefSearch)
    requires j < |qs|
    requires forall k :: 0 <= k < j ==> Missed(crossref, qs[k], autoSaveMinimum, autoSaveMaximum)
    ensures crossref(qs[j], autoSaveMinimum, autoSaveMaximum).Success? ==>
      TryQueries(qs, autoSaveMinimum, autoSaveMaximum, crossref) == Success([crossref(qs[j], autoSaveMinimum, autoSaveMaximum).value])
    ensures !Missed(crossref, qs[j], autoSaveMinimum, autoSaveMaximum) && crossref(qs[j], autoSaveMinimum, autoSaveMaximum).Failure? ==>
      TryQueries(qs, autoSaveMinimum, autoSaveMaximum, crossref) == Failure(crossref(qs[j], autoSaveMinimum, autoSaveMaximum).error)
  {
    SkipMissed(qs, j, autoSaveMinimum, autoSaveMaximum, crossref);
    assert qs[j..][0] == qs[j];
  }

  /**
   * The first record found so far whose unformatted text CrossRef.org answers gives the CrossRef
   * record; an exception that escapes `except Exception` ends the search.
   */
  lemma CrossrefFirstSuccess(input: string, existing: seq<Record>, j: nat, autoSaveMinimum: real,
                             autoSaveMaximum: real, crossref: CrossrefSearch)
    requires j < |existing|
    requires forall k :: 0 <= k < j ==> Missed(crossref, UnformattedString(existing[k]), autoSaveMinimum, autoSaveMaximum)
    ensures var s := crossref(UnformattedString(existing[j]), autoSaveMinimum, autoSaveMaximum);
      s.Success? ==> FromCrossref(input, existing, autoSaveMinimum, autoSaveMaximum, crossref) == Success([s.value])
    ensures var s := crossref(UnformattedString(existing[j]), autoSaveMinimum, autoSaveMaximum);
      s.Failure? && !Caught(s.error) ==> FromCrossref(input, existing, autoSaveMinimum, autoSaveMaximum, crossref) == Failure(s.error)
  {
    var qs := Queries(input, existing);
    FirstAnswer(qs, j, autoSaveMinimum, autoSaveMaximum, crossref);
  }

  /**
   * When every search with a record found so far missed, the raw input is searched: its record,
   * or nothing when that search missed too.
   */
  lemma CrossrefInputFallback(input: string, existing: seq<Record>, autoSaveMinimum: real,
                              autoSaveMaximum: real, crossref: CrossrefSearch)
    requires forall k :: 0 <= k < |existing| ==> Missed(crossref, UnformattedString(existing[k]), autoSaveMinimum, autoSaveMaximum)
    ensures FromCrossref(input, existing, autoSaveMinimum, autoSaveMaximum, crossref)
         == match crossref(input, autoSaveMinimum, autoSaveMaximum)
            case Success(m) => Success([m])
            case Failure(e) => if Caught(e) then Success([]) else Failure(e)
  {
    var qs := Queries(input, existing);
    var n := |existing|;
    SkipMissed(qs, n, autoSaveMinimum, autoSaveMaximum, crossref);
    assert qs[n..] == [input];
    assert [input][1..] == [];
  }

  /** Without an arXiv record, CrossRef.org is searched with the raw input alone */
  lemma NoArxivRecord(input: string, autoSaveMinimum: real, autoSaveMaximum: real,
                      arxiv: ArxivSearch, crossref: CrossrefSearch)
    requires arxiv(input).Failure? && Caught(arxiv(input).error)
    ensures GetMetadata(input, autoSaveMinimum, autoSaveMaximum, arxiv, crossref)
         == match crossref(input, autoSaveMinimum, autoSaveMaximum)
            case Success(m) => Success([m])
            case Failure(e) => if Caught(e) then Success([]) else Failure(e)
  {
    CrossrefInputFallback(input, [], autoSaveMinimum, autoSaveMaximum, crossref);
    if crossref(input, autoSaveMinimum, autoSaveMaximum).Success? {
      assert [] + [crossref(input, autoSaveMinimum, autoSaveMaximum).value] == [crossref(input, autoSaveMinimum, autoSaveMaximum).value];
    }
  }

  lemma {:induction false} TryQueriesAgree(qs: seq<string>, autoSaveMinimum: real, autoSaveMaximum: real,
                                           c1: CrossrefSearch, c2: CrossrefSearch)
    requires forall s :: c1(s, autoSaveMinimum, autoSaveMaximum) == c2(s, autoSaveMinimum, autoSaveMaximum)
    ensures TryQueries(qs, autoSaveMinimum, autoSaveMaximum, c1) == TryQueries(qs, autoSaveMinimum, autoSaveMaximum, c2)
    decreases |qs|
  {
    if |qs| > 0 {
      TryQueriesAgree(qs[1..], autoSaveMinimum, autoSaveMaximum, c1, c2);
    }
  }

  /**
   * The thresholds reach CrossRef.org unchanged: two searches that agree for these thresholds give
   * the same metadata.
   */
  lemma ThresholdsPassedThrough(input: string, autoSaveMinimum: real, autoSaveMaximum: real,
                                arxiv: ArxivSearch, c1: CrossrefSearch, c2: CrossrefSearch)
    requires forall s :: c1(s, autoSaveMinimum, autoSaveMaximum) == c2(s, autoSaveMinimum, autoSaveMaximum)
    ensures GetMetadata(input, autoSaveMinimum, autoSaveMaximum, arxiv, c1)
         == GetMetadata(input, autoSaveMinimum, autoSaveMaximum, arxiv, c2)
  {
    var a := FromArxiv(input, arxiv);
    if a.Success? {
      TryQueriesAgree(Queries(input, a.value), autoSaveMinimum, autoSaveMaximum, c1, c2);
    }
  }

  /** Services that answer only with tidied records gather only tidied records */
  lemma TidyAnswers(input: string, autoSaveMinimum: real, autoSaveMaximum: real,
                    arxiv: ArxivSearch, crossref: CrossrefSearch)
    requires forall s :: arxiv(s).Success? ==> TidyOutsideFill(arxiv(s).value)
    requires forall s :: crossref(s, autoSaveMinimum, autoSaveMaximum).Success? ==>
      TidyOutsideFill(crossref(s, autoSaveMinimum, autoSaveMaximum).value)
    ensures var r := GetMetadata(input, autoSaveMinimum, autoSaveMaximum, arxiv, crossref);
      r.Success? ==> forall m :: m in r.value ==> TidyOutsideFill(m)
  {
    var r := GetMetadata(input, autoSaveMinimum, autoSaveMaximum, arxiv, crossref);
    if r.Success? {
      forall m | m in r.value ensures TidyOutsideFill(m) {
        if arxiv(input) != Success(m) {
          var q :| crossref(q, autoSaveMinimum, autoSaveMaximum) == Success(m);
        }
      }
    }
  }

  /** `arxiv.search` as the model of the arXiv.org lookup gives it */
  function ArxivService(fetch: string -> Result<Arxiv.Element>): ArxivSearch {
    s => Arxiv.SearchResult(s, fetch)
  }

  /** `crossref.search` as the model of the CrossRef.org lookup gives it */
  function CrossrefService(runQuery: string -> Result<JsonValue.Json>, fetch: string -> Result<JsonValue.Json>,
                           user: (string, seq<JsonValue.Json>) -> Crossref.Replies): CrossrefSearch {
    (s, a, b) => Crossref.SearchResult(s, a, b, runQuery, fetch, user)
  }

  /**
   * With the two modelled services, the records gathered are tidied, and the first is an arXiv.org
   * record whenever arXiv.org answered; only SystemExit from an interrupted prompt escapes.
   */
  lemma ModelledServices(input: string, autoSaveMinimum: real, autoSaveMaximum: real,
                         arxivFetch: string -> Result<Arxiv.Element>,
                         runQuery: string -> Result<JsonValue.Json>, fetch: string -> Result<JsonValue.Json>,
                         user: (string, seq<JsonValue.Json>) -> Crossref.Replies)
    ensures var r := GetMetadata(input, autoSaveMinimum, autoSaveMaximum,
                                 ArxivService(arxivFetch), CrossrefService(runQuery, fetch, user));
      && (r.Failure? ==> r.error == SystemExit)
      && (r.Success? ==> forall m :: m in r.value ==> TidyOutsideFill(m))
      && (r.Success? && Arxiv.SearchResult(input, arxivFetch).Success? ==> r.value[0].publisher == Arxiv.ArxivOrg)
  {
    var arxiv := ArxivService(arxivFetch);
    var crossref := CrossrefService(runQuery, fetch, user);
    assert forall s :: arxiv(s) == Arxiv.SearchResult(s, arxivFetch);
    assert forall s :: crossref(s, autoSaveMinimum, autoSaveMaximum)
                    == Crossref.SearchResult(s, autoSaveMinimum, autoSaveMaximum, runQuery, fetch, user);
    TidyAnswers(input, autoSaveMinimum, autoSaveMaximum, arxiv, crossref);
  }
}
