/**
 * metadata.py: the `Metadata` object that stores one reference, its whitespace clean-up,
 * the publisher-specific back-fill from the DOI, and the citation strings it renders.
 * The object is the class `Metadata`; `Record` is the value of its fields, and the
 * specification functions below are stated on records.
 */
module MetadataRecord {

  import opened Wrappers
  import opened Text
  import opened Author
  import Journal
  import ArxivId

  /** The values held by a `Metadata` object: thirteen text attributes and two lists of names */
  datatype Record = Record(
    doi: string, isbn: string, issn: string, url: string,
    author: seq<Person>, editor: seq<Person>,
    publisher: string, title: string, edition: string, journal: string,
    volume: string, issue: string, year: string, pageStart: string, pageEnd: string)

  /** `setDefaults`: every text attribute empty, no authors and no editors */
  const Defaults: Record := Record("", "", "", "", [], [], "", "", "", "", "", "", "", "", "")

  /** The thirteen text attributes */
  datatype Key =
    | Doi | Isbn | Issn | Url | Publisher | Title | Edition | JournalKey | Volume | Issue | Year | PageStart | PageEnd

  /** The text keys in the order `setDefaults` lists them */
  const AllKeys: seq<Key> :=
    [Doi, Isbn, Issn, Url, Publisher, Title, Edition, JournalKey, Volume, Issue, Year, PageStart, PageEnd]

  /** Where a key sits in `AllKeys`: every key is listed, once */
  function KeyIndex(k: Key): (i: nat)
    ensures i < |AllKeys| && AllKeys[i] == k
  {
    match k
    case Doi => 0
    case Isbn => 1
    case Issn => 2
    case Url => 3
    case Publisher => 4
    case Title => 5
    case Edition => 6
    case JournalKey => 7
    case Volume => 8
    case Issue => 9
    case Year => 10
    case PageStart => 11
    case PageEnd => 12
  }

  lemma {:induction false} KeyIndexOf(i: nat)
    requires i < |AllKeys|
    ensures KeyIndex(AllKeys[i]) == i
  {
  }

  /** The attribute name that `getattr`, `setattr` and the constructor's dictionary use */
  function Name(k: Key): string {
    match k
    case Doi => "doi"
    case Isbn => "isbn"
    case Issn => "issn"
    case Url => "url"
    case Publisher => "publisher"
    case Title => "title"
    case Edition => "edition"
    case JournalKey => "journal"
    case Volume => "volume"
    case Issue => "issue"
    case Year => "year"
    case PageStart => "pageStart"
    case PageEnd => "pageEnd"
  }

  /** `getattr(record, Name(k))` */
  function Get(r: Record, k: Key): string {
    match k
    case Doi => r.doi
    case Isbn => r.isbn
    case Issn => r.issn
    case Url => r.url
    case Publisher => r.publisher
    case Title => r.title
    case Edition => r.edition
    case JournalKey => r.journal
    case Volume => r.volume
    case Issue => r.issue
    case Year => r.year
    case PageStart => r.pageStart
    case PageEnd => r.pageEnd
  }

  /** `setattr(record, Name(k), v)`: that attribute becomes `v`, no other changes. */
  function With(r: Record, k: Key, v: string): (w: Record)
    ensures Get(w, k) == v
    ensures forall j :: j != k ==> Get(w, j) == Get(r, j)
    ensures w.author == r.author && w.editor == r.editor
  {
    match k
    case Doi => r.(doi := v)
    case Isbn => r.(isbn := v)
    case Issn => r.(issn := v)
    case Url => r.(url := v)
    case Publisher => r.(publisher := v)
    case Title => r.(title := v)
    case Edition => r.(edition := v)
    case JournalKey => r.(journal := v)
    case Volume => r.(volume := v)
    case Issue => r.(issue := v)
    case Year => r.(year := v)
    case PageStart => r.(pageStart := v)
    case PageEnd => r.(pageEnd := v)
  }

  /** Two records with the same attributes and names are equal. */
  lemma {:induction false} RecordExt(r: Record, s: Record)
    requires forall k :: Get(r, k) == Get(s, k)
    requires r.author == s.author && r.editor == s.editor
    ensures r == s
  {
    assert Get(r, Doi) == Get(s, Doi) && Get(r, Isbn) == Get(s, Isbn) && Get(r, Issn) == Get(s, Issn);
    assert Get(r, Url) == Get(s, Url) && Get(r, Publisher) == Get(s, Publisher) && Get(r, Title) == Get(s, Title);
    assert Get(r, Edition) == Get(s, Edition) && Get(r, JournalKey) == Get(s, JournalKey);
    assert Get(r, Volume) == Get(s, Volume) && Get(r, Issue) == Get(s, Issue) && Get(r, Year) == Get(s, Year);
    assert Get(r, PageStart) == Get(s, PageStart) && Get(r, PageEnd) == Get(s, PageEnd);
  }

  /** `d.get(key, default)` */
  function GetOr<V>(d: map<string, V>, key: string, default: V): V {
    if key in d then d[key] else default
  }

  /**
   * `Metadata(asDictionary)`: the defaults, overridden by the fifteen known keys that the
   * dictionary has. Text values and lists of names come as two maps; other keys are ignored.
   */
  function OfDictionary(texts: map<string, string>, people: map<string, seq<Person>>): (r: Record)
    ensures forall k :: Get(r, k) == (if Name(k) in texts then texts[Name(k)] else "")
    ensures r.author == (if "author" in people then people["author"] else [])
    ensures r.editor == (if "editor" in people then people["editor"] else [])
  {
    Record(GetOr(texts, "doi", ""), GetOr(texts, "isbn", ""), GetOr(texts, "issn", ""), GetOr(texts, "url", ""),
           GetOr(people, "author", []), GetOr(people, "editor", []),
           GetOr(texts, "publisher", ""), GetOr(texts, "title", ""), GetOr(texts, "edition", ""),
           GetOr(texts, "journal", ""), GetOr(texts, "volume", ""), GetOr(texts, "issue", ""),
           GetOr(texts, "year", ""), GetOr(texts, "pageStart", ""), GetOr(texts, "pageEnd", ""))
  }

  // ---------------------------------------------------------------------------------------------
  // Tidying

  /** `_tidyDict` on a name: both of its values tidied */
  function TidyPerson(p: Person): Person { Person(TidyText(p.givenName), TidyText(p.familyName)) }

  /** `_tidyList` on a list of names */
  function TidyPeople(ps: seq<Person>): seq<Person> {
    seq(|ps|, k requires 0 <= k < |ps| => TidyPerson(ps[k]))
  }

  /** The first half of `tidy`: `_tidyValue` applied to every attribute */
  function TidyFields(r: Record): Record {
    Record(TidyText(r.doi), TidyText(r.isbn), TidyText(r.issn), TidyText(r.url),
           TidyPeople(r.author), TidyPeople(r.editor),
           TidyText(r.publisher), TidyText(r.title), TidyText(r.edition), TidyText(r.journal),
           TidyText(r.volume), TidyText(r.issue), TidyText(r.year), TidyText(r.pageStart), TidyText(r.pageEnd))
  }

  predicate PersonTidy(p: Person) { IsTidy(p.givenName) && IsTidy(p.familyName) }

  /** Every text attribute and every name is free of newlines, runs of whitespace and outer whitespace. */
  predicate Tidied(r: Record) {
    (forall k :: IsTidy(Get(r, k))) &&
    (forall i :: 0 <= i < |r.author| ==> PersonTidy(r.author[i])) &&
    (forall i :: 0 <= i < |r.editor| ==> PersonTidy(r.editor[i]))
  }

  lemma {:induction false} GetTidyFields(r: Record, key: Key)
    ensures Get(TidyFields(r), key) == TidyText(Get(r, key))
  {
  }

  /** A record whose text attributes are the tidied ones of `r`, and whose names are those of `r` */
  lemma {:induction false} TidyTextsDone(r: Record, s: Record)
    requires forall k :: Get(s, k) == TidyText(Get(r, k))
    requires s.author == r.author && s.editor == r.editor
    ensures s == TidyFields(r).(author := r.author, editor := r.editor)
  {
    var goal := TidyFields(r).(author := r.author, editor := r.editor);
    forall k ensures Get(s, k) == Get(goal, k) {
      GetTidyFields(r, k);
    }
    RecordExt(s, goal);
  }

  lemma {:induction false} TidyPeopleTidy(ps: seq<Person>)
    ensures |TidyPeople(ps)| == |ps|
    ensures forall i :: 0 <= i < |ps| ==> PersonTidy(TidyPeople(ps)[i])
  {
    forall i | 0 <= i < |ps| ensures PersonTidy(TidyPeople(ps)[i]) {
      TidyTextIsTidy(ps[i].givenName);
      TidyTextIsTidy(ps[i].familyName);
    }
  }

  /** `tidy` reaches every attribute, every name in both lists and both values of each name. */
  lemma {:induction false} TidyFieldsTidied(r: Record)
    ensures Tidied(TidyFields(r))
  {
    forall k ensures IsTidy(Get(TidyFields(r), k)) {
      GetTidyFields(r, k);
      TidyTextIsTidy(Get(r, k));
    }
    TidyPeopleTidy(r.author);
    TidyPeopleTidy(r.editor);
  }

  lemma {:induction false} TidyPeopleIdempotent(ps: seq<Person>)
    ensures TidyPeople(TidyPeople(ps)) == TidyPeople(ps)
  {
    var t := TidyPeople(ps);
    forall i | 0 <= i < |ps| ensures TidyPerson(t[i]) == t[i] {
      TidyTextIdempotent(ps[i].givenName);
      TidyTextIdempotent(ps[i].familyName);
    }
  }

  /** Tidying the attributes a second time changes nothing. */
  lemma {:induction false} TidyFieldsIdempotent(r: Record)
    ensures TidyFields(TidyFields(r)) == TidyFields(r)
  {
    TidyTextIdempotent(r.doi);
    TidyTextIdempotent(r.isbn);
    TidyTextIdempotent(r.issn);
    TidyTextIdempotent(r.url);
    TidyTextIdempotent(r.publisher);
    TidyTextIdempotent(r.title);
    TidyTextIdempotent(r.edition);
    TidyTextIdempotent(r.journal);
    TidyTextIdempotent(r.volume);
    TidyTextIdempotent(r.issue);
    TidyTextIdempotent(r.year);
    TidyTextIdempotent(r.pageStart);
    TidyTextIdempotent(r.pageEnd);
    TidyPeopleIdempotent(r.author);
    TidyPeopleIdempotent(r.editor);
  }

  // ---------------------------------------------------------------------------------------------
  // Publisher back-fill

  /** `publisher.lower().replace(' ', '')` */
  function PublisherKey(publisher: string): string { RemoveChar(LowerStr(publisher), ' ') }

  predicate IsAps(r: Record) { IndexOf(PublisherKey(r.publisher), "americanphysicalsociety", 0).Some? }

  predicate IsNature(r: Record) { IndexOf(PublisherKey(r.publisher), "naturepublishing", 0).Some? }

  /** `doi.split('/')[1].split('.')`; None where `[1]` raises IndexError */
  function DoiPieces(doi: string): Option<seq<string>> {
    var ps := Split(doi, '/');
    if |ps| < 2 then None else Some(Split(ps[1], '.'))
  }

  /** Piece `n` of `DoiPieces`, or None where the indexing raises IndexError */
  function Piece(doi: string, n: nat): Option<string> {
    match DoiPieces(doi)
    case None => None
    case Some(ps) => if n < |ps| then Some(ps[n]) else None
  }

  /**
   * `_tidyForAps`: when the volume or the first page is missing and there is a DOI, fill the
   * missing ones from pieces 1 and 2 of the DOI; the first missing piece ends the back-fill.
   */
  function ApsFill(r: Record): (f: Record)
    ensures f == r.(volume := f.volume, pageStart := f.pageStart)
    ensures r.volume != "" ==> f.volume == r.volume
    ensures r.pageStart != "" ==> f.pageStart == r.pageStart
    ensures (r.volume != "" && r.pageStart != "") || r.doi == "" ==> f == r
    ensures f.volume != r.volume ==> Piece(r.doi, 1) == Some(f.volume)
    ensures f.pageStart != r.pageStart ==> Piece(r.doi, 2) == Some(f.pageStart)
    ensures r.doi != "" && Piece(r.doi, 2).Some? ==>
      f.volume == (if r.volume == "" then Piece(r.doi, 1).value else r.volume) &&
      f.pageStart == (if r.pageStart == "" then Piece(r.doi, 2).value else r.pageStart)
    ensures r.volume == "" && Piece(r.doi, 1).None? ==> f == r
    ensures r.volume == "" && r.doi != "" && Piece(r.doi, 1).Some? && Piece(r.doi, 2).None? ==>
      f == r.(volume := Piece(r.doi, 1).value)
  {
    if (r.pageStart == "" || r.volume == "") && |r.doi| > 0 && DoiPieces(r.doi).Some? then
      var parts := DoiPieces(r.doi).value;
      if r.volume == "" && |parts| < 2 then r
      else
        var v := if r.volume == "" then parts[1] else r.volume;
        if r.pageStart == "" && |parts| < 3 then r.(volume := v)
        else r.(volume := v, pageStart := if r.pageStart == "" then parts[2] else r.pageStart)
    else r
  }

  /** `/srep` first occurs at `i`, and `e` is where the piece after it ends: the next `/srep` or the end */
  predicate SrepSplit(doi: string, i: nat, e: nat) {
    i + 5 <= e <= |doi| && OccursAt(doi, "/srep", i) && (forall j: nat :: j < i ==> !OccursAt(doi, "/srep", j)) &&
    (e == |doi| || OccursAt(doi, "/srep", e)) && (forall j: nat :: i + 5 <= j < e ==> !OccursAt(doi, "/srep", j))
  }

  /** `doi.split('/srep')[1]`: the text after the first `/srep`, up to the next `/srep` or the end */
  function SrepPiece(doi: string): (p: Option<string>)
    ensures p.None? <==> forall i: nat :: !OccursAt(doi, "/srep", i)
    ensures p.Some? ==> exists i: nat, e: nat :: SrepSplit(doi, i, e) && p.value == doi[i + 5..e]
  {
    match IndexOf(doi, "/srep", 0)
    case None => None
    case Some(i) =>
      match IndexOf(doi, "/srep", i + 5)
      case None =>
        assert SrepSplit(doi, i, |doi|);
        assert doi[i + 5..] == doi[i + 5..|doi|];
        Some(doi[i + 5..])
      case Some(e) =>
        assert SrepSplit(doi, i, e);
        Some(doi[i + 5..e])
  }

  /** `_tidyForNature`: a missing first page is taken from the DOI's `/srep` piece, if there is one. */
  function NatureFill(r: Record): (f: Record)
    ensures f == r.(pageStart := f.pageStart)
    ensures r.pageStart != "" ==> f == r
    ensures r.pageStart == "" && SrepPiece(r.doi).None? ==> f == r
    ensures r.pageStart == "" && SrepPiece(r.doi).Some? ==> f.pageStart == SrepPiece(r.doi).value
  {
    if r.pageStart == "" && SrepPiece(r.doi).Some? then r.(pageStart := SrepPiece(r.doi).value) else r
  }

  /**
   * `_tidyByPublisher`: the APS back-fill for an American Physical Society publisher, else the
   * Nature back-fill for a Nature Publishing one. Only an empty volume or first page can change.
   */
  function ByPublisher(r: Record): (f: Record)
    ensures IsAps(r) ==> f == ApsFill(r)
    ensures !IsAps(r) && IsNature(r) ==> f == NatureFill(r)
    ensures !IsAps(r) && !IsNature(r) ==> f == r
    ensures f == r.(volume := f.volume, pageStart := f.pageStart)
    ensures r.volume != "" ==> f.volume == r.volume
    ensures r.pageStart != "" ==> f.pageStart == r.pageStart
  {
    if IsAps(r) then ApsFill(r) else if IsNature(r) then NatureFill(r) else r
  }

  /** `tidy`: every attribute tidied, then the publisher back-fill */
  /**
   * `tidy`: every attribute and name tidied, then the publisher back-fill, which writes only the
   * volume and the first page, and only where tidying left them empty.
   */
  function TidyRecord(r: Record): (t: Record)
    ensures t == TidyFields(r).(volume := t.volume, pageStart := t.pageStart)
    ensures t.author == TidyPeople(r.author) && t.editor == TidyPeople(r.editor)
    ensures TidyText(r.volume) != "" ==> t.volume == TidyText(r.volume)
    ensures TidyText(r.pageStart) != "" ==> t.pageStart == TidyText(r.pageStart)
  {
    ByPublisher(TidyFields(r))
  }

  /**
   * What one of a provider's mappers leaves: the record, and whether every value it stored is
   * text. Python stores whatever the provider's answer holds; a stored number or None makes the
   * later `tidy` raise AttributeError, so such a value is recorded here instead of being stored.
   */
  datatype Saved = Saved(record: Record, text: bool)

  /** Running the APS back-fill twice fills nothing more. */
  lemma {:induction false} ApsFillIdempotent(r: Record)
    ensures ApsFill(ApsFill(r)) == ApsFill(r)
  {
  }

  lemma {:induction false} NatureFillIdempotent(r: Record)
    ensures NatureFill(NatureFill(r)) == NatureFill(r)
  {
  }

  /** The back-fill never changes the publisher, so a second run takes the same branch and fills nothing more. */
  lemma {:induction false} ByPublisherIdempotent(r: Record)
    ensures ByPublisher(ByPublisher(r)) == ByPublisher(r)
  {
    var f := ByPublisher(r);
    assert f.publisher == r.publisher;
    if IsAps(r) {
      ApsFillIdempotent(r);
    } else if IsNature(r) {
      NatureFillIdempotent(r);
    }
  }

  /** The attributes that the publisher back-fill never writes are tidy. */
  predicate TidyOutsideFill(t: Record) {
    IsTidy(t.doi) && IsTidy(t.isbn) && IsTidy(t.issn) && IsTidy(t.url) && IsTidy(t.publisher) &&
    IsTidy(t.title) && IsTidy(t.edition) && IsTidy(t.journal) && IsTidy(t.issue) && IsTidy(t.year) &&
    IsTidy(t.pageEnd) &&
    (forall i :: 0 <= i < |t.author| ==> PersonTidy(t.author[i])) &&
    (forall i :: 0 <= i < |t.editor| ==> PersonTidy(t.editor[i]))
  }

  lemma {:induction false} ByPublisherOutsideFill(f: Record)
    requires TidyOutsideFill(f)
    ensures TidyOutsideFill(ByPublisher(f))
  {
    var t := ByPublisher(f);
    assert t == f.(volume := t.volume, pageStart := t.pageStart);
  }

  /** The back-fill keeps the volume and the first page, or fills an empty one from the DOI. */
  lemma {:induction false} ByPublisherFills(f: Record)
    ensures ByPublisher(f).volume == f.volume || (f.volume == "" && Some(ByPublisher(f).volume) == Piece(f.doi, 1))
    ensures ByPublisher(f).pageStart == f.pageStart ||
      (f.pageStart == "" && (Some(ByPublisher(f).pageStart) == Piece(f.doi, 2) ||
                             Some(ByPublisher(f).pageStart) == SrepPiece(f.doi)))
  {
    if IsAps(f) {
      assert ByPublisher(f) == ApsFill(f);
    } else if IsNature(f) {
      assert ByPublisher(f) == NatureFill(f);
    }
  }

  /**
   * After `tidy` every attribute but the volume and the first page is tidy; those two keep
   * their tidied value unless it was empty and the back-fill took a piece of the DOI.
   */
  lemma {:induction false} TidyRecordTidied(r: Record)
    ensures TidyOutsideFill(TidyRecord(r))
    ensures TidyRecord(r).volume == TidyText(r.volume) ||
      (TidyText(r.volume) == "" && Some(TidyRecord(r).volume) == Piece(TidyText(r.doi), 1))
    ensures TidyRecord(r).pageStart == TidyText(r.pageStart) ||
      (TidyText(r.pageStart) == "" && (Some(TidyRecord(r).pageStart) == Piece(TidyText(r.doi), 2) ||
                                       Some(TidyRecord(r).pageStart) == SrepPiece(TidyText(r.doi))))
  {
    var f := TidyFields(r);
    TidyFieldsOutside(r);
    ByPublisherOutsideFill(f);
    ByPublisherFills(f);
  }

  lemma {:induction false} TidyFieldsOutside(r: Record)
    ensures TidyOutsideFill(TidyFields(r))
  {
    TidyTextIsTidy(r.doi);
    TidyTextIsTidy(r.isbn);
    TidyTextIsTidy(r.issn);
    TidyTextIsTidy(r.url);
    TidyTextIsTidy(r.publisher);
    TidyTextIsTidy(r.title);
    TidyTextIsTidy(r.edition);
    TidyTextIsTidy(r.journal);
    TidyTextIsTidy(r.issue);
    TidyTextIsTidy(r.year);
    TidyTextIsTidy(r.pageEnd);
    TidyPeopleTidy(r.author);
    TidyPeopleTidy(r.editor);
  }

  /** A DOI that splits as `a/b. 1.2` yields the pieces `b`, ` 1` and `2`. */
  lemma {:induction false} SpacedDoiPieces(doi: string)
    requires doi == "a/b. 1.2"
    ensures Piece(doi, 1) == Some(" 1") && Piece(doi, 2) == Some("2")
  {
    var x := "b. 1.2";
    assert Split(doi, '/') == ["a", x] by {
      assert doi == "a" + ['/'] + x;
      SplitTwo("a", x, '/');
    }
    assert Split(x, '.') == ["b", " 1", "2"] by {
      assert x == "b" + ['.'] + (" 1" + ['.'] + "2");
      SplitThree("b", " 1", "2", '.');
    }
  }

  lemma {:induction false} SplitTwo(a: string, b: string, sep: char)
    requires sep !in a && sep !in b
    ensures Split(a + [sep] + b, sep) == [a, b]
  {
    SplitCons(a, b, sep);
    SplitFree(b, sep);
  }

  lemma {:induction false} SplitThree(a: string, b: string, c: string, sep: char)
    requires sep !in a && sep !in b && sep !in c
    ensures Split(a + [sep] + (b + [sep] + c), sep) == [a, b, c]
  {
    SplitCons(a, b + [sep] + c, sep);
    SplitTwo(b, c, sep);
  }

  /** Tidying leaves a single word alone. */
  lemma {:induction false} TidyWord(w: string)
    requires IsWord(w)
    ensures TidyText(w) == w
  {
    assert Join([w], " ") == w;
    TidyTextOfWords([w]);
  }

  lemma {:induction false} TidyEmpty()
    ensures TidyText("") == ""
  {
    assert Join([], " ") == "";
    TidyTextOfWords([]);
  }

  lemma {:induction false} TidySpacedDoi(doi: string)
    requires doi == "a/b. 1.2"
    ensures TidyText(doi) == doi
  {
    assert Join(["a/b.", "1.2"], " ") == doi;
    TidyTextOfWords(["a/b.", "1.2"]);
  }

  lemma {:induction false} TidyLeadingSpace(v: string)
    requires v == " 1"
    ensures TidyText(v) == "1"
  {
    TidyTextWords(v);
    assert v == "" + [' '] + "1";
    SplitWsAtSpace("", ' ', "1");
    SplitWsOfWord("1");
    assert SplitWs("") == [];
  }

  lemma {:induction false} ApsPublisher(p: string)
    requires p == "americanphysicalsociety"
    ensures PublisherKey(p) == p && IndexOf(p, "americanphysicalsociety", 0) == Some(0)
  {
    assert All(p, NotUpper) && ' ' !in p;
    KeyOfKey(p);
  }

  /** A lower-case publisher without spaces is its own key and contains itself at index 0. */
  lemma {:induction false} KeyOfKey(p: string)
    requires All(p, NotUpper) && ' ' !in p && |p| > 0
    ensures PublisherKey(p) == p && IndexOf(p, p, 0) == Some(0)
  {
    LowerStrOfLower(p);
    RemoveCharAbsent(p, ' ');
    assert p[0..|p|] == p;
  }

  /** A record whose text attributes are all left alone by tidying, with no names, is its own tidy form. */
  lemma {:induction false} TidyFieldsFixed(r: Record, e: string)
    requires TidyText(e) == e && TidyText(r.doi) == r.doi && TidyText(r.publisher) == r.publisher
    requires r.isbn == r.issn == r.url == r.title == r.edition == r.journal == e
    requires r.volume == r.issue == r.year == r.pageStart == r.pageEnd == e
    requires r.author == r.editor == []
    ensures TidyFields(r) == r
  {
  }

  lemma {:induction false} ApsFillBoth(f: Record, v: string, p: string)
    requires f.doi != "" && f.volume == "" && f.pageStart == ""
    requires Piece(f.doi, 1) == Some(v) && Piece(f.doi, 2) == Some(p)
    ensures ApsFill(f) == f.(volume := v, pageStart := p)
  {
  }

  /** The record of `TidyRecordNotIdempotent`: an APS publisher and the DOI `a/b. 1.2` */
  predicate ApsExample(r: Record) {
    r.publisher == "americanphysicalsociety" && r.doi == "a/b. 1.2" &&
    r.isbn == r.issn == r.url == r.title == r.edition == r.journal == "" &&
    r.volume == r.issue == r.year == r.pageStart == r.pageEnd == "" &&
    r.author == r.editor == []
  }

  lemma {:induction false} ApsExampleTidy(r: Record)
    requires ApsExample(r)
    ensures TidyFields(r) == r
  {
    TidyWord(r.publisher);
    TidySpacedDoi(r.doi);
    TidyEmpty();
    TidyFieldsFixed(r, "");
  }

  lemma {:induction false} ApsExampleIsAps(r: Record)
    requires ApsExample(r)
    ensures IsAps(r)
  {
    ApsPublisher(r.publisher);
  }

  lemma {:induction false} ApsExamplePieces(r: Record)
    requires ApsExample(r)
    ensures r.doi != "" && r.volume == "" && r.pageStart == ""
    ensures Piece(r.doi, 1) == Some(" 1") && Piece(r.doi, 2) == Some("2")
  {
    SpacedDoiPieces(r.doi);
  }

  /** The first `tidy` of the example record back-fills volume ` 1` and first page `2`. */
  lemma {:induction false} ApsExampleOnce(r: Record)
    requires ApsExample(r)
    ensures TidyRecord(r) == r.(volume := " 1", pageStart := "2")
  {
    assert TidyFields(r) == r by { ApsExampleTidy(r); }
    assert IsAps(r) by { ApsExampleIsAps(r); }
    assert ApsFill(r) == r.(volume := " 1", pageStart := "2") by {
      ApsExamplePieces(r);
      ApsFillBoth(r, " 1", "2");
    }
    TidyRecordOfAps(r, r.(volume := " 1", pageStart := "2"));
  }

  lemma {:induction false} TidyRecordOfAps(r: Record, f: Record)
    requires TidyFields(r) == r && IsAps(r) && ApsFill(r) == f
    ensures TidyRecord(r) == f
  {
  }

  /** A second `tidy` trims the volume and back-fills nothing, since nothing is empty any more. */
  lemma {:induction false} ApsExampleTwice(t: Record)
    requires t == Defaults.(publisher := "americanphysicalsociety", doi := "a/b. 1.2", volume := " 1", pageStart := "2")
    ensures TidyRecord(t).volume == "1"
  {
    TidyLeadingSpace(t.volume);
    var g := TidyFields(t);
    assert g.volume == "1";
    assert ByPublisher(g).volume == g.volume;
  }

  /**
   * `tidy` is not idempotent: an APS record whose DOI has a space after a dot back-fills the
   * untidy volume ` 1`, which a second `tidy` changes to `1`.
   */
  lemma {:induction false} TidyRecordNotIdempotent(r: Record)
    requires ApsExample(r)
    ensures TidyRecord(r).volume == " 1" && TidyRecord(r).pageStart == "2"
    ensures TidyRecord(TidyRecord(r)).volume == "1"
  {
    ApsExampleOnce(r);
    ApsExampleTwice(TidyRecord(r));
  }

  // ---------------------------------------------------------------------------------------------
  // Rendering

  /** `_getPagesAsString` */
  function PagesAsString(r: Record, firstPageOnly: bool): (s: string)
    ensures firstPageOnly && r.pageStart != "" ==> s == r.pageStart
    ensures !firstPageOnly && r.pageStart != "" && r.pageEnd != "" ==> s == r.pageStart + "-" + r.pageEnd
    ensures r.pageStart != "" && r.pageEnd == "" ==> s == r.pageStart
    ensures r.pageStart == "" ==> s == r.pageEnd
    ensures s == "" <==> r.pageStart == "" && r.pageEnd == ""
  {
    if firstPageOnly && |r.pageStart| > 0 then r.pageStart
    else if |r.pageStart| > 0 && |r.pageEnd| > 0 then r.pageStart + "-" + r.pageEnd
    else if |r.pageStart| > 0 then r.pageStart
    else if |r.pageEnd| > 0 then r.pageEnd
    else ""
  }

  /** `formatName` applied to one stored name */
  function FormatPerson(p: Person, abbreviate: bool, familyNameFirst: bool): string {
    FormatName(p.givenName, p.familyName, abbreviate, familyNameFirst)
  }

  /** Whether `_formatNameString` stops early: `maxAuthors` above one and fewer than the names */
  predicate Truncates(count: nat, maxAuthors: int) { 1 < maxAuthors < count }

  /**
   * The entries `_formatNameString` joins: every name formatted, or, when it truncates, the first
   * `maxAuthors - 1` names and then `et al.`.
   */
  function NameEntries(names: seq<Person>, maxAuthors: int, abbreviate: bool, familyNameFirst: bool): (es: seq<string>)
    ensures Truncates(|names|, maxAuthors) ==> |es| == maxAuthors && es[maxAuthors - 1] == "et al."
    ensures !Truncates(|names|, maxAuthors) ==> |es| == |names|
    ensures forall k :: 0 <= k < |es| && !(Truncates(|names|, maxAuthors) && k == maxAuthors - 1) ==>
      es[k] == FormatPerson(names[k], abbreviate, familyNameFirst)
  {
    var n := if Truncates(|names|, maxAuthors) then maxAuthors - 1 else |names|;
    var fs := FormattedNames(names, n, abbreviate, familyNameFirst);
    if Truncates(|names|, maxAuthors) then fs + ["et al."] else fs
  }

  /** The first `n` names, formatted */
  function FormattedNames(names: seq<Person>, n: nat, abbreviate: bool, familyNameFirst: bool): (fs: seq<string>)
    requires n <= |names|
    ensures |fs| == n
    ensures forall k :: 0 <= k < n ==> fs[k] == FormatPerson(names[k], abbreviate, familyNameFirst)
  {
    seq(n, k requires 0 <= k < n => FormatPerson(names[k], abbreviate, familyNameFirst))
  }

  lemma {:induction false} FormattedNamesNext(names: seq<Person>, n: nat, abbreviate: bool, familyNameFirst: bool)
    requires n < |names|
    ensures FormattedNames(names, n + 1, abbreviate, familyNameFirst) ==
            FormattedNames(names, n, abbreviate, familyNameFirst) + [FormatPerson(names[n], abbreviate, familyNameFirst)]
  {
    var a := FormattedNames(names, n + 1, abbreviate, familyNameFirst);
    var b := FormattedNames(names, n, abbreviate, familyNameFirst) + [FormatPerson(names[n], abbreviate, familyNameFirst)];
    assert |a| == |b|;
    forall k | 0 <= k < |a| ensures a[k] == b[k] {
      if k < n {
        assert b[k] == FormattedNames(names, n, abbreviate, familyNameFirst)[k];
      }
    }
  }

  /** `_formatNameString`: the entries joined with `, ` */
  function NameString(names: seq<Person>, maxAuthors: int, abbreviate: bool, familyNameFirst: bool): (s: string)
    ensures |names| == 0 ==> s == ""
  {
    Join(NameEntries(names, maxAuthors, abbreviate, familyNameFirst), ", ")
  }

  /**
   * The name string starts with the first entry, the first name formatted, and ends with the
   * last entry: `et al.` when it truncates, the last name formatted otherwise.
   */
  lemma {:induction false} NameStringEnds(names: seq<Person>, maxAuthors: int, abbreviate: bool, familyNameFirst: bool)
    requires |names| > 0
    ensures var es := NameEntries(names, maxAuthors, abbreviate, familyNameFirst);
      var s := NameString(names, maxAuthors, abbreviate, familyNameFirst);
      |es| > 0 && StartsWith(s, es[0]) && EndsWith(s, es[|es| - 1])
  {
    NameStringJoinEnds(NameEntries(names, maxAuthors, abbreviate, familyNameFirst));
  }

  /** Entries joined with `, ` start with the first and end with the last */
  lemma NameStringJoinEnds(es: seq<string>)
    requires |es| > 0
    ensures StartsWith(Join(es, ", "), es[0]) && EndsWith(Join(es, ", "), es[|es| - 1])
  {
    JoinFirst(es, ", ");
    JoinLast(es, ", ");
  }

  /** `_getAuthorsAsString`: one entry, the authors' names and a comma; none without authors */
  function AuthorsAsString(r: Record, maxAuthors: int, abbreviate: bool, familyNameFirst: bool): (es: seq<string>)
    ensures |r.author| == 0 ==> es == []
    ensures |r.author| > 0 ==> es == [NameString(r.author, maxAuthors, abbreviate, familyNameFirst) + ","]
  {
    if |r.author| > 0 then [NameString(r.author, maxAuthors, abbreviate, familyNameFirst) + ","] else []
  }

  /** `_getEditorsAsString`: the names, then ` (Ed.),` for a single editor and ` (Eds.),` for several */
  function EditorsAsString(r: Record, maxAuthors: int, abbreviate: bool, familyNameFirst: bool): (es: seq<string>)
    ensures |r.editor| == 0 ==> es == []
    ensures |r.editor| == 1 ==> es == [NameString(r.editor, maxAuthors, abbreviate, familyNameFirst) + " (Ed.),"]
    ensures |r.editor| > 1 ==> es == [NameString(r.editor, maxAuthors, abbreviate, familyNameFirst) + " (Eds.),"]
  {
    if |r.editor| > 0 then
      var s := NameString(r.editor, maxAuthors, abbreviate, familyNameFirst);
      [if |r.editor| == 1 then s + " (Ed.)," else s + " (Eds.),"]
    else []
  }

  function IfSome(c: bool, s: string): seq<string> { if c then [s] else [] }

  function YearEntry(r: Record): seq<string> { IfSome(|r.year| > 0, "(" + r.year + ")") }

  /** The journal name `_journalToString` prints: abbreviated through the journal tables, or as stored */
  function JournalName(t: Journal.Tables, r: Record, abbreviateJournal: bool): string {
    if abbreviateJournal then Journal.GetAbbreviation(t, r.journal) else r.journal
  }

  /** The words `_journalToString` joins with spaces, before the year */
  function JournalEntries(r: Record, journalName: string, maxAuthors: int, abbreviateNames: bool,
                          familyNameFirst: bool, forceTitle: bool, firstPageOnly: bool): (es: seq<string>)
    ensures |es| <= 5
    ensures |r.author| > 0 ==> |es| > 0 && es[0] == NameString(r.author, maxAuthors, abbreviateNames, familyNameFirst) + ","
    ensures |r.journal| > 0 ==> journalName in es
    ensures |PagesAsString(r, firstPageOnly)| > 0 ==> |es| > 0 && es[|es| - 1] == PagesAsString(r, firstPageOnly)
  {
    var pages := PagesAsString(r, firstPageOnly);
    AuthorsAsString(r, maxAuthors, abbreviateNames, familyNameFirst) +
    IfSome(forceTitle && |r.title| > 0, r.title + ",") +
    IfSome(|r.journal| > 0, journalName) +
    IfSome(|r.volume| > 0, r.volume + ",") +
    IfSome(|pages| > 0, pages)
  }

  /** The words `_arxivToString` joins with spaces, before the year */
  function ArxivEntries(r: Record, identifier: string, maxAuthors: int, abbreviateNames: bool,
                        familyNameFirst: bool, forceTitle: bool): (es: seq<string>)
    ensures 1 <= |es| <= 3 && es[|es| - 1] == "arXiv:" + identifier
    ensures |r.author| > 0 ==> es[0] == NameString(r.author, maxAuthors, abbreviateNames, familyNameFirst) + ","
    ensures forceTitle && |r.title| > 0 ==> r.title + "," in es
  {
    AuthorsAsString(r, maxAuthors, abbreviateNames, familyNameFirst) +
    IfSome(forceTitle && |r.title| > 0, r.title + ",") +
    ["arXiv:" + identifier]
  }

  /** The words `_anyToString` joins with spaces before the year: authors (or else editors), title, editors, publisher */
  function AnyEntries(r: Record, maxAuthors: int, abbreviateNames: bool, familyNameFirst: bool): (es: seq<string>)
    ensures |r.author| > 0 ==> |es| > 0 && es[0] == NameString(r.author, maxAuthors, abbreviateNames, familyNameFirst) + ","
    ensures |r.author| == 0 && |r.editor| > 0 ==> |es| > 0 && es[0] == EditorsAsString(r, maxAuthors, abbreviateNames, familyNameFirst)[0]
    ensures |r.publisher| > 0 ==> |es| > 0 && es[|es| - 1] == r.publisher
    ensures |r.author| == 0 && |r.editor| == 0 && |r.title| == 0 && |r.publisher| == 0 ==> es == []
  {
    (if |r.author| > 0 then AuthorsAsString(r, maxAuthors, abbreviateNames, familyNameFirst)
     else if |r.editor| > 0 then EditorsAsString(r, maxAuthors, abbreviateNames, familyNameFirst)
     else []) +
    IfSome(|r.title| > 0, r.title + ",") +
    (if |r.author| > 0 && |r.editor| > 0 then EditorsAsString(r, maxAuthors, abbreviateNames, familyNameFirst) else []) +
    IfSome(|r.publisher| > 0, r.publisher)
  }

  /**
   * The style `toReferenceString` picks, given the printed journal name and the outcome of
   * `arxivid.extract` on the URL: journal, else arXiv when an identifier was found, else generic.
   */
  function StyleEntries(r: Record, journalName: string, arxiv: Result<string>, maxAuthors: int,
                        abbreviateNames: bool, familyNameFirst: bool, forceTitle: bool,
                        firstPageOnly: bool): (es: seq<string>)
    ensures |r.journal| > 0 ==>
      es == JournalEntries(r, journalName, maxAuthors, abbreviateNames, familyNameFirst, forceTitle, firstPageOnly)
    ensures |r.journal| == 0 && arxiv.Success? ==>
      es == ArxivEntries(r, arxiv.value, maxAuthors, abbreviateNames, familyNameFirst, forceTitle)
    ensures |r.journal| == 0 && arxiv.Failure? ==>
      es == AnyEntries(r, maxAuthors, abbreviateNames, familyNameFirst)
  {
    if |r.journal| > 0 then
      JournalEntries(r, journalName, maxAuthors, abbreviateNames, familyNameFirst, forceTitle, firstPageOnly)
    else
      match arxiv
      case Success(identifier) =>
        ArxivEntries(r, identifier, maxAuthors, abbreviateNames, familyNameFirst, forceTitle)
      case Failure(_) =>
        AnyEntries(r, maxAuthors, abbreviateNames, familyNameFirst)
  }

  /** The words of `toReferenceString`: every style ends with the year in parentheses, when there is one */
  function ReferenceEntries(t: Journal.Tables, r: Record, maxAuthors: int, abbreviateJournal: bool,
                            abbreviateNames: bool, familyNameFirst: bool, forceTitle: bool,
                            firstPageOnly: bool): seq<string>
  {
    StyleEntries(r, JournalName(t, r, abbreviateJournal), ArxivId.Extract(r.url), maxAuthors, abbreviateNames,
                 familyNameFirst, forceTitle, firstPageOnly) + YearEntry(r)
  }

  /** `toReferenceString`; the journal tables stand for the pickled dictionaries of the journal formatter */
  function ReferenceString(t: Journal.Tables, r: Record, maxAuthors: int, abbreviateJournal: bool,
                           abbreviateNames: bool, familyNameFirst: bool, forceTitle: bool, firstPageOnly: bool): (s: string)
    ensures |r.journal| > 0 ==>
      s == Join(JournalEntries(r, JournalName(t, r, abbreviateJournal), maxAuthors, abbreviateNames, familyNameFirst,
                               forceTitle, firstPageOnly) + YearEntry(r), " ")
    ensures |r.journal| == 0 && ArxivId.Extract(r.url).Success? ==>
      s == Join(ArxivEntries(r, ArxivId.Extract(r.url).value, maxAuthors, abbreviateNames, familyNameFirst, forceTitle)
                + YearEntry(r), " ")
    ensures |r.journal| == 0 && ArxivId.Extract(r.url).Failure? ==>
      s == Join(AnyEntries(r, maxAuthors, abbreviateNames, familyNameFirst) + YearEntry(r), " ")
  {
    Join(ReferenceEntries(t, r, maxAuthors, abbreviateJournal, abbreviateNames, familyNameFirst, forceTitle, firstPageOnly), " ")
  }

  lemma {:induction false} JoinEndsWithLast(xs: seq<string>, y: string, sep: string)
    ensures EndsWith(Join(xs + [y], sep), y)
  {
    JoinLast(xs + [y], sep);
  }

  lemma {:induction false} JoinStartsWithFirst(es: seq<string>, n: string, sep: string)
    requires |es| > 0 && StartsWith(es[0], n)
    ensures StartsWith(Join(es, sep), n)
  {
    JoinFirst(es, sep);
    var j := Join(es, sep);
    assert j[..|es[0]|] == es[0];
    assert j[..|n|] == es[0][..|n|];
  }

  /** Every style ends with the year in parentheses when there is one. */
  lemma {:induction false} ReferenceStringEndsWithYear(t: Journal.Tables, r: Record, maxAuthors: int,
                                                       abbreviateJournal: bool, abbreviateNames: bool,
                                                       familyNameFirst: bool, forceTitle: bool, firstPageOnly: bool)
    requires |r.year| > 0
    ensures EndsWith(ReferenceString(t, r, maxAuthors, abbreviateJournal, abbreviateNames, familyNameFirst,
                                     forceTitle, firstPageOnly), "(" + r.year + ")")
  {
    var style := StyleEntries(r, JournalName(t, r, abbreviateJournal), ArxivId.Extract(r.url), maxAuthors,
                              abbreviateNames, familyNameFirst, forceTitle, firstPageOnly);
    assert YearEntry(r) == ["(" + r.year + ")"];
    JoinEndsWithLast(style, "(" + r.year + ")", " ");
  }

  /** The names a reference starts with: the authors, or else the editors */
  function LeadNames(r: Record, maxAuthors: int, abbreviateNames: bool, familyNameFirst: bool): string {
    NameString(if |r.author| > 0 then r.author else r.editor, maxAuthors, abbreviateNames, familyNameFirst)
  }

  /** With authors every style's first entry starts with them; without, the generic style's starts with the editors. */
  lemma {:induction false} StyleEntriesStartWithNames(r: Record, journalName: string, arxiv: Result<string>,
                                                      maxAuthors: int, abbreviateNames: bool, familyNameFirst: bool,
                                                      forceTitle: bool, firstPageOnly: bool)
    requires |r.author| > 0 || (|r.journal| == 0 && arxiv.Failure? && |r.editor| > 0)
    ensures var es := StyleEntries(r, journalName, arxiv, maxAuthors, abbreviateNames, familyNameFirst,
                                   forceTitle, firstPageOnly);
            |es| > 0 && StartsWith(es[0], LeadNames(r, maxAuthors, abbreviateNames, familyNameFirst))
  {
    var n := LeadNames(r, maxAuthors, abbreviateNames, familyNameFirst);
    if |r.author| > 0 {
      assert AuthorsAsString(r, maxAuthors, abbreviateNames, familyNameFirst) == [n + ","];
    } else {
      assert EditorsAsString(r, maxAuthors, abbreviateNames, familyNameFirst)[0][..|n|] == n;
    }
  }

  /** With authors, every style starts with them; without, the generic style starts with the editors. */
  lemma {:induction false} ReferenceStringStartsWithNames(t: Journal.Tables, r: Record, maxAuthors: int,
                                                          abbreviateJournal: bool, abbreviateNames: bool,
                                                          familyNameFirst: bool, forceTitle: bool, firstPageOnly: bool)
    requires |r.author| > 0 || (|r.journal| == 0 && ArxivId.Extract(r.url).Failure? && |r.editor| > 0)
    ensures StartsWith(ReferenceString(t, r, maxAuthors, abbreviateJournal, abbreviateNames, familyNameFirst,
                                       forceTitle, firstPageOnly),
                       LeadNames(r, maxAuthors, abbreviateNames, familyNameFirst))
  {
    var style := StyleEntries(r, JournalName(t, r, abbreviateJournal), ArxivId.Extract(r.url), maxAuthors,
                              abbreviateNames, familyNameFirst, forceTitle, firstPageOnly);
    StyleEntriesStartWithNames(r, JournalName(t, r, abbreviateJournal), ArxivId.Extract(r.url), maxAuthors,
                               abbreviateNames, familyNameFirst, forceTitle, firstPageOnly);
    var es := style + YearEntry(r);
    assert es[0] == style[0];
    JoinStartsWithFirst(es, LeadNames(r, maxAuthors, abbreviateNames, familyNameFirst), " ");
  }

  /** `_addValueToList`: a non-empty value is appended */
  function AddValue(values: seq<string>, v: string): seq<string> { if |v| > 0 then values + [v] else values }

  /** `_addNamesToList`: one `given family` entry per name */
  function NameValues(names: seq<Person>): seq<string> {
    seq(|names|, k requires 0 <= k < |names| => names[k].givenName + " " + names[k].familyName)
  }

  /** The entries `toUnformattedString` joins: eleven attributes, the names, then the pages */
  function UnformattedEntries(r: Record): seq<string> {
    AddValue(UnformattedAttributes(r) + NameValues(r.author) + NameValues(r.editor), PagesAsString(r, false))
  }

  /** The non-empty attributes among the eleven, in order */
  function UnformattedAttributes(r: Record): seq<string> {
    AddValue(AddValue(AddValue(AddValue(AddValue(AddValue(AddValue(AddValue(AddValue(AddValue(AddValue(
      [], r.doi), r.isbn), r.issn), r.url), r.publisher), r.title), r.edition), r.journal), r.volume),
      r.issue), r.year)
  }

  /** The same attributes, read through `getattr` */
  lemma {:induction false} UnformattedAttributesByKey(r: Record)
    ensures UnformattedAttributes(r) ==
      AddValue(AddValue(AddValue(AddValue(AddValue(AddValue(AddValue(AddValue(AddValue(AddValue(AddValue(
        [], Get(r, Doi)), Get(r, Isbn)), Get(r, Issn)), Get(r, Url)), Get(r, Publisher)), Get(r, Title)),
        Get(r, Edition)), Get(r, JournalKey)), Get(r, Volume)), Get(r, Issue)), Get(r, Year))
  {
  }

  /** `toUnformattedString`: empty exactly when the record has no attribute, name or page to list */
  function UnformattedString(r: Record): (s: string)
    ensures |s| == 0 <==>
      (forall i :: 0 <= i < |UnformattedValues(r)| ==> UnformattedValues(r)[i] == "") &&
      |r.author| == 0 && |r.editor| == 0 && PagesAsString(r, false) == ""
  {
    UnformattedEmpty(r);
    Join(UnformattedEntries(r), ", ")
  }

  /** The joined entries are empty exactly when there is nothing to list */
  lemma {:induction false} UnformattedEmpty(r: Record)
    ensures |Join(UnformattedEntries(r), ", ")| == 0 <==>
      (forall i :: 0 <= i < |UnformattedValues(r)| ==> UnformattedValues(r)[i] == "") &&
      |r.author| == 0 && |r.editor| == 0 && PagesAsString(r, false) == ""
  {
    var es := UnformattedEntries(r);
    UnformattedEntriesComplete(r);
    JoinEmpty(es, ", ");
    if (forall i :: 0 <= i < |UnformattedValues(r)| ==> UnformattedValues(r)[i] == "") &&
       |r.author| == 0 && |r.editor| == 0 && PagesAsString(r, false) == "" {
      var us := UnformattedValues(r);
      assert us[0] == r.doi && us[1] == r.isbn && us[2] == r.issn && us[3] == r.url && us[4] == r.publisher;
      assert us[5] == r.title && us[6] == r.edition && us[7] == r.journal && us[8] == r.volume;
      assert us[9] == r.issue && us[10] == r.year;
      assert UnformattedAttributes(r) == [];
      assert NameValues(r.author) == [] && NameValues(r.editor) == [];
    } else if exists i :: 0 <= i < |UnformattedValues(r)| && UnformattedValues(r)[i] != "" {
      var i :| 0 <= i < |UnformattedValues(r)| && UnformattedValues(r)[i] != "";
      assert UnformattedValues(r)[i] in es;
    } else if |r.author| > 0 {
      assert r.author[0].givenName + " " + r.author[0].familyName in es;
    } else if |r.editor| > 0 {
      assert r.editor[0].givenName + " " + r.editor[0].familyName in es;
    }
    if |es| > 0 {
      assert |es[0]| > 0;
    }
  }

  /** The attributes `toUnformattedString` adds, in order */
  function UnformattedValues(r: Record): seq<string> {
    [r.doi, r.isbn, r.issn, r.url, r.publisher, r.title, r.edition, r.journal, r.volume, r.issue, r.year]
  }

  /** `es` lists no empty entry and every non-empty value of `vs` */
  predicate Covers(es: seq<string>, vs: seq<string>) {
    (forall i :: 0 <= i < |es| ==> |es[i]| > 0) && (forall i :: 0 <= i < |vs| && |vs[i]| > 0 ==> vs[i] in es)
  }

  lemma {:induction false} AddValueCovers(es: seq<string>, vs: seq<string>, v: string)
    requires Covers(es, vs)
    ensures Covers(AddValue(es, v), vs + [v])
  {
    var e := AddValue(es, v);
    forall i | 0 <= i < |vs| + 1 && |(vs + [v])[i]| > 0 ensures (vs + [v])[i] in e {
      if i < |vs| {
        assert vs[i] in es;
      }
    }
  }

  /** The eleven attributes, added in order, are covered */
  lemma {:induction false} AttributeEntriesCover(r: Record)
    ensures Covers(UnformattedAttributes(r), UnformattedValues(r))
  {
    var doi, isbn, issn, url, publisher, title := r.doi, r.isbn, r.issn, r.url, r.publisher, r.title;
    var edition, journal, volume, issue, year := r.edition, r.journal, r.volume, r.issue, r.year;
    var e0: seq<string> := [];
    var e1 := AddValue(e0, doi);
    var e2 := AddValue(e1, isbn);
    var e3 := AddValue(e2, issn);
    var e4 := AddValue(e3, url);
    var e5 := AddValue(e4, publisher);
    var e6 := AddValue(e5, title);
    var e7 := AddValue(e6, edition);
    var e8 := AddValue(e7, journal);
    var e9 := AddValue(e8, volume);
    var e10 := AddValue(e9, issue);
    var e11 := AddValue(e10, year);
    assert Covers(e1, [doi]) by {
      AddValueCovers(e0, [], doi);
    }
    assert Covers(e2, [doi, isbn]) by {
      AddValueCovers(e1, [doi], isbn);
    }
    assert Covers(e3, [doi, isbn, issn]) by {
      AddValueCovers(e2, [doi, isbn], issn);
    }
    assert Covers(e4, [doi, isbn, issn, url]) by {
      AddValueCovers(e3, [doi, isbn, issn], url);
    }
    assert Covers(e5, [doi, isbn, issn, url, publisher]) by {
      AddValueCovers(e4, [doi, isbn, issn, url], publisher);
    }
    assert Covers(e6, [doi, isbn, issn, url, publisher, title]) by {
      AddValueCovers(e5, [doi, isbn, issn, url, publisher], title);
    }
    assert Covers(e7, [doi, isbn, issn, url, publisher, title, edition]) by {
      AddValueCovers(e6, [doi, isbn, issn, url, publisher, title], edition);
    }
    assert Covers(e8, [doi, isbn, issn, url, publisher, title, edition, journal]) by {
      AddValueCovers(e7, [doi, isbn, issn, url, publisher, title, edition], journal);
    }
    assert Covers(e9, [doi, isbn, issn, url, publisher, title, edition, journal, volume]) by {
      AddValueCovers(e8, [doi, isbn, issn, url, publisher, title, edition, journal], volume);
    }
    assert Covers(e10, [doi, isbn, issn, url, publisher, title, edition, journal, volume, issue]) by {
      AddValueCovers(e9, [doi, isbn, issn, url, publisher, title, edition, journal, volume], issue);
    }
    assert Covers(e11, [doi, isbn, issn, url, publisher, title, edition, journal, volume, issue, year]) by {
      AddValueCovers(e10, [doi, isbn, issn, url, publisher, title, edition, journal, volume, issue], year);
    }
  }

  lemma {:induction false} CoversAppend(es: seq<string>, more: seq<string>, vs: seq<string>)
    requires Covers(es, vs)
    requires forall i :: 0 <= i < |more| ==> |more[i]| > 0
    ensures Covers(es + more, vs)
  {
    var e := es + more;
    forall i | 0 <= i < |vs| && |vs[i]| > 0 ensures vs[i] in e {
      assert vs[i] in es;
    }
  }

  lemma {:induction false} NameValuesNonEmpty(names: seq<Person>)
    ensures forall i :: 0 <= i < |NameValues(names)| ==> |NameValues(names)[i]| > 0
  {
  }

  /**
   * `toUnformattedString` lists no empty entry and every non-empty attribute it covers, in
   * order, followed by every author and editor as `given family` and then the pages if any.
   */
  lemma {:induction false} UnformattedEntriesComplete(r: Record)
    ensures Covers(UnformattedEntries(r), UnformattedValues(r))
    ensures forall i :: 0 <= i < |r.author| ==> r.author[i].givenName + " " + r.author[i].familyName in UnformattedEntries(r)
    ensures forall i :: 0 <= i < |r.editor| ==> r.editor[i].givenName + " " + r.editor[i].familyName in UnformattedEntries(r)
    ensures |PagesAsString(r, false)| > 0 ==> PagesAsString(r, false) in UnformattedEntries(r)
  {
    var vs := UnformattedAttributes(r);
    var us := UnformattedValues(r);
    var pages := PagesAsString(r, false);
    var names := vs + NameValues(r.author) + NameValues(r.editor);
    assert Covers(names, us) by {
      AttributeEntriesCover(r);
      NameValuesNonEmpty(r.author);
      NameValuesNonEmpty(r.editor);
      CoversAppend(vs, NameValues(r.author), us);
      CoversAppend(vs + NameValues(r.author), NameValues(r.editor), us);
    }
    assert Covers(UnformattedEntries(r), us) by {
      if |pages| > 0 {
        CoversAppend(names, [pages], us);
      }
    }
    assert forall i :: 0 <= i < |r.author| ==> r.author[i].givenName + " " + r.author[i].familyName in names by {
      forall i | 0 <= i < |r.author| ensures r.author[i].givenName + " " + r.author[i].familyName in names {
        assert names[|vs| + i] == NameValues(r.author)[i];
      }
    }
    assert forall i :: 0 <= i < |r.editor| ==> r.editor[i].givenName + " " + r.editor[i].familyName in names by {
      forall i | 0 <= i < |r.editor| ensures r.editor[i].givenName + " " + r.editor[i].familyName in names {
        assert names[|vs| + |r.author| + i] == NameValues(r.editor)[i];
      }
    }
  }

  // ---------------------------------------------------------------------------------------------
  // The object

  /** `Metadata`: one reference, with fields that `tidy` and the providers update in place */
  class Metadata {
    var doi: string
    var isbn: string
    var issn: string
    var url: string
    var author: seq<Person>
    var editor: seq<Person>
    var publisher: string
    var title: string
    var edition: string
    var journal: string
    var volume: string
    var issue: string
    var year: string
    var pageStart: string
    var pageEnd: string

    /** The current values of the fields */
    function Snapshot(): Record
      reads this
    {
      Record(doi, isbn, issn, url, author, editor, publisher, title, edition, journal,
             volume, issue, year, pageStart, pageEnd)
    }

    /** `Metadata()` */
    constructor ()
      ensures Snapshot() == Defaults
    {
      new;
      SetDefaults();
    }

    /** `Metadata(asDictionary)` */
    constructor FromDictionary(texts: map<string, string>, people: map<string, seq<Person>>)
      ensures Snapshot() == OfDictionary(texts, people)
    {
      new;
      SetDefaults();
      SetDoi(GetOr(texts, "doi", doi));
      SetIsbn(GetOr(texts, "isbn", isbn));
      SetIssn(GetOr(texts, "issn", issn));
      SetUrl(GetOr(texts, "url", url));
      SetAuthor(GetOr(people, "author", author));
      SetEditor(GetOr(people, "editor", editor));
      SetPublisher(GetOr(texts, "publisher", publisher));
      SetTitle(GetOr(texts, "title", title));
      SetEdition(GetOr(texts, "edition", edition));
      SetJournal(GetOr(texts, "journal", journal));
      SetVolume(GetOr(texts, "volume", volume));
      SetIssue(GetOr(texts, "issue", issue));
      SetYear(GetOr(texts, "year", year));
      SetPageStart(GetOr(texts, "pageStart", pageStart));
      SetPageEnd(GetOr(texts, "pageEnd", pageEnd));
    }

    /** `setDefaults` */
    method SetDefaults()
      modifies this
      ensures Snapshot() == Defaults
    {
      SetDoi("");
      SetIsbn("");
      SetIssn("");
      SetUrl("");
      SetAuthor([]);
      SetEditor([]);
      SetPublisher("");
      SetTitle("");
      SetEdition("");
      SetJournal("");
      SetVolume("");
      SetIssue("");
      SetYear("");
      SetPageStart("");
      SetPageEnd("");
    }

    /** `setattr(self, Name(k), v)` for a text attribute */
    method SetText(k: Key, v: string)
      modifies this
      ensures Snapshot() == With(old(Snapshot()), k, v)
    {
      match k
      case Doi => SetDoi(v);
      case Isbn => SetIsbn(v);
      case Issn => SetIssn(v);
      case Url => SetUrl(v);
      case Publisher => SetPublisher(v);
      case Title => SetTitle(v);
      case Edition => SetEdition(v);
      case JournalKey => SetJournal(v);
      case Volume => SetVolume(v);
      case Issue => SetIssue(v);
      case Year => SetYear(v);
      case PageStart => SetPageStart(v);
      case PageEnd => SetPageEnd(v);
    }

    // One assignment `self.<attribute> = v` per attribute

    method SetDoi(v: string)
      modifies this
      ensures Snapshot() == old(Snapshot()).(doi := v)
    {
      doi := v;
    }

    method SetIsbn(v: string)
      modifies this
      ensures Snapshot() == old(Snapshot()).(isbn := v)
    {
      isbn := v;
    }

    method SetIssn(v: string)
      modifies this
      ensures Snapshot() == old(Snapshot()).(issn := v)
    {
      issn := v;
    }

    method SetUrl(v: string)
      modifies this
      ensures Snapshot() == old(Snapshot()).(url := v)
    {
      url := v;
    }

    method SetAuthor(v: seq<Person>)
      modifies this
      ensures Snapshot() == old(Snapshot()).(author := v)
    {
      author := v;
    }

    method SetEditor(v: seq<Person>)
      modifies this
      ensures Snapshot() == old(Snapshot()).(editor := v)
    {
      editor := v;
    }

    method SetPublisher(v: string)
      modifies this
      ensures Snapshot() == old(Snapshot()).(publisher := v)
    {
      publisher := v;
    }

    method SetTitle(v: string)
      modifies this
      ensures Snapshot() == old(Snapshot()).(title := v)
    {
      title := v;
    }

    method SetEdition(v: string)
      modifies this
      ensures Snapshot() == old(Snapshot()).(edition := v)
    {
      edition := v;
    }

    method SetJournal(v: string)
      modifies this
      ensures Snapshot() == old(Snapshot()).(journal := v)
    {
      journal := v;
    }

    method SetVolume(v: string)
      modifies this
      ensures Snapshot() == old(Snapshot()).(volume := v)
    {
      volume := v;
    }

    method SetIssue(v: string)
      modifies this
      ensures Snapshot() == old(Snapshot()).(issue := v)
    {
      issue := v;
    }

    method SetYear(v: string)
      modifies this
      ensures Snapshot() == old(Snapshot()).(year := v)
    {
      year := v;
    }

    method SetPageStart(v: string)
      modifies this
      ensures Snapshot() == old(Snapshot()).(pageStart := v)
    {
      pageStart := v;
    }

    method SetPageEnd(v: string)
      modifies this
      ensures Snapshot() == old(Snapshot()).(pageEnd := v)
    {
      pageEnd := v;
    }

    /** `_tidyList` on a list of names: each element replaced by its tidied version */
    static method TidyList(values: seq<Person>) returns (r: seq<Person>)
      ensures r == TidyPeople(values)
    {
      r := values;
      var i := 0;
      while i < |r|
        invariant |r| == |values| && 0 <= i <= |r|
        invariant forall k :: 0 <= k < i ==> r[k] == TidyPerson(values[k])
        invariant forall k :: i <= k < |r| ==> r[k] == values[k]
      {
        r := r[i := TidyPerson(r[i])];
        i := i + 1;
      }
    }

    /** `tidy`: `_tidyValue` on every attribute, then `_tidyByPublisher` */
    method Tidy()
      modifies this
      ensures Snapshot() == TidyRecord(old(Snapshot()))
    {
      TidyAttributes();
      TidyByPublisher();
    }

    /**
     * The loop of `tidy`: `_tidyValue` on every attribute. The text attributes are visited in a
     * fixed order, then the two lists of names.
     */
    method TidyAttributes()
      modifies this
      ensures Snapshot() == TidyFields(old(Snapshot()))
    {
      TidyTexts();
      var authors := TidyList(author);
      SetAuthor(authors);
      var editors := TidyList(editor);
      SetEditor(editors);
    }

    /** `_tidyObject` on every text attribute, in the order of `AllKeys` */
    method TidyTexts()
      modifies this
      ensures Snapshot() == TidyFields(old(Snapshot())).(author := old(author), editor := old(editor))
    {
      var i := 0;
      while i < |AllKeys|
        invariant 0 <= i <= |AllKeys|
        invariant forall k :: Get(Snapshot(), k) ==
                              if KeyIndex(k) < i then TidyText(Get(old(Snapshot()), k)) else Get(old(Snapshot()), k)
        invariant author == old(author) && editor == old(editor)
      {
        var k := AllKeys[i];
        assert KeyIndex(k) == i by {
          KeyIndexOf(i);
        }
        SetText(k, TidyText(Get(Snapshot(), k)));
        i := i + 1;
      }
      TidyTextsDone(old(Snapshot()), Snapshot());
    }

    /** `_tidyByPublisher` */
    method TidyByPublisher()
      modifies this
      ensures Snapshot() == ByPublisher(old(Snapshot()))
    {
      var lookup := RemoveChar(LowerStr(publisher), ' ');
      if IndexOf(lookup, "americanphysicalsociety", 0).Some? {
        TidyForAps();
      } else if IndexOf(lookup, "naturepublishing", 0).Some? {
        TidyForNature();
      }
    }

    /** `_tidyForAps`; each `return` is an IndexError that the `except` swallows */
    method TidyForAps()
      modifies this
      ensures Snapshot() == ApsFill(old(Snapshot()))
    {
      if (pageStart == "" || volume == "") && |doi| > 0 {
        var halves := Split(doi, '/');
        if |halves| < 2 {
          return;
        }
        var parts := Split(halves[1], '.');
        if volume == "" {
          if |parts| < 2 {
            return;
          }
          SetVolume(parts[1]);
        }
        if pageStart == "" {
          if |parts| < 3 {
            return;
          }
          SetPageStart(parts[2]);
        }
      }
    }

    /** `_tidyForNature`; an IndexError from a DOI without `/srep` leaves the first page empty */
    method TidyForNature()
      modifies this
      ensures Snapshot() == NatureFill(old(Snapshot()))
    {
      if pageStart == "" {
        var piece := SrepPiece(doi);
        if piece.Some? {
          SetPageStart(piece.value);
        }
      }
    }

    /** `_formatNameString`: the loop stops after `et al.` when the list is truncated */
    static method FormatNameString(names: seq<Person>, maxAuthors: int, abbreviate: bool, familyNameFirst: bool)
      returns (s: string)
      ensures s == NameString(names, maxAuthors, abbreviate, familyNameFirst)
    {
      var res: seq<string> := [];
      var i := 0;
      while i < |names|
        invariant 0 <= i <= |names|
        invariant Truncates(|names|, maxAuthors) ==> i <= maxAuthors - 1
        invariant res == FormattedNames(names, i, abbreviate, familyNameFirst)
      {
        if maxAuthors > 1 && i == maxAuthors - 1 && i < |names| - 1 {
          res := res + ["et al."];
          break;
        }
        FormattedNamesNext(names, i, abbreviate, familyNameFirst);
        res := res + [FormatPerson(names[i], abbreviate, familyNameFirst)];
        i := i + 1;
      }
      s := Join(res, ", ");
    }

    /** `_addValueToList(values, key)` */
    method AddValueToList(values: seq<string>, key: Key) returns (res: seq<string>)
      ensures res == AddValue(values, Get(Snapshot(), key))
    {
      var value := Get(Snapshot(), key);
      res := values;
      if |value| > 0 {
        res := res + [value];
      }
    }

    /** `_addNamesToList(values, key)` for `author` or `editor` */
    method AddNamesToList(values: seq<string>, key: string) returns (res: seq<string>)
      requires key == "author" || key == "editor"
      ensures res == values + NameValues(if key == "author" then author else editor)
    {
      var names := if key == "author" then author else editor;
      res := values;
      var i := 0;
      while i < |names|
        invariant 0 <= i <= |names|
        invariant res == values + NameValues(names[..i])
      {
        assert NameValues(names[..i + 1]) == NameValues(names[..i]) + [names[i].givenName + " " + names[i].familyName];
        res := res + [names[i].givenName + " " + names[i].familyName];
        i := i + 1;
      }
      assert names[..i] == names;
    }

    /** `_addPagesToList(values)` */
    method AddPagesToList(values: seq<string>) returns (res: seq<string>)
      ensures res == AddValue(values, PagesAsString(Snapshot(), false))
    {
      var pages := PagesAsString(Snapshot(), false);
      res := values;
      if |pages| > 0 {
        res := res + [pages];
      }
    }

    /** `toUnformattedString` */
    method ToUnformattedString() returns (s: string)
      ensures s == UnformattedString(Snapshot())
    {
      var res: seq<string> := [];
      res := AddValueToList(res, Doi);
      res := AddValueToList(res, Isbn);
      res := AddValueToList(res, Issn);
      res := AddValueToList(res, Url);
      res := AddValueToList(res, Publisher);
      res := AddValueToList(res, Title);
      res := AddValueToList(res, Edition);
      res := AddValueToList(res, JournalKey);
      res := AddValueToList(res, Volume);
      res := AddValueToList(res, Issue);
      res := AddValueToList(res, Year);
      UnformattedAttributesByKey(Snapshot());
      res := AddNamesToList(res, "author");
      res := AddNamesToList(res, "editor");
      res := AddPagesToList(res);
      assert res == UnformattedEntries(Snapshot());
      s := Join(res, ", ");
    }
  }
}
