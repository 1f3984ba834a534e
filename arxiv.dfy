/**
 * The arXiv.org provider: the answer of the arXiv API, parsed into an element tree, turned into
 * a `Metadata` record. The request and the XML parsing are one abstract function `fetch` from
 * the identifier to the root element, or the error either of them raises.
 */
module Arxiv {

  import opened Wrappers
  import opened Text
  import opened Author
  import opened MetadataRecord
  import ArxivId

  /** An XML element as `ElementTree` gives it: tag, text (None when it has none), children */
  datatype Element = Element(tag: string, text: Option<string>, children: seq<Element>)

  const MultipleEntries: Error := ValueError("Multiple entries in result")
  const NoMatch: Error := ValueError("Could not match query to arXiv")
  const ArxivOrg: string := "arXiv.org"

  /** `e.tag.endswith(suffix)`: the API's tags carry the Atom namespace in front */
  predicate HasTag(e: Element, suffix: string) { EndsWith(e.tag, suffix) }

  // ---------------------------------------------------------------------------------------------
  // Searching the children of an element

  /** The positions of the children whose tag ends with `suffix`, in document order */
  function Tagged(es: seq<Element>, suffix: string): (ps: seq<nat>)
    ensures |ps| <= |es|
    ensures forall j :: 0 <= j < |ps| ==> ps[j] < |es| && HasTag(es[ps[j]], suffix)
    ensures forall k :: 0 <= k < |es| && HasTag(es[k], suffix) ==> k in ps
    ensures forall j, l :: 0 <= j < l < |ps| ==> ps[j] < ps[l]
    decreases |es|
  {
    if |es| == 0 then []
    else
      var n := |es| - 1;
      var init := Tagged(es[..n], suffix);
      assert forall k :: 0 <= k < n ==> es[..n][k] == es[k];
      if HasTag(es[n], suffix) then init + [n] else init
  }

  /** The first child whose tag ends with `suffix`, as `for i in e: if i.tag.endswith(...)` finds it */
  function First(es: seq<Element>, suffix: string): (r: Option<nat>)
    ensures r.Some? ==> r.value < |es| && HasTag(es[r.value], suffix)
    ensures r.Some? ==> forall j :: 0 <= j < r.value ==> !HasTag(es[j], suffix)
    ensures r.None? <==> forall j :: 0 <= j < |es| ==> !HasTag(es[j], suffix)
  {
    var ps := Tagged(es, suffix);
    if |ps| == 0 then None
    else
      assert forall j :: 0 <= j < ps[0] && HasTag(es[j], suffix) ==> j in ps;
      Some(ps[0])
  }

  /** A child that is tagged while none before it is, is the first */
  lemma FirstAt(es: seq<Element>, suffix: string, i: nat)
    requires i < |es| && HasTag(es[i], suffix)
    requires forall j :: 0 <= j < i ==> !HasTag(es[j], suffix)
    ensures First(es, suffix) == Some(i)
  {
    var r := First(es, suffix);
    assert r.Some?;
    assert !(r.value < i) && !(i < r.value);
  }

  // ---------------------------------------------------------------------------------------------
  // `_getEntry`

  predicate IsEntry(e: Element) { HasTag(e, "entry") }

  /** `_getEntry`: the one child that is an entry; none gives None, two or more raise */
  function EntryOf(root: Element): (r: Result<Option<Element>>)
    ensures r.Failure? ==> r.error == MultipleEntries
  {
    var ps := Tagged(root.children, "entry");
    if |ps| >= 2 then Failure(MultipleEntries)
    else if |ps| == 1 then Success(Some(root.children[ps[0]]))
    else Success(None)
  }

  /** With no tagged child there are no positions */
  lemma {:induction false} TaggedNone(es: seq<Element>, suffix: string)
    requires forall j :: 0 <= j < |es| ==> !HasTag(es[j], suffix)
    ensures Tagged(es, suffix) == []
    decreases |es|
  {
    if |es| > 0 {
      var n := |es| - 1;
      assert forall j :: 0 <= j < n ==> es[..n][j] == es[j];
      TaggedNone(es[..n], suffix);
    }
  }

  /** With one tagged child its position is the only one */
  lemma {:induction false} TaggedOne(es: seq<Element>, suffix: string, k: nat)
    requires k < |es| && HasTag(es[k], suffix)
    requires forall j :: 0 <= j < |es| && j != k ==> !HasTag(es[j], suffix)
    ensures Tagged(es, suffix) == [k]
    decreases |es|
  {
    var n := |es| - 1;
    assert forall j :: 0 <= j < n ==> es[..n][j] == es[j];
    if k == n {
      TaggedNone(es[..n], suffix);
    } else {
      TaggedOne(es[..n], suffix, k);
    }
  }

  /** With no entry among the children there is no entry */
  lemma EntryOfNone(root: Element)
    requires forall j :: 0 <= j < |root.children| ==> !IsEntry(root.children[j])
    ensures EntryOf(root) == Success(None)
  {
    TaggedNone(root.children, "entry");
  }

  /** A single entry among the children is the entry */
  lemma EntryOfOne(root: Element, k: nat)
    requires k < |root.children| && IsEntry(root.children[k])
    requires forall j :: 0 <= j < |root.children| && j != k ==> !IsEntry(root.children[j])
    ensures EntryOf(root) == Success(Some(root.children[k]))
  {
    TaggedOne(root.children, "entry", k);
  }

  /** Two entries among the children raise */
  lemma {:induction false} EntryOfTwo(root: Element, j: nat, k: nat)
    requires j < k < |root.children| && IsEntry(root.children[j]) && IsEntry(root.children[k])
    ensures EntryOf(root) == Failure(MultipleEntries)
  {
    var ps := Tagged(root.children, "entry");
    assert j in ps && k in ps;
    var a :| 0 <= a < |ps| && ps[a] == j;
    var b :| 0 <= b < |ps| && ps[b] == k;
    assert a != b;
  }

  /** `_getEntry` */
  method GetEntry(root: Element) returns (r: Result<Option<Element>>)
    ensures r == EntryOf(root)
  {
    var cs := root.children;
    var entry: Option<Element> := None;
    ghost var at: nat := 0;
    var i := 0;
    while i < |cs|
      invariant i <= |cs|
      invariant entry.None? ==> forall j :: 0 <= j < i ==> !IsEntry(cs[j])
      invariant entry.Some? ==> at < i && cs[at] == entry.value && IsEntry(cs[at])
      invariant entry.Some? ==> forall j :: 0 <= j < i && j != at ==> !IsEntry(cs[j])
    {
      if EndsWith(cs[i].tag, "entry") {
        if entry.Some? {
          EntryOfTwo(root, at, i);
          return Failure(MultipleEntries);
        }
        entry, at := Some(cs[i]), i;
      }
      i := i + 1;
    }
    if entry.Some? {
      EntryOfOne(root, at);
    } else {
      EntryOfNone(root);
    }
    return Success(entry);
  }

  // ---------------------------------------------------------------------------------------------
  // The mappers, as functions on the record value

  /**
   * `_saveValue`: only attribute `k` may change; it becomes the text of the first child whose
   * tag ends with `tag`. With no such child nothing changes; a first such child without text
   * stores None, which the later `tidy` rejects.
   */
  function ValueSaved(r: Record, entry: Element, k: Key, tag: string): (s: Saved)
    ensures s.record == With(r, k, Get(s.record, k))
    ensures First(entry.children, tag).None? ==> s == Saved(r, true)
    ensures First(entry.children, tag).Some? ==>
      var c := entry.children[First(entry.children, tag).value];
      (c.text.Some? ==> s == Saved(With(r, k, c.text.value), true)) && (c.text.None? <==> !s.text)
  {
    match First(entry.children, tag)
    case None => Saved(r, true)
    case Some(i) =>
      match entry.children[i].text
      case Some(t) => Saved(With(r, k, t), true)
      case None => Saved(r, false)
  }

  /**
   * `_saveYear`: only the year may change; it becomes the text of the first `updated` child up
   * to its first `-`. A first `updated` child without text raises, which is swallowed.
   */
  function YearSaved(r: Record, entry: Element): (f: Record)
    ensures f == r.(year := f.year)
    ensures f.year != r.year ==>
      First(entry.children, "updated").Some? && entry.children[First(entry.children, "updated").value].text.Some?
    ensures First(entry.children, "updated").Some? && entry.children[First(entry.children, "updated").value].text.Some? ==>
      var t := entry.children[First(entry.children, "updated").value].text.value;
      StartsWith(t, f.year) && '-' !in f.year && (|f.year| == |t| || t[|f.year|] == '-')
  {
    match First(entry.children, "updated")
    case None => r
    case Some(i) =>
      match entry.children[i].text
      case Some(t) =>
        SplitFirst(t, '-');
        r.(year := Split(t, '-')[0])
      case None => r
  }

  /** The first `name` child of `e` has a text */
  predicate NameGiven(e: Element) {
    First(e.children, "name").Some? && e.children[First(e.children, "name").value].text.Some?
  }

  /** The text of the first `name` child */
  function NameText(e: Element): string requires NameGiven(e) {
    e.children[First(e.children, "name").value].text.value
  }

  /**
   * `_getName`: the name in the first `name` child, split into given and family name. With no
   * such child the function returns None; a `name` child without text raises.
   */
  function NameOf(e: Element): (r: Result<Option<Person>>)
    ensures r == Success(None) <==> forall j :: 0 <= j < |e.children| ==> !HasTag(e.children[j], "name")
    ensures r.Failure? ==> r.error == AttributeError
    ensures NameGiven(e) ==> r == Success(Some(SplitName(NameText(e))))
    ensures First(e.children, "name").Some? && !NameGiven(e) ==> r == Failure(AttributeError)
  {
    match First(e.children, "name")
    case None => Success(None)
    case Some(i) =>
      match e.children[i].text
      case Some(t) => Success(Some(SplitName(t)))
      case None => Failure(AttributeError)
  }

  predicate IsAuthor(e: Element) { HasTag(e, "author") }

  /**
   * What one child adds to `metadata.author`: nothing (not an author, or `_getName` raised and
   * the `except` swallowed it), None (an author without a `name` child), or a person.
   */
  function Added(e: Element): (x: Option<Option<Person>>)
    ensures !IsAuthor(e) ==> x == None
    ensures IsAuthor(e) && NameGiven(e) ==> x == Some(Some(SplitName(NameText(e))))
    ensures IsAuthor(e) && First(e.children, "name").None? ==> x == Some(None)
    ensures IsAuthor(e) && First(e.children, "name").Some? && !NameGiven(e) ==> x == None
  {
    if !IsAuthor(e) then None
    else match NameOf(e)
      case Success(p) => Some(p)
      case Failure(_) => None
  }

  /** What each child of `es` adds, in document order */
  function AddedAll(es: seq<Element>): (xs: seq<Option<Option<Person>>>)
    ensures |xs| == |es|
    decreases |es|
  {
    if |es| == 0 then [] else AddedAll(es[..|es| - 1]) + [Added(es[|es| - 1])]
  }

  lemma {:induction false} AddedAllAt(es: seq<Element>, j: nat)
    requires j < |es|
    ensures AddedAll(es)[j] == Added(es[j])
    decreases |es|
  {
    var n := |es| - 1;
    if j < n {
      AddedAllAt(es[..n], j);
    }
  }

  /** The people a run of additions appends, in order; an added None is dropped */
  function People(xs: seq<Option<Option<Person>>>): (ps: seq<Person>)
    ensures |ps| <= |xs|
    decreases |xs|
  {
    if |xs| == 0 then []
    else
      var last := xs[|xs| - 1];
      People(xs[..|xs| - 1]) + PersonOf(last)
  }

  /** Some addition is None, which the later `tidy` rejects */
  predicate AnyNone(xs: seq<Option<Option<Person>>>)
    decreases |xs|
  {
    |xs| > 0 && (AnyNone(xs[..|xs| - 1]) || xs[|xs| - 1] == Some(None))
  }

  /** `AnyNone` holds exactly when some addition is None */
  lemma {:induction false} AnyNoneAt(xs: seq<Option<Option<Person>>>)
    ensures AnyNone(xs) <==> exists j :: 0 <= j < |xs| && xs[j] == Some(None)
    decreases |xs|
  {
    if |xs| > 0 {
      var n := |xs| - 1;
      AnyNoneAt(xs[..n]);
      if AnyNone(xs[..n]) {
        var j :| 0 <= j < n && xs[..n][j] == Some(None);
        assert xs[j] == Some(None);
      }
      if exists j :: 0 <= j < |xs| && xs[j] == Some(None) {
        var j :| 0 <= j < |xs| && xs[j] == Some(None);
        if j < n {
          assert xs[..n][j] == Some(None);
        }
      }
    }
  }

  /** The additions can be taken in two runs: appending distributes over them */
  lemma {:induction false} PeopleConcat(a: seq<Option<Option<Person>>>, b: seq<Option<Option<Person>>>)
    ensures People(a + b) == People(a) + People(b)
    decreases |b|
  {
    if |b| == 0 {
      assert a + b == a;
    } else {
      var n := |b| - 1;
      assert (a + b)[..|a + b| - 1] == a + b[..n];
      PeopleConcat(a, b[..n]);
    }
  }

  /** When every addition is a person, the people are exactly those, in order */
  lemma {:induction false} PeopleAll(xs: seq<Option<Option<Person>>>)
    requires forall j :: 0 <= j < |xs| ==> xs[j].Some? && xs[j].value.Some?
    ensures |People(xs)| == |xs|
    ensures forall j :: 0 <= j < |xs| ==> People(xs)[j] == xs[j].value.value
    decreases |xs|
  {
    if |xs| > 0 {
      var n := |xs| - 1;
      assert forall j :: 0 <= j < n ==> xs[..n][j] == xs[j];
      PeopleAll(xs[..n]);
    }
  }

  /** What one addition appends */
  function PersonOf(x: Option<Option<Person>>): seq<Person> {
    if x.Some? && x.value.Some? then [x.value.value] else []
  }

  /** One more child in the loop of `_saveAuthors` */
  lemma AddedStep(cs: seq<Element>, i: nat)
    requires i < |cs|
    ensures AddedAll(cs[..i + 1]) == AddedAll(cs[..i]) + [Added(cs[i])]
  {
    assert cs[..i + 1][..i] == cs[..i];
  }

  /** One more addition appends what it adds */
  lemma PeopleSnoc(xs: seq<Option<Option<Person>>>, x: Option<Option<Person>>)
    ensures People(xs + [x]) == People(xs) + PersonOf(x)
    ensures AnyNone(xs + [x]) <==> AnyNone(xs) || x == Some(None)
  {
    assert (xs + [x])[..|xs|] == xs;
  }

  /** `_saveAuthors`: only the authors change; each author child adds its split name, in order */
  function AuthorsSaved(r: Record, entry: Element): (s: Saved)
    ensures s.record == r.(author := r.author + People(AddedAll(entry.children)))
    ensures s.text <==> !AnyNone(AddedAll(entry.children))
  {
    var xs := AddedAll(entry.children);
    Saved(r.(author := r.author + People(xs)), !AnyNone(xs))
  }

  /** Each author child has a first `name` child with a text */
  predicate AllNamed(es: seq<Element>) {
    forall k :: 0 <= k < |es| && HasTag(es[k], "author") ==> NameGiven(es[k])
  }

  /** The split name of each child; a blank person where the child has no named `name` child */
  function Names(es: seq<Element>): (ns: seq<Person>)
    ensures |ns| == |es|
  {
    seq(|es|, k requires 0 <= k < |es| => if NameGiven(es[k]) then SplitName(NameText(es[k])) else Person("", ""))
  }

  /** The values `vs` holds for the author children of `es`, one per child, in document order */
  function Picked<T>(es: seq<Element>, vs: seq<T>): seq<T>
    requires |vs| == |es|
    decreases |es|
  {
    if |es| == 0 then []
    else
      var n := |es| - 1;
      Picked(es[..n], vs[..n]) + (if HasTag(es[n], "author") then [vs[n]] else [])
  }

  /** The values picked are those at the author positions, in order */
  lemma {:induction false} PickedAt<T>(es: seq<Element>, vs: seq<T>)
    requires |vs| == |es|
    ensures var ps := Tagged(es, "author");
      |Picked(es, vs)| == |ps| && forall j :: 0 <= j < |ps| ==> Picked(es, vs)[j] == vs[ps[j]]
    decreases |es|
  {
    if |es| > 0 {
      var n := |es| - 1;
      var init := es[..n];
      assert forall k :: 0 <= k < n ==> init[k] == es[k];
      PickedAt(init, vs[..n]);
      var ps0, ps := Tagged(init, "author"), Tagged(es, "author");
      var xs0, xs := Picked(init, vs[..n]), Picked(es, vs);
      if HasTag(es[n], "author") {
        assert ps == ps0 + [n] && xs == xs0 + [vs[n]];
      } else {
        assert ps == ps0 && xs == xs0;
      }
      forall j | 0 <= j < |ps| ensures xs[j] == vs[ps[j]] {
        if j < |ps0| {
          assert ps[j] == ps0[j] && xs[j] == xs0[j] && vs[..n][ps0[j]] == vs[ps0[j]];
        }
      }
    }
  }

  /** Over children whose authors are all named, the loop appends exactly their split names */
  lemma {:induction false} PeopleOfAuthors(es: seq<Element>)
    requires AllNamed(es)
    ensures People(AddedAll(es)) == Picked(es, Names(es))
    ensures !AnyNone(AddedAll(es))
    decreases |es|
  {
    if |es| > 0 {
      var n := |es| - 1;
      var init := es[..n];
      assert forall k :: 0 <= k < n ==> init[k] == es[k];
      assert Names(es)[..n] == Names(init);
      PeopleOfAuthors(init);
      AddedNamed(es[n]);
      assert AddedAll(es) == AddedAll(init) + [Added(es[n])];
      PeopleSnoc(AddedAll(init), Added(es[n]));
    }
  }

  /** What one child adds when it is not an author, or an author with a named `name` child */
  lemma AddedNamed(e: Element)
    requires HasTag(e, "author") ==> NameGiven(e)
    ensures PersonOf(Added(e)) == if HasTag(e, "author") then [SplitName(NameText(e))] else []
    ensures Added(e) != Some(None)
  {
  }

  /**
   * When each author child of the entry has a first `name` child with a text, the authors gain
   * one person per author child, the split name of that text, in document order, and nothing
   * keeps the record from being tidied.
   */
  lemma AuthorsInOrder(r: Record, entry: Element)
    requires var ps := Tagged(entry.children, "author");
      forall j :: 0 <= j < |ps| ==> NameGiven(entry.children[ps[j]])
    ensures var ps := Tagged(entry.children, "author"); var a := AuthorsSaved(r, entry).record.author;
      |a| == |r.author| + |ps| && a[..|r.author|] == r.author &&
      forall j :: 0 <= j < |ps| ==> a[|r.author| + j] == SplitName(NameText(entry.children[ps[j]]))
    ensures AuthorsSaved(r, entry).text
  {
    var es := entry.children;
    forall k | 0 <= k < |es| && IsAuthor(es[k]) ensures NameGiven(es[k]) {
      var ps := Tagged(es, "author");
      assert k in ps;
      var j :| 0 <= j < |ps| && ps[j] == k;
    }
    PeopleOfAuthors(es);
    PickedAt(es, Names(es));
    var a := AuthorsSaved(r, entry).record.author;
    assert a == r.author + People(AddedAll(entry.children));
    assert a[..|r.author|] == r.author;
  }

  /** An author child without a `name` child appends None, which keeps the record from being tidied */
  lemma AuthorWithoutName(r: Record, entry: Element, k: nat)
    requires k < |entry.children| && IsAuthor(entry.children[k])
    requires forall j :: 0 <= j < |entry.children[k].children| ==> !HasTag(entry.children[k].children[j], "name")
    ensures AuthorsSaved(r, entry).record.author == r.author + People(AddedAll(entry.children))
    ensures !AuthorsSaved(r, entry).text
  {
    AddedAllAt(entry.children, k);
    AnyNoneAt(AddedAll(entry.children));
  }

  /** A tidied record whose publisher was `arXiv.org` still has it */
  lemma TidyKeepsPublisher(r: Record)
    requires r.publisher == ArxivOrg
    ensures TidyRecord(r).publisher == ArxivOrg
  {
    TidyWord(ArxivOrg);
  }

  /**
   * `_saveMetadataFromEntry`: the record of the entry, tidied, with publisher `arXiv.org`. A
   * missing entry cannot be iterated (TypeError); a stored None makes `tidy` fail.
   */
  function EntryRecord(entry: Option<Element>): (r: Result<Record>)
    ensures entry.None? ==> r == Failure(TypeError)
    ensures r.Failure? ==> r.error == TypeError || r.error == AttributeError
    ensures r.Success? ==> r.value.publisher == ArxivOrg && TidyOutsideFill(r.value)
  {
    match entry
    case None => Failure(TypeError)
    case Some(e) =>
      var s := EntrySaved(e);
      if s.text then
        TidyKeepsPublisher(s.record);
        TidyRecordTidied(s.record);
        Success(TidyRecord(s.record))
      else Failure(AttributeError)
  }

  /** The mappers of `_saveMetadataFromEntry`, in its order, from a fresh record */
  function EntrySaved(e: Element): (s: Saved)
    ensures s.record.publisher == ArxivOrg
  {
    var r0 := Defaults.(publisher := ArxivOrg);
    var s1 := ValueSaved(r0, e, Title, "title");
    var s2 := ValueSaved(s1.record, e, Url, "id");
    var s3 := ValueSaved(s2.record, e, Doi, "doi");
    var r4 := YearSaved(s3.record, e);
    var s5 := AuthorsSaved(r4, e);
    Saved(s5.record, s1.text && s2.text && s3.text && s5.text)
  }

  /** `_saveMetadata`: the entry of the parsed answer, turned into a record */
  function RootRecord(root: Element): (r: Result<Record>)
    ensures r.Success? ==> r.value.publisher == ArxivOrg && TidyOutsideFill(r.value)
    ensures r.Failure? ==> r.error == MultipleEntries || r.error == TypeError || r.error == AttributeError
  {
    var entry :- EntryOf(root);
    EntryRecord(entry)
  }

  /**
   * `search`: the arXiv identifier of the lookup text, fetched and turned into a record. Every
   * failure surfaces as the one ValueError.
   */
  function SearchResult(lookup: string, fetch: string -> Result<Element>): (r: Result<Record>)
    ensures r.Failure? ==> r.error == NoMatch
    ensures ArxivId.Extract(lookup).Failure? ==> r == Failure(NoMatch)
    ensures r.Success? ==> r.value.publisher == ArxivOrg && TidyOutsideFill(r.value)
  {
    match Fetched(lookup, fetch)
    case Success(m) => Success(m)
    case Failure(_) => Failure(NoMatch)
  }

  /** The body of the `try` of `search` */
  function Fetched(lookup: string, fetch: string -> Result<Element>): (r: Result<Record>)
    ensures r.Success? ==> r.value.publisher == ArxivOrg && TidyOutsideFill(r.value)
    ensures ArxivId.Extract(lookup).Failure? ==> r.Failure?
  {
    var id :- ArxivId.Extract(lookup);
    var root :- fetch(id);
    RootRecord(root)
  }

  // ---------------------------------------------------------------------------------------------
  // The mappers on a `Metadata` object

  /** `_saveValue` */
  method SaveValue(m: Metadata, k: Key, entry: Element, tag: string) returns (text: bool)
    modifies m
    ensures m.Snapshot() == ValueSaved(old(m.Snapshot()), entry, k, tag).record
    ensures text == ValueSaved(old(m.Snapshot()), entry, k, tag).text
  {
    var cs := entry.children;
    var i := 0;
    while i < |cs|
      invariant i <= |cs|
      invariant forall j :: 0 <= j < i ==> !HasTag(cs[j], tag)
      invariant m.Snapshot() == old(m.Snapshot())
    {
      if EndsWith(cs[i].tag, tag) {
        FirstAt(cs, tag, i);
        if cs[i].text.Some? {
          m.SetText(k, cs[i].text.value);
          return true;
        }
        return false;
      }
      i := i + 1;
    }
    return true;
  }

  /** `_saveYear` */
  method SaveYear(m: Metadata, entry: Element)
    modifies m
    ensures m.Snapshot() == YearSaved(old(m.Snapshot()), entry)
  {
    var cs := entry.children;
    var i := 0;
    while i < |cs|
      invariant i <= |cs|
      invariant forall j :: 0 <= j < i ==> !HasTag(cs[j], "updated")
      invariant m.Snapshot() == old(m.Snapshot())
    {
      if EndsWith(cs[i].tag, "updated") {
        FirstAt(cs, "updated", i);
        if cs[i].text.Some? {
          m.SetYear(Split(cs[i].text.value, '-')[0]);
        }
        return;
      }
      i := i + 1;
    }
  }

  /** One pass of the loop of `_saveAuthors`: `child` adds what `Added` says */
  method AddAuthor(m: Metadata, child: Element) returns (named: bool)
    modifies m
    ensures m.Snapshot() == old(m.Snapshot()).(author := old(m.Snapshot()).author + PersonOf(Added(child)))
    ensures named <==> Added(child) != Some(None)
  {
    named := true;
    if EndsWith(child.tag, "author") {
      var name := NameOf(child);
      if name.Success? {
        if name.value.Some? {
          m.SetAuthor(m.author + [name.value.value]);
        } else {
          named := false;
        }
      }
    }
  }

  /** The loop of `_saveAuthors` over the children `cs` */
  method AddAuthors(m: Metadata, cs: seq<Element>) returns (text: bool)
    modifies m
    ensures m.author == old(m.author) + People(AddedAll(cs))
    ensures m.Snapshot() == old(m.Snapshot()).(author := m.author)
    ensures text == !AnyNone(AddedAll(cs))
  {
    ghost var r0 := m.Snapshot();
    ghost var xs: seq<Option<Option<Person>>> := [];
    text := true;
    var i := 0;
    while i < |cs|
      invariant i <= |cs|
      invariant xs == AddedAll(cs[..i])
      invariant m.author == r0.author + People(xs)
      invariant m.Snapshot() == r0.(author := m.author)
      invariant text == !AnyNone(xs)
    {
      AddedStep(cs, i);
      ghost var x := Added(cs[i]);
      PeopleSnoc(xs, x);
      var named := AddAuthor(m, cs[i]);
      text := text && named;
      xs := xs + [x];
      i := i + 1;
    }
    assert cs[..i] == cs;
  }

  /** `_saveAuthors` */
  method SaveAuthors(m: Metadata, entry: Element) returns (text: bool)
    modifies m
    ensures m.Snapshot() == AuthorsSaved(old(m.Snapshot()), entry).record
    ensures text == AuthorsSaved(old(m.Snapshot()), entry).text
  {
    text := AddAuthors(m, entry.children);
  }

  /** `_saveMetadataFromEntry` */
  method SaveMetadataFromEntry(entry: Option<Element>) returns (r: Result<Metadata>)
    ensures r.Success? <==> EntryRecord(entry).Success?
    ensures r.Success? ==> fresh(r.value) && r.value.Snapshot() == EntryRecord(entry).value
    ensures r.Failure? ==> r.error == EntryRecord(entry).error
  {
    var m := new Metadata();
    m.SetPublisher(ArxivOrg);
    if entry.None? {
      return Failure(TypeError);
    }
    var e := entry.value;
    var t1 := SaveValue(m, Title, e, "title");
    var t2 := SaveValue(m, Url, e, "id");
    var t3 := SaveValue(m, Doi, e, "doi");
    SaveYear(m, e);
    var t5 := SaveAuthors(m, e);
    if !(t1 && t2 && t3 && t5) {
      return Failure(AttributeError);
    }
    m.Tidy();
    return Success(m);
  }

  /** `_saveMetadata` */
  method SaveMetadata(root: Element) returns (r: Result<Metadata>)
    ensures r.Success? <==> RootRecord(root).Success?
    ensures r.Success? ==> fresh(r.value) && r.value.Snapshot() == RootRecord(root).value
    ensures r.Failure? ==> r.error == RootRecord(root).error
  {
    var entry := GetEntry(root);
    if entry.Failure? {
      return Failure(entry.error);
    }
    r := SaveMetadataFromEntry(entry.value);
  }

  /** `search` */
  method Search(lookup: string, fetch: string -> Result<Element>) returns (r: Result<Metadata>)
    ensures r.Success? <==> SearchResult(lookup, fetch).Success?
    ensures r.Success? ==> fresh(r.value) && r.value.Snapshot() == SearchResult(lookup, fetch).value
    ensures r.Failure? ==> r.error == NoMatch
  {
    var id := ArxivId.Extract(lookup);
    if id.Failure? {
      return Failure(NoMatch);
    }
    var root := fetch(id.value);
    if root.Failure? {
      return Failure(NoMatch);
    }
    var saved := SaveMetadata(root.value);
    if saved.Failure? {
      return Failure(NoMatch);
    }
    return saved;
  }
}
