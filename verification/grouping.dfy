/** The grouping state machine of `classify_pages`: pages, visited in order,
    open, extend or stay out of documents according to their top class. */
module Grouping {
  import opened Wrappers
  import opened Manifest
  import opened TopClass

  /** `MIN_CONFIDENCE_SCORE`. */
  const MinConfidenceScore: real := 0.99
  const FirstPageLabel: string := "FIRST_PAGE"
  const PageLabel: string := "PAGE"

  /** The fields of the invocation event the documents copy: `ExecutionId` and
      `DocumentClassificationJobProperties.InputDataConfig.S3Uri`. */
  datatype Event = Event(executionId: string, sourceUri: string)

  /** One output document: `{"ExecutionId", "Source", "Pages"}`. */
  datatype Document = Document(executionId: string, source: string, pages: seq<PageRecord>)

  /** Which branch of the loop body a page takes. */
  datatype Verdict =
    | Unclassified   // top score below the threshold: the page is reported unprocessed
    | Opens          // an accepted FIRST_PAGE: it starts a new document
    | Extends        // an accepted PAGE: it joins the open document
    | Ignored        // any other accepted class: the page goes nowhere

  /** The branch a page takes, or the exception its class lookup raises. */
  function PageVerdict(page: PageRecord): (r: Result<Verdict>)
    ensures r.Ok? ==> page.classification.Some?
  {
    var top :- MaxScoredClass(page);
    if top.score < MinConfidenceScore then Ok(Unclassified)
    else if top.name == FirstPageLabel then Ok(Opens)
    else if top.name == PageLabel then Ok(Extends)
    else Ok(Ignored)
  }

  /** A page's branch fails exactly when its class lookup does, with the same exception:
      a page without a manifest record, or with an empty class list. */
  lemma VerdictFails(page: PageRecord)
    ensures PageVerdict(page).Err? <==> page.classification.None? || |page.classification.value.classes| == 0
    ensures page.classification.None? ==> PageVerdict(page) == Err(MissingKey("Classes"))
    ensures page.classification.Some? && |page.classification.value.classes| == 0 ==> PageVerdict(page) == Err(EmptyMax)
  {
  }

  /** The threshold: a page is unprocessed exactly when every one of its classes
      scores below 0.99, so a top score of exactly 0.99 is accepted. */
  lemma ThresholdBoundary(page: PageRecord)
    requires page.classification.Some? && |page.classification.value.classes| > 0
    ensures var cs := page.classification.value.classes;
      PageVerdict(page) == Ok(Unclassified) <==> forall i :: 0 <= i < |cs| ==> cs[i].score < MinConfidenceScore
  {
    var cs := page.classification.value.classes;
    var k :| 0 <= k < |cs| && cs[k] == MaxScoredClass(page).value && IsFirstMax(cs, |cs|, k);
  }

  /** The branch is decided by the first highest-scored class alone. */
  lemma VerdictOfTopClass(page: PageRecord, k: nat)
    requires page.classification.Some?
    requires k < |page.classification.value.classes|
    requires IsFirstMax(page.classification.value.classes, |page.classification.value.classes|, k)
    ensures var top := page.classification.value.classes[k];
      PageVerdict(page) == Ok(
        if top.score < MinConfidenceScore then Unclassified
        else if top.name == FirstPageLabel then Opens
        else if top.name == PageLabel then Extends
        else Ignored)
  {
    FirstMaximumWins(page, k);
  }

  /** The loop state: `documents`, `current_document` and `unprocessed_pages`. */
  datatype Grouping = Grouping(closed: seq<Document>, current: Option<Document>, unprocessed: seq<int>)

  /** The open document as a list: empty when there is none. */
  function Closing(current: Option<Document>): seq<Document> {
    if current.Some? then [current.value] else []
  }

  /** One turn of the loop over the sorted pages. It raises exactly when the
      class lookup does or an accepted PAGE finds no open document, and it
      never touches a closed document. */
  function Step(event: Event, g: Grouping, page: PageRecord): (r: Result<Grouping>)
    ensures r.Err? <==> PageVerdict(page).Err? || (PageVerdict(page) == Ok(Extends) && g.current.None?)
    ensures r.Err? ==> r.error == BreakError(page)
    ensures r.Ok? ==> g.closed <= r.value.closed
  {
    var verdict :- PageVerdict(page);
    match verdict
    case Unclassified =>
      Ok(g.(unprocessed := g.unprocessed + [page.classification.value.pageNumber]))
    case Opens =>
      Ok(g.(closed := g.closed + Closing(g.current),
            current := Some(Document(event.executionId, event.sourceUri, [page]))))
    case Extends =>
      if g.current.None? then Err(NotSubscriptable)
      else Ok(g.(current := Some(g.current.value.(pages := g.current.value.pages + [page]))))
    case Ignored =>
      Ok(g)
  }

  /** The loop from some page on: a document once closed is never changed. */
  function Run(event: Event, g: Grouping, pages: seq<PageRecord>): (r: Result<Grouping>)
    ensures r.Ok? ==> g.closed <= r.value.closed
    decreases |pages|
  {
    if |pages| == 0 then Ok(g)
    else
      var g' :- Step(event, g, pages[0]);
      Run(event, g', pages[1..])
  }

  // ---------------------------------------------------------------------------
  // Reference views of a page sequence

  /** The pages whose branch is one of `vs`, in order. */
  function Select(pages: seq<PageRecord>, vs: set<Verdict>): (r: seq<PageRecord>)
    ensures |r| <= |pages|
  {
    if |pages| == 0 then []
    else
      var head := pages[0];
      (if PageVerdict(head).Ok? && PageVerdict(head).value in vs then [head] else []) + Select(pages[1..], vs)
  }

  /** The page number of a classified page (0 for one without a manifest record,
      which no document or unprocessed list ever holds). */
  function PageNumber(page: PageRecord): int {
    match page.classification
    case Some(record) => record.pageNumber
    case None => 0
  }

  function PageNumbers(pages: seq<PageRecord>): (r: seq<int>)
    ensures |r| == |pages|
    ensures forall i :: 0 <= i < |pages| ==> r[i] == PageNumber(pages[i])
  {
    if |pages| == 0 then [] else [PageNumber(pages[0])] + PageNumbers(pages[1..])
  }

  /** All pages of a list of documents, in order. */
  function Flat(docs: seq<Document>): seq<PageRecord> {
    if |docs| == 0 then [] else Flat(docs[..|docs| - 1]) + docs[|docs| - 1].pages
  }

  /** The pages grouped so far: those of the closed documents, then the open one. */
  function GroupedSoFar(g: Grouping): seq<PageRecord> {
    Flat(g.closed + Closing(g.current))
  }

  /** A document as the loop builds it: it starts with a page that opened it,
      every later page extended it, and it carries the event's identifiers. */
  predicate WellShaped(event: Event, d: Document) {
    && |d.pages| > 0
    && PageVerdict(d.pages[0]) == Ok(Opens)
    && (forall i :: 1 <= i < |d.pages| ==> PageVerdict(d.pages[i]) == Ok(Extends))
    && d.executionId == event.executionId
    && d.source == event.sourceUri
  }

  predicate AllWellShaped(event: Event, docs: seq<Document>) {
    forall i :: 0 <= i < |docs| ==> WellShaped(event, docs[i])
  }

  /** The exception a page that interrupts the loop raises: the class
      lookup's, or the `TypeError` of indexing the missing document. */
  function BreakError(page: PageRecord): Failure {
    if PageVerdict(page).Err? then PageVerdict(page).error else NotSubscriptable
  }

  /** Page `i` interrupts the loop: its class lookup raises, or it is an
      accepted PAGE while no document is open (no document was open on entry
      and no earlier page opened one). */
  predicate Breaks(openOnEntry: bool, pages: seq<PageRecord>, i: nat)
    requires i < |pages|
  {
    || PageVerdict(pages[i]).Err?
    || (&& PageVerdict(pages[i]) == Ok(Extends)
        && !openOnEntry
        && forall j :: 0 <= j < i ==> PageVerdict(pages[j]) != Ok(Opens))
  }

  // ---------------------------------------------------------------------------
  // What one turn does

  lemma FlatAppend(docs: seq<Document>, d: Document)
    ensures Flat(docs + [d]) == Flat(docs) + d.pages
  {
    assert (docs + [d])[..|docs|] == docs;
  }

  /** A turn adds the page to the grouped pages exactly when it opens or extends. */
  lemma StepGroups(event: Event, g: Grouping, page: PageRecord)
    requires Step(event, g, page).Ok?
    ensures GroupedSoFar(Step(event, g, page).value) == GroupedSoFar(g) + Select([page], {Opens, Extends})
  {
    assert [page][1..] == [];
    var g' := Step(event, g, page).value;
    match PageVerdict(page).value
    case Opens =>
      var d := Document(event.executionId, event.sourceUri, [page]);
      assert g'.closed + Closing(g'.current) == (g.closed + Closing(g.current)) + [d];
      FlatAppend(g.closed + Closing(g.current), d);
    case Extends =>
      var c := g.current.value;
      assert g.closed + Closing(g.current) == g.closed + [c];
      assert g'.closed + Closing(g'.current) == g.closed + [c.(pages := c.pages + [page])];
      FlatAppend(g.closed, c);
      FlatAppend(g.closed, c.(pages := c.pages + [page]));
    case Unclassified =>
    case Ignored =>
  }

  /** A turn keeps every document well shaped. */
  lemma StepShapes(event: Event, g: Grouping, page: PageRecord)
    requires Step(event, g, page).Ok?
    requires AllWellShaped(event, g.closed + Closing(g.current))
    ensures var g' := Step(event, g, page).value;
      AllWellShaped(event, g'.closed + Closing(g'.current))
  {
    var g' := Step(event, g, page).value;
    match PageVerdict(page).value
    case Opens =>
      var d := Document(event.executionId, event.sourceUri, [page]);
      assert g'.closed + Closing(g'.current) == (g.closed + Closing(g.current)) + [d];
    case Extends =>
      var c := g.current.value;
      var c' := c.(pages := c.pages + [page]);
      assert g.closed + Closing(g.current) == g.closed + [c];
      assert g'.closed + Closing(g'.current) == g.closed + [c'];
      assert (g.closed + [c])[|g.closed|] == c;
      assert WellShaped(event, c');
      forall i | 0 <= i < |g.closed + [c']| ensures WellShaped(event, (g.closed + [c'])[i]) {
        if i < |g.closed| {
          assert (g.closed + [c'])[i] == (g.closed + [c])[i];
        }
      }
    case Unclassified =>
    case Ignored =>
  }

  // ---------------------------------------------------------------------------
  // What the whole loop does

  /** The loop fails exactly when some page breaks it. */
  lemma {:induction false} RunFails(event: Event, g: Grouping, pages: seq<PageRecord>)
    ensures Run(event, g, pages).Err? <==> exists i :: 0 <= i < |pages| && Breaks(g.current.Some?, pages, i)
    decreases |pages|
  {
    if |pages| > 0 {
      var tail := pages[1..];
      var v := PageVerdict(pages[0]);
      var s := Step(event, g, pages[0]);
      if s.Err? {
        assert Breaks(g.current.Some?, pages, 0);
      } else {
        var g' := s.value;
        RunFails(event, g', tail);
        BreaksShift(event, g, pages);
        if exists i :: 0 <= i < |pages| && Breaks(g.current.Some?, pages, i) {
          var i :| 0 <= i < |pages| && Breaks(g.current.Some?, pages, i);
          assert Breaks(g'.current.Some?, tail, i - 1);
        }
        if exists i :: 0 <= i < |tail| && Breaks(g'.current.Some?, tail, i) {
          var i :| 0 <= i < |tail| && Breaks(g'.current.Some?, tail, i);
          assert Breaks(g.current.Some?, pages, i + 1);
        }
      }
    }
  }

  /** After a turn that does not raise, a break at position `i + 1` of the
      pages is a break at position `i` of the rest, from the state the turn
      leaves, and the first page does not break. */
  lemma BreaksShift(event: Event, g: Grouping, pages: seq<PageRecord>)
    requires |pages| > 0 && Step(event, g, pages[0]).Ok?
    ensures !Breaks(g.current.Some?, pages, 0)
    ensures var open := Step(event, g, pages[0]).value.current.Some?;
      forall i :: 0 <= i < |pages| - 1 ==> (Breaks(open, pages[1..], i) <==> Breaks(g.current.Some?, pages, i + 1))
  {
    var tail := pages[1..];
    var g' := Step(event, g, pages[0]).value;
    assert g'.current.Some? <==> g.current.Some? || PageVerdict(pages[0]) == Ok(Opens);
    forall i | 0 <= i < |tail|
      ensures Breaks(g'.current.Some?, tail, i) <==> Breaks(g.current.Some?, pages, i + 1)
    {
      assert tail[i] == pages[i + 1];
      assert (forall j :: 0 <= j < i ==> PageVerdict(tail[j]) != Ok(Opens))
         <==> (forall j :: 1 <= j < i + 1 ==> PageVerdict(pages[j]) != Ok(Opens)) by {
        forall j | 0 <= j < i ensures tail[j] == pages[j + 1] { }
        forall j | 1 <= j < i + 1 ensures pages[j] == tail[j - 1] { }
      }
    }
  }

  /** When the loop raises, the exception is the one the first breaking page raises. */
  lemma {:induction false} RunError(event: Event, g: Grouping, pages: seq<PageRecord>)
    requires Run(event, g, pages).Err?
    ensures exists i :: (
      && 0 <= i < |pages|
      && Breaks(g.current.Some?, pages, i)
      && (forall j :: 0 <= j < i ==> !Breaks(g.current.Some?, pages, j))
      && Run(event, g, pages).error == BreakError(pages[i]))
    decreases |pages|
  {
    var s := Step(event, g, pages[0]);
    if s.Err? {
      assert Breaks(g.current.Some?, pages, 0);
    } else {
      var tail := pages[1..];
      RunError(event, s.value, tail);
      BreaksShift(event, g, pages);
      var i :| 0 <= i < |tail| && Breaks(s.value.current.Some?, tail, i)
        && (forall j :: 0 <= j < i ==> !Breaks(s.value.current.Some?, tail, j))
        && Run(event, s.value, tail).error == BreakError(tail[i]);
      assert pages[i + 1] == tail[i];
      forall j | 0 <= j < i + 1 ensures !Breaks(g.current.Some?, pages, j) {
        if j > 0 {
          assert !Breaks(s.value.current.Some?, tail, j - 1);
        }
      }
      assert Breaks(g.current.Some?, pages, i + 1);
    }
  }

  /** The pages that end up in documents are exactly the accepted FIRST_PAGE and
      PAGE pages, in visiting order, after those grouped before. */
  lemma {:induction false} RunGroups(event: Event, g: Grouping, pages: seq<PageRecord>)
    requires Run(event, g, pages).Ok?
    ensures GroupedSoFar(Run(event, g, pages).value) == GroupedSoFar(g) + Select(pages, {Opens, Extends})
    decreases |pages|
  {
    if |pages| > 0 {
      var g' := Step(event, g, pages[0]).value;
      StepGroups(event, g, pages[0]);
      RunGroups(event, g', pages[1..]);
      assert pages == [pages[0]] + pages[1..];
      SelectConcat([pages[0]], pages[1..], {Opens, Extends});
    }
  }

  lemma {:induction false} SelectConcat(a: seq<PageRecord>, b: seq<PageRecord>, vs: set<Verdict>)
    ensures Select(a + b, vs) == Select(a, vs) + Select(b, vs)
    decreases |a|
  {
    if |a| == 0 {
      assert a + b == b;
    } else {
      assert (a + b)[0] == a[0];
      assert (a + b)[1..] == a[1..] + b;
      SelectConcat(a[1..], b, vs);
    }
  }

  /** The first page's share of a selection. */
  lemma SelectHead(pages: seq<PageRecord>, vs: set<Verdict>)
    requires |pages| > 0
    ensures Select(pages, vs) == Select([pages[0]], vs) + Select(pages[1..], vs)
  {
    assert [pages[0]][1..] == [];
  }

  /** One step appends the page's number exactly when it is below the threshold. */
  lemma StepUnprocessed(event: Event, g: Grouping, page: PageRecord)
    requires Step(event, g, page).Ok?
    ensures Step(event, g, page).value.unprocessed == g.unprocessed + PageNumbers(Select([page], {Unclassified}))
  {
    assert [page][1..] == [];
  }

  /** One step adds a document exactly when the page opens one. */
  lemma StepCounts(event: Event, g: Grouping, page: PageRecord)
    requires Step(event, g, page).Ok?
    ensures var g' := Step(event, g, page).value;
      var added := (|Select([page], {Opens})|);
      && |g'.closed| + |Closing(g'.current)| == |g.closed| + |Closing(g.current)| + added
      && (g'.current.None? <==> g.current.None? && added == 0)
  {
    assert [page][1..] == [];
  }

  /** The unprocessed list grows by the numbers of the below-threshold pages, in
      visiting order, and by nothing else. */
  lemma {:induction false} RunUnprocessed(event: Event, g: Grouping, pages: seq<PageRecord>)
    requires Run(event, g, pages).Ok?
    ensures Run(event, g, pages).value.unprocessed == g.unprocessed + PageNumbers(Select(pages, {Unclassified}))
    decreases |pages|
  {
    if |pages| > 0 {
      var g' := Step(event, g, pages[0]).value;
      StepUnprocessed(event, g, pages[0]);
      RunUnprocessed(event, g', pages[1..]);
      SelectHead(pages, {Unclassified});
      PageNumbersConcat(Select([pages[0]], {Unclassified}), Select(pages[1..], {Unclassified}));
    }
  }

  lemma PageNumbersConcat(a: seq<PageRecord>, b: seq<PageRecord>)
    ensures PageNumbers(a + b) == PageNumbers(a) + PageNumbers(b)
  {
  }

  /** Every accepted FIRST_PAGE adds one document; a document stays open at the
      end unless none was open on entry and no page opened one. */
  lemma {:induction false} RunCounts(event: Event, g: Grouping, pages: seq<PageRecord>)
    requires Run(event, g, pages).Ok?
    ensures var r := Run(event, g, pages).value;
      && |r.closed| + |Closing(r.current)| == |g.closed| + |Closing(g.current)| + |Select(pages, {Opens})|
      && (r.current.None? <==> g.current.None? && |Select(pages, {Opens})| == 0)
    decreases |pages|
  {
    if |pages| > 0 {
      var g' := Step(event, g, pages[0]).value;
      StepCounts(event, g, pages[0]);
      RunCounts(event, g', pages[1..]);
      SelectHead(pages, {Opens});
    }
  }

  /** Every document the loop produces is well shaped. */
  lemma {:induction false} RunShapes(event: Event, g: Grouping, pages: seq<PageRecord>)
    requires Run(event, g, pages).Ok?
    requires AllWellShaped(event, g.closed + Closing(g.current))
    ensures var r := Run(event, g, pages).value;
      AllWellShaped(event, r.closed + Closing(r.current))
    decreases |pages|
  {
    if |pages| > 0 {
      var g' := Step(event, g, pages[0]).value;
      StepShapes(event, g, pages[0]);
      RunShapes(event, g', pages[1..]);
    }
  }
}
