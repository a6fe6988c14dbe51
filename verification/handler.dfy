/** `lambda_handler`: the response the splitter returns for one invocation. */
module Handler {
  import opened Wrappers
  import opened PyText
  import opened Manifest
  import opened Grouping
  import opened Classify
  import opened Entries
  import opened Seqs

  const UnclassifiedMessage: string := "Some pages were not classified"

  /** The three shapes of the returned dictionary. */
  datatype Response =
    | Accepted(documents: seq<Option<Document>>)
    | RejectedUnclassified(documents: seq<Option<Document>>, unprocessedPages: seq<string>)
    | RejectedError(message: string)
  {
    /** `result["Outcome"]`. */
    function Outcome(): string {
      if Accepted? then "ACCEPTED" else "REJECTED"
    }

    /** `result["Reason"]`, absent on acceptance. */
    function Reason(): Option<string> {
      match this
      case Accepted(_) => None
      case RejectedUnclassified(_, _) => Some("UNCLASSIFIED_PAGES")
      case RejectedError(_) => Some("ERROR")
    }

    /** `result["ErrorMessage"]`, absent on acceptance. */
    function ErrorMessage(): Option<string> {
      match this
      case Accepted(_) => None
      case RejectedUnclassified(_, _) => Some(UnclassifiedMessage)
      case RejectedError(m) => Some(m)
    }
  }

  /** `list(map(str, xs))`. */
  function Strings(xs: seq<int>): (r: seq<string>)
    ensures |r| == |xs|
    ensures forall i :: 0 <= i < |xs| ==> r[i] == IntToString(xs[i])
  {
    seq(|xs|, i requires 0 <= i < |xs| => IntToString(xs[i]))
  }

  /** Each reported page is written in canonical form and reads back, with
      `int()`, as the page at the same position — which by `CanonicalUnique`
      fixes every string. */
  lemma StringsRoundTrip(xs: seq<int>)
    ensures forall i :: 0 <= i < |xs| ==> Canonical(Strings(xs)[i]) && ParseInt(Strings(xs)[i]) == Ok(xs[i])
  {
    forall i | 0 <= i < |xs| ensures Canonical(Strings(xs)[i]) && ParseInt(Strings(xs)[i]) == Ok(xs[i]) {
      IntToStringCanonical(xs[i]);
      ParseIntRoundTrip(xs[i]);
    }
  }

  /** The body of the `try`: the documents and the final unprocessed list, or
      the exception that escaped. It fails exactly when reading the archive or
      classifying its pages does; on success the list is the one the archive
      left, followed by the below-threshold pages in ascending order, and the
      documents hold exactly the accepted FIRST_PAGE and PAGE pages, ascending. */
  function SplitDocuments(event: Event, members: seq<Member>): (r: Result<(seq<Option<Document>>, seq<int>)>)
    ensures r.Err? <==>
      || ProcessComprehendData(members).Err?
      || ClassifyPages(event, ProcessComprehendData(members).value.0, ProcessComprehendData(members).value.1).Err?
    ensures r.Ok? ==>
      var data := ProcessComprehendData(members).value;
      var u := r.value.1;
      var grouped := PageNumbers(Flat(Present(r.value.0)));
      && |data.1| <= |u|
      && u[..|data.1|] == data.1
      && StrictlyAscending(u[|data.1|..])
      && (forall k :: k in u[|data.1|..] <==> k in data.0 && PageVerdict(data.0[k]) == Ok(Unclassified))
      && StrictlyAscending(grouped)
      && (forall k :: k in grouped <==>
            k in data.0 && (PageVerdict(data.0[k]) == Ok(Opens) || PageVerdict(data.0[k]) == Ok(Extends)))
  {
    var (pages, unprocessed) :- ProcessComprehendData(members);
    var out := ClassifyPages(event, pages, unprocessed);
    if out.Ok? then
      ClassifyUnprocessed(event, pages, unprocessed);
      ClassifyGroupedPages(event, pages, unprocessed);
      out
    else out
  }

  /** `lambda_handler(event, _)` for an archive whose members are `members`. */
  function LambdaHandler(event: Event, members: seq<Member>): (r: Response)
    ensures r.Outcome() == "ACCEPTED" <==> SplitDocuments(event, members).Ok? && |SplitDocuments(event, members).value.1| == 0
    ensures r.Reason() == Some("ERROR") <==> SplitDocuments(event, members).Err?
    ensures r.RejectedError? ==> r.message == Message(SplitDocuments(event, members).error)
    ensures r.RejectedUnclassified? ==>
      var unprocessed := SplitDocuments(event, members).value.1;
      && r.unprocessedPages == Strings(unprocessed)
      && |r.unprocessedPages| == |unprocessed| > 0
      && forall i :: 0 <= i < |unprocessed| ==> ParseInt(r.unprocessedPages[i]) == Ok(unprocessed[i])
    ensures r.Accepted? || r.RejectedUnclassified? ==> r.documents == SplitDocuments(event, members).value.0
  {
    match SplitDocuments(event, members)
    case Err(e) => RejectedError(Message(e))
    case Ok((documents, unprocessed)) =>
      if |unprocessed| == 0 then Accepted(documents)
      else
        StringsRoundTrip(unprocessed);
        RejectedUnclassified(documents, Strings(unprocessed))
  }

  /** An accepted response means the manifest covered every page it announced
      and every page reached a class with a score of at least 0.99. */
  lemma AcceptedMeansAllClassified(event: Event, members: seq<Member>)
    requires LambdaHandler(event, members).Accepted?
    ensures var data := ProcessComprehendData(members).value;
      && data.1 == []
      && forall k :: k in data.0 ==> PageVerdict(data.0[k]).Ok? && PageVerdict(data.0[k]) != Ok(Unclassified)
  {
    var data := ProcessComprehendData(members).value;
    ClassifyUnprocessed(event, data.0, data.1);
    ClassifyPartition(event, data.0, data.1);
    ClassifyFails(event, data.0, data.1);
    forall k | k in data.0 ensures PageVerdict(data.0[k]).Ok? {
      assert !Orphan(data.0, k);
    }
  }

  /** A rejection for unclassified pages lists the pages the manifests left
      unaccounted for, in the order they were left, then the below-threshold
      pages in ascending order. */
  lemma UnclassifiedPagesListed(event: Event, members: seq<Member>)
    requires LambdaHandler(event, members).RejectedUnclassified?
    ensures var data := ProcessComprehendData(members).value;
      var reported := SplitDocuments(event, members).value.1;
      && |data.1| <= |reported|
      && reported[..|data.1|] == data.1
      && StrictlyAscending(reported[|data.1|..])
      && forall k :: k in reported[|data.1|..] <==> k in data.0 && PageVerdict(data.0[k]) == Ok(Unclassified)
  {
  }

  /** A page of the dictionary whose accepted class is neither FIRST_PAGE nor PAGE. */
  predicate Skipped(pages: PageMap, k: int) {
    k in pages && PageVerdict(pages[k]) == Ok(Ignored)
  }

  /** For an archive with a single manifest announcing `N` pages, a successful
      run accounts for every page of `1..N` exactly once: in a document, in the
      unprocessed list (which repeats nothing), or skipped for another class;
      and no page outside `1..N` appears anywhere. */
  lemma SingleManifestPartition(event: Event, pre: seq<Member>, manifest: Member, post: seq<Member>)
    requires manifest.payload.File? && EndsWith(manifest.name, ManifestSuffix)
    requires NoManifest(pre) && NoManifest(post)
    requires SplitDocuments(event, pre + [manifest] + post).Ok?
    ensures var lines := manifest.payload.manifestLines;
      var n := if |lines| > 0 && lines[0].Ok? then lines[0].value.pages else 0;
      var pages := ProcessComprehendData(pre + [manifest] + post).value.0;
      var out := SplitDocuments(event, pre + [manifest] + post).value;
      var grouped := PageNumbers(Flat(Present(out.0)));
      && (forall k :: 1 <= k <= n <==> k in grouped || k in out.1 || Skipped(pages, k))
      && (forall k :: k in grouped ==> k !in out.1 && !Skipped(pages, k))
      && (forall k :: k in out.1 ==> !Skipped(pages, k))
      && NoDup(out.1)
  {
    var members := pre + [manifest] + post;
    var lines := manifest.payload.manifestLines;
    var data := ProcessComprehendData(members).value;
    assert SplitDocuments(event, members) == ClassifyPages(event, data.0, data.1);
    SingleManifest(pre, manifest, post);
    ClassifyCoversRange(event, data.0, data.1, Numbers(lines),
      if |lines| > 0 && lines[0].Ok? then lines[0].value.pages else 0);
  }

  /** The partition for a dictionary whose recorded pages are `numbers`, all in
      `1..n`, and whose unprocessed list is the rest of `1..n`, ascending. */
  lemma ClassifyCoversRange(event: Event, pages: PageMap, u: seq<int>, numbers: set<int>, n: int)
    requires WellFormed(pages)
    requires ClassifyPages(event, pages, u).Ok?
    requires forall k :: Lookup(pages, k).classification.Some? <==> k in numbers
    requires forall k :: k in numbers ==> 1 <= k <= n
    requires StrictlyAscending(u)
    requires forall k :: k in u <==> 1 <= k <= n && k !in numbers
    ensures var out := ClassifyPages(event, pages, u).value;
      var grouped := PageNumbers(Flat(Present(out.0)));
      && (forall k :: 1 <= k <= n <==> k in grouped || k in out.1 || Skipped(pages, k))
      && (forall k :: k in grouped ==> k !in out.1 && !Skipped(pages, k))
      && (forall k :: k in out.1 ==> !Skipped(pages, k))
      && NoDup(out.1)
  {
    var out := ClassifyPages(event, pages, u).value;
    var grouped := PageNumbers(Flat(Present(out.0)));
    ClassifyPartition(event, pages, u);
    ClassifyUnprocessed(event, pages, u);
    CoverRange(pages, n, numbers, u, out.1[|u|..], out.1, grouped);
  }

  /** The set arithmetic behind the partition: the pages with a record are the
      manifest's numbers, the leftovers the rest of `1..n`, and every page with
      a record lands in exactly one of the grouped, the below-threshold and the
      skipped pages. */
  lemma CoverRange(pages: PageMap, n: int, numbers: set<int>, u: seq<int>, low: seq<int>, out: seq<int>, grouped: seq<int>)
    requires |u| <= |out| && out[..|u|] == u && low == out[|u|..]
    requires forall k :: Lookup(pages, k).classification.Some? <==> k in numbers
    requires forall k :: k in numbers ==> 1 <= k <= n
    requires StrictlyAscending(u) && StrictlyAscending(low)
    requires forall k :: k in u <==> 1 <= k <= n && k !in numbers
    requires forall k :: k in grouped || k in low ==> k in pages
    requires forall k :: k in pages ==>
      && pages[k].classification.Some?
      && (k in grouped || k in low || PageVerdict(pages[k]) == Ok(Ignored))
      && !(k in grouped && k in low)
      && (PageVerdict(pages[k]) == Ok(Ignored) ==> k !in grouped && k !in low)
    ensures forall k :: 1 <= k <= n <==> k in grouped || k in out || Skipped(pages, k)
    ensures forall k :: k in grouped ==> k !in out && !Skipped(pages, k)
    ensures forall k :: k in out ==> !Skipped(pages, k)
    ensures NoDup(out)
  {
    assert out == u + low;
    assert forall k :: k in pages ==> Lookup(pages, k) == pages[k];
    DisjointConcatNoDup(u, low);
  }
}
