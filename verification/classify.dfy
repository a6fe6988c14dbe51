/** `classify_pages`: the grouping loop run over the pages in ascending page
    order, and what it promises about the documents and the unprocessed list. */
module Classify {
  import opened Wrappers
  import opened Seqs
  import opened Manifest
  import opened Grouping

  lemma {:induction false} MinExists(s: set<int>)
    requires s != {}
    ensures exists m :: m in s && forall k :: k in s ==> m <= k
    decreases |s|
  {
    assert exists y :: y in s by {
      if forall y :: y !in s { assert false; }
    }
    var x :| x in s;
    var rest := s - {x};
    assert s == rest + {x};
    if rest != {} {
      MinExists(rest);
      var m :| m in rest && forall k :: k in rest ==> m <= k;
      if x < m {
        assert forall k :: k in s ==> x <= k;
      } else {
        assert forall k :: k in s ==> m <= k;
      }
    } else {
      assert forall k :: k in s ==> k == x;
    }
  }

  /** The smallest element of a non-empty set. */
  function Min(s: set<int>): (m: int)
    requires s != {}
    ensures m in s && forall k :: k in s ==> m <= k
  {
    MinExists(s);
    var m :| m in s && forall k :: k in s ==> m <= k;
    m
  }

  /** `sorted(pages.keys())`. */
  function SortedKeys(s: set<int>): (r: seq<int>)
    ensures StrictlyAscending(r)
    ensures forall k :: k in r <==> k in s
    ensures |r| == |s|
    decreases |s|
  {
    if s == {} then []
    else
      var m := Min(s);
      var rest := SortedKeys(s - {m});
      assert forall i :: 0 <= i < |rest| ==> rest[i] in s - {m};
      [m] + rest
  }

  /** The page records stored under `keys`, in the order of `keys`. */
  function Records(pages: PageMap, keys: seq<int>): (r: seq<PageRecord>)
    requires forall i :: 0 <= i < |keys| ==> keys[i] in pages
    ensures |r| == |keys|
    ensures forall i :: 0 <= i < |keys| ==> r[i] == pages[keys[i]]
  {
    seq(|keys|, i requires 0 <= i < |keys| => pages[keys[i]])
  }

  /** The keys among `keys` whose page takes one of the branches `vs`, in order. */
  function KeysWith(pages: PageMap, keys: seq<int>, vs: set<Verdict>): (r: seq<int>)
    ensures forall k :: k in r <==>
      k in keys && k in pages && PageVerdict(pages[k]).Ok? && PageVerdict(pages[k]).value in vs
  {
    if |keys| == 0 then []
    else
      var k := keys[0];
      (if k in pages && PageVerdict(pages[k]).Ok? && PageVerdict(pages[k]).value in vs then [k] else [])
        + KeysWith(pages, keys[1..], vs)
  }

  /** The documents of the loop as `classify_pages` returns them: the closed
      ones, then whatever is open at the end — `None` when nothing was. */
  function Finished(g: Grouping): (r: seq<Option<Document>>)
    ensures |r| == |g.closed| + 1
    ensures forall i :: 0 <= i < |g.closed| ==> r[i] == Some(g.closed[i])
    ensures r[|g.closed|] == g.current
  {
    Somes(g.closed) + [g.current]
  }

  function Somes(docs: seq<Document>): (r: seq<Option<Document>>)
    ensures |r| == |docs|
    ensures forall i :: 0 <= i < |docs| ==> r[i] == Some(docs[i])
  {
    seq(|docs|, i requires 0 <= i < |docs| => Some(docs[i]))
  }

  /** The documents of a returned list that are not `None`, in order. */
  function Present(docs: seq<Option<Document>>): seq<Document> {
    if |docs| == 0 then []
    else
      var last := docs[|docs| - 1];
      Present(docs[..|docs| - 1]) + (if last.Some? then [last.value] else [])
  }

  lemma {:induction false} PresentSomes(docs: seq<Document>)
    ensures Present(Somes(docs)) == docs
    decreases |docs|
  {
    if |docs| > 0 {
      var n := |docs| - 1;
      assert Somes(docs)[..n] == Somes(docs[..n]);
      PresentSomes(docs[..n]);
      assert docs == docs[..n] + [docs[n]];
    }
  }

  /** The documents returned are the closed ones and then the open one, if any. */
  lemma PresentFinished(g: Grouping)
    ensures Present(Finished(g)) == g.closed + Closing(g.current)
  {
    var f := Finished(g);
    assert f[..|f| - 1] == Somes(g.closed);
    PresentSomes(g.closed);
  }

  /** `classify_pages(event, pages, unprocessed_pages)`: the documents, and the
      unprocessed list as the loop leaves it (the source appends to the list it
      is given). */
  function ClassifyPages(event: Event, pages: PageMap, unprocessed: seq<int>): (r: Result<(seq<Option<Document>>, seq<int>)>)
    ensures r.Ok? ==> unprocessed <= r.value.1
  {
    var g :- Loop(event, pages, unprocessed);
    RunUnprocessed(event, Grouping([], None, unprocessed), Records(pages, SortedKeys(pages.Keys)));
    Ok((Finished(g), g.unprocessed))
  }

  /** The loop of `classify_pages` over the pages in ascending page order,
      starting with no document and the given unprocessed list. */
  function Loop(event: Event, pages: PageMap, unprocessed: seq<int>): Result<Grouping>
  {
    Run(event, Grouping([], None, unprocessed), Records(pages, SortedKeys(pages.Keys)))
  }

  // ---------------------------------------------------------------------------
  // From positions in the sorted page list to page numbers

  /** Under `WellFormed`, the numbers of the selected records are the selected keys. */
  lemma {:induction false} SelectedNumbers(pages: PageMap, keys: seq<int>, vs: set<Verdict>)
    requires WellFormed(pages)
    requires forall i :: 0 <= i < |keys| ==> keys[i] in pages
    ensures PageNumbers(Select(Records(pages, keys), vs)) == KeysWith(pages, keys, vs)
    decreases |keys|
  {
    if |keys| > 0 {
      var ps := Records(pages, keys);
      assert ps[1..] == Records(pages, keys[1..]);
      SelectedNumbers(pages, keys[1..], vs);
      var head := if PageVerdict(ps[0]).Ok? && PageVerdict(ps[0]).value in vs then [ps[0]] else [];
      PageNumbersConcat(head, Select(ps[1..], vs));
      if head != [] {
        assert ps[0] == pages[keys[0]];
        assert ps[0].classification.Some?;
        assert PageNumber(ps[0]) == keys[0];
        assert [ps[0]][1..] == [];
        assert PageNumbers(head) == [keys[0]];
      }
    }
  }

  lemma RecordsConcat(pages: PageMap, a: seq<int>, b: seq<int>)
    requires forall i :: 0 <= i < |a| ==> a[i] in pages
    requires forall i :: 0 <= i < |b| ==> b[i] in pages
    ensures Records(pages, a + b) == Records(pages, a) + Records(pages, b)
  {
  }

  /** The selected records are the records of the selected keys. */
  lemma {:induction false} SelectedRecords(pages: PageMap, keys: seq<int>, vs: set<Verdict>)
    requires forall i :: 0 <= i < |keys| ==> keys[i] in pages
    ensures Select(Records(pages, keys), vs) == Records(pages, KeysWith(pages, keys, vs))
    decreases |keys|
  {
    if |keys| > 0 {
      var ps := Records(pages, keys);
      assert ps[1..] == Records(pages, keys[1..]);
      assert ps[0] == pages[keys[0]];
      SelectedRecords(pages, keys[1..], vs);
      var rest := KeysWith(pages, keys[1..], vs);
      if PageVerdict(ps[0]).Ok? && PageVerdict(ps[0]).value in vs {
        assert KeysWith(pages, keys, vs) == [keys[0]] + rest;
        assert Select(ps, vs) == [ps[0]] + Select(ps[1..], vs);
        assert Records(pages, [keys[0]]) == [ps[0]];
        RecordsConcat(pages, [keys[0]], rest);
        assert Select(ps, vs) == Records(pages, [keys[0]] + rest);
      } else {
        assert KeysWith(pages, keys, vs) == rest;
        assert Select(ps, vs) == Select(ps[1..], vs);
      }
    }
  }

  lemma {:induction false} KeysWithAscending(pages: PageMap, keys: seq<int>, vs: set<Verdict>)
    requires StrictlyAscending(keys)
    ensures StrictlyAscending(KeysWith(pages, keys, vs))
    decreases |keys|
  {
    if |keys| > 0 {
      var tail := keys[1..];
      AscendingTail(keys);
      KeysWithAscending(pages, tail, vs);
      var rest := KeysWith(pages, tail, vs);
      if KeysWith(pages, keys, vs) != rest {
        assert KeysWith(pages, keys, vs) == [keys[0]] + rest;
        ConsAscending(keys[0], rest);
      }
    }
  }

  /** For a sorted, complete list of the keys of a domain, "no earlier position
      holds a member of `s`" is "no smaller key of the domain is in `s`". */
  lemma EarlierIsSmaller(keys: seq<int>, domain: set<int>, s: set<int>, i: nat)
    requires StrictlyAscending(keys)
    requires forall k :: k in keys <==> k in domain
    requires i < |keys|
    ensures (forall j :: 0 <= j < i ==> keys[j] !in s) <==> (forall k :: k in domain && k < keys[i] ==> k !in s)
  {
    if forall j :: 0 <= j < i ==> keys[j] !in s {
      forall k | k in domain && k < keys[i] ensures k !in s {
        var j :| 0 <= j < |keys| && keys[j] == k;
      }
    }
  }

  // ---------------------------------------------------------------------------
  // What classify_pages promises

  /** The pages that open a document. */
  function Openers(pages: PageMap): set<int> {
    set k | k in pages && PageVerdict(pages[k]) == Ok(Opens)
  }

  /** The pages whose lookup fails or that continue a document while none is open. */
  predicate Orphan(pages: PageMap, k: int)
    requires k in pages
  {
    || PageVerdict(pages[k]).Err?
    || (&& PageVerdict(pages[k]) == Ok(Extends)
        && forall j :: j in pages && j < k ==> PageVerdict(pages[j]) != Ok(Opens))
  }

  /** A break at position `i` of the sorted pages is an orphan at key `keys[i]`. */
  lemma BreakIsOrphan(pages: PageMap, i: nat)
    requires i < |SortedKeys(pages.Keys)|
    ensures var keys := SortedKeys(pages.Keys);
      Breaks(false, Records(pages, keys), i) <==> Orphan(pages, keys[i])
  {
    var keys := SortedKeys(pages.Keys);
    assert Records(pages, keys)[i] == pages[keys[i]];
    NoOpenerAtEarlierPosition(pages, i);
    NoOpenerBelowKey(pages, i);
  }

  /** No earlier record opens a document exactly when no earlier key is an opener. */
  lemma NoOpenerAtEarlierPosition(pages: PageMap, i: nat)
    requires i < |SortedKeys(pages.Keys)|
    ensures var keys := SortedKeys(pages.Keys);
      var ps := Records(pages, keys);
      (forall j :: 0 <= j < i ==> PageVerdict(ps[j]) != Ok(Opens)) <==> (forall j :: 0 <= j < i ==> keys[j] !in Openers(pages))
  {
    var keys := SortedKeys(pages.Keys);
    var ps := Records(pages, keys);
    forall j | 0 <= j < i ensures PageVerdict(ps[j]) != Ok(Opens) <==> keys[j] !in Openers(pages) {
      assert ps[j] == pages[keys[j]];
    }
  }

  /** No earlier key is an opener exactly when no smaller page opens a document. */
  lemma NoOpenerBelowKey(pages: PageMap, i: nat)
    requires i < |SortedKeys(pages.Keys)|
    ensures var keys := SortedKeys(pages.Keys);
      (forall j :: 0 <= j < i ==> keys[j] !in Openers(pages))
        <==> (forall j :: j in pages && j < keys[i] ==> PageVerdict(pages[j]) != Ok(Opens))
  {
    var keys := SortedKeys(pages.Keys);
    EarlierIsSmaller(keys, pages.Keys, Openers(pages), i);
  }

  /** The call raises exactly when some page has no usable classes or is an
      accepted PAGE that no accepted FIRST_PAGE precedes. */
  lemma ClassifyFails(event: Event, pages: PageMap, unprocessed: seq<int>)
    ensures ClassifyPages(event, pages, unprocessed).Err? <==> exists k :: k in pages && Orphan(pages, k)
  {
    LoopFails(event, pages, unprocessed);
  }

  /** When the call raises, the exception is the one the smallest orphan page raises. */
  lemma ClassifyError(event: Event, pages: PageMap, unprocessed: seq<int>)
    requires ClassifyPages(event, pages, unprocessed).Err?
    ensures exists k :: (
      && k in pages
      && Orphan(pages, k)
      && (forall j :: j in pages && j < k ==> !Orphan(pages, j))
      && ClassifyPages(event, pages, unprocessed).error == BreakError(pages[k]))
  {
    var keys := SortedKeys(pages.Keys);
    var ps := Records(pages, keys);
    var g0 := Grouping([], None, unprocessed);
    assert ClassifyPages(event, pages, unprocessed).error == Run(event, g0, ps).error;
    RunError(event, g0, ps);
    var i :| 0 <= i < |ps|
      && Breaks(false, ps, i)
      && (forall j :: 0 <= j < i ==> !Breaks(false, ps, j))
      && Run(event, g0, ps).error == BreakError(ps[i]);
    BreakIsOrphan(pages, i);
    assert ps[i] == pages[keys[i]];
    FirstBreakSmallest(pages, i);
  }

  /** When no position before `i` breaks, no key below `keys[i]` is an orphan. */
  lemma FirstBreakSmallest(pages: PageMap, i: nat)
    requires i < |SortedKeys(pages.Keys)|
    requires forall j :: 0 <= j < i ==> !Breaks(false, Records(pages, SortedKeys(pages.Keys)), j)
    ensures forall j :: j in pages && j < SortedKeys(pages.Keys)[i] ==> !Orphan(pages, j)
  {
    var keys := SortedKeys(pages.Keys);
    forall j | j in pages && j < keys[i] ensures !Orphan(pages, j) {
      var m :| 0 <= m < |keys| && keys[m] == j;
      BreakIsOrphan(pages, m);
    }
  }

  lemma LoopFails(event: Event, pages: PageMap, unprocessed: seq<int>)
    ensures Loop(event, pages, unprocessed).Err? <==> exists k :: k in pages && Orphan(pages, k)
  {
    var g0 := Grouping([], None, unprocessed);
    var ps := Records(pages, SortedKeys(pages.Keys));
    RunFails(event, g0, ps);
    assert g0.current.Some? == false;
    BreaksAreOrphans(pages);
  }

  /** Some position of the sorted pages breaks the loop exactly when some key is an orphan. */
  lemma BreaksAreOrphans(pages: PageMap)
    ensures var ps := Records(pages, SortedKeys(pages.Keys));
      (exists i :: 0 <= i < |ps| && Breaks(false, ps, i)) <==> exists k :: k in pages && Orphan(pages, k)
  {
    var keys := SortedKeys(pages.Keys);
    var ps := Records(pages, keys);
    if exists i :: 0 <= i < |ps| && Breaks(false, ps, i) {
      var i :| 0 <= i < |ps| && Breaks(false, ps, i);
      BreakIsOrphan(pages, i);
      assert keys[i] in pages && Orphan(pages, keys[i]);
    }
    if exists k :: k in pages && Orphan(pages, k) {
      var k :| k in pages && Orphan(pages, k);
      var i :| 0 <= i < |keys| && keys[i] == k;
      BreakIsOrphan(pages, i);
      assert Breaks(false, ps, i);
    }
  }

  /** The unprocessed list that comes back is the one passed in followed by the
      below-threshold pages in ascending order. */
  lemma ClassifyUnprocessed(event: Event, pages: PageMap, unprocessed: seq<int>)
    requires WellFormed(pages)
    requires ClassifyPages(event, pages, unprocessed).Ok?
    ensures var u := ClassifyPages(event, pages, unprocessed).value.1;
      && |unprocessed| <= |u|
      && u[..|unprocessed|] == unprocessed
      && StrictlyAscending(u[|unprocessed|..])
      && forall k :: k in u[|unprocessed|..] <==> k in pages && PageVerdict(pages[k]) == Ok(Unclassified)
  {
    var low := KeysWith(pages, SortedKeys(pages.Keys), {Unclassified});
    LoopUnprocessed(event, pages, unprocessed);
    LowKeys(pages);
    var u := ClassifyPages(event, pages, unprocessed).value.1;
    assert u == unprocessed + low;
    assert u[|unprocessed|..] == low;
  }

  /** The below-threshold keys, in ascending order. */
  lemma LowKeys(pages: PageMap)
    ensures var low := KeysWith(pages, SortedKeys(pages.Keys), {Unclassified});
      && StrictlyAscending(low)
      && forall k :: k in low <==> k in pages && PageVerdict(pages[k]) == Ok(Unclassified)
  {
    KeysWithAscending(pages, SortedKeys(pages.Keys), {Unclassified});
  }

  /** The keys of the accepted FIRST_PAGE and PAGE pages, in ascending order. */
  lemma GroupedKeys(pages: PageMap)
    ensures var grouped := KeysWith(pages, SortedKeys(pages.Keys), {Opens, Extends});
      && StrictlyAscending(grouped)
      && forall k :: k in grouped <==> k in pages && (PageVerdict(pages[k]) == Ok(Opens) || PageVerdict(pages[k]) == Ok(Extends))
  {
    KeysWithAscending(pages, SortedKeys(pages.Keys), {Opens, Extends});
  }

  lemma LoopUnprocessed(event: Event, pages: PageMap, unprocessed: seq<int>)
    requires WellFormed(pages)
    requires Loop(event, pages, unprocessed).Ok?
    ensures Loop(event, pages, unprocessed).value.unprocessed
      == unprocessed + KeysWith(pages, SortedKeys(pages.Keys), {Unclassified})
  {
    var keys := SortedKeys(pages.Keys);
    var ps := Records(pages, keys);
    RunUnprocessed(event, Grouping([], None, unprocessed), ps);
    SelectedNumbers(pages, keys, {Unclassified});
  }

  /** The pages in the documents, in document order, are the accepted FIRST_PAGE
      and PAGE pages in ascending page order. */
  lemma LoopGroups(event: Event, pages: PageMap, unprocessed: seq<int>)
    requires WellFormed(pages)
    requires Loop(event, pages, unprocessed).Ok?
    ensures PageNumbers(GroupedSoFar(Loop(event, pages, unprocessed).value))
      == KeysWith(pages, SortedKeys(pages.Keys), {Opens, Extends})
    ensures GroupedSoFar(Loop(event, pages, unprocessed).value)
      == Records(pages, KeysWith(pages, SortedKeys(pages.Keys), {Opens, Extends}))
  {
    var keys := SortedKeys(pages.Keys);
    var ps := Records(pages, keys);
    var g0 := Grouping([], None, unprocessed);
    RunGroups(event, g0, ps);
    assert g0.closed + Closing(g0.current) == [];
    var grouped := Select(ps, {Opens, Extends});
    assert GroupedSoFar(Loop(event, pages, unprocessed).value) == grouped;
    SelectedNumbers(pages, keys, {Opens, Extends});
    SelectedRecords(pages, keys, {Opens, Extends});
  }

  /** The page numbers in the returned documents, in document order, ascend
      strictly and are exactly those of the accepted FIRST_PAGE and PAGE pages,
      and each page a document holds is the dictionary's record for its number,
      classification and text alike. */
  lemma ClassifyGroupedPages(event: Event, pages: PageMap, unprocessed: seq<int>)
    requires WellFormed(pages)
    requires ClassifyPages(event, pages, unprocessed).Ok?
    ensures var flat := Flat(Present(ClassifyPages(event, pages, unprocessed).value.0));
      var numbers := PageNumbers(flat);
      && StrictlyAscending(numbers)
      && (forall k :: k in numbers <==> k in pages && (PageVerdict(pages[k]) == Ok(Opens) || PageVerdict(pages[k]) == Ok(Extends)))
      && forall i :: 0 <= i < |flat| ==> numbers[i] in pages && flat[i] == pages[numbers[i]]
  {
    var g := Loop(event, pages, unprocessed).value;
    PresentFinished(g);
    LoopGroups(event, pages, unprocessed);
    GroupedKeys(pages);
  }

  lemma {:induction false} SelectedCount(pages: PageMap, keys: seq<int>, vs: set<Verdict>)
    requires forall i :: 0 <= i < |keys| ==> keys[i] in pages
    ensures |Select(Records(pages, keys), vs)| == |KeysWith(pages, keys, vs)|
    decreases |keys|
  {
    if |keys| > 0 {
      var ps := Records(pages, keys);
      assert ps[1..] == Records(pages, keys[1..]);
      assert ps[0] == pages[keys[0]];
      SelectedCount(pages, keys[1..], vs);
    }
  }

  lemma OpenersCount(pages: PageMap)
    ensures |Select(Records(pages, SortedKeys(pages.Keys)), {Opens})| == |Openers(pages)|
  {
    var keys := SortedKeys(pages.Keys);
    var opening := KeysWith(pages, keys, {Opens});
    SelectedCount(pages, keys, {Opens});
    KeysWithAscending(pages, keys, {Opens});
    DistinctCount(opening);
    OpeningKeys(pages);
  }

  lemma OpeningKeys(pages: PageMap)
    ensures (set x | x in KeysWith(pages, SortedKeys(pages.Keys), {Opens})) == Openers(pages)
  {
    var keys := SortedKeys(pages.Keys);
    var opening := KeysWith(pages, keys, {Opens});
    var s := set x | x in opening;
    forall k | k in s ensures k in Openers(pages) {
      assert k in opening;
    }
    forall k | k in Openers(pages) ensures k in s {
      assert k in keys;
      assert k in opening;
    }
  }

  lemma LoopCounts(event: Event, pages: PageMap, unprocessed: seq<int>)
    requires Loop(event, pages, unprocessed).Ok?
    ensures var g := Loop(event, pages, unprocessed).value;
      && |g.closed| + |Closing(g.current)| == |Openers(pages)|
      && (g.current.None? <==> |Openers(pages)| == 0)
  {
    RunCounts(event, Grouping([], None, unprocessed), Records(pages, SortedKeys(pages.Keys)));
    OpenersCount(pages);
  }

  lemma LoopShapes(event: Event, pages: PageMap, unprocessed: seq<int>)
    requires Loop(event, pages, unprocessed).Ok?
    ensures var g := Loop(event, pages, unprocessed).value;
      AllWellShaped(event, g.closed + Closing(g.current))
  {
    RunShapes(event, Grouping([], None, unprocessed), Records(pages, SortedKeys(pages.Keys)));
  }

  /** One document per accepted FIRST_PAGE; when there is none the result is
      `[None]`; only the last entry can be `None`; and every document starts
      with an accepted FIRST_PAGE, continues with accepted PAGE pages only and
      carries the event's identifiers. */
  lemma ClassifyDocuments(event: Event, pages: PageMap, unprocessed: seq<int>)
    requires ClassifyPages(event, pages, unprocessed).Ok?
    ensures var docs := ClassifyPages(event, pages, unprocessed).value.0;
      var n := |Openers(pages)|;
      && |docs| == (if n == 0 then 1 else n)
      && (docs[|docs| - 1].None? <==> n == 0)
      && (forall i :: 0 <= i < |docs| - 1 ==> docs[i].Some?)
      && (forall i :: 0 <= i < |docs| && docs[i].Some? ==> WellShaped(event, docs[i].value))
  {
    var g := Loop(event, pages, unprocessed).value;
    LoopCounts(event, pages, unprocessed);
    LoopShapes(event, pages, unprocessed);
    FinishedShape(event, g, |Openers(pages)|);
  }

  /** The returned list of a loop that closed or left open `n` documents. */
  lemma FinishedShape(event: Event, g: Grouping, n: nat)
    requires |g.closed| + |Closing(g.current)| == n
    requires g.current.None? <==> n == 0
    requires AllWellShaped(event, g.closed + Closing(g.current))
    ensures var docs := Finished(g);
      && |docs| == (if n == 0 then 1 else n)
      && (docs[|docs| - 1].None? <==> n == 0)
      && (forall i :: 0 <= i < |docs| - 1 ==> docs[i].Some?)
      && (forall i :: 0 <= i < |docs| && docs[i].Some? ==> WellShaped(event, docs[i].value))
  {
    var docs := Finished(g);
    var all := g.closed + Closing(g.current);
    forall i | 0 <= i < |docs| && docs[i].Some? ensures WellShaped(event, docs[i].value) {
      assert docs[i].value == all[i];
    }
  }

  /** The page numbers of each document. */
  function NumberParts(ds: seq<Document>): (r: seq<seq<int>>)
    ensures |r| == |ds|
    ensures forall i :: 0 <= i < |ds| ==> r[i] == PageNumbers(ds[i].pages)
  {
    seq(|ds|, i requires 0 <= i < |ds| => PageNumbers(ds[i].pages))
  }

  lemma {:induction false} FlatNumbers(ds: seq<Document>)
    ensures PageNumbers(Flat(ds)) == Concat(NumberParts(ds))
    decreases |ds|
  {
    if |ds| > 0 {
      var n := |ds| - 1;
      var init := ds[..n];
      var parts := NumberParts(ds);
      assert parts[..n] == NumberParts(init);
      FlatNumbers(init);
      assert Flat(ds) == Flat(init) + ds[n].pages;
      PageNumbersConcat(Flat(init), ds[n].pages);
      assert Concat(parts) == Concat(parts[..n]) + parts[n];
    }
  }

  /** Pages ascend within each returned document, and every page of an
      earlier document comes before every page of a later one — so no page is
      in two documents. */
  lemma ClassifyDocumentsOrdered(event: Event, pages: PageMap, unprocessed: seq<int>)
    requires WellFormed(pages)
    requires ClassifyPages(event, pages, unprocessed).Ok?
    ensures var parts := NumberParts(Present(ClassifyPages(event, pages, unprocessed).value.0));
      && (forall i :: 0 <= i < |parts| ==> StrictlyAscending(parts[i]))
      && (forall i, j :: 0 <= i < j < |parts| ==> Before(parts[i], parts[j]))
  {
    var ds := Present(ClassifyPages(event, pages, unprocessed).value.0);
    ClassifyGroupedPages(event, pages, unprocessed);
    FlatNumbers(ds);
    OrderedParts(NumberParts(ds));
  }

  /** Every page ends up in exactly one place: every page has a manifest record
      with classes, and it is in a document, in the below-threshold tail of the
      unprocessed list, or (with an accepted class other than FIRST_PAGE and
      PAGE) nowhere; and only pages of the dictionary land in either. */
  lemma ClassifyPartition(event: Event, pages: PageMap, unprocessed: seq<int>)
    requires WellFormed(pages)
    requires ClassifyPages(event, pages, unprocessed).Ok?
    ensures var out := ClassifyPages(event, pages, unprocessed).value;
      var grouped := PageNumbers(Flat(Present(out.0)));
      && |unprocessed| <= |out.1|
      && (forall k :: k in grouped || k in out.1[|unprocessed|..] ==> k in pages)
      && forall k :: k in pages ==>
        && pages[k].classification.Some?
        && (k in grouped || k in out.1[|unprocessed|..] || PageVerdict(pages[k]) == Ok(Ignored))
        && !(k in grouped && k in out.1[|unprocessed|..])
        && (PageVerdict(pages[k]) == Ok(Ignored) ==> k !in grouped && k !in out.1[|unprocessed|..])
  {
    var out := ClassifyPages(event, pages, unprocessed).value;
    ClassifyResolves(event, pages, unprocessed);
    ClassifyUnprocessed(event, pages, unprocessed);
    ClassifyGroupedPages(event, pages, unprocessed);
    Partition(pages, PageNumbers(Flat(Present(out.0))), out.1[|unprocessed|..]);
  }

  /** A successful call found usable classes on every page. */
  lemma ClassifyResolves(event: Event, pages: PageMap, unprocessed: seq<int>)
    requires ClassifyPages(event, pages, unprocessed).Ok?
    ensures forall k :: k in pages ==> PageVerdict(pages[k]).Ok?
  {
    ClassifyFails(event, pages, unprocessed);
    forall k | k in pages ensures PageVerdict(pages[k]).Ok? {
      assert !Orphan(pages, k);
    }
  }

  /** With every verdict known, the grouped and the below-threshold pages split
      the pages between them, leaving out exactly those of any other class. */
  lemma Partition(pages: PageMap, grouped: seq<int>, low: seq<int>)
    requires forall k :: k in pages ==> PageVerdict(pages[k]).Ok?
    requires forall k :: k in grouped <==> k in pages && (PageVerdict(pages[k]) == Ok(Opens) || PageVerdict(pages[k]) == Ok(Extends))
    requires forall k :: k in low <==> k in pages && PageVerdict(pages[k]) == Ok(Unclassified)
    ensures forall k :: k in grouped || k in low ==> k in pages
    ensures forall k :: k in pages ==>
      && pages[k].classification.Some?
      && (k in grouped || k in low || PageVerdict(pages[k]) == Ok(Ignored))
      && !(k in grouped && k in low)
      && (PageVerdict(pages[k]) == Ok(Ignored) ==> k !in grouped && k !in low)
  {
  }
}
