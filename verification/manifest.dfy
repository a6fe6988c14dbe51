/** The per-page records, and parsing the classifier's manifest (one JSON record
    per line) into them. */
module Manifest {
  import opened Wrappers
  import opened Seqs

  /** One entry of a record's `Classes` list. Scores are reals: only `<` and the
      maximum are ever taken of them. */
  datatype ClassScore = ClassScore(name: string, score: real)

  /** A manifest record: its `DocumentMetadata.PageNumber`, its
      `DocumentMetadata.Pages` (the page total of the job) and its `Classes`. */
  datatype ManifestRecord = ManifestRecord(pageNumber: int, pages: int, classes: seq<ClassScore>)

  /** One value of the page dict: `Classification` is `None` (the empty dict)
      until a manifest record is stored for the page, `OCR` until its Textract
      result is read. */
  datatype PageRecord = PageRecord(classification: Option<ManifestRecord>, ocr: Option<string>)

  type PageMap = map<int, PageRecord>

  const EmptyPage: PageRecord := PageRecord(None, None)

  /** Reading `pages[k]` from the default dict: a page never seen reads as empty. */
  function Lookup(pages: PageMap, k: int): PageRecord {
    if k in pages then pages[k] else EmptyPage
  }

  /** Every stored manifest record sits under its own page number. */
  predicate WellFormed(pages: PageMap) {
    forall k :: k in pages && pages[k].classification.Some? ==> pages[k].classification.value.pageNumber == k
  }

  /** `list(range(lo, hi))`. */
  function Range(lo: int, hi: int): (r: seq<int>)
    ensures |r| == if hi <= lo then 0 else hi - lo
    ensures forall i :: 0 <= i < |r| ==> r[i] == lo + i
    decreases hi - lo
  {
    if hi <= lo then [] else [lo] + Range(lo + 1, hi)
  }

  /** The position of the first occurrence of `x` in `xs`. */
  function FirstIndex(xs: seq<int>, x: int): (i: nat)
    requires x in xs
    ensures i < |xs| && xs[i] == x
    ensures forall j :: 0 <= j < i ==> xs[j] != x
  {
    if xs[0] == x then 0 else 1 + FirstIndex(xs[1..], x)
  }

  /** `xs.remove(x)`: scans for `x`, drops its first occurrence, raises
      `ValueError` when it is absent. */
  function RemoveFirst(xs: seq<int>, x: int): (r: Result<seq<int>>)
    ensures r.Err? <==> x !in xs
    ensures r.Err? ==> r.error == NotInList
    ensures r.Ok? ==> r.value == xs[..FirstIndex(xs, x)] + xs[FirstIndex(xs, x) + 1..]
  {
    if |xs| == 0 then Err(NotInList)
    else if xs[0] == x then Ok(xs[1..])
    else
      var rest :- RemoveFirst(xs[1..], x);
      RemoveFirstStep(xs, x, rest);
      Ok([xs[0]] + rest)
  }

  /** Removing past a different head keeps the head in front. */
  lemma RemoveFirstStep(xs: seq<int>, x: int, rest: seq<int>)
    requires |xs| > 0 && xs[0] != x && x in xs[1..]
    requires rest == xs[1..][..FirstIndex(xs[1..], x)] + xs[1..][FirstIndex(xs[1..], x) + 1..]
    ensures x in xs && [xs[0]] + rest == xs[..FirstIndex(xs, x)] + xs[FirstIndex(xs, x) + 1..]
  {
    var tail := xs[1..];
    var i := FirstIndex(tail, x);
    assert FirstIndex(xs, x) == i + 1;
    assert [xs[0]] + tail[..i] == xs[..i + 1];
    assert tail[i + 1..] == xs[i + 2..];
  }

  /** The page numbers of the lines that decoded. */
  function Numbers(lines: seq<Result<ManifestRecord>>): set<int> {
    set i | 0 <= i < |lines| && lines[i].Ok? :: lines[i].value.pageNumber
  }

  predicate AllDecoded(lines: seq<Result<ManifestRecord>>) {
    forall i :: 0 <= i < |lines| ==> lines[i].Ok?
  }

  /** No two decoded lines name the same page. */
  predicate DistinctNumbers(lines: seq<Result<ManifestRecord>>) {
    forall i, j :: 0 <= i < j < |lines| && lines[i].Ok? && lines[j].Ok? ==>
      lines[i].value.pageNumber != lines[j].value.pageNumber
  }

  lemma NumbersTail(lines: seq<Result<ManifestRecord>>)
    requires |lines| > 0
    ensures Numbers(lines) == (if lines[0].Ok? then {lines[0].value.pageNumber} else {}) + Numbers(lines[1..])
  {
    var tail := lines[1..];
    forall k | k in Numbers(lines) ensures k in (if lines[0].Ok? then {lines[0].value.pageNumber} else {}) + Numbers(tail) {
      var i :| 0 <= i < |lines| && lines[i].Ok? && lines[i].value.pageNumber == k;
      if i > 0 {
        assert tail[i - 1] == lines[i];
      }
    }
    forall k | k in Numbers(tail) ensures k in Numbers(lines) {
      var i :| 0 <= i < |tail| && tail[i].Ok? && tail[i].value.pageNumber == k;
      assert lines[i + 1] == tail[i];
    }
  }

  /** The unprocessed list once `item` has been read: the first record read
      while the total is still negative appends `1..Pages`. */
  function Expected(unprocessed: seq<int>, total: int, item: ManifestRecord): seq<int> {
    if total < 0 then unprocessed + Range(1, item.pages + 1) else unprocessed
  }

  /** The total once `item` has been read. */
  function KnownTotal(total: int, item: ManifestRecord): int {
    if total < 0 then item.pages else total
  }

  /** `pages[page]['Classification'] = item`. */
  function Store(pages: PageMap, item: ManifestRecord): PageMap {
    pages[item.pageNumber := Lookup(pages, item.pageNumber).(classification := Some(item))]
  }

  /** Storing a record touches only its own page and keeps that page's text. */
  lemma StoreFacts(pages: PageMap, item: ManifestRecord)
    ensures Store(pages, item).Keys == pages.Keys + {item.pageNumber}
    ensures Lookup(Store(pages, item), item.pageNumber).classification == Some(item)
    ensures forall k :: k in Store(pages, item) ==> Store(pages, item)[k].ocr == Lookup(pages, k).ocr
    ensures forall k :: k != item.pageNumber ==> Lookup(Store(pages, item), k) == Lookup(pages, k)
    ensures WellFormed(pages) ==> WellFormed(Store(pages, item))
  {
  }

  /** A page number no decoded line carries is not among the numbers of the lines. */
  lemma NumberAbsent(lines: seq<Result<ManifestRecord>>, p: int)
    requires forall j :: 0 <= j < |lines| && lines[j].Ok? ==> lines[j].value.pageNumber != p
    ensures p !in Numbers(lines)
  {
  }

  /** The dictionary the stores of `parse_manifest` build, ignoring the
      unprocessed list: every decoded record stored in line order. */
  function StoreAll(pages: PageMap, lines: seq<Result<ManifestRecord>>): PageMap
    decreases |lines|
  {
    if |lines| == 0 then pages
    else StoreAll(if lines[0].Ok? then Store(pages, lines[0].value) else pages, lines[1..])
  }

  /** What the stores do to the dictionary: they add the records' pages, keep
      every page's text, leave every other page alone and file each record
      under its own number. */
  lemma {:induction false} StoreAllFacts(pages: PageMap, lines: seq<Result<ManifestRecord>>)
    ensures StoreAll(pages, lines).Keys == pages.Keys + Numbers(lines)
    ensures forall k :: k in StoreAll(pages, lines) ==> StoreAll(pages, lines)[k].ocr == Lookup(pages, k).ocr
    ensures forall k :: k !in Numbers(lines) ==> Lookup(StoreAll(pages, lines), k) == Lookup(pages, k)
    ensures WellFormed(pages) ==> WellFormed(StoreAll(pages, lines))
    decreases |lines|
  {
    if |lines| == 0 {
      assert Numbers(lines) == {};
    } else {
      var next := if lines[0].Ok? then Store(pages, lines[0].value) else pages;
      var r := StoreAll(pages, lines);
      assert r == StoreAll(next, lines[1..]);
      NumbersTail(lines);
      StoreAllFacts(next, lines[1..]);
      if lines[0].Ok? {
        StoreFacts(pages, lines[0].value);
        forall k | k in r ensures r[k].ocr == Lookup(pages, k).ocr {
          assert Lookup(r, k) == r[k];
        }
      }
    }
  }

  /** The loop of `parse_manifest` from some line on: `total` is the page
      total read so far (negative until a record has seeded the expected
      pages). Each line is decoded, its page number removed from the unprocessed
      list, and the record stored as that page's classification. */
  function ParseLines(pages: PageMap, unprocessed: seq<int>, total: int, lines: seq<Result<ManifestRecord>>)
    : (r: Result<(PageMap, seq<int>)>)
    ensures r.Ok? ==> AllDecoded(lines)
    ensures r.Ok? ==> r.value.0 == StoreAll(pages, lines)
    decreases |lines|
  {
    if |lines| == 0 then Ok((pages, unprocessed))
    else
      var item :- lines[0];
      var rest :- RemoveFirst(Expected(unprocessed, total, item), item.pageNumber);
      var r := ParseLines(Store(pages, item), rest, KnownTotal(total, item), lines[1..]);
      assert r.Ok? ==> AllDecoded(lines) by {
        if r.Ok? {
          forall i | 0 <= i < |lines| ensures lines[i].Ok? {
            if i > 0 { assert lines[i] == lines[1..][i - 1]; }
          }
        }
      }
      r
  }

  /** One turn of the loop. */
  lemma ParseLinesUnfold(pages: PageMap, u: seq<int>, total: int, lines: seq<Result<ManifestRecord>>)
    requires |lines| > 0 && lines[0].Ok?
    ensures var item := lines[0].value;
      var seeded := Expected(u, total, item);
      ParseLines(pages, u, total, lines) ==
        if item.pageNumber in seeded then
          ParseLines(Store(pages, item), RemoveFirst(seeded, item.pageNumber).value, KnownTotal(total, item), lines[1..])
        else Err(NotInList)
  {
  }

  /** `parse_manifest(pages, unprocessed_pages, file)` for a manifest whose lines
      decode to `lines`. */
  function ParseManifest(pages: PageMap, unprocessed: seq<int>, lines: seq<Result<ManifestRecord>>)
    : (r: Result<(PageMap, seq<int>)>)
    ensures r.Ok? ==> AllDecoded(lines)
    ensures r.Ok? ==> r.value.0.Keys == pages.Keys + Numbers(lines)
    ensures r.Ok? ==> forall k :: k in r.value.0 ==> r.value.0[k].ocr == Lookup(pages, k).ocr
    ensures r.Ok? ==> forall k :: k !in Numbers(lines) ==> Lookup(r.value.0, k) == Lookup(pages, k)
    ensures r.Ok? && WellFormed(pages) ==> WellFormed(r.value.0)
  {
    StoreAllFacts(pages, lines);
    ParseLines(pages, unprocessed, -1, lines)
  }

  /** Every decoded line names a page still in `u`. */
  predicate AllExpected(lines: seq<Result<ManifestRecord>>, u: seq<int>) {
    forall i :: 0 <= i < |lines| && lines[i].Ok? ==> lines[i].value.pageNumber in u
  }

  /** Removing the first line's page from the expected list turns the
      conditions on the whole manifest into the same conditions on the rest. */
  lemma ConditionsTail(lines: seq<Result<ManifestRecord>>, u: seq<int>, rest: seq<int>)
    requires |lines| > 0 && lines[0].Ok? && lines[0].value.pageNumber in u
    requires rest == Without(u, {lines[0].value.pageNumber})
    ensures AllExpected(lines[1..], rest) && DistinctNumbers(lines[1..])
        <==> AllExpected(lines, u) && DistinctNumbers(lines)
  {
    var p := lines[0].value.pageNumber;
    var tail := lines[1..];
    if AllExpected(tail, rest) && DistinctNumbers(tail) {
      forall j | 0 <= j < |lines| && lines[j].Ok? ensures lines[j].value.pageNumber in u {
        if j > 0 {
          assert lines[j] == tail[j - 1];
          assert lines[j].value.pageNumber in rest;
        }
      }
      forall a, b | 0 <= a < b < |lines| && lines[a].Ok? && lines[b].Ok?
        ensures lines[a].value.pageNumber != lines[b].value.pageNumber
      {
        assert lines[b] == tail[b - 1];
        assert lines[b].value.pageNumber in rest;
        if a > 0 { assert lines[a] == tail[a - 1]; }
      }
    }
    if AllExpected(lines, u) && DistinctNumbers(lines) {
      forall j | 0 <= j < |tail| && tail[j].Ok? ensures tail[j].value.pageNumber in rest {
        assert tail[j] == lines[j + 1];
        assert tail[j].value.pageNumber != p;
      }
      forall a, b | 0 <= a < b < |tail| && tail[a].Ok? && tail[b].Ok?
        ensures tail[a].value.pageNumber != tail[b].value.pageNumber
      {
        assert tail[a] == lines[a + 1] && tail[b] == lines[b + 1];
      }
    }
  }

  /** Once the expected pages are seeded (and the list has no repeats), the lines
      succeed exactly when every page number is still expected and none repeats,
      and what stays unprocessed is the expected list minus the numbers seen. */
  lemma {:induction false} ParseLinesSeeded(pages: PageMap, u: seq<int>, total: int, lines: seq<Result<ManifestRecord>>)
    requires total >= 0 && NoDup(u) && AllDecoded(lines)
    ensures var r := ParseLines(pages, u, total, lines);
      && (r.Ok? <==> AllExpected(lines, u) && DistinctNumbers(lines))
      && (r.Ok? ==> r.value.1 == Without(u, Numbers(lines)))
    decreases |lines|
  {
    if |lines| == 0 {
      assert Numbers(lines) == {};
      WithoutNone(u, {});
    } else {
      var p := lines[0].value.pageNumber;
      var tail := lines[1..];
      assert AllDecoded(tail) by {
        forall i | 0 <= i < |tail| ensures tail[i].Ok? { assert tail[i] == lines[i + 1]; }
      }
      ParseLinesUnfold(pages, u, total, lines);
      if p in u {
        var i := FirstIndex(u, p);
        var rest := RemoveFirst(u, p).value;
        DropOnly(u, i);
        WithoutNoDup(u, {p});
        ParseLinesSeeded(Store(pages, lines[0].value), rest, total, tail);
        ConditionsTail(lines, u, rest);
        NumbersTail(lines);
        WithoutWithout(u, {p}, Numbers(tail));
      } else {
        assert !AllExpected(lines, u);
      }
    }
  }

  /** With a non-negative first total and nothing unprocessed yet, the first
      record seeds `1..N`, and the remaining lines run with that total. */
  lemma SeedFromFirstRecord(pages: PageMap, lines: seq<Result<ManifestRecord>>)
    requires |lines| > 0 && lines[0].Ok? && lines[0].value.pages >= 0
    ensures ParseManifest(pages, [], lines)
         == ParseLines(pages, Range(1, lines[0].value.pages + 1), lines[0].value.pages, lines)
  {
    var expected := Range(1, lines[0].value.pages + 1);
    assert [] + expected == expected;
    ParseLinesUnfold(pages, [], -1, lines);
    ParseLinesUnfold(pages, expected, lines[0].value.pages, lines);
  }

  lemma RangeFacts(lo: int, hi: int)
    ensures StrictlyAscending(Range(lo, hi)) && NoDup(Range(lo, hi))
    ensures forall k :: k in Range(lo, hi) <==> lo <= k < hi
  {
    var r := Range(lo, hi);
    forall k | lo <= k < hi ensures k in r {
      assert r[k - lo] == k;
    }
  }

  /** Set arithmetic of `parse_manifest` on a fresh job: with `N` the first
      record's total, parsing succeeds exactly when every page number lies in
      `1..N` and none repeats, and the unprocessed list is then `1..N` without
      the numbers seen, in order. */
  lemma ManifestSetArithmetic(pages: PageMap, lines: seq<Result<ManifestRecord>>)
    requires |lines| > 0 && AllDecoded(lines) && lines[0].value.pages >= 0
    ensures var n := lines[0].value.pages;
      var r := ParseManifest(pages, [], lines);
      && (r.Ok? <==> (forall i :: 0 <= i < |lines| ==> 1 <= lines[i].value.pageNumber <= n) && DistinctNumbers(lines))
      && (r.Ok? ==> r.value.1 == Without(Range(1, n + 1), Numbers(lines)))
  {
    var n := lines[0].value.pages;
    var expected := Range(1, n + 1);
    SeedFromFirstRecord(pages, lines);
    RangeFacts(1, n + 1);
    ParseLinesSeeded(pages, expected, n, lines);
    ExpectedInRange(lines, n);
  }

  /** Every page number is expected exactly when it lies in `1..n`. */
  lemma ExpectedInRange(lines: seq<Result<ManifestRecord>>, n: int)
    requires AllDecoded(lines)
    ensures AllExpected(lines, Range(1, n + 1)) <==> forall i :: 0 <= i < |lines| ==> 1 <= lines[i].value.pageNumber <= n
  {
    RangeFacts(1, n + 1);
  }

  /** What a fresh job's manifest leaves unprocessed is exactly the pages of
      `1..N` no record named, in ascending order. */
  lemma ManifestUnprocessedPages(pages: PageMap, lines: seq<Result<ManifestRecord>>)
    requires |lines| > 0 && AllDecoded(lines) && lines[0].value.pages >= 0
    requires ParseManifest(pages, [], lines).Ok?
    ensures var u := ParseManifest(pages, [], lines).value.1;
      && StrictlyAscending(u)
      && (forall k :: k in u <==> 1 <= k <= lines[0].value.pages && k !in Numbers(lines))
  {
    ManifestSetArithmetic(pages, lines);
    RangeWithout(lines[0].value.pages, Numbers(lines));
  }

  /** `1..n` with a set filtered out is ascending and holds the rest of `1..n`. */
  lemma RangeWithout(n: int, s: set<int>)
    ensures StrictlyAscending(Without(Range(1, n + 1), s))
    ensures forall k :: k in Without(Range(1, n + 1), s) <==> 1 <= k <= n && k !in s
  {
    RangeFacts(1, n + 1);
    WithoutAscending(Range(1, n + 1), s);
  }

  /** A successful parse took its first step: the first line decoded, its page
      was expected, and the rest was parsed from the stored record on. */
  lemma SuccessfulStep(pages: PageMap, u: seq<int>, total: int, lines: seq<Result<ManifestRecord>>)
    requires |lines| > 0 && ParseLines(pages, u, total, lines).Ok?
    ensures lines[0].Ok?
    ensures var item := lines[0].value;
      var seeded := Expected(u, total, item);
      && item.pageNumber in seeded
      && ParseLines(pages, u, total, lines)
         == ParseLines(Store(pages, item), RemoveFirst(seeded, item.pageNumber).value, KnownTotal(total, item), lines[1..])
  {
    ParseLinesUnfold(pages, u, total, lines);
  }

  /** Line `i` decoded and no later decoded line names the same page. */
  predicate NotRepeatedAfter(lines: seq<Result<ManifestRecord>>, i: nat)
    requires i < |lines|
  {
    && lines[i].Ok?
    && forall j :: i < j < |lines| && lines[j].Ok? ==> lines[j].value.pageNumber != lines[i].value.pageNumber
  }

  lemma NotRepeatedTail(lines: seq<Result<ManifestRecord>>, i: nat)
    requires 0 < i < |lines| && NotRepeatedAfter(lines, i)
    ensures NotRepeatedAfter(lines[1..], i - 1)
  {
    var tail := lines[1..];
    assert tail[i - 1] == lines[i];
    forall j | i - 1 < j < |tail| && tail[j].Ok? ensures tail[j].value.pageNumber != tail[i - 1].value.pageNumber {
      assert tail[j] == lines[j + 1];
    }
  }

  /** Stores of other pages leave a page as it was. */
  lemma {:induction false} StoreAllKeeps(pages: PageMap, lines: seq<Result<ManifestRecord>>, p: int)
    requires forall j :: 0 <= j < |lines| && lines[j].Ok? ==> lines[j].value.pageNumber != p
    ensures Lookup(StoreAll(pages, lines), p) == Lookup(pages, p)
    decreases |lines|
  {
    if |lines| > 0 {
      var tail := lines[1..];
      var next := if lines[0].Ok? then Store(pages, lines[0].value) else pages;
      if lines[0].Ok? {
        StoreFacts(pages, lines[0].value);
      }
      forall j | 0 <= j < |tail| && tail[j].Ok? ensures tail[j].value.pageNumber != p {
        assert tail[j] == lines[j + 1];
      }
      StoreAllKeeps(next, tail, p);
    }
  }

  /** The last record for a page is the one the stores leave. */
  lemma {:induction false} StoreAllLast(pages: PageMap, lines: seq<Result<ManifestRecord>>, i: nat)
    requires i < |lines| && NotRepeatedAfter(lines, i)
    ensures Lookup(StoreAll(pages, lines), lines[i].value.pageNumber).classification == Some(lines[i].value)
    decreases |lines|
  {
    var tail := lines[1..];
    var next := if lines[0].Ok? then Store(pages, lines[0].value) else pages;
    if i == 0 {
      var item := lines[0].value;
      forall j | 0 <= j < |tail| && tail[j].Ok? ensures tail[j].value.pageNumber != item.pageNumber {
        assert tail[j] == lines[j + 1];
      }
      StoreFacts(pages, item);
      StoreAllKeeps(next, tail, item.pageNumber);
    } else {
      assert lines[i] == tail[i - 1];
      NotRepeatedTail(lines, i);
      StoreAllLast(next, tail, i - 1);
    }
  }

  /** A record whose page number no later line repeats is the one stored for that page. */
  lemma LastRecordStored(pages: PageMap, u: seq<int>, total: int, lines: seq<Result<ManifestRecord>>, i: nat)
    requires ParseLines(pages, u, total, lines).Ok?
    requires i < |lines| && NotRepeatedAfter(lines, i)
    ensures Lookup(ParseLines(pages, u, total, lines).value.0, lines[i].value.pageNumber).classification == Some(lines[i].value)
  {
    StoreAllLast(pages, lines, i);
  }

  /** Parsing a fresh job's manifest stores every record under its page number. */
  lemma ManifestStoresRecords(pages: PageMap, lines: seq<Result<ManifestRecord>>)
    requires ParseManifest(pages, [], lines).Ok?
    requires |lines| > 0 && lines[0].Ok? && lines[0].value.pages >= 0
    ensures forall i :: 0 <= i < |lines| ==>
      Lookup(ParseManifest(pages, [], lines).value.0, lines[i].value.pageNumber).classification == Some(lines[i].value)
  {
    ManifestSetArithmetic(pages, lines);
    forall i | 0 <= i < |lines|
      ensures Lookup(ParseManifest(pages, [], lines).value.0, lines[i].value.pageNumber).classification == Some(lines[i].value)
    {
      assert NotRepeatedAfter(lines, i);
      LastRecordStored(pages, [], -1, lines, i);
    }
  }

  /** A manifest is checked against the shared list, which still holds what
      earlier manifests left: a page left over earlier may be named twice by a
      manifest whose own range also holds it. */
  lemma LeftoverAdmitsRepeat(pages: PageMap, u: seq<int>, page: int, total: int, classes: seq<ClassScore>)
    requires page in u && 1 <= page <= total
    ensures ParseManifest(pages, u, [Ok(ManifestRecord(page, total, classes)), Ok(ManifestRecord(page, total, classes))]).Ok?
  {
    var item := ManifestRecord(page, total, classes);
    var lines := [Ok(item), Ok(item)];
    var seeded := u + Range(1, total + 1);
    assert Expected(u, -1, item) == seeded;
    var f := FirstIndex(seeded, page);
    var k := |u| + page - 1;
    assert seeded[k] == page;
    assert f < |u| by {
      var i :| 0 <= i < |u| && u[i] == page;
      assert seeded[i] == page;
    }
    var rest := seeded[..f] + seeded[f + 1..];
    assert RemoveFirst(seeded, page) == Ok(rest);
    assert rest[k - 1] == page;
    ParseLinesUnfold(pages, u, -1, lines);
    assert ParseLines(pages, u, -1, lines) == ParseLines(Store(pages, item), rest, total, lines[1..]);
    ParseLinesUnfold(Store(pages, item), rest, total, lines[1..]);
    assert Expected(rest, total, item) == rest;
  }

  /** A page beyond the manifest's own total is accepted when an earlier
      manifest left it over. */
  lemma LeftoverAdmitsBeyondTotal(pages: PageMap, u: seq<int>, page: int, total: int, classes: seq<ClassScore>)
    requires page in u && page > total
    ensures ParseManifest(pages, u, [Ok(ManifestRecord(page, total, classes))]).Ok?
  {
    var item := ManifestRecord(page, total, classes);
    ParseLinesUnfold(pages, u, -1, [Ok(item)]);
    assert page in Expected(u, -1, item);
  }

  /** On a fresh job the first record must announce at least one page: with a
      total below one, `range(1, total + 1)` is empty and its `remove` raises. */
  lemma FreshTotalPositive(pages: PageMap, lines: seq<Result<ManifestRecord>>)
    requires |lines| > 0
    requires ParseManifest(pages, [], lines).Ok?
    ensures lines[0].Ok? && lines[0].value.pages >= 1
  {
    var item := lines[0].value;
    ParseLinesUnfold(pages, [], -1, lines);
    var seeded := Expected([], -1, item);
    assert item.pageNumber in seeded;
  }

  lemma TailsAgree(lines: seq<Result<ManifestRecord>>, lines': seq<Result<ManifestRecord>>)
    requires |lines| == |lines'| > 0 && AllDecoded(lines) && AllDecoded(lines')
    requires forall i :: 0 <= i < |lines| ==> lines[i].value.pageNumber == lines'[i].value.pageNumber
    ensures AllDecoded(lines[1..]) && AllDecoded(lines'[1..])
    ensures forall i :: 0 <= i < |lines| - 1 ==> lines[1..][i].value.pageNumber == lines'[1..][i].value.pageNumber
  {
    var tail, tail' := lines[1..], lines'[1..];
    forall i | 0 <= i < |tail| ensures tail[i].Ok? && tail'[i].Ok? {
      assert tail[i] == lines[i + 1] && tail'[i] == lines'[i + 1];
    }
    forall i | 0 <= i < |tail| ensures tail[i].value.pageNumber == tail'[i].value.pageNumber {
      assert tail[i] == lines[i + 1] && tail'[i] == lines'[i + 1];
    }
  }

  /** After seeding, the unprocessed list and whether parsing fails depend only
      on the page numbers of the lines, whatever the stored pages and totals. */
  lemma {:induction false} UnprocessedIgnoresTotals(
      pages: PageMap, pages': PageMap, u: seq<int>, total: int, total': int,
      lines: seq<Result<ManifestRecord>>, lines': seq<Result<ManifestRecord>>)
    requires total >= 0 && total' >= 0
    requires |lines| == |lines'| && AllDecoded(lines) && AllDecoded(lines')
    requires forall i :: 0 <= i < |lines| ==> lines[i].value.pageNumber == lines'[i].value.pageNumber
    ensures ParseLines(pages, u, total, lines).Ok? <==> ParseLines(pages', u, total', lines').Ok?
    ensures ParseLines(pages, u, total, lines).Ok? ==>
      ParseLines(pages, u, total, lines).value.1 == ParseLines(pages', u, total', lines').value.1
    decreases |lines|
  {
    if |lines| > 0 {
      ParseLinesUnfold(pages, u, total, lines);
      ParseLinesUnfold(pages', u, total', lines');
      var p := lines[0].value.pageNumber;
      if p in u {
        TailsAgree(lines, lines');
        UnprocessedIgnoresTotals(Store(pages, lines[0].value), Store(pages', lines'[0].value),
          RemoveFirst(u, p).value, total, total', lines[1..], lines'[1..]);
      }
    }
  }

  /** Only the first record's `Pages` matters: later records may declare any
      other total without changing the outcome or the unprocessed list. */
  lemma LaterTotalsIgnored(pages: PageMap, u: seq<int>, lines: seq<Result<ManifestRecord>>, lines': seq<Result<ManifestRecord>>)
    requires |lines| == |lines'| > 0 && AllDecoded(lines) && AllDecoded(lines')
    requires lines[0] == lines'[0] && lines[0].value.pages >= 0
    requires forall i :: 0 <= i < |lines| ==> lines[i].value.pageNumber == lines'[i].value.pageNumber
    ensures ParseManifest(pages, u, lines).Ok? <==> ParseManifest(pages, u, lines').Ok?
    ensures ParseManifest(pages, u, lines).Ok? ==>
      ParseManifest(pages, u, lines).value.1 == ParseManifest(pages, u, lines').value.1
  {
    var item := lines[0].value;
    ParseLinesUnfold(pages, u, -1, lines);
    ParseLinesUnfold(pages, u, -1, lines');
    var seeded := Expected(u, -1, item);
    if item.pageNumber in seeded {
      TailsAgree(lines, lines');
      UnprocessedIgnoresTotals(Store(pages, item), Store(pages, item),
        RemoveFirst(seeded, item.pageNumber).value, item.pages, item.pages, lines[1..], lines'[1..]);
    }
  }
}
