/** `process_comprehend_data`: the walk over the members of the classifier's
    output archive, which sends the manifest to `parse_manifest` and every
    Textract result to `parse_page`. */
module Entries {
  import opened Wrappers
  import opened PyText
  import opened Textract
  import opened Manifest
  import opened Seqs

  /** Members whose name ends with this are classifier manifests. */
  const ManifestSuffix: string := ".out"

  /** What reading one archive member yields. `NotAFile` is a member that
      `extractfile` returns `None` for: a directory, or another member with
      no data. A regular file, or a link `extractfile` follows to one, is
      given by the two decodings the code may apply to its content: the
      manifest's JSON lines, and a Textract result's `Blocks` (or the error
      decoding it raises). */
  datatype Payload =
    | NotAFile
    | File(manifestLines: seq<Result<ManifestRecord>>, blocks: Result<seq<Block>>)

  datatype Member = Member(name: string, payload: Payload)

  /** The page number a Textract member's name carries: the last path segment,
      stripped, read as an integer. */
  function PageNumberOf(name: string): (r: Result<int>)
    ensures r.Err? ==> r.error == InvalidLiteral(Strip(LastSegment(name)))
  {
    ParseInt(Strip(LastSegment(name)))
  }

  /** A name whose last segment, stripped, holds anything but digits,
      underscores and a leading sign, or does not end in a digit, raises. */
  lemma PageNameRejects(name: string)
    ensures !Numeral(Strip(LastSegment(name))) ==> PageNumberOf(name) == Err(InvalidLiteral(Strip(LastSegment(name))))
  {
    ParseIntRejects(Strip(LastSegment(name)));
  }

  /** A member named `<dir>/<n>`, with any whitespace around the number, is
      page `n`. */
  lemma PageNameRoundTrip(dir: string, before: string, n: int, after: string)
    requires AllSpace(before) && AllSpace(after)
    ensures PageNumberOf(dir + "/" + before + IntToString(n) + after) == Ok(n)
  {
    var digits := IntToString(n);
    var name := before + digits + after;
    assert '/' !in name by {
      forall i | 0 <= i < |name| ensures name[i] != '/' {
        if i < |before| {
          assert name[i] == before[i];
        } else if i < |before| + |digits| {
          assert name[i] == digits[i - |before|];
        } else {
          assert name[i] == after[i - |before| - |digits|];
        }
      }
    }
    assert dir + "/" + before + digits + after == dir + "/" + name;
    LastSegmentOfPath(dir, name);
    StripUnique(before, digits, after);
    ParseIntRoundTrip(n);
  }

  /** `pages[n]["OCR"] = text` on the default dictionary. */
  function SetText(pages: PageMap, n: int, text: string): (r: PageMap)
    ensures r.Keys == pages.Keys + {n}
    ensures r[n].ocr == Some(text) && r[n].classification == Lookup(pages, n).classification
    ensures forall k :: k != n ==> Lookup(r, k) == Lookup(pages, k)
    ensures forall k :: Lookup(r, k).classification == Lookup(pages, k).classification
  {
    var r := pages[n := Lookup(pages, n).(ocr := Some(text))];
    assert Lookup(r, n) == r[n];
    r
  }

  /** Recording text never touches a manifest record, so keys and records still agree. */
  lemma SetTextWellFormed(pages: PageMap, n: int, text: string)
    ensures WellFormed(pages) ==> WellFormed(SetText(pages, n, text))
  {
    var r := SetText(pages, n, text);
    if WellFormed(pages) {
      forall k | k in r && r[k].classification.Some? ensures r[k].classification.value.pageNumber == k {
        assert Lookup(r, k) == r[k];
        if k != n {
          assert Lookup(pages, k) == r[k];
        }
      }
    }
  }

  /** `parse_page`: record the text of one Textract result under the page
      number of its member name, keeping the page's manifest record. */
  function ParsePage(pages: PageMap, name: string, blocks: Result<seq<Block>>): (r: Result<PageMap>)
    ensures PageNumberOf(name).Err? ==> r == Err(PageNumberOf(name).error)
    ensures PageNumberOf(name).Ok? && blocks.Err? ==> r == Err(blocks.error)
    ensures r.Ok? <==> PageNumberOf(name).Ok? && blocks.Ok? && LinesHaveText(blocks.value)
    ensures r.Ok? ==> r.value == SetText(pages, PageNumberOf(name).value, ExtractText(blocks.value).value)
    ensures r.Ok? && WellFormed(pages) ==> WellFormed(r.value)
  {
    var n :- PageNumberOf(name);
    var content :- blocks;
    var text :- ExtractText(content);
    SetTextWellFormed(pages, n, text);
    Ok(SetText(pages, n, text))
  }

  /** The loop body of `process_comprehend_data` for one member. */
  function ProcessMember(pages: PageMap, unprocessed: seq<int>, member: Member): (r: Result<(PageMap, seq<int>)>)
    ensures member.payload.NotAFile? ==> r == Ok((pages, unprocessed))
    ensures member.payload.File? && !EndsWith(member.name, ManifestSuffix) && r.Ok? ==>
      && r.value.1 == unprocessed
      && forall k :: Lookup(r.value.0, k).classification == Lookup(pages, k).classification
    ensures r.Ok? && WellFormed(pages) ==> WellFormed(r.value.0)
  {
    match member.payload
    case NotAFile => Ok((pages, unprocessed))
    case File(lines, blocks) =>
      if EndsWith(member.name, ManifestSuffix) then ParseManifest(pages, unprocessed, lines)
      else
        var pages' :- ParsePage(pages, member.name, blocks);
        Ok((pages', unprocessed))
  }

  /** The loop of `process_comprehend_data` from some member on. */
  function ProcessMembers(pages: PageMap, unprocessed: seq<int>, members: seq<Member>): (r: Result<(PageMap, seq<int>)>)
    ensures r.Ok? && WellFormed(pages) ==> WellFormed(r.value.0)
    decreases |members|
  {
    if |members| == 0 then Ok((pages, unprocessed))
    else
      var (pages', unprocessed') :- ProcessMember(pages, unprocessed, members[0]);
      ProcessMembers(pages', unprocessed', members[1..])
  }

  /** `process_comprehend_data`: the page dictionary and the unprocessed list
      built from the archive members, in archive order. Each page's `OCR` is
      the text of the last Textract member that carries its number, and stays
      empty when no member does. */
  function ProcessComprehendData(members: seq<Member>): (r: Result<(PageMap, seq<int>)>)
    ensures r.Ok? ==> WellFormed(r.value.0)
    ensures r.Ok? ==> forall k :: match LastAt(TextPages(members), Some(k))
      case None => Lookup(r.value.0, k).ocr == None
      case Some(i) => members[i].payload.File? && TextOf(members[i]).Ok? && Lookup(r.value.0, k).ocr == Some(TextOf(members[i]).value)
  {
    var r := ProcessMembers(map[], [], members);
    if r.Ok? then MembersText(map[], [], members); r else r
  }

  // ---------------------------------------------------------------------------
  // Which pages the dictionary holds

  /** The page numbers a member brings into the dictionary when it is read. */
  function Brings(member: Member): set<int> {
    match member.payload
    case NotAFile => {}
    case File(lines, _) =>
      if EndsWith(member.name, ManifestSuffix) then Numbers(lines)
      else if PageNumberOf(member.name).Ok? then {PageNumberOf(member.name).value}
      else {}
  }

  function BroughtBy(members: seq<Member>): set<int> {
    if |members| == 0 then {} else Brings(members[0]) + BroughtBy(members[1..])
  }

  /** The dictionary holds exactly the pages some member mentions: the numbers
      of the Textract members and the page numbers of the manifest records. */
  lemma {:induction false} MembersBringPages(pages: PageMap, unprocessed: seq<int>, members: seq<Member>)
    requires ProcessMembers(pages, unprocessed, members).Ok?
    ensures ProcessMembers(pages, unprocessed, members).value.0.Keys == pages.Keys + BroughtBy(members)
    decreases |members|
  {
    if |members| > 0 {
      var step := ProcessMember(pages, unprocessed, members[0]).value;
      MembersBringPages(step.0, step.1, members[1..]);
    }
  }

  /** For the whole archive. */
  lemma ProcessedPages(members: seq<Member>)
    requires ProcessComprehendData(members).Ok?
    ensures ProcessComprehendData(members).value.0.Keys == BroughtBy(members)
  {
    MembersBringPages(map[], [], members);
  }

  // ---------------------------------------------------------------------------
  // Which text each page carries

  /** The page whose text a member sets when it is read: `Some(n)` for a
      regular file whose name does not end in `.out` and reads as `n`,
      `None` for every other member. */
  function TextPage(member: Member): Option<int> {
    if member.payload.File? && !EndsWith(member.name, ManifestSuffix) && PageNumberOf(member.name).Ok?
    then Some(PageNumberOf(member.name).value)
    else None
  }

  function TextPages(members: seq<Member>): (r: seq<Option<int>>)
    ensures |r| == |members|
    ensures forall i :: 0 <= i < |members| ==> r[i] == TextPage(members[i])
  {
    seq(|members|, i requires 0 <= i < |members| => TextPage(members[i]))
  }

  /** The text `parse_page` extracts from a regular file, or the error it raises. */
  function TextOf(member: Member): Result<string>
    requires member.payload.File?
  {
    var blocks :- member.payload.blocks;
    ExtractText(blocks)
  }

  /** One member sets the text of the page it carries and keeps every other page's. */
  lemma MemberText(pages: PageMap, u: seq<int>, member: Member)
    requires ProcessMember(pages, u, member).Ok?
    ensures var r := ProcessMember(pages, u, member).value;
      forall k :: if TextPage(member) == Some(k)
        then member.payload.File? && TextOf(member).Ok? && Lookup(r.0, k).ocr == Some(TextOf(member).value)
        else Lookup(r.0, k).ocr == Lookup(pages, k).ocr
  {
    var r := ProcessMember(pages, u, member).value;
    match member.payload
    case NotAFile =>
      assert TextPage(member) == None;
    case File(lines, blocks) =>
      if EndsWith(member.name, ManifestSuffix) {
        assert TextPage(member) == None;
        forall k ensures Lookup(r.0, k).ocr == Lookup(pages, k).ocr {
          if k !in r.0 {
            assert k !in pages;
          }
        }
      } else {
        var n := PageNumberOf(member.name).value;
        var text := ExtractText(blocks.value).value;
        assert TextPage(member) == Some(n);
        assert TextOf(member) == Ok(text);
        assert r.0 == SetText(pages, n, text);
        forall k ensures if n == k then Lookup(r.0, k).ocr == Some(text) else Lookup(r.0, k).ocr == Lookup(pages, k).ocr {
          if k == n {
            assert Lookup(r.0, k) == r.0[n];
          }
        }
      }
  }

  /** Reading members from some dictionary on: a page that some member
      carries holds the text of the last such member, and every other page
      keeps its text. */
  lemma {:induction false} MembersText(pages: PageMap, u: seq<int>, members: seq<Member>)
    requires ProcessMembers(pages, u, members).Ok?
    ensures var r := ProcessMembers(pages, u, members).value;
      forall k :: match LastAt(TextPages(members), Some(k))
        case None => Lookup(r.0, k).ocr == Lookup(pages, k).ocr
        case Some(i) => members[i].payload.File? && TextOf(members[i]).Ok? && Lookup(r.0, k).ocr == Some(TextOf(members[i]).value)
    decreases |members|
  {
    if |members| > 0 {
      var n := |members| - 1;
      var init := members[..n];
      assert members == init + [members[n]];
      ProcessMembersConcat(pages, u, init, [members[n]]);
      var a := ProcessMembers(pages, u, init).value;
      MembersText(pages, u, init);
      assert [members[n]][1..] == [];
      var step := ProcessMember(a.0, a.1, members[n]);
      assert ProcessMembers(step.value.0, step.value.1, []) == step;
      assert ProcessMembers(pages, u, members) == step;
      MemberText(a.0, a.1, members[n]);
      var tags := TextPages(members);
      assert tags == TextPages(init) + [TextPage(members[n])];
      forall k ensures match LastAt(tags, Some(k))
        case None => Lookup(step.value.0, k).ocr == Lookup(pages, k).ocr
        case Some(i) => members[i].payload.File? && TextOf(members[i]).Ok? && Lookup(step.value.0, k).ocr == Some(TextOf(members[i]).value)
      {
        LastAtSnoc(TextPages(init), TextPage(members[n]), Some(k));
        if tags[n] != Some(k) {
          if LastAt(tags, Some(k)).Some? {
            var i := LastAt(tags, Some(k)).value;
            assert members[i] == init[i];
          }
        }
      }
    }
  }

  // ---------------------------------------------------------------------------
  // Text and manifest records do not interfere

  lemma StoreSetText(pages: PageMap, n: int, text: string, item: ManifestRecord)
    ensures Store(SetText(pages, n, text), item) == SetText(Store(pages, item), n, text)
  {
  }

  /** Recording a page's text before reading a manifest is the same as after. */
  lemma {:induction false} ParseLinesSetText(
    pages: PageMap, u: seq<int>, total: int, lines: seq<Result<ManifestRecord>>, n: int, text: string)
    ensures var before := ParseLines(SetText(pages, n, text), u, total, lines);
      var after := ParseLines(pages, u, total, lines);
      && before.Ok? == after.Ok?
      && (before.Err? ==> before.error == after.error)
      && (before.Ok? ==> before.value == (SetText(after.value.0, n, text), after.value.1))
    decreases |lines|
  {
    if |lines| > 0 {
      if lines[0].Ok? {
        ParseLinesUnfold(SetText(pages, n, text), u, total, lines);
        ParseLinesUnfold(pages, u, total, lines);
        var item := lines[0].value;
        var rest := RemoveFirst(Expected(u, total, item), item.pageNumber);
        if rest.Ok? {
          StoreSetText(pages, n, text, item);
          ParseLinesSetText(Store(pages, item), rest.value, KnownTotal(total, item), lines[1..], n, text);
        }
      }
    }
  }

  /** Reading two members is reading the first, then the second from where the first left off. */
  lemma TwoMembers(pages: PageMap, u: seq<int>, a: Member, b: Member)
    ensures var first := ProcessMember(pages, u, a);
      ProcessMembers(pages, u, [a, b]) ==
        if first.Err? then Err(first.error) else ProcessMember(first.value.0, first.value.1, b)
  {
    assert [a, b][1..] == [b] && [b][1..] == [];
    var first := ProcessMember(pages, u, a);
    if first.Ok? {
      var second := ProcessMember(first.value.0, first.value.1, b);
      if second.Ok? {
        assert ProcessMembers(second.value.0, second.value.1, []) == second;
      }
    }
  }

  /** A Textract member and a manifest member can be read in either order:
      either both orders fail or both give the same dictionary and list. */
  lemma PageAndManifestCommute(pages: PageMap, u: seq<int>, page: Member, manifest: Member)
    requires page.payload.File? && !EndsWith(page.name, ManifestSuffix)
    requires manifest.payload.File? && EndsWith(manifest.name, ManifestSuffix)
    ensures ProcessMembers(pages, u, [page, manifest]).Ok? == ProcessMembers(pages, u, [manifest, page]).Ok?
    ensures ProcessMembers(pages, u, [page, manifest]).Ok? ==>
      ProcessMembers(pages, u, [page, manifest]) == ProcessMembers(pages, u, [manifest, page])
  {
    TwoMembers(pages, u, page, manifest);
    TwoMembers(pages, u, manifest, page);
    var lines := manifest.payload.manifestLines;
    var blocks := page.payload.blocks;
    var parsed := ParsePage(pages, page.name, blocks);
    var m := ParseManifest(pages, u, lines);
    assert ProcessMember(pages, u, manifest) == m;
    if parsed.Ok? {
      var n := PageNumberOf(page.name).value;
      var text := ExtractText(blocks.value).value;
      assert ProcessMember(pages, u, page) == Ok((SetText(pages, n, text), u));
      ParseLinesSetText(pages, u, -1, lines, n, text);
      assert ProcessMember(SetText(pages, n, text), u, manifest) == ParseManifest(SetText(pages, n, text), u, lines);
      if m.Ok? {
        assert ProcessMember(m.value.0, m.value.1, page) == Ok((SetText(m.value.0, n, text), m.value.1));
      }
    } else if m.Ok? {
      assert ParsePage(m.value.0, page.name, blocks).Err?;
    }
  }

  // ---------------------------------------------------------------------------
  // An archive with a single manifest

  /** No member is a manifest file. */
  predicate NoManifest(members: seq<Member>) {
    forall i :: 0 <= i < |members| && members[i].payload.File? ==> !EndsWith(members[i].name, ManifestSuffix)
  }

  /** Reading `a + b` is reading `a`, then `b` from where `a` left off. */
  lemma {:induction false} ProcessMembersConcat(pages: PageMap, u: seq<int>, a: seq<Member>, b: seq<Member>)
    ensures var first := ProcessMembers(pages, u, a);
      ProcessMembers(pages, u, a + b) ==
        if first.Err? then first else ProcessMembers(first.value.0, first.value.1, b)
    decreases |a|
  {
    if |a| == 0 {
      assert a + b == b;
    } else {
      assert (a + b)[0] == a[0] && (a + b)[1..] == a[1..] + b;
      var step := ProcessMember(pages, u, a[0]);
      if step.Ok? {
        ProcessMembersConcat(step.value.0, step.value.1, a[1..], b);
      }
    }
  }

  /** Members that are not manifests leave every manifest record and the
      unprocessed list as they were. */
  lemma {:induction false} PagesOnly(pages: PageMap, u: seq<int>, members: seq<Member>)
    requires NoManifest(members)
    requires ProcessMembers(pages, u, members).Ok?
    ensures ProcessMembers(pages, u, members).value.1 == u
    ensures forall k :: Lookup(ProcessMembers(pages, u, members).value.0, k).classification == Lookup(pages, k).classification
    decreases |members|
  {
    if |members| > 0 {
      var step := ProcessMember(pages, u, members[0]).value;
      assert NoManifest(members[1..]) by {
        forall i | 0 <= i < |members| - 1 ensures members[1..][i] == members[i + 1] { }
      }
      PagesOnly(step.0, step.1, members[1..]);
    }
  }

  /** The manifest member read on its own: the records it stores. */
  lemma ManifestMember(pages: PageMap, manifest: Member)
    requires manifest.payload.File? && EndsWith(manifest.name, ManifestSuffix)
    requires ProcessMembers(pages, [], [manifest]).Ok?
    ensures var lines := manifest.payload.manifestLines;
      var r := ProcessMembers(pages, [], [manifest]).value;
      && r == ParseManifest(pages, [], lines).value
      && forall k :: k in Numbers(lines) ==> Lookup(r.0, k).classification.Some?
  {
    var lines := manifest.payload.manifestLines;
    assert [manifest][1..] == [];
    var m := ParseManifest(pages, [], lines);
    assert ProcessMember(pages, [], manifest) == m;
    assert ProcessMembers(m.value.0, m.value.1, []) == m;
    if |lines| > 0 {
      FreshTotalPositive(pages, lines);
      ManifestStoresRecords(pages, lines);
      forall k | k in Numbers(lines) ensures Lookup(m.value.0, k).classification.Some? {
        var i :| 0 <= i < |lines| && lines[i].Ok? && lines[i].value.pageNumber == k;
      }
    }
  }

  /** An archive with a single manifest, announcing `N` pages: the pages that
      carry a manifest record are exactly the manifest's page numbers, all in
      `1..N`, and the unprocessed list is the rest of `1..N`, ascending. */
  lemma SingleManifest(pre: seq<Member>, manifest: Member, post: seq<Member>)
    requires manifest.payload.File? && EndsWith(manifest.name, ManifestSuffix)
    requires NoManifest(pre) && NoManifest(post)
    requires ProcessComprehendData(pre + [manifest] + post).Ok?
    ensures var lines := manifest.payload.manifestLines;
      var data := ProcessComprehendData(pre + [manifest] + post).value;
      var n := if |lines| > 0 && lines[0].Ok? then lines[0].value.pages else 0;
      && (forall k :: Lookup(data.0, k).classification.Some? <==> k in Numbers(lines))
      && (forall k :: k in Numbers(lines) ==> 1 <= k <= n)
      && StrictlyAscending(data.1)
      && (forall k :: k in data.1 <==> 1 <= k <= n && k !in Numbers(lines))
  {
    var lines := manifest.payload.manifestLines;
    assert pre + [manifest] + post == pre + ([manifest] + post);
    ProcessMembersConcat(map[], [], pre, [manifest] + post);
    var a := ProcessMembers(map[], [], pre).value;
    PagesOnly(map[], [], pre);
    ProcessMembersConcat(a.0, a.1, [manifest], post);
    ManifestMember(a.0, manifest);
    var m := ParseManifest(a.0, [], lines).value;
    PagesOnly(m.0, m.1, post);
    if |lines| > 0 {
      FreshTotalPositive(a.0, lines);
      ManifestSetArithmetic(a.0, lines);
      ManifestUnprocessedPages(a.0, lines);
    } else {
      assert Numbers(lines) == {};
    }
  }
}
