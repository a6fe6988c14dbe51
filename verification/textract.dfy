/** Turning one page's Textract result into its recognised text. */
module Textract {
  import opened Wrappers
  import opened PyText

  const LineType: string := "LINE"

  /** One entry of a Textract result's `Blocks` list; `text` is absent when the
      block carries no `Text` key. */
  datatype Block = Block(blockType: string, text: Option<string>)

  /** Every `LINE` block carries a `Text` value. */
  predicate LinesHaveText(blocks: seq<Block>) {
    forall i :: 0 <= i < |blocks| && blocks[i].blockType == LineType ==> blocks[i].text.Some?
  }

  /** What one block adds to the page text: its text and a line break for a
      `LINE` block, nothing for any other block. */
  function Contribution(b: Block): string {
    if b.blockType == LineType && b.text.Some? then b.text.value + "\n" else ""
  }

  /** The unstripped page text: the contributions of all blocks, in block order. */
  function LineText(blocks: seq<Block>): string {
    if |blocks| == 0 then "" else Contribution(blocks[0]) + LineText(blocks[1..])
  }

  lemma {:induction false} LineTextAppend(a: seq<Block>, b: seq<Block>)
    ensures LineText(a + b) == LineText(a) + LineText(b)
    decreases |a|
  {
    if a == [] {
      assert a + b == b;
    } else {
      assert (a + b)[0] == a[0];
      assert (a + b)[1..] == a[1..] + b;
      LineTextAppend(a[1..], b);
    }
  }

  /** The text of a page: the `LINE` texts, each ending a line, with the
      surrounding whitespace stripped; a `LINE` block without text is a `KeyError`. */
  function ExtractText(blocks: seq<Block>): (r: Result<string>)
    ensures r.Ok? <==> LinesHaveText(blocks)
    ensures r.Err? ==> r.error == MissingKey("Text")
    ensures r.Ok? ==> r.value == [] || (!IsSpace(r.value[0]) && !IsSpace(r.value[|r.value| - 1]))
  {
    if LinesHaveText(blocks) then Ok(Strip(LineText(blocks))) else Err(MissingKey("Text"))
  }

  lemma LinesHaveTextInsert(blocks: seq<Block>, k: nat, b: Block)
    requires k <= |blocks|
    requires b.blockType != LineType
    ensures LinesHaveText(blocks[..k] + [b] + blocks[k..]) <==> LinesHaveText(blocks)
  {
    var s := blocks[..k] + [b] + blocks[k..];
    if LinesHaveText(blocks) {
      forall i | 0 <= i < |s| && s[i].blockType == LineType ensures s[i].text.Some? {
        if i < k { assert s[i] == blocks[i]; } else if i > k { assert s[i] == blocks[i - 1]; }
      }
    }
    if LinesHaveText(s) {
      forall i | 0 <= i < |blocks| && blocks[i].blockType == LineType ensures blocks[i].text.Some? {
        if i < k { assert blocks[i] == s[i]; } else { assert blocks[i] == s[i + 1]; }
      }
    }
  }

  /** A block that contributes nothing drops out of the text wherever it sits. */
  lemma LineTextSkip(a: seq<Block>, b: Block, c: seq<Block>)
    requires Contribution(b) == ""
    ensures LineText(a + [b] + c) == LineText(a + c)
  {
    assert LineText([b]) == "" by {
      assert [b][1..] == [];
    }
    LineTextAppend(a + [b], c);
    LineTextAppend(a, [b]);
    LineTextAppend(a, c);
    assert LineText(a) + LineText([b]) == LineText(a);
  }

  lemma LineTextInsert(blocks: seq<Block>, k: nat, b: Block)
    requires k <= |blocks|
    requires b.blockType != LineType
    ensures LineText(blocks[..k] + [b] + blocks[k..]) == LineText(blocks)
  {
    var a, c := blocks[..k], blocks[k..];
    assert a + c == blocks;
    LineTextSkip(a, b, c);
  }

  /** Blocks of any other type can be inserted anywhere without changing the text. */
  lemma NonLineBlockIgnored(blocks: seq<Block>, k: nat, b: Block)
    requires k <= |blocks|
    requires b.blockType != LineType
    ensures ExtractText(blocks[..k] + [b] + blocks[k..]) == ExtractText(blocks)
  {
    LinesHaveTextInsert(blocks, k, b);
    LineTextInsert(blocks, k, b);
  }

  lemma LineTextSnoc(a: seq<Block>, b: Block)
    ensures LineText(a + [b]) == LineText(a) + Contribution(b)
  {
    assert LineText([b]) == Contribution(b) by {
      assert [b][1..] == [];
    }
    LineTextAppend(a, [b]);
  }

  lemma LinesHaveTextSnoc(a: seq<Block>, b: Block)
    ensures LinesHaveText(a + [b]) <==> LinesHaveText(a) && (b.blockType == LineType ==> b.text.Some?)
  {
    var s := a + [b];
    assert s[|a|] == b;
    if LinesHaveText(a) && (b.blockType == LineType ==> b.text.Some?) {
      forall i | 0 <= i < |s| && s[i].blockType == LineType ensures s[i].text.Some? {
        if i < |a| { assert s[i] == a[i]; }
      }
    }
    if LinesHaveText(s) {
      forall i | 0 <= i < |a| && a[i].blockType == LineType ensures a[i].text.Some? {
        assert s[i] == a[i];
      }
    }
  }

  /** The source's loop: accumulate `Text + "\n"` for each `LINE` block, then strip. */
  method ExtractTextFromTextractResults(blocks: seq<Block>) returns (r: Result<string>)
    ensures r == ExtractText(blocks)
  {
    var text := "";
    var i := 0;
    while i < |blocks|
      invariant 0 <= i <= |blocks|
      invariant text == LineText(blocks[..i])
      invariant LinesHaveText(blocks[..i])
    {
      var b := blocks[i];
      if b.blockType == LineType && b.text.None? {
        assert !LinesHaveText(blocks) by {
          assert blocks[i].blockType == LineType && blocks[i].text.None?;
        }
        return Err(MissingKey("Text"));
      }
      assert blocks[..i + 1] == blocks[..i] + [b];
      LineTextSnoc(blocks[..i], b);
      LinesHaveTextSnoc(blocks[..i], b);
      if b.blockType == LineType {
        text := text + b.text.value + "\n";
      }
      i := i + 1;
    }
    assert blocks[..i] == blocks;
    return Ok(Strip(text));
  }
}
