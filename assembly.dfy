/**
  Page assembly and the two renderings of the kept pages
  (Medical_reports.py:53-68), and the prompt built from them
  (Medical_reports.py:89-90).

  The OCR reply is the parsed JSON of the recognition service: it may lack
  the `pages` key, and each page may lack the `markdown` key. A page is kept
  when its markdown is present and not blank; the kept pages are stored
  stripped, in input order.
 */
module Assembly {
  import opened Wrappers
  import opened Text

  /** One recognised page: its `markdown` field, if the key is present. */
  datatype Page = Page(markdown: Option<string>)

  /** The OCR reply: its `pages` list, if the key is present. */
  datatype OcrResponse = OcrResponse(pages: Option<seq<Page>>)

  /** The condition of Medical_reports.py:56. */
  predicate Usable(p: Page) {
    p.markdown.Some? && Strip(p.markdown.value) != []
  }

  /** What one page contributes to the blocks: its stripped text, or nothing. */
  function Contribution(p: Page): (r: seq<string>)
    ensures |r| <= 1
    ensures r != [] <==> Usable(p)
    ensures r != [] ==> r[0] != [] && IsStripped(r[0])
  {
    if Usable(p) then [Strip(p.markdown.value)] else []
  }

  /** The blocks kept from `pages`, page by page from the first; there are
      never more blocks than pages. */
  function Kept(pages: seq<Page>): (r: seq<string>)
    ensures |r| <= |pages|
  {
    if pages == [] then []
    else Kept(pages[..|pages| - 1]) + Contribution(pages[|pages| - 1])
  }

  /** Every kept block is non-empty and stripped. */
  lemma {:induction false} KeptClean(pages: seq<Page>)
    ensures forall k :: 0 <= k < |Kept(pages)| ==> Kept(pages)[k] != [] && IsStripped(Kept(pages)[k])
  {
    if pages != [] {
      var n := |pages| - 1;
      KeptClean(pages[..n]);
      assert Kept(pages) == Kept(pages[..n]) + Contribution(pages[n]);
    }
  }

  /** The blocks kept from a whole OCR reply; none when `pages` is absent. */
  function KeptBlocks(response: OcrResponse): (r: seq<string>)
    ensures response.pages.None? ==> r == []
    ensures response.pages.Some? ==> |r| <= |response.pages.value|
  {
    match response.pages
      case None => []
      case Some(pages) => Kept(pages)
  }

  /** The loop of Medical_reports.py:53-57: walks the pages in order and
      appends the stripped text of each usable page. */
  method AssembleBlocks(response: OcrResponse) returns (blocks: seq<string>)
    ensures blocks == KeptBlocks(response)
  {
    blocks := [];
    if response.pages.Some? {
      var pages := response.pages.value;
      var i := 0;
      while i < |pages|
        invariant 0 <= i <= |pages|
        invariant blocks == Kept(pages[..i])
      {
        var page := pages[i];
        assert pages[..i + 1][..i] == pages[..i];
        assert Kept(pages[..i + 1]) == Kept(pages[..i]) + Contribution(page);
        if page.markdown.Some? && Strip(page.markdown.value) != [] {
          blocks := blocks + [Strip(page.markdown.value)];
        }
        i := i + 1;
      }
      assert pages[..i] == pages;
    }
  }

  /** Keeping is done page by page: the blocks of two runs of pages are the
      blocks of the first followed by those of the second, so input order is
      kept. */
  lemma {:induction false} KeptAppend(a: seq<Page>, b: seq<Page>)
    ensures Kept(a + b) == Kept(a) + Kept(b)
  {
    if b != [] {
      var n := |b| - 1;
      assert (a + b)[..|a + b| - 1] == a + b[..n];
      assert (a + b)[|a + b| - 1] == b[n];
      KeptAppend(a, b[..n]);
      assert Kept(a + b) == Kept(a + b[..n]) + Contribution(b[n]);
    } else {
      assert a + b == a;
    }
  }

  /** A single page yields its stripped text when it is usable, and nothing
      otherwise. */
  lemma KeptSingle(p: Page)
    ensures Kept([p]) == (if Usable(p) then [Strip(p.markdown.value)] else [])
  {
    assert [p][..0] == [];
  }

  /** Every kept block is the stripped text of some usable page. */
  lemma {:induction false} KeptSound(pages: seq<Page>, k: nat)
    requires k < |Kept(pages)|
    ensures exists i :: 0 <= i < |pages| && Yields(pages[i], Kept(pages)[k])
  {
    var n := |pages| - 1;
    var front := pages[..n];
    assert Kept(pages) == Kept(front) + Contribution(pages[n]);
    if k < |Kept(front)| {
      KeptSound(front, k);
      var i :| 0 <= i < n && Yields(front[i], Kept(front)[k]);
      assert Yields(pages[i], Kept(pages)[k]);
    } else {
      assert Yields(pages[n], Kept(pages)[k]);
    }
  }

  /** The stripped text of every usable page is kept, right after the blocks
      of the pages before it. */
  lemma KeptComplete(pages: seq<Page>, i: nat)
    requires i < |pages| && Usable(pages[i])
    ensures exists k :: 0 <= k < |Kept(pages)| && Kept(pages)[k] == Strip(pages[i].markdown.value)
    ensures |Kept(pages[..i])| < |Kept(pages)|
    ensures Kept(pages)[|Kept(pages[..i])|] == Strip(pages[i].markdown.value)
  {
    KeptAround(pages, i);
    var k := |Kept(pages[..i])|;
    assert Kept(pages)[k] == Strip(pages[i].markdown.value);
  }

  /** The blocks of `pages` are those of the pages before page `i`, then what
      page `i` contributes, then those of the pages after it. */
  lemma KeptAround(pages: seq<Page>, i: nat)
    requires i < |pages|
    ensures Kept(pages) == Kept(pages[..i]) + Contribution(pages[i]) + Kept(pages[i + 1..])
  {
    AroundIndex(pages, i);
    KeptThree(pages[..i], pages[i], pages[i + 1..]);
  }

  /** A sequence is what comes before position `i`, the element there, and
      what comes after it. */
  lemma AroundIndex(pages: seq<Page>, i: nat)
    requires i < |pages|
    ensures pages == pages[..i] + [pages[i]] + pages[i + 1..]
  {
  }

  /** `KeptAround` for a sequence given in its three parts. */
  lemma KeptThree(a: seq<Page>, p: Page, b: seq<Page>)
    ensures Kept(a + [p] + b) == Kept(a) + Contribution(p) + Kept(b)
  {
    KeptSnoc(a, p);
    KeptAppend(a + [p], b);
  }

  /** One more page at the end adds its contribution at the end. */
  lemma KeptSnoc(a: seq<Page>, p: Page)
    ensures Kept(a + [p]) == Kept(a) + Contribution(p)
  {
    assert (a + [p])[..|a|] == a;
  }

  /** Page `p` is usable and its stripped text is `block`. */
  predicate Yields(p: Page, block: string) {
    Usable(p) && Strip(p.markdown.value) == block
  }

  /** Page `p` has no markdown, or only whitespace. */
  predicate NothingToKeep(p: Page) {
    p.markdown.None? || Blank(p.markdown.value)
  }

  /** A page contributes nothing exactly when it has nothing to keep. */
  lemma ContributionEmpty(p: Page)
    ensures Contribution(p) == [] <==> NothingToKeep(p)
  {
    if p.markdown.Some? {
      StripEmpty(p.markdown.value);
    }
  }

  /** No block is kept exactly when every page lacks markdown or has only
      whitespace. */
  lemma {:induction false} KeptEmpty(pages: seq<Page>)
    ensures Kept(pages) == [] <==> forall i :: 0 <= i < |pages| ==> NothingToKeep(pages[i])
  {
    if pages != [] {
      var n := |pages| - 1;
      KeptEmpty(pages[..n]);
      assert Kept(pages) == Kept(pages[..n]) + Contribution(pages[n]);
      ContributionEmpty(pages[n]);
      assert forall i :: 0 <= i < n ==> pages[..n][i] == pages[i];
    }
  }

  /** The divider between blocks in the saved markdown file. */
  const Divider: string := "\n\n---\n\n"

  /** What the saved markdown file says when no block was kept. */
  const NoContent: string := "\U{274C} No markdown content extracted from the PDF."

  /** The first line of the saved markdown file, and the blank line after it;
      the document name can be read back from it. */
  function Header(documentName: string): (r: string)
    ensures |r| == 13 + |documentName| + 2
    ensures r[..13] == "# Summary of " && r[13..13 + |documentName|] == documentName
    ensures r[|r| - 2..] == "\n\n"
  {
    "# Summary of " + documentName + "\n\n"
  }

  /** The contents of the saved markdown file (Medical_reports.py:60-65): the
      header, then the marker when no block was kept, and otherwise the
      blocks separated by dividers. */
  function MarkdownArtifact(documentName: string, blocks: seq<string>): (r: string)
    ensures |Header(documentName)| <= |r| && r[..|Header(documentName)|] == Header(documentName)
    ensures blocks == [] ==> r[|Header(documentName)|..] == NoContent
    ensures blocks != [] ==> r[|Header(documentName)|..] == Join(blocks, Divider)
  {
    Header(documentName) + (if blocks == [] then NoContent else Join(blocks, Divider))
  }

  /** The text handed to the prompt: the blocks joined by plain newlines
      (Medical_reports.py:68), one newline between each two blocks. */
  function PromptText(blocks: seq<string>): (r: string)
    ensures blocks == [] ==> r == []
    ensures blocks != [] ==> |r| == TotalLength(blocks) + |blocks| - 1
  {
    Join(blocks, "\n")
  }

  /** The fixed instruction that opens every prompt. */
  const Instruction: string := "Extract the patient's name, sex, age, and medical summary from the following text:"

  /** `generate_prompt_from_markdown` (Medical_reports.py:89-90): the
      instruction, a blank line, then the text. The text can be read back from
      the end of the prompt. */
  function Prompt(markdownText: string): (r: string)
    ensures |r| == |Instruction| + 2 + |markdownText|
    ensures r[..|Instruction|] == Instruction
    ensures r[|Instruction| + 2..] == markdownText
  {
    Instruction + "\n\n" + markdownText
  }

  /** Different texts give different prompts. */
  lemma PromptInjective(a: string, b: string)
    requires Prompt(a) == Prompt(b)
    ensures a == b
  {
    assert a == Prompt(a)[|Instruction| + 2..];
  }

  /** The saved file is the header, then the first block, ..., then the last
      block: no divider comes right after the header and none ends the file. */
  lemma ArtifactLayout(documentName: string, blocks: seq<string>)
    requires blocks != []
    ensures var m := MarkdownArtifact(documentName, blocks);
      var h := Header(documentName) + blocks[0];
      var last := blocks[|blocks| - 1];
      |h| <= |m| && m[..|h|] == h && |last| <= |m| && m[|m| - |last|..] == last
  {
    var j := Join(blocks, Divider);
    var m := MarkdownArtifact(documentName, blocks);
    JoinEnds(blocks, Divider);
    assert m == Header(documentName) + j;
    assert m[|Header(documentName)|..] == j;
  }

  /** When every page is absent or blank, the saved file holds the
      no-content marker and nothing else after the header. */
  lemma ArtifactWhenEmpty(documentName: string, pages: seq<Page>)
    requires forall i :: 0 <= i < |pages| ==> NothingToKeep(pages[i])
    ensures MarkdownArtifact(documentName, Kept(pages)) == Header(documentName) + NoContent
  {
    KeptEmpty(pages);
    assert Kept(pages) == [];
  }

  /** The converse does not hold: a single kept page whose text is the marker
      sentence gives the same file as no page at all. */
  lemma MarkerIsAmbiguous(documentName: string)
    ensures MarkdownArtifact(documentName, [NoContent]) == MarkdownArtifact(documentName, [])
  {
    assert Join([NoContent], Divider) == NoContent;
  }

  /** The two renderings join the same blocks in the same order and differ only
      in their separators: the saved body is six characters longer per
      divider than the prompt text. */
  lemma {:induction false} RenderingsDifferBySeparators(blocks: seq<string>)
    requires blocks != []
    ensures |Join(blocks, Divider)| == |PromptText(blocks)| + 6 * (|blocks| - 1)
  {
    if |blocks| > 1 {
      RenderingsDifferBySeparators(blocks[1..]);
    }
  }

  /** With no block kept the saved file carries the no-content marker, while
      the prompt carries an empty text after the instruction and its blank
      line: the marker never reaches the model. */
  lemma PromptNeverShowsMarker(documentName: string, response: OcrResponse)
    requires KeptBlocks(response) == []
    ensures Prompt(PromptText(KeptBlocks(response))) == Instruction + "\n\n"
    ensures MarkdownArtifact(documentName, KeptBlocks(response))[|Header(documentName)|..] == NoContent
  {
    assert Instruction + "\n\n" + "" == Instruction + "\n\n";
  }
}
