/** `get_relevant_pagetext`: the text of the requested pages, rebuilt from the
    metadata's chunks and wrapped in page tags. */
module ContextAssembler {
  import opened Strings
  import opened IndexStore
  import Wrappers

  /** A page's text as the assembler rebuilds it: its chunks joined by single
      spaces, in metadata order. */
  function PageText(chunks: seq<Record>, p: nat): string {
    Join(TextsOfPage(chunks, p), " ")
  }

  /** One tagged block of the context. */
  function Block(page: nat, text: string): string {
    "<PAGENUMBER>" + NatToString(page) + "</PAGENUMBER>\n<PAGETEXT>" + text + "</PAGETEXT>\n\n\n"
  }

  /** The first loop: for each chunk on a requested page, start that page's text
      or append `" " + text` to it. */
  function GroupPageTexts(chunks: seq<Record>, pages: seq<nat>): (m: map<nat, string>)
    ensures forall p :: p in m ==> p in pages
    decreases |chunks|
  {
    if |chunks| == 0 then map[]
    else
      var n := |chunks|;
      var m := GroupPageTexts(chunks[..n - 1], pages);
      var c := chunks[n - 1];
      if c.page !in pages then m
      else if c.page !in m then m[c.page := c.text]
      else m[c.page := m[c.page] + " " + c.text]
  }

  /** The first loop builds, for every requested page that has chunks, exactly
      that page's text, and nothing for the other pages. */
  lemma {:induction false} GroupPageTextsSpec(chunks: seq<Record>, pages: seq<nat>, p: nat)
    ensures var m := GroupPageTexts(chunks, pages);
      && (p in m <==> p in pages && TextsOfPage(chunks, p) != [])
      && (p in m ==> m[p] == PageText(chunks, p))
    decreases |chunks|
  {
    if |chunks| > 0 {
      var n := |chunks|;
      GroupPageTextsSpec(chunks[..n - 1], pages, p);
      var before := TextsOfPage(chunks[..n - 1], p);
      if chunks[n - 1].page != p {
        assert TextsOfPage(chunks, p) == before + [];
        assert before + [] == before;
      } else if before == [] {
        assert TextsOfPage(chunks, p) == [chunks[n - 1].text];
      } else {
        var now := before + [chunks[n - 1].text];
        assert TextsOfPage(chunks, p) == now;
        assert now[..|now| - 1] == before;
        assert Join(now, " ") == Join(before, " ") + " " + chunks[n - 1].text;
      }
    }
  }

  /** The second loop: one block per listed page whose text is non-empty. */
  function EmitBlocks(pages: seq<nat>, texts: map<nat, string>): (r: string)
    ensures |r| == 0 <==> forall i :: 0 <= i < |pages| ==> pages[i] !in texts || |texts[pages[i]]| == 0
    decreases |pages|
  {
    if |pages| == 0 then ""
    else
      var n := |pages|;
      var p := pages[n - 1];
      EmitBlocks(pages[..n - 1], texts) + (if p in texts && texts[p] != "" then Block(p, texts[p]) else "")
  }

  /** `get_relevant_pagetext(pdf_filename, pages)`. The metadata path is built
      from the name as given, without taking its base name. */
  function GetRelevantPageText(store: Store, pdfFilename: string, pages: seq<nat>): (r: string)
    ensures MetaPath(pdfFilename) !in store.metas ==> r == ""
  {
    var path := MetaPath(pdfFilename);
    if path !in store.metas then ""
    else EmitBlocks(pages, GroupPageTexts(store.metas[path].chunks, pages))
  }

  /** The block a page contributes: none when it has no text. */
  function BlockFor(chunks: seq<Record>, p: nat): string {
    var text := PageText(chunks, p);
    if text == "" then "" else Block(p, text)
  }

  /** The context the assembler promises: for each requested page, in the
      caller's order, the block of that page's chunk texts. */
  function ExpectedContext(chunks: seq<Record>, pages: seq<nat>): string
    decreases |pages|
  {
    if |pages| == 0 then ""
    else ExpectedContext(chunks, pages[..|pages| - 1]) + BlockFor(chunks, pages[|pages| - 1])
  }

  lemma {:induction false} EmitBlocksSpec(chunks: seq<Record>, pages: seq<nat>, requested: seq<nat>)
    requires forall i :: 0 <= i < |pages| ==> pages[i] in requested
    ensures EmitBlocks(pages, GroupPageTexts(chunks, requested)) == ExpectedContext(chunks, pages)
    decreases |pages|
  {
    if |pages| > 0 {
      var n := |pages|;
      EmitBlocksSpec(chunks, pages[..n - 1], requested);
      GroupPageTextsSpec(chunks, requested, pages[n - 1]);
    }
  }

  /** With the metadata present, the assembled context is the expected one:
      pages in the caller's order, each page's chunks joined by spaces, pages
      without text left out. */
  lemma GetRelevantPageTextSpec(store: Store, pdfFilename: string, pages: seq<nat>)
    requires MetaPath(pdfFilename) in store.metas
    ensures GetRelevantPageText(store, pdfFilename, pages) ==
      ExpectedContext(store.metas[MetaPath(pdfFilename)].chunks, pages)
  {
    EmitBlocksSpec(store.metas[MetaPath(pdfFilename)].chunks, pages, pages);
  }

  /** A page with no chunks contributes no block. */
  lemma PageWithoutChunksOmitted(chunks: seq<Record>, p: nat)
    requires TextsOfPage(chunks, p) == []
    ensures BlockFor(chunks, p) == ""
  {
  }

  /** After a build, the context of a document rebuilds each requested kept page
      from that page's chunks: its cleaned text cut into windows, rejoined by
      spaces. */
  lemma ContextOfBuiltDocument(store: Store, pdfName: string, extracted: seq<Wrappers.Option<string>>,
                               minChars: int, overwrite: bool, modelName: string, dim: nat, p: nat)
    requires '/' !in pdfName
    requires BuildIndexForPdf(store, pdfName, extracted, minChars, overwrite, modelName, dim).Success?
    requires BuildIndexForPdf(store, pdfName, extracted, minChars, overwrite, modelName, dim).value.1.Built?
    ensures var store' := BuildIndexForPdf(store, pdfName, extracted, minChars, overwrite, modelName, dim).value.0;
      var pages := CleanPages(extracted);
      && GetRelevantPageText(store', pdfName, [p]) ==
           (if 1 <= p <= |pages| && KeepsPage(pages[p - 1], minChars) && Join(PageChunks(pages[p - 1]), " ") != ""
            then Block(p, Join(PageChunks(pages[p - 1]), " ")) else "")
  {
    var store' := BuildIndexForPdf(store, pdfName, extracted, minChars, overwrite, modelName, dim).value.0;
    BuildWrites(store, pdfName, extracted, minChars, overwrite, modelName, dim);
    ContextOfRecords(store', pdfName, CleanPages(extracted), minChars, p);
  }

  /** `ContextOfBuiltDocument` for any store whose metadata holds the records
      built from `pages`. */
  lemma ContextOfRecords(store: Store, pdfName: string, pages: seq<string>, minChars: int, p: nat)
    requires MetaPath(pdfName) in store.metas
    requires store.metas[MetaPath(pdfName)].chunks == BuildRecords(pages, minChars)
    ensures GetRelevantPageText(store, pdfName, [p]) ==
      (if 1 <= p <= |pages| && KeepsPage(pages[p - 1], minChars) && Join(PageChunks(pages[p - 1]), " ") != ""
       then Block(p, Join(PageChunks(pages[p - 1]), " ")) else "")
  {
    var records := BuildRecords(pages, minChars);
    GetRelevantPageTextSpec(store, pdfName, [p]);
    BuildRecordsByPage(pages, minChars, p);
    assert ExpectedContext(records, [p]) == BlockFor(records, p) by {
      assert [p][..0] == [];
      assert ExpectedContext(records, [p]) == ExpectedContext(records, []) + BlockFor(records, p);
    }
  }
}
