/** The per-document vector index and its metadata (`_file_keys`,
    `build_index_for_pdf`, `_load_index_and_meta`). The directory `indexes/` is an
    abstract store from paths to artifacts. */
module IndexStore {
  import opened Wrappers
  import opened Strings
  import TextClean
  import Chunker

  const IndexDir: string := "indexes"
  /** The `min_chars_per_page` default of `build_index_for_pdf`. */
  const DefaultMinCharsPerPage: int := 40

  /** One indexed unit: a chunk of text and the 1-based page it came from. */
  datatype Record = Record(page: nat, text: string)

  /** The `.meta.json` artifact. */
  datatype Meta = Meta(pdfName: string, modelName: string, dim: nat, numVectors: nat, chunks: seq<Record>)

  /** The `.index` artifact: a flat inner-product index whose vectors are the
      embeddings of `embedded`, in insertion order (the embedder is deterministic,
      so the texts determine the vectors). */
  datatype IndexFile = IndexFile(dim: nat, embedded: seq<string>)

  /** The files under `indexes/`, by path. */
  datatype Store = Store(indexes: map<string, IndexFile>, metas: map<string, Meta>)

  datatype BuildReport =
    | Skipped(pdf: string)
    | Built(pdf: string, vectors: nat, indexPath: string, metaPath: string)

  /** The `ValueError` raised when no page yields a chunk. */
  datatype BuildError = NoValidChunks(pdf: string)

  /** The `FileNotFoundError` raised when either artifact is missing. */
  datatype LoadError = IndexNotFound(pdf: string)

  /** `Path(p).name`: the text after the last `/`. */
  function BaseName(path: string): (r: string)
    ensures '/' !in r
    ensures |r| <= |path| && r == path[|path| - |r|..]
    ensures '/' !in path ==> r == path
    ensures |r| < |path| ==> path[|path| - |r| - 1] == '/'
  {
    path[RFind(path, '/') + 1..]
  }

  /** `s.replace(a, b)` for single characters. */
  function ReplaceChar(s: string, a: char, b: char): (r: string)
    ensures |r| == |s|
    ensures forall i :: 0 <= i < |s| ==> r[i] == (if s[i] == a then b else s[i])
    ensures a !in s ==> r == s
  {
    if |s| == 0 then ""
    else [if s[0] == a then b else s[0]] + ReplaceChar(s[1..], a, b)
  }

  function IndexPath(safe: string): string {
    IndexDir + "/" + safe + ".index"
  }

  function MetaPath(safe: string): string {
    IndexDir + "/" + safe + ".meta.json"
  }

  /** The file-system-safe name `_file_keys` derives from a PDF name. Since the
      base name has no `/`, the source's `replace("/", "_")` never changes it. */
  function SafeName(pdfName: string): (r: string)
    ensures r == BaseName(pdfName)
  {
    ReplaceChar(BaseName(pdfName), '/', '_')
  }

  /** `_file_keys(pdf_name)`: the index path and the metadata path. */
  function FileKeys(pdfName: string): (r: (string, string))
    ensures r.0 != r.1
    ensures r.0 == IndexPath(BaseName(pdfName)) && r.1 == MetaPath(BaseName(pdfName))
  {
    var safe := SafeName(pdfName);
    (IndexPath(safe), MetaPath(safe))
  }

  lemma PathInjective(prefix: string, a: string, b: string, suffix: string)
    requires prefix + a + suffix == prefix + b + suffix
    ensures a == b
  {
    var s := prefix + a + suffix;
    assert |a| == |b|;
    assert a == s[|prefix|..|prefix| + |a|];
    assert b == (prefix + b + suffix)[|prefix|..|prefix| + |b|];
  }

  /** Two PDF names share their artifacts exactly when they have the same base
      name: the directory part is ignored. */
  lemma FileKeysCollide(a: string, b: string)
    ensures FileKeys(a) == FileKeys(b) <==> BaseName(a) == BaseName(b)
  {
    if FileKeys(a) == FileKeys(b) {
      PathInjective(IndexDir + "/", BaseName(a), BaseName(b), ".index");
    }
  }

  /** `load_pdf_pages` after text extraction: each page's text (`None` when the
      extractor returned nothing) is cleaned, so every page is the words of its
      text joined by single spaces, and a page without text is `""`. */
  function CleanPages(extracted: seq<Option<string>>): (pages: seq<string>)
    ensures |pages| == |extracted|
    ensures forall i :: 0 <= i < |pages| ==> pages[i] == TextClean.CleanText(extracted[i])
    ensures forall i :: 0 <= i < |pages| ==> pages[i] == Join(TextClean.Words(extracted[i].GetOr("")), " ")
    ensures forall i :: 0 <= i < |pages| ==> TextClean.IsClean(pages[i])
  {
    var pages := seq(|extracted|, i requires 0 <= i < |extracted| => TextClean.CleanText(extracted[i]));
    assert forall i :: 0 <= i < |pages| ==> pages[i] == Join(TextClean.Words(extracted[i].GetOr("")), " ") by {
      forall i | 0 <= i < |pages|
        ensures pages[i] == Join(TextClean.Words(extracted[i].GetOr("")), " ")
      {
        TextClean.CleanTextWords(extracted[i].GetOr(""));
      }
    }
    pages
  }

  /** The records of one kept page, in chunk order. */
  function PageRecords(page: nat, chunks: seq<string>): (r: seq<Record>)
    ensures |r| == |chunks|
    ensures forall j :: 0 <= j < |r| ==> r[j] == Record(page, chunks[j])
  {
    seq(|chunks|, j requires 0 <= j < |chunks| => Record(page, chunks[j]))
  }

  /** Whether `build_index_for_pdf` keeps a page of this length. */
  predicate KeepsPage(page: string, minChars: int) {
    |page| >= minChars
  }

  /** Every page is too short to keep or empty. */
  ghost predicate NoPageKept(pages: seq<string>, minChars: int) {
    forall i :: 0 <= i < |pages| ==> !KeepsPage(pages[i], minChars) || |pages[i]| == 0
  }

  /** The chunks of one page as the builder cuts them. */
  function PageChunks(page: string): seq<string> {
    Chunker.ChunkText(page, Chunker.MaxLen, Chunker.Overlap)
  }

  /** The record list of `build_index_for_pdf`: pages numbered from 1, pages
      shorter than `minChars` dropped, each kept page's chunks in order. */
  function BuildRecords(pages: seq<string>, minChars: int): (r: seq<Record>)
    ensures forall k :: 0 <= k < |r| ==> 1 <= r[k].page <= |pages| && KeepsPage(pages[r[k].page - 1], minChars)
    ensures forall j, k :: 0 <= j < k < |r| ==> r[j].page <= r[k].page
    decreases |pages|
  {
    if |pages| == 0 then []
    else
      var n := |pages|;
      var front := BuildRecords(pages[..n - 1], minChars);
      var last := if KeepsPage(pages[n - 1], minChars) then PageRecords(n, PageChunks(pages[n - 1])) else [];
      assert forall k :: 0 <= k < |front| ==> pages[..n - 1][front[k].page - 1] == pages[front[k].page - 1];
      assert forall k :: 0 <= k < |last| ==> last[k].page == n;
      front + last
  }

  /** The texts of the records on page `p`, in record order. */
  function TextsOfPage(records: seq<Record>, p: nat): seq<string>
    decreases |records|
  {
    if |records| == 0 then []
    else
      var n := |records|;
      TextsOfPage(records[..n - 1], p) + (if records[n - 1].page == p then [records[n - 1].text] else [])
  }

  lemma {:induction false} TextsOfPageAppend(a: seq<Record>, b: seq<Record>, p: nat)
    ensures TextsOfPage(a + b, p) == TextsOfPage(a, p) + TextsOfPage(b, p)
    decreases |b|
  {
    if |b| == 0 {
      assert a + b == a;
    } else {
      var n := |b|;
      assert (a + b)[..|a| + n - 1] == a + b[..n - 1];
      TextsOfPageAppend(a, b[..n - 1], p);
    }
  }

  lemma {:induction false} TextsOfOtherPage(records: seq<Record>, p: nat)
    requires forall k :: 0 <= k < |records| ==> records[k].page != p
    ensures TextsOfPage(records, p) == []
    decreases |records|
  {
    if |records| > 0 {
      TextsOfOtherPage(records[..|records| - 1], p);
    }
  }

  lemma {:induction false} TextsOfPageRecords(q: nat, chunks: seq<string>, p: nat)
    ensures TextsOfPage(PageRecords(q, chunks), p) == if p == q then chunks else []
    decreases |chunks|
  {
    if |chunks| > 0 {
      var n := |chunks|;
      assert PageRecords(q, chunks)[..n - 1] == PageRecords(q, chunks[..n - 1]);
      TextsOfPageRecords(q, chunks[..n - 1], p);
      assert chunks == chunks[..n - 1] + [chunks[n - 1]];
    }
  }

  /** Page by page, the records hold exactly the chunks of the kept pages, in
      chunk order; a dropped page and any number outside 1..|pages| hold none. */
  lemma {:induction false} BuildRecordsByPage(pages: seq<string>, minChars: int, p: nat)
    ensures TextsOfPage(BuildRecords(pages, minChars), p) ==
      if 1 <= p <= |pages| && KeepsPage(pages[p - 1], minChars) then PageChunks(pages[p - 1]) else []
    decreases |pages|
  {
    if |pages| > 0 {
      var n := |pages|;
      var init := pages[..n - 1];
      var front := BuildRecords(init, minChars);
      var last := if KeepsPage(pages[n - 1], minChars) then PageRecords(n, PageChunks(pages[n - 1])) else [];
      assert BuildRecords(pages, minChars) == front + last;
      TextsOfPageAppend(front, last, p);
      BuildRecordsByPage(init, minChars, p);
      if 1 <= p < n {
        assert init[p - 1] == pages[p - 1];
      }
      if KeepsPage(pages[n - 1], minChars) {
        TextsOfPageRecords(n, PageChunks(pages[n - 1]), p);
      }
      ByPageStep(pages, minChars, p, TextsOfPage(front, p), TextsOfPage(last, p));
    }
  }

  /** The inductive step of `BuildRecordsByPage`: the texts from the earlier
      pages followed by those from the last page. */
  lemma ByPageStep(pages: seq<string>, minChars: int, p: nat, a: seq<string>, b: seq<string>)
    requires |pages| > 0
    requires a == if 1 <= p < |pages| && KeepsPage(pages[p - 1], minChars) then PageChunks(pages[p - 1]) else []
    requires b == if p == |pages| && KeepsPage(pages[p - 1], minChars) then PageChunks(pages[p - 1]) else []
    ensures a + b == if 1 <= p <= |pages| && KeepsPage(pages[p - 1], minChars) then PageChunks(pages[p - 1]) else []
  {
    if p == |pages| {
      assert a + b == b;
    } else {
      assert a + b == a;
    }
  }

  /** With the default threshold, a page shorter than 40 characters after
      cleaning contributes no record, and a longer one contributes its chunks. */
  lemma DefaultThreshold(pages: seq<string>, p: nat)
    requires 1 <= p <= |pages|
    ensures TextsOfPage(BuildRecords(pages, DefaultMinCharsPerPage), p) ==
      if |pages[p - 1]| < 40 then [] else PageChunks(pages[p - 1])
  {
    BuildRecordsByPage(pages, DefaultMinCharsPerPage, p);
  }

  /** No record survives exactly when every page is too short or empty. */
  lemma {:induction false} BuildRecordsEmpty(pages: seq<string>, minChars: int)
    ensures BuildRecords(pages, minChars) == [] <==> NoPageKept(pages, minChars)
    decreases |pages|
  {
    if |pages| > 0 {
      var n := |pages|;
      var init := pages[..n - 1];
      var front := BuildRecords(init, minChars);
      var last := if KeepsPage(pages[n - 1], minChars) then PageRecords(n, PageChunks(pages[n - 1])) else [];
      assert BuildRecords(pages, minChars) == front + last;
      BuildRecordsEmpty(init, minChars);
      LastPageRecordsEmpty(n, pages[n - 1], minChars);
      NoneKeptStep(pages, init, minChars, front, last);
    }
  }

  /** The inductive step of `BuildRecordsEmpty`: the records are empty when
      both the earlier pages and the last page contribute none. */
  lemma NoneKeptStep(pages: seq<string>, init: seq<string>, minChars: int, front: seq<Record>, last: seq<Record>)
    requires |pages| > 0 && init == pages[..|pages| - 1]
    requires front == [] <==> NoPageKept(init, minChars)
    requires last == [] <==> !KeepsPage(pages[|pages| - 1], minChars) || |pages[|pages| - 1]| == 0
    ensures front + last == [] <==> NoPageKept(pages, minChars)
  {
    var n := |pages|;
    ConcatEmpty(front, last);
    if front == [] && last == [] {
      forall i | 0 <= i < n
        ensures !KeepsPage(pages[i], minChars) || |pages[i]| == 0
      {
        if i < n - 1 {
          assert init[i] == pages[i];
        }
      }
    } else if front != [] {
      var i :| 0 <= i < n - 1 && !(!KeepsPage(init[i], minChars) || |init[i]| == 0);
      assert init[i] == pages[i];
    }
  }

  lemma ConcatEmpty<T>(a: seq<T>, b: seq<T>)
    ensures a + b == [] <==> a == [] && b == []
  {
    assert |a + b| == |a| + |b|;
  }

  /** A page contributes no record exactly when it is dropped or empty. */
  lemma LastPageRecordsEmpty(n: nat, page: string, minChars: int)
    ensures (if KeepsPage(page, minChars) then PageRecords(n, PageChunks(page)) else []) == [] <==>
      !KeepsPage(page, minChars) || |page| == 0
  {
    if KeepsPage(page, minChars) {
      assert |PageRecords(n, PageChunks(page))| == |PageChunks(page)|;
    }
  }

  /** The embedded texts, in record order. */
  function RecordTexts(records: seq<Record>): (texts: seq<string>)
    ensures |texts| == |records|
    ensures forall i :: 0 <= i < |texts| ==> texts[i] == records[i].text
  {
    seq(|records|, i requires 0 <= i < |records| => records[i].text)
  }

  /** The index and the metadata of one document agree: one vector per chunk,
      in the same order, and the count says so. */
  predicate Agree(index: IndexFile, meta: Meta) {
    && meta.numVectors == |meta.chunks|
    && index.embedded == RecordTexts(meta.chunks)
  }

  /** Every document whose two artifacts are both present has agreeing artifacts. */
  ghost predicate Consistent(store: Store) {
    forall safe :: IndexPath(safe) in store.indexes && MetaPath(safe) in store.metas ==>
      Agree(store.indexes[IndexPath(safe)], store.metas[MetaPath(safe)])
  }

  /** `build_index_for_pdf(pdf_path, min_chars_per_page, overwrite)`. The pages
      the extractor would return, the embedding model's name and its dimension
      are inputs. */
  function BuildIndexForPdf(store: Store, pdfPath: string, extracted: seq<Option<string>>,
                            minChars: int, overwrite: bool, modelName: string, dim: nat)
    : (r: Result<(Store, BuildReport), BuildError>)
    ensures var name := BaseName(pdfPath);
      var skip := !overwrite && IndexPath(name) in store.indexes && MetaPath(name) in store.metas;
      && (skip ==> r == Success((store, Skipped(name))))
      && (!skip && r.Success? ==> r.value.1.Built?)
      && (r.Failure? <==> !skip && forall i :: 0 <= i < |extracted| ==>
            var page := TextClean.CleanText(extracted[i]); !KeepsPage(page, minChars) || |page| == 0)
  {
    var name := BaseName(pdfPath);
    var (indexPath, metaPath) := FileKeys(name);
    if !overwrite && indexPath in store.indexes && metaPath in store.metas then
      Success((store, Skipped(name)))
    else
      var pages := CleanPages(extracted);
      var records := BuildRecords(pages, minChars);
      BuildRecordsEmpty(pages, minChars);
      if |records| == 0 then Failure(NoValidChunks(name))
      else
        var index := IndexFile(dim, RecordTexts(records));
        var meta := Meta(name, modelName, dim, |records|, records);
        Success((Store(store.indexes[indexPath := index], store.metas[metaPath := meta]),
                 Built(name, |records|, indexPath, metaPath)))
  }

  /** `_load_index_and_meta(pdf_name)`: both artifacts, or an error when either
      one is missing. */
  function LoadIndexAndMeta(store: Store, pdfName: string): (r: Result<(IndexFile, Meta), LoadError>)
    ensures var (ip, mp) := FileKeys(pdfName);
      && (r.Failure? <==> ip !in store.indexes || mp !in store.metas)
      && (r.Success? ==> r.value.0 == store.indexes[ip] && r.value.1 == store.metas[mp])
  {
    var (indexPath, metaPath) := FileKeys(pdfName);
    if indexPath !in store.indexes || metaPath !in store.metas then Failure(IndexNotFound(pdfName))
    else Success((store.indexes[indexPath], store.metas[metaPath]))
  }

  /** What a build that ran (was not skipped) returns. */
  lemma BuiltResult(store: Store, pdfPath: string, extracted: seq<Option<string>>,
                    minChars: int, overwrite: bool, modelName: string, dim: nat)
    requires BuildIndexForPdf(store, pdfPath, extracted, minChars, overwrite, modelName, dim).Success?
    requires BuildIndexForPdf(store, pdfPath, extracted, minChars, overwrite, modelName, dim).value.1.Built?
    ensures var (store', report) := BuildIndexForPdf(store, pdfPath, extracted, minChars, overwrite, modelName, dim).value;
      var name := BaseName(pdfPath);
      var records := BuildRecords(CleanPages(extracted), minChars);
      && |records| > 0
      && store'.indexes == store.indexes[IndexPath(name) := IndexFile(dim, RecordTexts(records))]
      && store'.metas == store.metas[MetaPath(name) := Meta(name, modelName, dim, |records|, records)]
      && report == Built(name, |records|, IndexPath(name), MetaPath(name))
  {
    var name := BaseName(pdfPath);
    assert FileKeys(name) == (IndexPath(name), MetaPath(name));
  }

  /** A build writes agreeing artifacts under the PDF's base name and leaves every
      other file alone; the metadata holds exactly the records, one vector each. */
  lemma BuildWrites(store: Store, pdfPath: string, extracted: seq<Option<string>>,
                    minChars: int, overwrite: bool, modelName: string, dim: nat)
    requires BuildIndexForPdf(store, pdfPath, extracted, minChars, overwrite, modelName, dim).Success?
    requires BuildIndexForPdf(store, pdfPath, extracted, minChars, overwrite, modelName, dim).value.1.Built?
    ensures var (store', report) := BuildIndexForPdf(store, pdfPath, extracted, minChars, overwrite, modelName, dim).value;
      var name := BaseName(pdfPath);
      var records := BuildRecords(CleanPages(extracted), minChars);
      && IndexPath(name) in store'.indexes && MetaPath(name) in store'.metas
      && Agree(store'.indexes[IndexPath(name)], store'.metas[MetaPath(name)])
      && store'.metas[MetaPath(name)].chunks == records
      && report.vectors == |records| > 0
  {
    BuiltResult(store, pdfPath, extracted, minChars, overwrite, modelName, dim);
  }

  /** A build touches no file but the two artifacts of its own PDF. */
  lemma BuildLeavesOthers(store: Store, pdfPath: string, extracted: seq<Option<string>>,
                          minChars: int, overwrite: bool, modelName: string, dim: nat, p: string)
    requires BuildIndexForPdf(store, pdfPath, extracted, minChars, overwrite, modelName, dim).Success?
    ensures var store' := BuildIndexForPdf(store, pdfPath, extracted, minChars, overwrite, modelName, dim).value.0;
      var name := BaseName(pdfPath);
      && (p != IndexPath(name) ==> (p in store'.indexes <==> p in store.indexes))
      && (p != IndexPath(name) && p in store.indexes ==> store'.indexes[p] == store.indexes[p])
      && (p != MetaPath(name) ==> (p in store'.metas <==> p in store.metas))
      && (p != MetaPath(name) && p in store.metas ==> store'.metas[p] == store.metas[p])
  {
    var r := BuildIndexForPdf(store, pdfPath, extracted, minChars, overwrite, modelName, dim);
    var name := BaseName(pdfPath);
    if r.value.1.Built? {
      BuiltResult(store, pdfPath, extracted, minChars, overwrite, modelName, dim);
    } else {
      assert r.value.0 == store;
    }
  }

  /** Building never breaks the pairing of index and metadata. */
  lemma BuildPreservesConsistency(store: Store, pdfPath: string, extracted: seq<Option<string>>,
                                  minChars: int, overwrite: bool, modelName: string, dim: nat)
    requires Consistent(store)
    requires BuildIndexForPdf(store, pdfPath, extracted, minChars, overwrite, modelName, dim).Success?
    ensures Consistent(BuildIndexForPdf(store, pdfPath, extracted, minChars, overwrite, modelName, dim).value.0)
  {
    var (store', report) := BuildIndexForPdf(store, pdfPath, extracted, minChars, overwrite, modelName, dim).value;
    if report.Built? {
      var name := BaseName(pdfPath);
      BuildWrites(store, pdfPath, extracted, minChars, overwrite, modelName, dim);
      forall safe | IndexPath(safe) in store'.indexes && MetaPath(safe) in store'.metas
        ensures Agree(store'.indexes[IndexPath(safe)], store'.metas[MetaPath(safe)])
      {
        if safe != name {
          BuildLeavesOthers(store, pdfPath, extracted, minChars, overwrite, modelName, dim, IndexPath(safe));
          BuildLeavesOthers(store, pdfPath, extracted, minChars, overwrite, modelName, dim, MetaPath(safe));
          if IndexPath(safe) == IndexPath(name) {
            PathInjective(IndexDir + "/", safe, name, ".index");
          }
          if MetaPath(safe) == MetaPath(name) {
            PathInjective(IndexDir + "/", safe, name, ".meta.json");
          }
        }
      }
    }
  }

  /** Right after a build, loading the same PDF yields what was written. */
  lemma LoadAfterBuild(store: Store, pdfPath: string, extracted: seq<Option<string>>,
                       minChars: int, overwrite: bool, modelName: string, dim: nat)
    requires BuildIndexForPdf(store, pdfPath, extracted, minChars, overwrite, modelName, dim).Success?
    requires BuildIndexForPdf(store, pdfPath, extracted, minChars, overwrite, modelName, dim).value.1.Built?
    ensures var store' := BuildIndexForPdf(store, pdfPath, extracted, minChars, overwrite, modelName, dim).value.0;
      var loaded := LoadIndexAndMeta(store', pdfPath);
      && loaded.Success?
      && Agree(loaded.value.0, loaded.value.1)
      && loaded.value.1.chunks == BuildRecords(CleanPages(extracted), minChars)
      && loaded.value.1.numVectors > 0
  {
    BuildWrites(store, pdfPath, extracted, minChars, overwrite, modelName, dim);
    var store' := BuildIndexForPdf(store, pdfPath, extracted, minChars, overwrite, modelName, dim).value.0;
    var name := BaseName(pdfPath);
    assert FileKeys(pdfPath) == (IndexPath(name), MetaPath(name));
    assert LoadIndexAndMeta(store', pdfPath) == Success((store'.indexes[IndexPath(name)], store'.metas[MetaPath(name)]));
  }

  /** Re-running a build without `overwrite` is a no-op: the second run reports
      "skipped" and the store is the one the first run left. */
  lemma BuildIdempotent(store: Store, pdfPath: string, extracted: seq<Option<string>>,
                        extracted': seq<Option<string>>, minChars: int, overwrite: bool, modelName: string, dim: nat)
    requires BuildIndexForPdf(store, pdfPath, extracted, minChars, overwrite, modelName, dim).Success?
    ensures var store' := BuildIndexForPdf(store, pdfPath, extracted, minChars, overwrite, modelName, dim).value.0;
      BuildIndexForPdf(store', pdfPath, extracted', minChars, false, modelName, dim) ==
        Success((store', Skipped(BaseName(pdfPath))))
  {
    var (store', report) := BuildIndexForPdf(store, pdfPath, extracted, minChars, overwrite, modelName, dim).value;
    if report.Built? {
      BuildWrites(store, pdfPath, extracted, minChars, overwrite, modelName, dim);
    }
  }
}
