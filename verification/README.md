# Financial-report question answering: indexing and retrieval bookkeeping

This project models, in Dafny, the deterministic core of a retrieval-augmented
question-answering service over per-company, per-year financial reports. The
embedding model, the vector search and the language model are left abstract. What
is modelled is the text and index bookkeeping around them:

- `clean_text` collapses whitespace on every extracted page (module `TextClean`).
- `_chunk_text` cuts a page into overlapping windows of 512 characters with an
  overlap of 50 (module `Chunker`).
- `build_index_for_pdf` turns pages into the record list and the metadata. It
  writes the `.index` / `.meta.json` pair, or skips when both exist.
  `_load_index_and_meta` needs both files (module `IndexStore`). The `indexes/`
  directory is a store from paths to artifacts. An index file is represented by
  the texts it embedded, in order.
- `get_top_pages` clamps the neighbour count and drops the `-1` ids. It maps
  chunk ids to pages without duplicates (module `Retriever`). The search is a
  function parameter.
- `get_relevant_pagetext` groups chunk texts by page and emits tagged blocks in
  the caller's page order (module `ContextAssembler`).
- `main` parses `company_year` entries and maps companies to tickers. In the
  decomposed path, sub-queries that fail with `KeyError` or `IndexError` are
  skipped; on the single path such a failure returns `{}`. Any other exception
  ends `main`. `main` then builds the answer envelope (module `Orchestrator`).
  The two model calls are function parameters.
- `_json` picks the first `[` or `{`, slices to the last matching closer and
  parses with two abstract parsers. It never raises (module `JsonExtract`).

`Strings` holds the Python string operations used (`find`, `rfind`, `split`,
`join`, `str(int)`). `Wrappers` holds `Option` and `Result`. A raised exception
is a `Failure`, and Python's `None` is `None`. A key of a model reply is missing,
`null` or present (`Orchestrator.Field`), because `dict.get(key, default)` gives
the default only for a missing key and gives `None` for a `null` value.

## Model

| member | source | states |
|---|---|---|
| TextClean.StripLeft | Scripts/utils.py:8 | the result is a suffix of the input, everything dropped is whitespace, and it does not start with whitespace |
| TextClean.StripRight | Scripts/utils.py:8 | the result is a prefix of the input, everything dropped is whitespace, and it does not end with whitespace |
| TextClean.Strip | Scripts/utils.py:8 | no whitespace at either end; a single-spaced input stays single-spaced |
| TextClean.StripIsSlice | Scripts/utils.py:8 | `strip()` keeps exactly the slice that starts after the leading whitespace, and everything after that slice is whitespace |
| TextClean.Collapse | Scripts/utils.py:4-8 | after the replacement the only whitespace left is `' '` and no two whitespace characters are adjacent; the result is empty only for empty input and no longer than the input; it starts with whitespace exactly when the input does |
| TextClean.CollapseLast | Scripts/utils.py:4-8 | the replacement ends with whitespace exactly when its input does |
| TextClean.Words | Scripts/utils.py:4-8 | the words of a text, split at whitespace runs, are non-empty and free of whitespace |
| TextClean.WordsEmpty | Scripts/utils.py:4-8 | a text has no words exactly when it is all whitespace |
| TextClean.CollapseWords | Scripts/utils.py:4-8 | replacing every whitespace run by one space gives the words joined by single spaces, with one space in front when the text starts with whitespace and one behind when it has a word and ends with whitespace |
| TextClean.CleanTextWords | Scripts/utils.py:4-8 | `clean_text(s)` is `" ".join(s.split())`: the words of the input joined by single spaces |
| TextClean.CleanText | Scripts/utils.py:5-8 | `None` and `""` give `""`; the output has no edge whitespace, no two adjacent whitespace characters and no whitespace other than `' '`; it is no longer than the input |
| TextClean.CleanTextKeepsNonSpace | Scripts/utils.py:8 | the non-whitespace characters of the output are exactly those of the input, in order |
| TextClean.CleanTextFixpoint | Scripts/utils.py:4-8 | already-clean text is returned unchanged |
| TextClean.CleanTextIdempotent | Scripts/utils.py:4-8 | cleaning twice is the same as cleaning once |
| TextClean.NonSpaceCollapse | Scripts/utils.py:4 | the regular-expression replacement keeps the non-whitespace characters in order |
| TextClean.CollapseSingleSpaced | Scripts/utils.py:4 | single-spaced text has nothing to replace |
| Chunker.ChunksFrom | Scripts/main.py:36-43 | the loop produces no chunk exactly when the start offset is at or past the end of the text |
| Chunker.ChunksFromWindow | Scripts/main.py:38-43 | chunk `i` from offset `start` is the window `text[start + WindowStart(i) : min(... + max_len, len)]`; it is the last chunk exactly when that window reaches the end |
| Chunker.ChunkTextWindows | Scripts/main.py:38-43 | every chunk is the window at its index, and only the last chunk reaches the end of the text |
| Chunker.WindowStartProduct | Scripts/main.py:43 | window `i` starts at `i * (max_len - overlap)` |
| Chunker.ChunkText | Scripts/main.py:35-44 | the result is `[]` exactly when the text is empty; a text of 1 to `max_len` characters gives `[text]`; each chunk is non-empty, at most `max_len` long and equal to its window; the last chunk ends at `len(text)`; every earlier chunk is a full window ending before it |
| Chunker.ChunkOverlap | Scripts/main.py:39-43 | consecutive chunks overlap by exactly `overlap` characters: the last `overlap` characters of chunk `i` are the first `overlap` of chunk `i+1` |
| Chunker.ChunksCoverText | Scripts/main.py:38-43 | every character position of the text lies inside some chunk, so no text is skipped |
| IndexStore.BaseName | Scripts/main.py:29 | the base name is a suffix without `/`, the character before it is a `/`, and it is the whole name when there is no `/` |
| IndexStore.ReplaceChar | Scripts/main.py:30 | character replacement keeps the length, changes exactly the matching characters, and is the identity when the character is absent |
| IndexStore.SafeName | Scripts/main.py:29-30 | the safe name is the base name, because the `replace("/", "_")` never fires after taking `.name` |
| IndexStore.FileKeys | Scripts/main.py:28-33 | the index and metadata paths are distinct and both derive from the base name |
| IndexStore.FileKeysCollide | Scripts/main.py:28-33 | two PDF names map to the same artifacts if and only if their base names are equal |
| IndexStore.CleanPages | Scripts/utils.py:13-16 | there is one page per extracted page, in page order; each page is clean and is the words of the extracted text (`""` for `None`) joined by single spaces |
| IndexStore.BuildRecords | Scripts/main.py:64-70 | every record's page number lies in 1..number of pages and names a page of at least `min_chars_per_page` characters; page numbers never decrease along the list |
| IndexStore.BuildRecordsByPage | Scripts/main.py:66-70 | for each page number, the records carry exactly that page's chunks in chunk order if the page is kept, and none otherwise |
| IndexStore.BuildRecordsEmpty | Scripts/main.py:66-73 | the record list is empty if and only if every page is too short or empty |
| IndexStore.DefaultThreshold | Scripts/main.py:57-70 | with the default `min_chars_per_page=40`, a cleaned page shorter than 40 characters contributes no record, and one of 40 or more characters contributes its chunks |
| IndexStore.LastPageRecordsEmpty | Scripts/main.py:66-70 | one page adds no record exactly when it is too short or empty |
| IndexStore.TextsOfPageAppend | Scripts/main.py:69-70 | a page's texts in concatenated record lists are the concatenation of its texts in each list |
| IndexStore.BuildIndexForPdf | Scripts/main.py:57-99 | with `overwrite` false and both artifacts present, the result is "skipped" and the store is unchanged, whatever the pages; otherwise a successful build reports "ok"; the build fails with the no-chunks error if and only if it was not skipped and every cleaned page is too short or empty |
| IndexStore.BuildWrites | Scripts/main.py:75-92 | after a build, both artifacts exist and agree (`num_vectors == len(chunks)` and the index embedded exactly the chunk texts in order), and the chunks are exactly the record list |
| IndexStore.BuildLeavesOthers | Scripts/main.py:80-92 | a build changes no path other than its own two artifacts |
| IndexStore.BuildPreservesConsistency | Scripts/main.py:80-92 | if every present index/metadata pair agrees before a build, they all agree after it |
| IndexStore.LoadIndexAndMeta | Scripts/main.py:101-108 | loading fails if and only if either artifact is missing; otherwise it returns the two stored artifacts |
| IndexStore.LoadAfterBuild | Scripts/main.py:57-108 | loading right after a build succeeds and returns agreeing artifacts whose chunks are the record list and whose vector count is positive |
| IndexStore.BuildIdempotent | Scripts/main.py:61-62 | building again without `overwrite` reports "skipped" and leaves the store as the first build left it |
| Retriever.NeighbourCount | Scripts/main.py:49 | the neighbour count is at most `top_k` and at most `num_vectors`, and equals one of them |
| Retriever.CollectPages | Scripts/main.py:50-55 | the loop fails if and only if some id is past the chunk list; otherwise the pages have no duplicates, and a page is in the result exactly when it is the page of some non-negative returned id |
| Retriever.GetTopPages | Scripts/main.py:46-55 | it fails with not-indexed exactly when an artifact is missing; it searches with `min(top_k, num_vectors)` neighbours; it fails with out-of-range exactly when an id is past the chunk list; otherwise it returns the duplicate-free pages of the non-negative ids |
| Retriever.RetrievalOnlyFailsWhenNotIndexed | Scripts/main.py:47-54 | on a consistent store, with a search that stays within the index, the only possible failure is not-indexed |
| ContextAssembler.GroupPageTexts | Scripts/main.py:128-135 | only requested pages get an entry |
| ContextAssembler.GroupPageTextsSpec | Scripts/main.py:128-135 | a page has an entry exactly when it is requested and has chunks, and the entry is its chunk texts joined by single spaces in metadata order |
| ContextAssembler.EmitBlocks | Scripts/main.py:136-141 | the second loop emits nothing exactly when no listed page has a non-empty text |
| ContextAssembler.EmitBlocksSpec | Scripts/main.py:136-141 | the emitted blocks are the expected blocks for the listed pages, in list order |
| ContextAssembler.GetRelevantPageText | Scripts/main.py:119-126 | a missing metadata file yields `""` |
| ContextAssembler.GetRelevantPageTextSpec | Scripts/main.py:119-141 | with metadata present, the context is one `<PAGENUMBER>p</PAGENUMBER>\n<PAGETEXT>text</PAGETEXT>` block per requested page, in input order, holding the page's chunks joined by spaces; pages with empty text are omitted |
| ContextAssembler.PageWithoutChunksOmitted | Scripts/main.py:137-140 | a page without chunks contributes nothing |
| ContextAssembler.ContextOfBuiltDocument | Scripts/main.py:119-141 | after a build, a requested kept page's block holds that cleaned page's windows rejoined by spaces; pages that were dropped or are out of range give nothing |
| ContextAssembler.ContextOfRecords | Scripts/main.py:119-141 | the same for any store whose metadata holds the records built from a page list |
| Orchestrator.ResolvePdf | Scripts/main.py:162-164 | a missing entry raises `IndexError`; a present entry raises `ValueError`, carrying the entry, exactly when it does not split into two parts, and can otherwise only raise `KeyError`, for a company outside the mapping |
| Orchestrator.ResolveCompanyYear | Scripts/main.py:162-164 | an entry `company_year` with no other underscore resolves to `TICKER_year.pdf` if the company is mapped, and raises `KeyError` otherwise |
| Orchestrator.ResolvedEntryShape | Scripts/main.py:162-164 | a resolved entry is exactly `company + "_" + year` for a mapped company, and the PDF name is `TICKER_year.pdf` |
| Orchestrator.NvidiaExample | Scripts/main.py:17-21 | the entry `"nvidia" + "_" + "2023"` resolves to `"NVDA" + "_" + "2023" + ".pdf"` |
| Orchestrator.SubQueryContext | Scripts/main.py:161-166 | a sub-query without a `companies_year` entry raises `IndexError`; a resolution failure is raised as is; after resolving, a retrieval failure becomes its exception (not-indexed as `FileNotFoundError`, an out-of-range id as `IndexError`), and otherwise the context is `get_relevant_pagetext` of the retrieved pages |
| Orchestrator.DecomposedContext | Scripts/main.py:159-170 | the decomposed loop never lets a `KeyError` or `IndexError` escape |
| Orchestrator.Accumulate | Scripts/main.py:161-170 | one iteration fails exactly when an earlier one escaped or this sub-query raises an uncaught exception, and then carries that first exception; otherwise it appends the sub-query's context, or nothing for a caught fault |
| Orchestrator.Aggregate | Scripts/main.py:160-170 | folding the sub-query outcomes never produces a `KeyError` or `IndexError` failure |
| Orchestrator.AggregateNoEscape | Scripts/main.py:160-170 | when no sub-query raises an uncaught exception, the aggregated context is the concatenation, in sub-query order, of the contexts of the sub-queries that produced one |
| Orchestrator.AggregateFirstEscape | Scripts/main.py:160-170 | the first sub-query raising an exception other than `KeyError`/`IndexError` decides the outcome: that exception escapes |
| Orchestrator.AggregateSkipsCaught | Scripts/main.py:167-170 | removing an outcome that is a caught fault leaves the aggregated outcome unchanged |
| Orchestrator.AggregateAllCaught | Scripts/main.py:167-170 | if every outcome is a caught fault, the aggregated context is `""` |
| Orchestrator.RemovedOutcome | Scripts/main.py:160-162 | after removing entry `idx` from both the sub-queries and `companies_year`, sub-query `j` behaves as the old sub-query `j` (before `idx`) or `j + 1` (after it) |
| Orchestrator.SubQueryResultsRemove | Scripts/main.py:160-166 | removing a sub-query and its entry removes exactly its outcome and keeps the others in order |
| Orchestrator.SubQueryResultsPrefix | Scripts/main.py:160-166 | the outcomes of the first `k` sub-queries are the first `k` outcomes |
| Orchestrator.DecomposedReadsOnlyPrefix | Scripts/main.py:160-163 | the decomposed loop reads `companies_year` only at the sub-queries' indices |
| Orchestrator.DecomposedTruncates | Scripts/main.py:160-170 | sub-queries beyond the end of `companies_year` are skipped: the result is that of the sub-queries that have an entry |
| Orchestrator.DecomposedSkipsCaught | Scripts/main.py:160-170 | a sub-query failing with `KeyError` or `IndexError` contributes nothing: removing it and its entry leaves the result unchanged, so the other contexts are concatenated in sub-query order |
| Orchestrator.DecomposedAllCaught | Scripts/main.py:157-170 | if every sub-query fails with a caught error, the aggregated context is `""` |
| Orchestrator.SingleContext | Scripts/main.py:171-180 | the single path never lets a caught error escape: with no `companies_year` entry, or when the first entry's sub-query fails with `KeyError` or `IndexError`, it returns `{}`; it has a context exactly when the first entry's sub-query produces one, and then that context; an uncaught exception escapes unchanged |
| Orchestrator.FieldOr | Scripts/main.py:153-155 | `get(key, default)` is `None` exactly for a `null` value, the default for a missing key, and the value otherwise |
| Orchestrator.MakeEnvelope | Scripts/main.py:185-191 | the envelope holds the user query, the decomposition's `sub_queries` as read, and `answer`, `reasoning` and `sources` read from the reply with `""` as default (`None` for `null`) |
| Orchestrator.Answer | Scripts/main.py:182-191 | a failed answer call escapes `main`; otherwise the result is the envelope |
| Orchestrator.Main | Scripts/main.py:143-191 | no `KeyError` or `IndexError` escapes; a failed decomposition call escapes; a `null` `companies_year` raises `TypeError`; the envelope's `query` is the user query and its `sub_queries` is the decomposition's `queries` as read, and the envelope is built from a reply of the answer call; the decomposed path never returns `{}` |
| Orchestrator.MainDecomposedAnswer | Scripts/main.py:159-190 | on the decomposed path with no uncaught exception, the answer call receives the concatenated contexts of the sub-queries that produced one, and its reply fills the envelope |
| Orchestrator.MainSingleAnswer | Scripts/main.py:171-190 | on the single path, when the first entry resolves and retrieval succeeds, the answer call receives the assembled pages for the user query, and its reply fills the envelope |
| Orchestrator.MainSingleEscape | Scripts/main.py:171-180 | on the single path, an exception of the first sub-query that is neither `KeyError` nor `IndexError` (such as `FileNotFoundError` for a document without an index) escapes `main` unchanged |
| Orchestrator.MainDecomposedEscape | Scripts/main.py:159-169 | on the decomposed path, the first sub-query's exception that is neither `KeyError` nor `IndexError` escapes `main` unchanged |
| Orchestrator.MainMalformedEntry | Scripts/main.py:159-180 | a first `companies_year` entry that does not split into two parts makes `main` raise `ValueError` with that entry, on either path |
| Orchestrator.MainEmptyResponse | Scripts/main.py:171-180 | after a successful decomposition call, `main` returns `{}` if and only if the single path is taken, `companies_year` is not `null`, and the first entry's resolution or retrieval fails with a caught error |
| Strings.Find | Scripts/llm.py:23-24 | `find` returns -1 exactly when the character is absent; otherwise the index of its first occurrence |
| Strings.RFind | Scripts/llm.py:29 | `rfind` returns -1 exactly when the character is absent; otherwise the index of its last occurrence |
| Strings.Split | Scripts/main.py:162 | `split` gives at least one part and no part contains the separator |
| Strings.JoinSplit | Scripts/main.py:162 | joining the parts of a split with the separator gives back the input |
| Strings.SplitPair | Scripts/main.py:173 | two separator-free pieces joined by the separator split back into exactly those two pieces |
| Strings.NatToString | Scripts/main.py:140 | `str(page)` is a non-empty string of decimal digits; it starts with `0` only for 0, and never has a leading zero |
| Strings.ParseNatToString | Scripts/main.py:140 | reading the rendered page number back gives the page number |
| JsonExtract.PySlice | Scripts/llm.py:30 | for the non-negative start and stop that `_json` passes, a slice whose stop is not past its start is empty; an in-bounds slice is the substring |
| JsonExtract.StartIndex | Scripts/llm.py:27 | the start is one of the two `find` results: the smaller when both are found, the other one when one is -1 |
| JsonExtract.LocateJson | Scripts/llm.py:23-33 | there is no slice exactly when the reply contains neither `[` nor `{`; a non-empty slice starts with an opener and ends with its matching closer |
| JsonExtract.LocateJsonStart | Scripts/llm.py:23-33 | with `i` the first `[` or `{`, the slice runs from `i` through the last occurrence of the matching closer |
| JsonExtract.LocateJsonAt | Scripts/llm.py:27-33 | once the start index is the opener at `i`, the slice runs through the last occurrence of the matching closer |
| JsonExtract.LocateJsonSpec | Scripts/llm.py:23-33 | the slice starts at the earliest opener; it ends at the last matching closer inclusive; it is empty when no matching closer follows the opener, including when `rfind` returns -1 |
| JsonExtract.LocateWrapped | Scripts/llm.py:23-33 | a bracketed part with no opener before it and no matching closer after it is cut out exactly |
| JsonExtract.ObjectExample | Scripts/llm.py:23-33 | `"Here is the result: " + "{\"a\": 1}" + " Thanks"` slices to `{"a": 1}` |
| JsonExtract.Json | Scripts/llm.py:20-41 | the result is `{}` if and only if no opener is found or both parsers fail; a successful strict parse is the result, and the repaired parse is tried only when the strict one fails; a reply without `[` or `{` gives `{}` |
| JsonExtract.NoStructureExample | Scripts/llm.py:25-26 | a reply with no bracket or brace gives `{}` whatever the parsers do |

## Left out

- Retriever.GetTopPages: lists the pages in the order their first chunk id comes back. The source returns `list(set(...))`, in CPython hash-table order, which is not modelled. The set of pages and the absence of duplicates are as in the source. The context assembler's properties hold for any page order.
- Chunker.ChunkText: requires `overlap < max_len`, and the builder always passes 512 and 50. Without it, a text of 1 to `max_len` characters still gives one chunk, but a longer text never ends (`overlap == max_len`) or walks backwards (`overlap > max_len`).
- IndexStore.BaseName: takes the text after the last `/`. `pathlib` also drops trailing slashes and `.` components, and that normalisation is not modelled.
- ContextAssembler.GetRelevantPageText: reads `indexes/<name>.meta.json` with the name as given. The source path `./indexes/...` is the same file. Unlike `_file_keys`, it does not take the base name, and the model keeps that difference.
- Embeddings and FAISS: the embedding model, the inner-product scores and their tie order are external floating-point code. The search is a function parameter returning chunk ids. Its index and query inputs stand for the vectors.
- The `dim` stored in the metadata is an input, because it is the embedder's output width.
- PDF text extraction (`PdfReader`) is an input: the page texts it returns, with `None` for an empty page. Only the cleaning step of `load_pdf_pages` is modelled.
- JSON file I/O, `mkdir` and logging are not modelled. Metadata is a typed record, so a hand-edited file without `chunks` (the `data.get("chunks", [])` default) is not modelled.
- Partially failed writes, atomic replacement of the pair, and concurrent readers are not modelled.
- `build_indexes_in_folder` and its call at the start of `main` are left out: this is a directory loop that only logs failures. `Main` takes the store as already built.
- `_call_llm`, the Bedrock client and the `backoff` retry are network and wall-clock code. `_json` swallows every exception, so the retry on `JSONDecodeError` can only fire on a malformed Bedrock response envelope. It is not a retry on bad model JSON. A call that raises (a Bedrock error, or the `JSONDecodeError` re-raised after the retry) is `None`, and `main` lets it escape as `ModelFailure`.
- `eval` and `json_repair.repair_json` followed by `json.loads` are the two uninterpreted parsers of `JsonExtract.Json`. A parser that raises is `None`. A parsed `{}` and the `{}` default are distinct in the model but not in Python.
- Orchestrator.Main: the replies of the two model calls are typed records whose fields are missing, `null` or of the expected type. A reply that is a JSON list, where `.get` raises `AttributeError`, counts as a failed call (`ModelFailure`). Values of other types are not modelled: a string `companies_year`, non-string entries, or a non-boolean `decomposition` with its own truthiness.
- `main` catches only `KeyError` and `IndexError`. These escape as `Failure`: a `company_year` that does not split into exactly two parts (`ValueError`), a missing index (`FileNotFoundError` from `get_top_pages`), a `null` `companies_year` (`TypeError`), and a failed model call (`ModelFailure`).
- The chat prompt text and its `replace("<<query>>", ...)` are in `Scripts/prompt.py`, which is not part of this model. The chat function receives the user query and the context directly.
- `Scripts/get_docs.py` is not part of this model: it downloads filings through the sec-api service.
