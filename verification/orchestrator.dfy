/** `main`: decomposition, per-sub-query retrieval, context aggregation and the
    answer envelope. Both model calls are uninterpreted functions that return
    the fields the code reads, or `None` when the call raised. */
module Orchestrator {
  import opened Wrappers
  import opened Strings
  import opened IndexStore
  import Retriever
  import ContextAssembler

  /** `filename_mapping`: company key to ticker. */
  const FilenameMapping: map<string, string> := map["google" := "GOOGL", "microsoft" := "MSFT", "nvidia" := "NVDA"]

  /** The `top_k` both paths pass to retrieval. */
  const TopK: nat := 2

  /** One key of a parsed reply: missing, present with JSON `null`, or present
      with a value. */
  datatype Field<T> = Absent | Null | Present(value: T)

  /** `reply.get(key, default)`: the default for a missing key, `None` for a
      `null` value. */
  function FieldOr<T>(f: Field<T>, default: T): (r: Option<T>)
    ensures r.None? <==> f.Null?
    ensures f.Absent? ==> r == Some(default)
    ensures f.Present? ==> r == Some(f.value)
  {
    match f
    case Absent => Some(default)
    case Null => None
    case Present(v) => Some(v)
  }

  /** The fields of the decomposition reply that `main` reads. */
  datatype DecompositionReply = DecompositionReply(
    decomposition: Field<bool>,
    companiesYear: Field<seq<string>>,
    queries: Field<seq<string>>)

  /** The fields of the answer reply that `main` reads. */
  datatype ChatReply = ChatReply(answer: Field<string>, reasoning: Field<string>, source: Field<string>)

  /** What `main` returns: `{}` or the answer envelope; `None` is a JSON `null`. */
  datatype Response =
    | EmptyResponse
    | Envelope(query: string, answer: Option<string>, reasoning: Option<string>,
               subQueries: Option<seq<string>>, sources: Option<string>)

  /** The exceptions a sub-query can raise. */
  datatype Fault =
    | IndexError                     // `companies_year[idx]` missing, or a chunk id past the metadata
    | KeyError(company: string)      // company key not in the mapping
    | ValueError(entry: string)      // `split("_")` did not give exactly two parts
    | FileNotFound(pdf: string)      // the PDF has no index
    | TypeError                      // `companies_year` is `None`, so indexing it fails
    | ModelFailure                   // `_call_llm` raised, or its reply is not a dictionary

  /** The faults `main` catches (`except (KeyError, IndexError)`). */
  predicate Caught(f: Fault) {
    f.IndexError? || f.KeyError?
  }

  /** Resolution of `companies_year[idx]` to a PDF name: `"<company>_<year>"`
      becomes `"<TICKER>_<year>.pdf"`. */
  function ResolvePdf(companiesYear: seq<string>, idx: nat): (r: Result<string, Fault>)
    ensures idx >= |companiesYear| ==> r == Failure(IndexError)
    ensures r.Failure? && idx < |companiesYear| ==> r.error.ValueError? || r.error.KeyError?
    ensures r.Failure? && r.error.KeyError? ==> r.error.company !in FilenameMapping
    ensures idx < |companiesYear| ==> (r.Failure? && r.error.ValueError? <==> |Split(companiesYear[idx], '_')| != 2)
    ensures r.Failure? && r.error.ValueError? ==> r.error.entry == companiesYear[idx]
  {
    if idx >= |companiesYear| then Failure(IndexError)
    else
      var parts := Split(companiesYear[idx], '_');
      if |parts| != 2 then Failure(ValueError(companiesYear[idx]))
      else if parts[0] !in FilenameMapping then Failure(KeyError(parts[0]))
      else Success(FilenameMapping[parts[0]] + "_" + parts[1] + ".pdf")
  }

  /** An entry made of an underscore-free company and year resolves to the
      ticker's PDF, or fails with `KeyError` for an unknown company. */
  lemma ResolveCompanyYear(companiesYear: seq<string>, idx: nat, company: string, year: string)
    requires idx < |companiesYear| && companiesYear[idx] == company + "_" + year
    requires '_' !in company && '_' !in year
    ensures ResolvePdf(companiesYear, idx) ==
      if company in FilenameMapping then Success(FilenameMapping[company] + "_" + year + ".pdf")
      else Failure(KeyError(company))
  {
    SplitPair(company, year, '_');
  }

  /** A resolved PDF name came from an entry `company + "_" + year`. */
  lemma ResolvedEntryShape(companiesYear: seq<string>, idx: nat)
    requires ResolvePdf(companiesYear, idx).Success?
    ensures var parts := Split(companiesYear[idx], '_');
      && |parts| == 2
      && companiesYear[idx] == parts[0] + "_" + parts[1]
      && parts[0] in FilenameMapping
      && ResolvePdf(companiesYear, idx).value == FilenameMapping[parts[0]] + "_" + parts[1] + ".pdf"
  {
    JoinSplit(companiesYear[idx], '_');
    var parts := Split(companiesYear[idx], '_');
    assert parts[..1] == [parts[0]];
  }

  /** The entry `"nvidia_2023"` names `NVDA_2023.pdf`. */
  lemma NvidiaExample()
    ensures ResolvePdf(["nvidia" + "_" + "2023"], 0) == Success("NVDA" + "_" + "2023" + ".pdf")
  {
    ResolveCompanyYear(["nvidia" + "_" + "2023"], 0, "nvidia", "2023");
    assert FilenameMapping["nvidia"] == "NVDA";
  }

  function FromRetrieval(e: Retriever.RetrieveError): Fault {
    match e
    case NotIndexed(pdf) => FileNotFound(pdf)
    case ChunkIdOutOfRange(_) => IndexError
  }

  /** The body of one iteration: resolve the PDF, retrieve the top pages for
      `query`, assemble their context. */
  function SubQueryContext(store: Store, search: (IndexFile, string, nat) -> seq<int>,
                           companiesYear: seq<string>, idx: nat, query: string): (r: Result<string, Fault>)
    ensures idx >= |companiesYear| ==> r == Failure(IndexError)
    ensures r.Success? ==> ResolvePdf(companiesYear, idx).Success?
    ensures ResolvePdf(companiesYear, idx).Failure? ==> r == Failure(ResolvePdf(companiesYear, idx).error)
    ensures ResolvePdf(companiesYear, idx).Success? ==>
      var pdf := ResolvePdf(companiesYear, idx).value;
      var pages := Retriever.GetTopPages(store, pdf, query, TopK, search);
      && (pages.Failure? ==> r == Failure(FromRetrieval(pages.error)))
      && (pages.Success? ==> r == Success(ContextAssembler.GetRelevantPageText(store, pdf, pages.value)))
  {
    var pdf :- ResolvePdf(companiesYear, idx);
    var pages := Retriever.GetTopPages(store, pdf, query, TopK, search);
    if pages.Failure? then Failure(FromRetrieval(pages.error))
    else Success(ContextAssembler.GetRelevantPageText(store, pdf, pages.value))
  }

  /** The outcome of every sub-query, in sub-query order. */
  function SubQueryResults(store: Store, search: (IndexFile, string, nat) -> seq<int>,
                           companiesYear: seq<string>, queries: seq<string>): (rs: seq<Result<string, Fault>>)
    ensures |rs| == |queries|
    ensures forall j :: 0 <= j < |rs| ==> rs[j] == SubQueryContext(store, search, companiesYear, j, queries[j])
  {
    seq(|queries|, j requires 0 <= j < |queries| => SubQueryContext(store, search, companiesYear, j, queries[j]))
  }

  /** The `for idx, query in enumerate(sub_queries)` loop over the sub-query
      outcomes: contexts concatenated in order, a caught fault skipping its
      sub-query, any other fault escaping. */
  function Aggregate(results: seq<Result<string, Fault>>): (r: Result<string, Fault>)
    ensures r.Failure? ==> !Caught(r.error)
    decreases |results|
  {
    if |results| == 0 then Success("")
    else Accumulate(Aggregate(results[..|results| - 1]), results[|results| - 1])
  }

  /** One iteration of the decomposed loop: an escaped fault stays escaped, a
      context is appended, a caught fault is skipped, any other fault escapes. */
  function Accumulate(before: Result<string, Fault>, c: Result<string, Fault>): (r: Result<string, Fault>)
    ensures r.Failure? <==> before.Failure? || Escapes(c)
    ensures r.Failure? ==> r.error == if before.Failure? then before.error else c.error
    ensures r.Success? ==> r.value == before.value + if c.Success? then c.value else ""
  {
    if before.Failure? then before
    else if c.Success? then Success(before.value + c.value)
    else if Caught(c.error) then before
    else Failure(c.error)
  }

  /** The decomposed path over `queries`. */
  function DecomposedContext(store: Store, search: (IndexFile, string, nat) -> seq<int>,
                             companiesYear: seq<string>, queries: seq<string>): (r: Result<string, Fault>)
    ensures r.Failure? ==> !Caught(r.error)
  {
    Aggregate(SubQueryResults(store, search, companiesYear, queries))
  }

  /** A fault that `main` does not catch. */
  predicate Escapes(c: Result<string, Fault>) {
    c.Failure? && !Caught(c.error)
  }

  /** Reference definition of the aggregated context: the contexts of the
      sub-queries that produced one, concatenated in order. */
  function Kept(results: seq<Result<string, Fault>>): string
    decreases |results|
  {
    if |results| == 0 then ""
    else
      var last := results[|results| - 1];
      Kept(results[..|results| - 1]) + (if last.Success? then last.value else "")
  }

  /** The single path: `None` is the `{}` returned after a caught fault. */
  function SingleContext(store: Store, search: (IndexFile, string, nat) -> seq<int>,
                         companiesYear: seq<string>, userQuery: string): (r: Result<Option<string>, Fault>)
    ensures r.Failure? ==> !Caught(r.error)
    ensures |companiesYear| == 0 ==> r == Success(None)
    ensures var c := SubQueryContext(store, search, companiesYear, 0, userQuery);
      && (r.Success? && r.value.Some? <==> c.Success?)
      && (c.Success? ==> r.value.value == c.value)
      && (Escapes(c) ==> r == Failure(c.error))
      && (c.Failure? && Caught(c.error) ==> r == Success(None))
  {
    var c := SubQueryContext(store, search, companiesYear, 0, userQuery);
    if c.Success? then Success(Some(c.value))
    else if Caught(c.error) then Success(None)
    else Failure(c.error)
  }

  /** The `update` of the envelope: the query as asked, the three answer fields
      read with `""` as their default, and the sub-queries as decomposed. */
  function MakeEnvelope(userQuery: string, subQueries: Option<seq<string>>, reply: ChatReply): (r: Response)
    ensures r.Envelope? && r.query == userQuery && r.subQueries == subQueries
    ensures r.answer == FieldOr(reply.answer, "")
    ensures r.reasoning == FieldOr(reply.reasoning, "")
    ensures r.sources == FieldOr(reply.source, "")
  {
    Envelope(userQuery, FieldOr(reply.answer, ""), FieldOr(reply.reasoning, ""), subQueries, FieldOr(reply.source, ""))
  }

  /** `if decomposition and sub_queries`: both truthy. */
  predicate TakesDecomposedPath(d: DecompositionReply) {
    && FieldOr(d.decomposition, false) == Some(true)
    && FieldOr(d.queries, []).Some? && |FieldOr(d.queries, []).value| > 0
  }

  /** `main(userquery)` on an already built store. A `Failure` is an exception
      that escapes `main`. With `companies_year` null, the first use of
      `companies_year[idx]` raises `TypeError` on either path (the decomposed
      path runs at least one iteration). */
  function Main(store: Store, search: (IndexFile, string, nat) -> seq<int>,
                decompose: string -> Option<DecompositionReply>,
                chat: (string, string) -> Option<ChatReply>,
                userQuery: string): (r: Result<Response, Fault>)
    ensures r.Failure? ==> !Caught(r.error)
    ensures decompose(userQuery).None? ==> r == Failure(ModelFailure)
    ensures decompose(userQuery).Some? && decompose(userQuery).value.companiesYear.Null? ==> r == Failure(TypeError)
    ensures r.Success? && r.value.Envelope? ==>
      && r.value.query == userQuery
      && r.value.subQueries == FieldOr(decompose(userQuery).value.queries, [])
      && exists context :: chat(userQuery, context).Some? &&
           r.value == MakeEnvelope(userQuery, r.value.subQueries, chat(userQuery, context).value)
    ensures decompose(userQuery).Some? && TakesDecomposedPath(decompose(userQuery).value) ==>
      r != Success(EmptyResponse)
  {
    if decompose(userQuery).None? then Failure(ModelFailure)
    else
      var d := decompose(userQuery).value;
      var subQueries := FieldOr(d.queries, []);
      var cy := FieldOr(d.companiesYear, []);
      if cy.None? then Failure(TypeError)
      else if TakesDecomposedPath(d) then
        var context :- DecomposedContext(store, search, cy.value, subQueries.value);
        Answer(userQuery, subQueries, chat(userQuery, context))
      else
        var context :- SingleContext(store, search, cy.value, userQuery);
        if context.None? then Success(EmptyResponse)
        else Answer(userQuery, subQueries, chat(userQuery, context.value))
  }

  /** The answer call and the envelope; a call that raised escapes `main`. */
  function Answer(userQuery: string, subQueries: Option<seq<string>>, reply: Option<ChatReply>): (r: Result<Response, Fault>)
    ensures reply.None? <==> r == Failure(ModelFailure)
    ensures reply.Some? ==> r == Success(MakeEnvelope(userQuery, subQueries, reply.value))
  {
    if reply.None? then Failure(ModelFailure) else Success(MakeEnvelope(userQuery, subQueries, reply.value))
  }

  /** On the decomposed path, when no sub-query raises an uncaught exception,
      the answer call receives the concatenated contexts of the sub-queries
      that produced one, and its reply fills the envelope. */
  lemma MainDecomposedAnswer(store: Store, search: (IndexFile, string, nat) -> seq<int>,
                             decompose: string -> Option<DecompositionReply>,
                             chat: (string, string) -> Option<ChatReply>,
                             userQuery: string)
    requires decompose(userQuery).Some?
    requires var d := decompose(userQuery).value;
      TakesDecomposedPath(d) && FieldOr(d.companiesYear, []).Some?
    requires var d := decompose(userQuery).value;
      var rs := SubQueryResults(store, search, FieldOr(d.companiesYear, []).value, FieldOr(d.queries, []).value);
      forall j :: 0 <= j < |rs| ==> !Escapes(rs[j])
    ensures var d := decompose(userQuery).value;
      var rs := SubQueryResults(store, search, FieldOr(d.companiesYear, []).value, FieldOr(d.queries, []).value);
      Main(store, search, decompose, chat, userQuery) == Answer(userQuery, FieldOr(d.queries, []), chat(userQuery, Kept(rs)))
  {
    var d := decompose(userQuery).value;
    AggregateNoEscape(SubQueryResults(store, search, FieldOr(d.companiesYear, []).value, FieldOr(d.queries, []).value));
  }

  /** On the single path, when the first entry resolves and retrieval succeeds,
      the answer call receives the assembled pages of that document for the
      user query, and its reply fills the envelope. */
  lemma MainSingleAnswer(store: Store, search: (IndexFile, string, nat) -> seq<int>,
                         decompose: string -> Option<DecompositionReply>,
                         chat: (string, string) -> Option<ChatReply>,
                         userQuery: string)
    requires decompose(userQuery).Some?
    requires var d := decompose(userQuery).value;
      !TakesDecomposedPath(d) && FieldOr(d.companiesYear, []).Some?
    requires var cy := FieldOr(decompose(userQuery).value.companiesYear, []).value;
      && ResolvePdf(cy, 0).Success?
      && Retriever.GetTopPages(store, ResolvePdf(cy, 0).value, userQuery, TopK, search).Success?
    ensures var d := decompose(userQuery).value;
      var pdf := ResolvePdf(FieldOr(d.companiesYear, []).value, 0).value;
      var pages := Retriever.GetTopPages(store, pdf, userQuery, TopK, search).value;
      Main(store, search, decompose, chat, userQuery) ==
        Answer(userQuery, FieldOr(d.queries, []), chat(userQuery, ContextAssembler.GetRelevantPageText(store, pdf, pages)))
  {
  }

  /** On the single path, an exception the `except (KeyError, IndexError)` does
      not catch (a missing index, a malformed entry) escapes `main` unchanged. */
  lemma MainSingleEscape(store: Store, search: (IndexFile, string, nat) -> seq<int>,
                         decompose: string -> Option<DecompositionReply>,
                         chat: (string, string) -> Option<ChatReply>,
                         userQuery: string)
    requires decompose(userQuery).Some?
    requires var d := decompose(userQuery).value;
      !TakesDecomposedPath(d) && FieldOr(d.companiesYear, []).Some?
    requires Escapes(SubQueryContext(store, search, FieldOr(decompose(userQuery).value.companiesYear, []).value, 0, userQuery))
    ensures Main(store, search, decompose, chat, userQuery) ==
      Failure(SubQueryContext(store, search, FieldOr(decompose(userQuery).value.companiesYear, []).value, 0, userQuery).error)
  {
  }

  /** On the decomposed path, the first sub-query whose exception is not caught
      ends the loop, and that exception escapes `main` unchanged. */
  lemma MainDecomposedEscape(store: Store, search: (IndexFile, string, nat) -> seq<int>,
                             decompose: string -> Option<DecompositionReply>,
                             chat: (string, string) -> Option<ChatReply>,
                             userQuery: string, k: nat)
    requires decompose(userQuery).Some?
    requires var d := decompose(userQuery).value;
      TakesDecomposedPath(d) && FieldOr(d.companiesYear, []).Some?
    requires var d := decompose(userQuery).value;
      var rs := SubQueryResults(store, search, FieldOr(d.companiesYear, []).value, FieldOr(d.queries, []).value);
      k < |rs| && Escapes(rs[k]) && forall j :: 0 <= j < k ==> !Escapes(rs[j])
    ensures var d := decompose(userQuery).value;
      var rs := SubQueryResults(store, search, FieldOr(d.companiesYear, []).value, FieldOr(d.queries, []).value);
      Main(store, search, decompose, chat, userQuery) == Failure(rs[k].error)
  {
    var d := decompose(userQuery).value;
    AggregateFirstEscape(SubQueryResults(store, search, FieldOr(d.companiesYear, []).value, FieldOr(d.queries, []).value), k);
  }

  /** An entry of `companies_year` that does not split into exactly two parts
      raises `ValueError`, which escapes `main`: on the single path it is the
      entry read, on the decomposed path the first sub-query reads it. */
  lemma MainMalformedEntry(store: Store, search: (IndexFile, string, nat) -> seq<int>,
                           decompose: string -> Option<DecompositionReply>,
                           chat: (string, string) -> Option<ChatReply>,
                           userQuery: string)
    requires decompose(userQuery).Some?
    requires var d := decompose(userQuery).value;
      d.companiesYear.Present? && |d.companiesYear.value| > 0 && |Split(d.companiesYear.value[0], '_')| != 2
    ensures Main(store, search, decompose, chat, userQuery) ==
      Failure(ValueError(decompose(userQuery).value.companiesYear.value[0]))
  {
    var d := decompose(userQuery).value;
    var cy := d.companiesYear.value;
    if TakesDecomposedPath(d) {
      var queries := FieldOr(d.queries, []).value;
      var rs := SubQueryResults(store, search, cy, queries);
      assert rs[0] == Failure(ValueError(cy[0]));
      AggregateFirstEscape(rs, 0);
    }
  }

  /** When nothing escapes, the loop yields the concatenated contexts of the
      sub-queries that produced one. */
  lemma {:induction false} AggregateNoEscape(results: seq<Result<string, Fault>>)
    requires forall j :: 0 <= j < |results| ==> !Escapes(results[j])
    ensures Aggregate(results) == Success(Kept(results))
    decreases |results|
  {
    if |results| > 0 {
      var n := |results|;
      assert forall j :: 0 <= j < n - 1 ==> results[..n - 1][j] == results[j];
      AggregateNoEscape(results[..n - 1]);
      assert Kept(results[..n - 1]) + "" == Kept(results[..n - 1]);
    }
  }

  /** The first fault that is not caught ends the loop and escapes `main`. */
  lemma {:induction false} AggregateFirstEscape(results: seq<Result<string, Fault>>, k: nat)
    requires k < |results| && Escapes(results[k])
    requires forall j :: 0 <= j < k ==> !Escapes(results[j])
    ensures Aggregate(results) == Failure(results[k].error)
    decreases |results|
  {
    var n := |results|;
    var front := results[..n - 1];
    assert forall j :: 0 <= j < n - 1 ==> front[j] == results[j];
    if k == n - 1 {
      AggregateNoEscape(front);
    } else {
      AggregateFirstEscape(front, k);
    }
  }

  /** A caught fault contributes nothing: removing it leaves the outcome unchanged. */
  lemma {:induction false} AggregateSkipsCaught(results: seq<Result<string, Fault>>, idx: nat)
    requires idx < |results| && results[idx].Failure? && Caught(results[idx].error)
    ensures Aggregate(results) == Aggregate(results[..idx] + results[idx + 1..])
    decreases |results|
  {
    var n := |results|;
    var rest := results[..idx] + results[idx + 1..];
    if idx == n - 1 {
      assert rest == results[..n - 1];
    } else {
      var front := results[..n - 1];
      assert front[idx] == results[idx];
      AggregateSkipsCaught(front, idx);
      assert rest[..|rest| - 1] == front[..idx] + front[idx + 1..];
      assert rest[|rest| - 1] == results[n - 1];
    }
  }

  /** When every sub-query fails with a caught fault, the context is empty. */
  lemma {:induction false} AggregateAllCaught(results: seq<Result<string, Fault>>)
    requires forall j :: 0 <= j < |results| ==> results[j].Failure? && Caught(results[j].error)
    ensures Aggregate(results) == Success("")
    decreases |results|
  {
    if |results| > 0 {
      var n := |results|;
      assert forall j :: 0 <= j < n - 1 ==> results[..n - 1][j] == results[j];
      AggregateAllCaught(results[..n - 1]);
    }
  }

  /** Two sub-queries with the same query text and the same `companies_year`
      entry (or both without one) give the same outcome. */
  lemma SameEntrySameContext(store: Store, search: (IndexFile, string, nat) -> seq<int>,
                             cy1: seq<string>, i: nat, cy2: seq<string>, j: nat, query: string)
    requires i < |cy1| <==> j < |cy2|
    requires i < |cy1| ==> cy1[i] == cy2[j]
    ensures SubQueryContext(store, search, cy1, i, query) == SubQueryContext(store, search, cy2, j, query)
  {
    assert ResolvePdf(cy1, i) == ResolvePdf(cy2, j);
  }

  /** The decomposed path reads `companies_year` only at the sub-queries' indices. */
  lemma DecomposedReadsOnlyPrefix(store: Store, search: (IndexFile, string, nat) -> seq<int>,
                                  cy1: seq<string>, cy2: seq<string>, queries: seq<string>)
    requires |cy1| == |cy2| || (|cy1| >= |queries| && |cy2| >= |queries|)
    requires forall j :: 0 <= j < |queries| && j < |cy1| && j < |cy2| ==> cy1[j] == cy2[j]
    ensures DecomposedContext(store, search, cy1, queries) == DecomposedContext(store, search, cy2, queries)
  {
    var r1 := SubQueryResults(store, search, cy1, queries);
    var r2 := SubQueryResults(store, search, cy2, queries);
    forall j | 0 <= j < |queries|
      ensures r1[j] == r2[j]
    {
      SameEntrySameContext(store, search, cy1, j, cy2, j, queries[j]);
    }
    assert r1 == r2;
  }

  /** The outcomes of a prefix of the sub-queries are a prefix of the outcomes. */
  lemma SubQueryResultsPrefix(store: Store, search: (IndexFile, string, nat) -> seq<int>,
                              companiesYear: seq<string>, queries: seq<string>, k: nat)
    requires k <= |queries|
    ensures SubQueryResults(store, search, companiesYear, queries)[..k] ==
      SubQueryResults(store, search, companiesYear, queries[..k])
  {
  }

  /** Sub-queries past the end of `companies_year` are skipped: the result is
      that of the sub-queries that have an entry. */
  lemma {:induction false} DecomposedTruncates(store: Store, search: (IndexFile, string, nat) -> seq<int>,
                                               companiesYear: seq<string>, queries: seq<string>)
    requires |companiesYear| <= |queries|
    ensures DecomposedContext(store, search, companiesYear, queries) ==
      DecomposedContext(store, search, companiesYear, queries[..|companiesYear|])
    decreases |queries|
  {
    var n := |queries|;
    if n > |companiesYear| {
      var rs := SubQueryResults(store, search, companiesYear, queries);
      SubQueryResultsPrefix(store, search, companiesYear, queries, n - 1);
      assert rs[n - 1] == Failure(IndexError);
      assert Aggregate(rs) == Aggregate(rs[..n - 1]);
      var init := queries[..n - 1];
      assert DecomposedContext(store, search, companiesYear, init) == Aggregate(rs[..n - 1]);
      DecomposedTruncates(store, search, companiesYear, init);
      assert init[..|companiesYear|] == queries[..|companiesYear|];
    } else {
      assert queries[..|companiesYear|] == queries;
    }
  }

  /** After dropping entry `idx` from both lists, sub-query `j` is the old
      sub-query `j` or `j + 1`, with the same entry. */
  lemma RemovedOutcome(store: Store, search: (IndexFile, string, nat) -> seq<int>,
                       companiesYear: seq<string>, queries: seq<string>, idx: nat, j: nat)
    requires idx < |companiesYear| && idx < |queries| && j + 1 < |queries|
    ensures var cy' := companiesYear[..idx] + companiesYear[idx + 1..];
      var q' := queries[..idx] + queries[idx + 1..];
      var k := if j < idx then j else j + 1;
      SubQueryContext(store, search, cy', j, q'[j]) == SubQueryContext(store, search, companiesYear, k, queries[k])
  {
    var cy' := companiesYear[..idx] + companiesYear[idx + 1..];
    var q' := queries[..idx] + queries[idx + 1..];
    if j < idx {
      assert q'[j] == queries[j] && cy'[j] == companiesYear[j];
      SameEntrySameContext(store, search, cy', j, companiesYear, j, queries[j]);
    } else {
      assert q'[j] == queries[j + 1];
      assert j < |cy'| ==> cy'[j] == companiesYear[j + 1];
      SameEntrySameContext(store, search, cy', j, companiesYear, j + 1, queries[j + 1]);
    }
  }

  /** Dropping a sub-query together with its `companies_year` entry drops its
      outcome and leaves the others in order. */
  lemma SubQueryResultsRemove(store: Store, search: (IndexFile, string, nat) -> seq<int>,
                              companiesYear: seq<string>, queries: seq<string>, idx: nat)
    requires idx < |companiesYear| && idx < |queries|
    ensures var rs := SubQueryResults(store, search, companiesYear, queries);
      SubQueryResults(store, search, companiesYear[..idx] + companiesYear[idx + 1..], queries[..idx] + queries[idx + 1..]) ==
        rs[..idx] + rs[idx + 1..]
  {
    var rs := SubQueryResults(store, search, companiesYear, queries);
    var rs' := SubQueryResults(store, search, companiesYear[..idx] + companiesYear[idx + 1..], queries[..idx] + queries[idx + 1..]);
    var expected := rs[..idx] + rs[idx + 1..];
    forall j | 0 <= j < |rs'|
      ensures rs'[j] == expected[j]
    {
      RemovedOutcome(store, search, companiesYear, queries, idx, j);
    }
    assert rs' == expected;
  }

  /** A sub-query whose own resolution or retrieval fails with a caught fault
      contributes nothing: dropping it, together with its `companies_year`
      entry, leaves the outcome unchanged. */
  lemma DecomposedSkipsCaught(store: Store, search: (IndexFile, string, nat) -> seq<int>,
                              companiesYear: seq<string>, queries: seq<string>, idx: nat)
    requires idx < |companiesYear| && idx < |queries|
    requires var c := SubQueryContext(store, search, companiesYear, idx, queries[idx]); c.Failure? && Caught(c.error)
    ensures DecomposedContext(store, search, companiesYear, queries) ==
      DecomposedContext(store, search, companiesYear[..idx] + companiesYear[idx + 1..], queries[..idx] + queries[idx + 1..])
  {
    SubQueryResultsRemove(store, search, companiesYear, queries, idx);
    AggregateSkipsCaught(SubQueryResults(store, search, companiesYear, queries), idx);
  }

  /** When no sub-query resolves, the decomposed path produces an empty context. */
  lemma DecomposedAllCaught(store: Store, search: (IndexFile, string, nat) -> seq<int>,
                            companiesYear: seq<string>, queries: seq<string>)
    requires forall j :: 0 <= j < |queries| ==>
      var c := SubQueryContext(store, search, companiesYear, j, queries[j]); c.Failure? && Caught(c.error)
    ensures DecomposedContext(store, search, companiesYear, queries) == Success("")
  {
    AggregateAllCaught(SubQueryResults(store, search, companiesYear, queries));
  }

  /** `main` returns `{}` exactly on the single path, when resolving or retrieving
      for the first `companies_year` entry fails with a caught fault. */
  lemma MainEmptyResponse(store: Store, search: (IndexFile, string, nat) -> seq<int>,
                          decompose: string -> Option<DecompositionReply>,
                          chat: (string, string) -> Option<ChatReply>,
                          userQuery: string)
    requires decompose(userQuery).Some?
    ensures var d := decompose(userQuery).value;
      var cy := FieldOr(d.companiesYear, []);
      Main(store, search, decompose, chat, userQuery) == Success(EmptyResponse) <==>
        && !TakesDecomposedPath(d)
        && cy.Some?
        && var c := SubQueryContext(store, search, cy.value, 0, userQuery); c.Failure? && Caught(c.error)
  {
  }
}
