/** `LLM._json`: locate the JSON-looking part of a model reply and parse it.
    Both parsers are uninterpreted: `strict` stands for `eval`, `repaired` for
    `json.loads(repair_json(...))`; `None` is a parser that raised. The result
    `None` stands for the `{}` the method returns when nothing could be parsed. */
module JsonExtract {
  import opened Wrappers
  import opened Strings

  predicate IsOpener(c: char) {
    c == '[' || c == '{'
  }

  /** The closer the slice ends at for a given opener. */
  function CloserOf(opener: char): char {
    if opener == '[' then ']' else '}'
  }

  /** Python's `s[lo:hi]` for non-negative `lo` and `hi` (negative indices,
      which count from the end, never reach it): empty when `hi <= lo`. */
  function PySlice(s: string, lo: nat, hi: nat): (r: string)
    ensures hi <= lo ==> r == ""
    ensures lo < hi <= |s| ==> r == s[lo..hi]
  {
    if hi <= lo || lo >= |s| then "" else s[lo..if hi <= |s| then hi else |s|]
  }

  /** The slicing part of `_json`: `None` when the reply holds neither `[` nor `{`
      (the `ValueError` the method raises and swallows). */
  function LocateJson(response: string): (r: Option<string>)
    ensures r.None? <==> '[' !in response && '{' !in response
    ensures r.Some? && |r.value| > 0 ==> IsOpener(r.value[0]) && r.value[|r.value| - 1] == CloserOf(r.value[0])
  {
    var listStart := Find(response, '[');
    var objectStart := Find(response, '{');
    if listStart == -1 && objectStart == -1 then None
    else
      var startIndex := StartIndex(listStart, objectStart);
      var closer := if startIndex == listStart then ']' else '}';
      Some(PySlice(response, startIndex, RFind(response, closer) + 1))
  }

  /** The earlier of the two `find` results, ignoring a -1. */
  function StartIndex(listStart: int, objectStart: int): (r: int)
    ensures r == listStart || r == objectStart
    ensures listStart != -1 && objectStart != -1 ==> r <= listStart && r <= objectStart
    ensures listStart == -1 && objectStart >= -1 ==> r == objectStart
    ensures objectStart == -1 && listStart >= -1 ==> r == listStart
  {
    if listStart != -1 && objectStart != -1 then (if listStart <= objectStart then listStart else objectStart)
    else (if listStart >= objectStart then listStart else objectStart)
  }

  /** `_json(response)`: never raises; any failure yields `{}`. */
  function Json<T>(response: string, strict: string -> Option<T>, repaired: string -> Option<T>): (r: Option<T>)
    ensures r.None? <==>
      || LocateJson(response).None?
      || (strict(LocateJson(response).value).None? && repaired(LocateJson(response).value).None?)
    ensures r.Some? ==> r == strict(LocateJson(response).value) || r == repaired(LocateJson(response).value)
    ensures LocateJson(response).Some? && strict(LocateJson(response).value).Some? ==>
      r == strict(LocateJson(response).value)
    ensures LocateJson(response).Some? && strict(LocateJson(response).value).None? ==>
      r == repaired(LocateJson(response).value)
    ensures '[' !in response && '{' !in response ==> r.None?
  {
    match LocateJson(response)
    case None => None
    case Some(text) =>
      var first := strict(text);
      if first.Some? then first else repaired(text)
  }

  /** With `i` the first opener, the slice runs from `i` to just past the
      last occurrence of the matching closer. */
  lemma LocateJsonStart(response: string, i: nat)
    requires i < |response| && IsOpener(response[i])
    requires forall j :: 0 <= j < i ==> !IsOpener(response[j])
    ensures LocateJson(response) == Some(PySlice(response, i, RFind(response, CloserOf(response[i])) + 1))
  {
    assert forall j :: 0 <= j < i ==> response[..i][j] == response[j];
    assert '[' !in response[..i] && '{' !in response[..i];
    var listStart := Find(response, '[');
    var objectStart := Find(response, '{');
    if response[i] == '[' {
      FindFirst(response, '[', i);
      FindNotBefore(response, '{', i);
      assert objectStart != i;
    } else {
      FindFirst(response, '{', i);
      FindNotBefore(response, '[', i);
      assert listStart != i;
    }
    LocateJsonAt(response, i);
  }

  /** Once the start index is known to be the opener at `i`, the slice ends
      just past the last matching closer. */
  lemma LocateJsonAt(response: string, i: nat)
    requires i < |response| && IsOpener(response[i])
    requires StartIndex(Find(response, '['), Find(response, '{')) == i
    ensures LocateJson(response) == Some(PySlice(response, i, RFind(response, CloserOf(response[i])) + 1))
  {
    if response[i] == '[' {
      assert Find(response, '{') != i;
    } else {
      assert Find(response, '[') != i;
    }
  }

  /** What the slice is, stated without `find`/`rfind`: it starts at the first
      opener `i` and ends at the last matching closer `k` inclusive, and it is
      empty when no such closer follows `i`. */
  lemma LocateJsonSpec(response: string, i: nat)
    requires i < |response| && IsOpener(response[i])
    requires forall j :: 0 <= j < i ==> !IsOpener(response[j])
    ensures var c := CloserOf(response[i]);
      && (c !in response[i..] ==> LocateJson(response) == Some(""))
      && (forall k :: i <= k < |response| && response[k] == c && c !in response[k + 1..] ==>
            LocateJson(response) == Some(response[i..k + 1]))
  {
    LocateJsonStart(response, i);
    var c := CloserOf(response[i]);
    if c !in response[i..] {
      RFindBefore(response, c, i);
    }
    forall k | i <= k < |response| && response[k] == c && c !in response[k + 1..]
      ensures LocateJson(response) == Some(response[i..k + 1])
    {
      RFindLast(response, c, k);
    }
  }

  /** A JSON-looking part surrounded by prose without openers before it and
      without its closer after it is cut out exactly. */
  lemma LocateWrapped(prefix: string, body: string, suffix: string)
    requires forall j :: 0 <= j < |prefix| ==> !IsOpener(prefix[j])
    requires |body| >= 1 && IsOpener(body[0]) && body[|body| - 1] == CloserOf(body[0])
    requires CloserOf(body[0]) !in suffix
    ensures LocateJson(prefix + body + suffix) == Some(body)
  {
    var s := prefix + body + suffix;
    var i := |prefix|;
    var k := |prefix| + |body| - 1;
    assert s[i] == body[0] && s[k] == body[|body| - 1];
    assert s[k + 1..] == suffix;
    assert forall j :: 0 <= j < i ==> s[j] == prefix[j];
    LocateJsonSpec(s, i);
    assert s[i..k + 1] == body;
  }

  /** The reply `Here is the result: {"a": 1} Thanks` yields `{"a": 1}`. */
  lemma ObjectExample()
    ensures LocateJson("Here is the result: " + "{\"a\": 1}" + " Thanks") == Some("{\"a\": 1}")
  {
    var prefix, body, suffix := "Here is the result: ", "{\"a\": 1}", " Thanks";
    assert forall j :: 0 <= j < |prefix| ==> !IsOpener(prefix[j]);
    assert forall j :: 0 <= j < |suffix| ==> suffix[j] != '}';
    LocateWrapped(prefix, body, suffix);
  }

  /** A reply without any bracket or brace yields `{}` whatever the parsers do. */
  lemma NoStructureExample<T>(strict: string -> Option<T>, repaired: string -> Option<T>)
    ensures Json("no structure here", strict, repaired) == None
  {
    var s := "no structure here";
    assert forall j :: 0 <= j < |s| ==> s[j] != '[' && s[j] != '{';
  }
}
