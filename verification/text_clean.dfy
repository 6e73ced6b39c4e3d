/** Whitespace normalisation applied to every extracted page (`clean_text`):
    each run of whitespace becomes one space, then both ends are stripped. */
module TextClean {
  import opened Wrappers
  import opened Strings

  /** The characters CPython treats as whitespace, both for the regular expression
      class `\s` on `str` patterns and for `str.strip()` without arguments. */
  predicate IsSpace(c: char) {
    || ('\t' <= c <= '\r')
    || ('\U{1C}' <= c <= '\U{1F}')
    || c == ' '
    || c == '\U{85}'
    || c == '\U{A0}'
    || c == '\U{1680}'
    || ('\U{2000}' <= c <= '\U{200A}')
    || c == '\U{2028}'
    || c == '\U{2029}'
    || c == '\U{202F}'
    || c == '\U{205F}'
    || c == '\U{3000}'
  }

  /** The only whitespace is a plain space and no two whitespace characters touch. */
  ghost predicate SingleSpaced(s: string) {
    && (forall i :: 0 <= i < |s| && IsSpace(s[i]) ==> s[i] == ' ')
    && (forall i :: 0 <= i < |s| - 1 ==> !SpacePair(s, i))
  }

  /** Positions `i` and `i + 1` both hold whitespace. */
  ghost predicate SpacePair(s: string, i: int)
    requires 0 <= i < |s| - 1
  {
    IsSpace(s[i]) && IsSpace(s[i + 1])
  }

  /** Neither end is whitespace. */
  ghost predicate NoEdgeSpace(s: string) {
    |s| > 0 ==> !IsSpace(s[0]) && !IsSpace(s[|s| - 1])
  }

  /** What `clean_text` promises of its output. */
  ghost predicate IsClean(s: string) {
    SingleSpaced(s) && NoEdgeSpace(s)
  }

  /** The non-whitespace characters of `s`, in order. */
  function NonSpace(s: string): string
  {
    if |s| == 0 then ""
    else (if IsSpace(s[0]) then "" else [s[0]]) + NonSpace(s[1..])
  }

  /** `s.lstrip()`: drops the leading whitespace and nothing else. */
  function StripLeft(s: string): (r: string)
    ensures |r| <= |s| && r == s[|s| - |r|..]
    ensures forall i :: 0 <= i < |s| - |r| ==> IsSpace(s[i])
    ensures |r| > 0 ==> !IsSpace(r[0])
  {
    if |s| > 0 && IsSpace(s[0]) then StripLeft(s[1..]) else s
  }

  /** `s.rstrip()`: drops the trailing whitespace and nothing else. */
  function StripRight(s: string): (r: string)
    ensures |r| <= |s| && r == s[..|r|]
    ensures forall i :: |r| <= i < |s| ==> IsSpace(s[i])
    ensures |r| > 0 ==> !IsSpace(r[|r| - 1])
  {
    if |s| > 0 && IsSpace(s[|s| - 1]) then StripRight(s[..|s| - 1]) else s
  }

  /** How many whitespace characters `s` starts with. */
  function LeadingSpace(s: string): (k: nat)
    ensures k <= |s|
    ensures forall i :: 0 <= i < k ==> IsSpace(s[i])
    ensures k < |s| ==> !IsSpace(s[k])
  {
    if |s| > 0 && IsSpace(s[0]) then 1 + LeadingSpace(s[1..]) else 0
  }

  /** `s.strip()`: neither end of the result is whitespace; `StripIsSlice` says
      which slice of the input it keeps. */
  function Strip(s: string): (r: string)
    ensures |r| <= |s|
    ensures NoEdgeSpace(r)
    ensures SingleSpaced(s) ==> SingleSpaced(r)
  {
    var l := StripLeft(s);
    var r := StripRight(l);
    assert SingleSpaced(s) ==> SingleSpaced(r) by {
      if SingleSpaced(s) {
        SingleSpacedSuffix(s, l);
        SingleSpacedPrefix(l, r);
      }
    }
    assert |r| > 0 ==> r[0] == l[0];
    r
  }

  /** `strip` keeps exactly the slice that starts at the first non-whitespace
      character: everything before and after it is whitespace. An input of
      whitespace only gives `""`. */
  lemma StripIsSlice(s: string)
    ensures LeadingSpace(s) + |Strip(s)| <= |s|
    ensures forall j :: 0 <= j < |Strip(s)| ==> Strip(s)[j] == s[LeadingSpace(s) + j]
    ensures forall i :: LeadingSpace(s) + |Strip(s)| <= i < |s| ==> IsSpace(s[i])
  {
    var l := StripLeft(s);
    var r := StripRight(l);
    assert Strip(s) == r;
    assert l == s[LeadingSpace(s)..] by {
      StripLeftLeading(s);
    }
    PrefixOfSuffix(s, l, r, LeadingSpace(s));
  }

  /** A prefix of the suffix from `lo` is the slice from `lo`; whitespace after
      that prefix is whitespace of `s`. */
  lemma PrefixOfSuffix(s: string, l: string, r: string, lo: nat)
    requires lo <= |s| && l == s[lo..]
    requires |r| <= |l| && r == l[..|r|]
    requires forall i :: |r| <= i < |l| ==> IsSpace(l[i])
    ensures forall j :: 0 <= j < |r| ==> r[j] == s[lo + j]
    ensures forall i :: lo + |r| <= i < |s| ==> IsSpace(s[i])
  {
    forall i | lo + |r| <= i < |s|
      ensures IsSpace(s[i])
    {
      assert IsSpace(l[i - lo]);
    }
  }

  /** `lstrip` drops exactly the leading whitespace. */
  lemma {:induction false} StripLeftLeading(s: string)
    ensures |s| - |StripLeft(s)| == LeadingSpace(s)
    decreases |s|
  {
    if |s| > 0 && IsSpace(s[0]) {
      StripLeftLeading(s[1..]);
    }
  }

  /** A suffix of a single-spaced string is single-spaced. */
  lemma SingleSpacedSuffix(s: string, t: string)
    requires SingleSpaced(s) && |t| <= |s| && t == s[|s| - |t|..]
    ensures SingleSpaced(t)
  {
    SingleSpacedSlice(s, |s| - |t|, |s|);
    assert s[|s| - |t|..|s|] == t;
  }

  /** A prefix of a single-spaced string is single-spaced. */
  lemma SingleSpacedPrefix(s: string, t: string)
    requires SingleSpaced(s) && |t| <= |s| && t == s[..|t|]
    ensures SingleSpaced(t)
  {
    SingleSpacedSlice(s, 0, |t|);
    assert s[0..|t|] == t;
  }

  /** Any slice of a single-spaced string is single-spaced. */
  lemma SingleSpacedSlice(s: string, lo: nat, hi: nat)
    requires lo <= hi <= |s|
    ensures SingleSpaced(s) ==> SingleSpaced(s[lo..hi])
  {
    if SingleSpaced(s) {
      var t := s[lo..hi];
      forall i | 0 <= i < |t|
        ensures IsSpace(t[i]) ==> t[i] == ' '
      {
        assert t[i] == s[lo + i];
      }
      forall i | 0 <= i < |t| - 1
        ensures !SpacePair(t, i)
      {
        assert t[i] == s[lo + i] && t[i + 1] == s[lo + i + 1];
        assert !SpacePair(s, lo + i);
      }
    }
  }

  /** `re.sub(r"\s+", " ", s)`: every maximal run of whitespace becomes one space. */
  function Collapse(s: string): (r: string)
    ensures |r| <= |s|
    ensures |r| == 0 <==> |s| == 0
    ensures SingleSpaced(r)
    ensures |s| > 0 ==> (IsSpace(r[0]) <==> IsSpace(s[0]))
    decreases |s|
  {
    if |s| == 0 then ""
    else if IsSpace(s[0]) then
      var t := Collapse(StripLeft(s));
      SingleSpacedCons(' ', t);
      " " + t
    else
      var t := Collapse(s[1..]);
      SingleSpacedCons(s[0], t);
      [s[0]] + t
  }

  /** The replacement ends with whitespace exactly when its input does. */
  lemma {:induction false} CollapseLast(s: string)
    requires |s| > 0
    ensures IsSpace(Collapse(s)[|Collapse(s)| - 1]) <==> IsSpace(s[|s| - 1])
    decreases |s|
  {
    if IsSpace(s[0]) {
      var t := StripLeft(s);
      CollapseSpace(s);
      if |t| > 0 {
        CollapseLast(t);
        LastOfAppend(" ", Collapse(t));
        assert t[|t| - 1] == s[|s| - 1];
      } else {
        assert Collapse(s) == " ";
        assert IsSpace(s[|s| - 1]);
      }
    } else if |s| > 1 {
      CollapseCons(s);
      CollapseLast(s[1..]);
      LastOfAppend([s[0]], Collapse(s[1..]));
      assert s[1..][|s| - 2] == s[|s| - 1];
    } else {
      CollapseCons(s);
      assert Collapse(s) == [s[0]];
    }
  }

  lemma LastOfAppend(a: string, t: string)
    requires |t| > 0
    ensures (a + t)[|a + t| - 1] == t[|t| - 1]
  {
  }

  /** Putting a character in front keeps a string single-spaced when the
      character is a plain space before a non-whitespace start, or not whitespace. */
  lemma SingleSpacedCons(c: char, t: string)
    requires SingleSpaced(t)
    requires IsSpace(c) ==> c == ' ' && (|t| == 0 || !IsSpace(t[0]))
    ensures SingleSpaced([c] + t)
  {
    var r := [c] + t;
    forall i | 0 <= i < |r| - 1
      ensures !SpacePair(r, i)
    {
      if i > 0 {
        assert r[i] == t[i - 1] && r[i + 1] == t[i];
        assert !SpacePair(t, i - 1);
      }
    }
  }

  /** `clean_text(s)`; `None` stands for Python's `None`. */
  function CleanText(s: Option<string>): (r: string)
    ensures s == None || s == Some("") ==> r == ""
    ensures IsClean(r)
    ensures s.Some? ==> |r| <= |s.value|
  {
    if s.None? || s.value == "" then ""
    else
      Strip(Collapse(s.value))
  }

  lemma {:induction false} NonSpaceAppend(a: string, b: string)
    ensures NonSpace(a + b) == NonSpace(a) + NonSpace(b)
    decreases |a|
  {
    if |a| == 0 {
      assert a + b == b;
    } else {
      assert (a + b)[1..] == a[1..] + b;
      NonSpaceAppend(a[1..], b);
    }
  }

  lemma {:induction false} NonSpaceStripLeft(s: string)
    ensures NonSpace(StripLeft(s)) == NonSpace(s)
    decreases |s|
  {
    if |s| > 0 && IsSpace(s[0]) {
      NonSpaceStripLeft(s[1..]);
    }
  }

  lemma {:induction false} NonSpaceStripRight(s: string)
    ensures NonSpace(StripRight(s)) == NonSpace(s)
    decreases |s|
  {
    if |s| > 0 && IsSpace(s[|s| - 1]) {
      var front := s[..|s| - 1];
      NonSpaceStripRight(front);
      assert s == front + [s[|s| - 1]];
      NonSpaceAppend(front, [s[|s| - 1]]);
      assert NonSpace([s[|s| - 1]]) == "";
    }
  }

  lemma {:induction false} NonSpaceCollapse(s: string)
    ensures NonSpace(Collapse(s)) == NonSpace(s)
    decreases |s|
  {
    if |s| > 0 {
      if IsSpace(s[0]) {
        var t := StripLeft(s);
        NonSpaceCollapse(t);
        NonSpaceStripLeft(s);
        assert (" " + Collapse(t))[1..] == Collapse(t);
      } else {
        NonSpaceCollapse(s[1..]);
        assert ([s[0]] + Collapse(s[1..]))[1..] == Collapse(s[1..]);
      }
    }
  }

  /** Cleaning keeps every non-whitespace character, in order, and adds none. */
  lemma CleanTextKeepsNonSpace(s: string)
    ensures NonSpace(CleanText(Some(s))) == NonSpace(s)
  {
    if s != "" {
      var c := Collapse(s);
      NonSpaceCollapse(s);
      NonSpaceStripLeft(c);
      NonSpaceStripRight(StripLeft(c));
    }
  }

  /** In a single-spaced string a leading whitespace character is a lone space. */
  lemma SingleSpacedHead(s: string)
    requires SingleSpaced(s) && |s| > 0 && IsSpace(s[0])
    ensures s[0] == ' ' && StripLeft(s) == s[1..]
  {
    if |s| > 1 {
      assert !SpacePair(s, 0);
      assert s[1..][0] == s[1];
    }
  }

  /** A single-spaced string has nothing for the regular expression to replace. */
  lemma {:induction false} CollapseSingleSpaced(s: string)
    requires SingleSpaced(s)
    ensures Collapse(s) == s
    decreases |s|
  {
    if |s| > 0 {
      var t := s[1..];
      assert SingleSpaced(t) by {
        SingleSpacedSuffix(s, t);
      }
      CollapseSingleSpaced(t);
      assert Collapse(s) == [s[0]] + Collapse(t) by {
        if IsSpace(s[0]) {
          SingleSpacedHead(s);
          CollapseSpace(s);
        } else {
          CollapseCons(s);
        }
      }
      ConsTail(s);
    }
  }

  lemma ConsTail(s: string)
    requires |s| > 0
    ensures s == [s[0]] + s[1..]
  {
  }

  /** Text that is already clean is returned unchanged. */
  lemma CleanTextFixpoint(s: string)
    requires IsClean(s)
    ensures CleanText(Some(s)) == s
  {
    if s != "" {
      CollapseSingleSpaced(s);
      assert StripLeft(s) == s;
      assert StripRight(s) == s;
    }
  }

  /** Cleaning twice is cleaning once. */
  lemma CleanTextIdempotent(s: Option<string>)
    ensures CleanText(Some(CleanText(s))) == CleanText(s)
  {
    CleanTextFixpoint(CleanText(s));
  }

  /** Length of the run of non-whitespace characters `s` starts with. */
  function WordLength(s: string): (k: nat)
    ensures k <= |s|
    ensures forall i :: 0 <= i < k ==> !IsSpace(s[i])
    ensures k < |s| ==> IsSpace(s[k])
  {
    if |s| == 0 || IsSpace(s[0]) then 0 else 1 + WordLength(s[1..])
  }

  /** A non-empty string without whitespace. */
  ghost predicate IsWord(w: string) {
    |w| > 0 && forall j :: 0 <= j < |w| ==> !IsSpace(w[j])
  }

  /** What `s.split()` returns: the maximal runs of non-whitespace characters,
      in order. */
  function Words(s: string): (ws: seq<string>)
    ensures forall i :: 0 <= i < |ws| ==> IsWord(ws[i])
    decreases |s|
  {
    if |s| == 0 then []
    else if IsSpace(s[0]) then Words(s[1..])
    else
      var k := WordLength(s);
      [s[..k]] + Words(s[k..])
  }

  /** A leading word is the first of the words. */
  lemma WordsCons(s: string)
    requires |s| > 0 && !IsSpace(s[0])
    ensures Words(s) == [s[..WordLength(s)]] + Words(s[WordLength(s)..])
  {
  }

  /** There are no words exactly when every character is whitespace. */
  lemma {:induction false} WordsEmpty(s: string)
    ensures Words(s) == [] <==> forall i :: 0 <= i < |s| ==> IsSpace(s[i])
    decreases |s|
  {
    if |s| > 0 && IsSpace(s[0]) {
      WordsEmpty(s[1..]);
      assert forall i :: 1 <= i < |s| ==> s[i] == s[1..][i - 1];
    }
  }

  /** Leading whitespace separates no words. */
  lemma {:induction false} WordsStripLeft(s: string)
    ensures Words(StripLeft(s)) == Words(s)
    decreases |s|
  {
    if |s| > 0 && IsSpace(s[0]) {
      WordsStripLeft(s[1..]);
    }
  }

  /** The replacement copies a leading word unchanged. */
  lemma {:induction false} CollapseWord(s: string)
    requires |s| > 0 && !IsSpace(s[0])
    ensures Collapse(s) == s[..WordLength(s)] + Collapse(s[WordLength(s)..])
    decreases |s|
  {
    var k := WordLength(s);
    WordLengthStep(s);
    CollapseCons(s);
    if k > 1 {
      CollapseWord(s[1..]);
      assert s[1..][k - 1..] == s[k..];
      WordStep(s, k, Collapse(s), Collapse(s[1..]), Collapse(s[k..]));
    } else {
      assert s[..1] == [s[0]];
    }
  }

  /** The algebra of one more character of a leading word. */
  lemma WordStep(s: string, k: nat, whole: string, tail: string, rest: string)
    requires 1 < k <= |s|
    requires whole == [s[0]] + tail
    requires tail == s[1..][..k - 1] + rest
    ensures whole == s[..k] + rest
  {
    assert s[1..][..k - 1] == s[1..k];
    assert s[..k] == [s[0]] + s[1..k];
    AppendAssoc([s[0]], s[1..k], rest);
  }

  /** A word that goes on after its first character goes on in `s[1..]`. */
  lemma WordLengthStep(s: string)
    requires |s| > 0 && !IsSpace(s[0])
    ensures WordLength(s) >= 1
    ensures WordLength(s) > 1 ==> !IsSpace(s[1..][0]) && WordLength(s[1..]) == WordLength(s) - 1
  {
  }

  /** The replacement turns leading whitespace into one space. */
  lemma CollapseSpace(s: string)
    requires |s| > 0 && IsSpace(s[0])
    ensures Collapse(s) == " " + Collapse(StripLeft(s))
  {
  }

  /** The replacement copies a leading non-whitespace character. */
  lemma CollapseCons(s: string)
    requires |s| > 0 && !IsSpace(s[0])
    ensures Collapse(s) == [s[0]] + Collapse(s[1..])
  {
  }

  lemma AppendAssoc(a: string, b: string, c: string)
    ensures a + (b + c) == (a + b) + c
  {
  }

  lemma AppendEmpty(a: string)
    ensures a + "" == a
  {
  }

  /** `y` with one space in front when `a` holds and one behind when `b` does. */
  ghost function Padded(a: bool, y: string, b: bool): string {
    var front := if a then " " + y else y;
    if b then front + " " else front
  }

  /** The replacement turns every whitespace run into exactly one space: the
      result is the words joined by single spaces, with one space in front when
      the input starts with whitespace and one behind when it has a word and
      ends with whitespace. */
  lemma {:induction false} CollapseWords(s: string)
    ensures Collapse(s) == Padded(|s| > 0 && IsSpace(s[0]), Join(Words(s), " "),
                                  Words(s) != [] && IsSpace(s[|s| - 1]))
    decreases |s|, 1
  {
    if |s| == 0 {
    } else if IsSpace(s[0]) {
      CollapseWordsSpace(s);
    } else {
      CollapseWordsWord(s);
    }
  }

  /** `CollapseWords` for an input that starts with whitespace. */
  lemma {:induction false} CollapseWordsSpace(s: string)
    requires |s| > 0 && IsSpace(s[0])
    ensures Collapse(s) == Padded(true, Join(Words(s), " "),
                                  Words(s) != [] && IsSpace(s[|s| - 1]))
    decreases |s|, 0
  {
    var t := StripLeft(s);
    assert |t| < |s|;
    var j := Join(Words(t), " ");
    var back := Words(t) != [] && IsSpace(t[|t| - 1]);
    CollapseWords(t);
    WordsStripLeft(s);
    assert Collapse(s) == " " + Collapse(t);
    assert Collapse(t) == Padded(false, j, back);
    if Words(s) != [] {
      assert |t| > 0;
      assert t[|t| - 1] == s[|s| - 1];
    }
    if back {
      AppendAssoc(" ", j, " ");
    }
  }

  /** `CollapseWords` for an input that starts with a word. */
  lemma {:induction false} CollapseWordsWord(s: string)
    requires |s| > 0 && !IsSpace(s[0])
    ensures Collapse(s) == Padded(false, Join(Words(s), " "),
                                  Words(s) != [] && IsSpace(s[|s| - 1]))
    decreases |s|, 0
  {
    var k := WordLength(s);
    var w := s[..k];
    var rest := s[k..];
    var ws := Words(rest);
    var lead := |rest| > 0 && IsSpace(rest[0]);
    var back := ws != [] && IsSpace(rest[|rest| - 1]);
    var last := IsSpace(s[|s| - 1]);
    CollapseWord(s);
    WordsCons(s);
    CollapseWords(rest);
    RestEdges(s, k);
    PadWord(w, ws, Collapse(rest), lead, back, last);
  }

  /** How the edges of `s` relate to those of the text after its first word,
      `k` characters long. */
  lemma RestEdges(s: string, k: nat)
    requires |s| > 0 && !IsSpace(s[0]) && k == WordLength(s)
    ensures Words(s[k..]) != [] ==>
              (|s[k..]| > 0 && IsSpace(s[k..][0])) &&
              (IsSpace(s[|s| - 1]) == IsSpace(s[k..][|s[k..]| - 1]))
    ensures Words(s[k..]) == [] ==>
              (IsSpace(s[|s| - 1]) <==> |s[k..]| > 0 && IsSpace(s[k..][0]))
  {
    var rest := s[k..];
    if |rest| > 0 {
      assert s[|s| - 1] == rest[|rest| - 1];
      if Words(rest) == [] {
        WordsEmpty(rest);
      }
    }
  }

  /** Putting a word in front of a padded join. */
  lemma PadWord(w: string, ws: seq<string>, c: string, lead: bool, back: bool, last: bool)
    requires c == Padded(lead, Join(ws, " "), back)
    requires ws == [] ==> !back && (last <==> lead)
    requires ws != [] ==> lead && last == back
    ensures w + c == Padded(false, Join([w] + ws, " "), last)
  {
    JoinCons(w, ws, " ");
    var j := Join(ws, " ");
    if ws == [] {
      if lead {
        assert c == " " + "";
        AppendEmpty(" ");
      } else {
        assert c == "";
        AppendEmpty(w);
      }
    } else if back {
      AppendAssoc(w, " " + j, " ");
      AppendAssoc(w, " ", j);
    } else {
      AppendAssoc(w, " ", j);
    }
  }

  /** Words joined by single spaces neither start nor end with whitespace. */
  lemma {:induction false} JoinWordsEdges(ws: seq<string>)
    requires forall i :: 0 <= i < |ws| ==> IsWord(ws[i])
    ensures |ws| > 0 ==> |Join(ws, " ")| > 0
    ensures NoEdgeSpace(Join(ws, " "))
    decreases |ws|
  {
    if |ws| > 1 {
      var front := ws[..|ws| - 1];
      JoinWordsEdges(front);
      var j := Join(front, " ") + " " + ws[|ws| - 1];
      assert Join(ws, " ") == j;
      assert j[0] == Join(front, " ")[0];
      assert j[|j| - 1] == ws[|ws| - 1][|ws[|ws| - 1]| - 1];
    }
  }

  /** Stripping removes the padding and nothing else. */
  lemma StripPadded(a: bool, y: string, b: bool)
    requires NoEdgeSpace(y)
    requires y == "" ==> !b
    ensures Strip(Padded(a, y, b)) == y
  {
    var p := Padded(a, y, b);
    var q := y + (if b then " " else "");
    if a {
      assert StripLeft(p) == StripLeft(p[1..]);
      assert p[1..] == q;
    } else {
      assert p == q;
    }
    if y == "" {
      assert q == "";
    } else {
      assert StripLeft(q) == q;
      if b {
        assert q[..|q| - 1] == y;
        assert StripRight(y) == y;
      } else {
        assert q == y;
      }
    }
  }

  /** `clean_text(s)` is `" ".join(s.split())`: the words of the input joined
      by single spaces. */
  lemma CleanTextWords(s: string)
    ensures CleanText(Some(s)) == Join(Words(s), " ")
  {
    if s != "" {
      var ws := Words(s);
      var b := ws != [] && IsSpace(s[|s| - 1]);
      CleanTextPadded(s);
      JoinWordsEdges(ws);
      StripPadded(IsSpace(s[0]), Join(ws, " "), b);
    }
  }

  /** Cleaning a non-empty input strips the padded join of its words. */
  lemma CleanTextPadded(s: string)
    requires s != ""
    ensures CleanText(Some(s)) == Strip(Padded(IsSpace(s[0]), Join(Words(s), " "),
                                               Words(s) != [] && IsSpace(s[|s| - 1])))
  {
    CollapseWords(s);
  }
}
