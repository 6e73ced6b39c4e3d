/** The few Python `str` operations the core relies on, over `seq<char>`. */
module Strings {

  /** `s.find(c)`: the first index of `c`, or -1 when `c` does not occur. */
  function Find(s: string, c: char): (r: int)
    ensures -1 <= r < |s|
    ensures r == -1 <==> c !in s
    ensures r >= 0 ==> s[r] == c && c !in s[..r]
  {
    var r := FindFrom(s, c, 0);
    assert r >= 0 ==> forall j :: 0 <= j < r ==> s[..r][j] == s[j];
    r
  }

  /** The first index at or after `k` that holds `c`, or -1. */
  function FindFrom(s: string, c: char, k: nat): (r: int)
    requires k <= |s|
    ensures r == -1 || k <= r < |s|
    ensures r == -1 <==> forall j :: k <= j < |s| ==> s[j] != c
    ensures r >= 0 ==> s[r] == c && forall j :: k <= j < r ==> s[j] != c
    decreases |s| - k
  {
    if k == |s| then -1 else if s[k] == c then k else FindFrom(s, c, k + 1)
  }

  /** `s.rfind(c)`: the last index of `c`, or -1 when `c` does not occur. */
  function RFind(s: string, c: char): (r: int)
    ensures -1 <= r < |s|
    ensures r == -1 <==> c !in s
    ensures r >= 0 ==> s[r] == c && c !in s[r + 1..]
  {
    var r := RFindBelow(s, c, |s|);
    r
  }

  /** The last index below `k` that holds `c`, or -1. */
  function RFindBelow(s: string, c: char, k: nat): (r: int)
    requires k <= |s|
    ensures -1 <= r < k
    ensures r == -1 <==> forall j :: 0 <= j < k ==> s[j] != c
    ensures r >= 0 ==> s[r] == c && forall j :: r < j < k ==> s[j] != c
    decreases k
  {
    if k == 0 then -1 else if s[k - 1] == c then k - 1 else RFindBelow(s, c, k - 1)
  }

  /** `sep.join(parts)`. */
  function Join(parts: seq<string>, sep: string): string
    decreases |parts|
  {
    if |parts| == 0 then ""
    else if |parts| == 1 then parts[0]
    else Join(parts[..|parts| - 1], sep) + sep + parts[|parts| - 1]
  }

  /** Joining a list whose head is `w`. */
  lemma {:induction false} JoinCons(w: string, ws: seq<string>, sep: string)
    ensures Join([w] + ws, sep) == if |ws| == 0 then w else w + sep + Join(ws, sep)
    decreases |ws|
  {
    if |ws| > 0 {
      var front := ws[..|ws| - 1];
      assert ([w] + ws)[..|ws|] == [w] + front;
      JoinCons(w, front, sep);
    }
  }

  /** `find` finds an occurrence with none before it. */
  lemma FindFirst(s: string, c: char, i: nat)
    requires i < |s| && s[i] == c && c !in s[..i]
    ensures Find(s, c) == i
  {
  }

  /** `find` finds nothing before a position that has no occurrence before it. */
  lemma FindNotBefore(s: string, c: char, i: nat)
    requires i <= |s| && c !in s[..i]
    ensures Find(s, c) == -1 || Find(s, c) >= i
  {
  }

  /** `rfind` finds an occurrence with none after it. */
  lemma RFindLast(s: string, c: char, k: nat)
    requires k < |s| && s[k] == c && c !in s[k + 1..]
    ensures RFind(s, c) == k
  {
  }

  /** `rfind` finds nothing at or after a position that has no occurrence after it. */
  lemma RFindBefore(s: string, c: char, i: nat)
    requires i <= |s| && c !in s[i..]
    ensures RFind(s, c) < i
  {
  }

  /** `s.split(sep)` for a one-character separator: every occurrence of `sep` cuts,
      so the result has one more part than `s` has separators. */
  function Split(s: string, sep: char): (parts: seq<string>)
    ensures |parts| >= 1
    ensures forall i :: 0 <= i < |parts| ==> sep !in parts[i]
    decreases |s|
  {
    var k := RFind(s, sep);
    if k == -1 then [s] else Split(s[..k], sep) + [s[k + 1..]]
  }

  /** Splitting and re-joining on the same separator gives back the input. */
  lemma {:induction false} JoinSplit(s: string, sep: char)
    ensures Join(Split(s, sep), [sep]) == s
    decreases |s|
  {
    var k := RFind(s, sep);
    if k != -1 {
      var front := Split(s[..k], sep);
      JoinSplit(s[..k], sep);
      assert (front + [s[k + 1..]])[..|front|] == front;
      assert s == s[..k] + [sep] + s[k + 1..];
    }
  }

  /** Two separator-free pieces joined by `sep` split back into exactly those pieces. */
  lemma SplitPair(a: string, b: string, sep: char)
    requires sep !in a && sep !in b
    ensures Split(a + [sep] + b, sep) == [a, b]
  {
    var s := a + [sep] + b;
    assert s[|a|] == sep;
    assert s[|a| + 1..] == b;
    var k := RFind(s, sep);
    assert k == |a| by {
      assert s[|a| + 1..] == b;
    }
    assert s[..k] == a;
  }

  /** The decimal digit for `d`. */
  function Digit(d: nat): char
    requires d < 10
  {
    ('0' as int + d) as char
  }

  /** The value of a decimal digit character. */
  function DigitValue(c: char): nat
  {
    if '0' <= c <= '9' then (c - '0') as nat else 0
  }

  /** Python's `str(n)` for a non-negative integer. */
  function NatToString(n: nat): (r: string)
    ensures |r| >= 1
    ensures forall i :: 0 <= i < |r| ==> '0' <= r[i] <= '9'
    ensures r[0] == '0' <==> n == 0
    ensures |r| > 1 ==> r[0] != '0'
  {
    if n < 10 then [Digit(n)] else NatToString(n / 10) + [Digit(n % 10)]
  }

  /** The number a string of decimal digits denotes (Python's `int(s)` on digits). */
  function ParseNat(s: string): nat
  {
    if |s| == 0 then 0 else 10 * ParseNat(s[..|s| - 1]) + DigitValue(s[|s| - 1])
  }

  /** Reading back a rendered page number gives the page number: `str` is injective. */
  lemma {:induction false} ParseNatToString(n: nat)
    ensures ParseNat(NatToString(n)) == n
  {
    if n >= 10 {
      var front := NatToString(n / 10);
      var r := front + [Digit(n % 10)];
      ParseNatToString(n / 10);
      assert r[..|r| - 1] == front;
      assert DigitValue(r[|r| - 1]) == n % 10;
      assert ParseNat(r) == 10 * (n / 10) + n % 10;
    }
  }
}
