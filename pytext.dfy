/** The Python string built-ins the translator relies on, over `seq<char>`:
    `str.split(sep)` (defined through `Find`, the search for the first
    occurrence of the separator), `sep.join`, `"".join` (written as a loop of
    `+=` in the source), `str.split()` with no argument, `str.splitlines()`
    and the one-character case of `str.upper()`. */
module PyText {

  /** Python's `str.isspace`: the characters `str.split()` treats as separators. */
  predicate IsSpace(c: char)
  {
    c == ' ' || '\t' <= c <= '\r' || '\U{1C}' <= c <= '\U{1F}' ||
    c == '\U{85}' || c == '\U{A0}' || c == '\U{1680}' || '\U{2000}' <= c <= '\U{200A}' ||
    c == '\U{2028}' || c == '\U{2029}' || c == '\U{202F}' || c == '\U{205F}' || c == '\U{3000}'
  }

  /** The line boundaries of Python's `str.splitlines()` ("\r\n" counts as one). */
  predicate IsLineBreak(c: char)
  {
    c == '\n' || c == '\r' || c == '\U{0B}' || c == '\U{0C}' || '\U{1C}' <= c <= '\U{1E}' ||
    c == '\U{85}' || c == '\U{2028}' || c == '\U{2029}'
  }

  predicate NoLineBreak(s: string)
  {
    forall c :: c in s ==> !IsLineBreak(c)
  }

  /** A word as `str.split()` produces it: non-empty, no whitespace. */
  predicate IsWord(w: string)
  {
    |w| > 0 && forall c :: c in w ==> !IsSpace(c)
  }

  /** `pat` occurs in `s` starting at index `k`. */
  predicate Occurs(s: string, pat: string, k: int)
  {
    0 <= k && k + |pat| <= |s| && s[k..k + |pat|] == pat
  }

  /** A slice of `s[n..]` is the slice of `s` `n` places further on. */
  lemma DropSlice(s: string, n: nat, i: nat, j: nat)
    requires n <= |s| && i <= j <= |s| - n
    ensures s[n..][i..j] == s[n + i..n + j]
    ensures s[n..][i..] == s[n + i..]
  {
  }

  /** Python's `s.find(pat)`: the first index where `pat` occurs, or -1
      (that nothing occurs earlier is `FindIsFirst`). */
  function Find(s: string, pat: string): (r: int)
    requires |pat| > 0
    ensures r >= -1
    ensures r >= 0 ==> Occurs(s, pat, r)
    decreases |s|
  {
    if |s| < |pat| then -1
    else if s[..|pat|] == pat then 0
    else
      var k := Find(s[1..], pat);
      if k < 0 then -1 else DropSlice(s, 1, k, k + |pat|); k + 1
  }

  /** No occurrence comes before the one `Find` reports, and there is none
      at all when it reports -1. */
  lemma {:induction false} FindIsFirst(s: string, pat: string)
    requires |pat| > 0
    ensures Find(s, pat) < 0 ==> forall k :: !Occurs(s, pat, k)
    ensures forall k :: 0 <= k < Find(s, pat) ==> !Occurs(s, pat, k)
    decreases |s|
  {
    if |s| >= |pat| && s[..|pat|] != pat {
      FindIsFirst(s[1..], pat);
      forall j | 0 <= j && j + 1 + |pat| <= |s| ensures Occurs(s, pat, j + 1) == Occurs(s[1..], pat, j) {
        DropSlice(s, 1, j, j + |pat|);
      }
      assert !Occurs(s, pat, 0);
      assert forall j :: Occurs(s, pat, j) ==> j >= 1 && Occurs(s[1..], pat, j - 1);
    }
  }

  /** `s.find(c)` for a single character: its first index, or -1. */
  function IndexOf(s: string, c: char): (k: int)
    ensures -1 <= k < |s|
    ensures k >= 0 ==> s[k] == c
    ensures k < 0 ==> c !in s
    ensures forall j :: 0 <= j < k ==> s[j] != c
    decreases |s|
  {
    if s == [] then -1
    else if s[0] == c then 0
    else
      var k := IndexOf(s[1..], c);
      assert c !in s[1..] ==> c !in s;
      if k < 0 then -1 else k + 1
  }

  /** The first `c` is the one right after a prefix without `c`. */
  lemma IndexOfAt(pre: string, c: char, rest: string)
    requires c !in pre
    ensures IndexOf(pre + [c] + rest, c) == |pre|
  {
    var s := pre + [c] + rest;
    assert s[|pre|] == c;
    forall j | 0 <= j < |pre| ensures s[j] != c {
      assert s[j] == pre[j] && pre[j] in pre;
    }
  }

  /** The one-character search agrees with the general one. */
  lemma {:induction false} FindOneChar(s: string, c: char)
    ensures Find(s, [c]) == IndexOf(s, c)
    decreases |s|
  {
    if s != [] {
      assert s[..1] == [s[0]];
      if s[0] != c {
        FindOneChar(s[1..], c);
      }
    }
  }

  /** `Find` returns `k` exactly when `k` is the first occurrence. */
  lemma FindIs(s: string, pat: string, k: int)
    requires |pat| > 0 && Occurs(s, pat, k)
    requires forall j :: 0 <= j < k ==> !Occurs(s, pat, j)
    ensures Find(s, pat) == k
  {
    FindIsFirst(s, pat);
  }

  /** Python's `s.split(sep)`: the text before the first occurrence of `sep`,
      then the split of the text after it; the whole text once no `sep` is left. */
  function Split(s: string, sep: string): (r: seq<string>)
    requires |sep| > 0
    ensures |r| >= 1
    decreases |s|
  {
    var k := Find(s, sep);
    if k < 0 then [s] else [s[..k]] + Split(s[k + |sep|..], sep)
  }

  /** Python's `sep.join(ps)`. */
  function Join(ps: seq<string>, sep: string): string
  {
    if |ps| == 0 then ""
    else if |ps| == 1 then ps[0]
    else ps[0] + sep + Join(ps[1..], sep)
  }

  /** Joining the pieces of a split with the same separator gives back the text. */
  lemma {:induction false} JoinSplit(s: string, sep: string)
    requires |sep| > 0
    ensures Join(Split(s, sep), sep) == s
    decreases |s|
  {
    var k := Find(s, sep);
    if k >= 0 {
      var rest := s[k + |sep|..];
      var ps := Split(s, sep);
      assert ps == [s[..k]] + Split(rest, sep);
      assert ps[0] == s[..k] && ps[1..] == Split(rest, sep) && |ps| >= 2;
      JoinSplit(rest, sep);
      assert Join(ps, sep) == s[..k] + sep + rest;
      assert s == s[..k] + s[k..k + |sep|] + rest;
    }
  }

  /** `p` contains no character of `sep`. */
  predicate Avoids(p: string, sep: string)
  {
    forall c :: c in sep ==> c !in p
  }

  /** Splitting a join gives back the pieces, provided no piece contains a
      character of the separator. */
  lemma {:induction false} SplitJoin(ps: seq<string>, sep: string)
    requires |sep| > 0 && |ps| >= 1
    requires forall i :: 0 <= i < |ps| ==> Avoids(ps[i], sep)
    ensures Split(Join(ps, sep), sep) == ps
    decreases |ps|
  {
    assert Avoids(ps[0], sep) && sep[0] in sep;
    if |ps| == 1 {
      NotFound(ps[0], sep);
    } else {
      var rest := Join(ps[1..], sep);
      SplitJoin(ps[1..], sep);
      SplitAfterPrefix(ps[0], sep, rest);
    }
  }

  /** A text without the first character of a pattern does not contain it. */
  lemma {:induction false} NotFound(s: string, pat: string)
    requires |pat| > 0 && pat[0] !in s
    ensures Find(s, pat) < 0
    decreases |s|
  {
    if |s| >= |pat| {
      assert s[..|pat|][0] == s[0] && s[0] in s;
      assert pat[0] !in s[1..] by {
        forall c | c in s[1..] ensures c != pat[0] { assert c in s; }
      }
      NotFound(s[1..], pat);
    }
  }

  /** A pattern is found right after a prefix that lacks its first character. */
  lemma FindAfterPrefix(pre: string, pat: string, rest: string)
    requires |pat| > 0 && pat[0] !in pre
    ensures Find(pre + pat + rest, pat) == |pre|
  {
    var s := pre + pat + rest;
    assert s[|pre|..|pre| + |pat|] == pat;
    forall j | 0 <= j < |pre| ensures !Occurs(s, pat, j) {
      assert s[j] == pre[j] && pre[j] in pre;
    }
    FindIs(s, pat, |pre|);
  }

  /** Splitting after a prefix that lacks the separator's first character. */
  lemma SplitAfterPrefix(pre: string, sep: string, rest: string)
    requires |sep| > 0 && sep[0] !in pre
    ensures Split(pre + sep + rest, sep) == [pre] + Split(rest, sep)
  {
    var s := pre + sep + rest;
    FindAfterPrefix(pre, sep, rest);
    assert s[..|pre|] == pre;
    assert s[|pre| + |sep|..] == rest;
  }

  /** The in-order concatenation of the pieces (the `cpp_code += section` loop). */
  function Concat(ps: seq<string>): string
  {
    if |ps| == 0 then "" else ps[0] + Concat(ps[1..])
  }

  lemma {:induction false} ConcatAppend(a: seq<string>, b: seq<string>)
    ensures Concat(a + b) == Concat(a) + Concat(b)
    decreases |a|
  {
    if |a| > 0 {
      ConcatAppend(a[1..], b);
      assert (a + b)[1..] == a[1..] + b;
    } else {
      assert a + b == b;
    }
  }

  /** A join is as long as its pieces plus one separator between each two. */
  lemma {:induction false} JoinLength(ps: seq<string>, sep: string)
    requires |ps| >= 1
    ensures |Join(ps, sep)| == |Concat(ps)| + |sep| * (|ps| - 1)
    decreases |ps|
  {
    if |ps| > 1 {
      JoinLength(ps[1..], sep);
    }
  }

  /** Index of the first whitespace character, or |s|. */
  function TokenEnd(s: string): (k: nat)
    ensures k <= |s|
    ensures forall i :: 0 <= i < k ==> !IsSpace(s[i])
    ensures k < |s| ==> IsSpace(s[k])
    decreases |s|
  {
    if s == [] || IsSpace(s[0]) then 0 else 1 + TokenEnd(s[1..])
  }

  /** Python's `s.split()`: the maximal runs of non-whitespace, in order. */
  function Words(s: string): (ws: seq<string>)
    ensures forall i :: 0 <= i < |ws| ==> IsWord(ws[i])
    decreases |s|
  {
    if s == [] then []
    else if IsSpace(s[0]) then Words(s[1..])
    else
      var k := TokenEnd(s);
      [s[..k]] + Words(s[k..])
  }

  /** A space between two texts separates their words. */
  lemma {:induction false} WordsAppend(a: string, b: string)
    ensures Words(a + " " + b) == Words(a) + Words(b)
    decreases |a|
  {
    var s := a + " " + b;
    if a == [] {
      assert s[1..] == b;
      assert Words(s) == Words(b);
    } else if IsSpace(a[0]) {
      assert s[1..] == a[1..] + " " + b;
      WordsAppend(a[1..], b);
    } else {
      var k := TokenEnd(a);
      TokenEndAppend(a, b);
      assert s[..k] == a[..k];
      assert s[k..] == a[k..] + " " + b;
      WordsAppend(a[k..], b);
      assert Words(s) == [a[..k]] + (Words(a[k..]) + Words(b));
    }
  }

  /** The first word of `a` ends where it did once more text follows a space. */
  lemma {:induction false} TokenEndAppend(a: string, b: string)
    ensures TokenEnd(a + " " + b) == TokenEnd(a)
    decreases |a|
  {
    if a != [] && !IsSpace(a[0]) {
      assert (a + " " + b)[1..] == a[1..] + " " + b;
      TokenEndAppend(a[1..], b);
    }
  }

  lemma TokenEndIs(s: string, k: nat)
    requires k < |s| && IsSpace(s[k])
    requires forall i :: 0 <= i < k ==> !IsSpace(s[i])
    ensures TokenEnd(s) == k
  {
  }

  /** A single word splits into itself. */
  lemma {:induction false} WordsOfWord(w: string)
    requires IsWord(w)
    ensures Words(w) == [w]
  {
    assert forall i :: 0 <= i < |w| ==> w[i] in w;
    assert !IsSpace(w[0]);
    assert TokenEnd(w) == |w|;
    assert w[..|w|] == w;
    assert w[|w|..] == [];
  }

  /** A blank text has no words. */
  lemma {:induction false} WordsOfBlank(s: string)
    requires forall c :: c in s ==> IsSpace(c)
    ensures Words(s) == []
    decreases |s|
  {
    if s != [] {
      assert s[0] in s;
      WordsOfBlank(s[1..]);
    }
  }

  /** Index of the first line boundary, or |s|. */
  function LineEnd(s: string): (k: nat)
    ensures k <= |s|
    ensures forall i :: 0 <= i < k ==> !IsLineBreak(s[i])
    ensures k < |s| ==> IsLineBreak(s[k])
    decreases |s|
  {
    if s == [] || IsLineBreak(s[0]) then 0 else 1 + LineEnd(s[1..])
  }

  /** Python's `s.splitlines()`: the lines without their boundaries; a final
      boundary does not start an empty line, and "\r\n" is one boundary. */
  function SplitLines(s: string): (ls: seq<string>)
    ensures forall i :: 0 <= i < |ls| ==> NoLineBreak(ls[i])
    decreases |s|
  {
    if s == [] then []
    else
      var k := LineEnd(s);
      assert NoLineBreak(s[..k]) by {
        forall c | c in s[..k] ensures !IsLineBreak(c) {
          var i :| 0 <= i < k && s[..k][i] == c;
        }
      }
      if k == |s| then [s]
      else
        var next := if s[k] == '\r' && k + 1 < |s| && s[k + 1] == '\n' then k + 2 else k + 1;
        [s[..k]] + SplitLines(s[next..])
  }

  /** Each line followed by "\n" (the `gates += f"{gate}\n"` loop). */
  function JoinLines(ls: seq<string>): string
  {
    if |ls| == 0 then "" else ls[0] + "\n" + JoinLines(ls[1..])
  }

  lemma {:induction false} JoinLinesSnoc(ls: seq<string>, l: string)
    ensures JoinLines(ls + [l]) == JoinLines(ls) + l + "\n"
    decreases |ls|
  {
    if |ls| == 0 {
      assert ls + [l] == [l];
    } else {
      JoinLinesSnoc(ls[1..], l);
      assert (ls + [l])[1..] == ls[1..] + [l];
    }
  }

  /** Lines joined with "\n" split back into the same lines. */
  lemma {:induction false} SplitJoinLines(ls: seq<string>)
    requires forall i :: 0 <= i < |ls| ==> NoLineBreak(ls[i])
    ensures SplitLines(JoinLines(ls)) == ls
    decreases |ls|
  {
    if |ls| > 0 {
      SplitJoinLines(ls[1..]);
      SplitLinesStep(ls[0], JoinLines(ls[1..]));
    }
  }

  /** A line that ends in "\n" is split off whole. */
  lemma SplitLinesStep(l: string, rest: string)
    requires NoLineBreak(l)
    ensures SplitLines(l + "\n" + rest) == [l] + SplitLines(rest)
  {
    var s := l + "\n" + rest;
    forall i | 0 <= i < |l| ensures !IsLineBreak(s[i]) {
      assert s[i] == l[i] && l[i] in l;
    }
    assert s[|l|] == '\n';
    LineEndIs(s, |l|);
    assert s[..|l|] == l;
    assert s[|l| + 1..] == rest;
  }

  lemma LineEndIs(s: string, k: nat)
    requires k < |s| && IsLineBreak(s[k])
    requires forall i :: 0 <= i < k ==> !IsLineBreak(s[i])
    ensures LineEnd(s) == k
    decreases k
  {
    if k > 0 {
      LineEndIs(s[1..], k - 1);
    }
  }

  /** The one-character case of Python's `str.upper()`, for ASCII letters. */
  function UpperChar(c: char): (u: char)
  {
    if 'a' <= c <= 'z' then (c as int - 32) as char else c
  }

  /** A lower-case letter becomes the capital at its place in the alphabet;
      every other character is kept, and no lower-case letter is left. */
  lemma UpperCharCapital(c: char)
    ensures !('a' <= UpperChar(c) <= 'z')
    ensures 'a' <= c <= 'z' ==> UpperChar(c) == "ABCDEFGHIJKLMNOPQRSTUVWXYZ"[c as int - 'a' as int]
    ensures !('a' <= c <= 'z') ==> UpperChar(c) == c
  {
  }
}
