/** Hand-written scanners for the three regular expressions and the one
    substitution that `convert_gate` uses: the first match of
    `\[(.*?)\]`, every match of `q\[(\d+)\]`, and `replace("pi", "M_PI")`. */
module Scanners {
  import opened Outcomes
  import opened PyText

  /** Index of the first ']' reached before any '\n' (the lazy `.*?` cannot
      cross a newline), or -1. */
  function CloseAt(s: string): (k: int)
    ensures -1 <= k < |s|
    ensures k >= 0 ==> s[k] == ']' && '\n' !in s[..k]
    decreases |s|
  {
    if s == [] then -1
    else if s[0] == ']' then 0
    else if s[0] == '\n' then -1
    else
      var k := CloseAt(s[1..]);
      assert k >= 0 ==> s[..k + 1] == [s[0]] + s[1..][..k];
      if k < 0 then -1 else k + 1
  }

  /** Group 1 of the leftmost match of `\[(.*?)\]`: what `findall(...)[0]`
      yields, or None where that list is empty. */
  function Bracketed(w: string): Option<string>
    decreases |w|
  {
    if w == [] then None
    else if w[0] == '[' then
      var k := CloseAt(w[1..]);
      if k >= 0 then Some(w[1..1 + k]) else Bracketed(w[1..])
    else Bracketed(w[1..])
  }

  /** The match is part of the text it was found in. */
  lemma {:induction false} BracketedChars(w: string)
    requires Bracketed(w).Some?
    ensures forall c :: c in Bracketed(w).value ==> c in w
    decreases |w|
  {
    if w[0] == '[' && CloseAt(w[1..]) >= 0 {
      assert forall c :: c in w[1..1 + CloseAt(w[1..])] ==> c in w;
    } else {
      BracketedChars(w[1..]);
      assert forall c :: c in w[1..] ==> c in w;
    }
  }

  /** Reference definition by search: the text strictly between the first
      `open` and the first `close` after it (`w.find(open)`, then
      `w.find(close, b + 1)`). */
  function BetweenFirst(w: string, open: char, close: char): Option<string>
  {
    var b := IndexOf(w, open);
    if b < 0 then None
    else
      var e := IndexOf(w[b + 1..], close);
      if e < 0 then None else Some(w[b + 1..b + 1 + e])
  }

  /** The text between the first '[' and the next ']' is found whatever
      follows the ']'. */
  lemma BetweenFirstOf(pre: string, q: string, post: string)
    requires '[' !in pre && ']' !in q
    ensures BetweenFirst(pre + "[" + q + "]" + post, '[', ']') == Some(q)
  {
    var w := pre + "[" + q + "]" + post;
    assert w == pre + ['['] + (q + "]" + post);
    IndexOfAt(pre, '[', q + "]" + post);
    assert w[|pre| + 1..] == q + [']'] + post;
    IndexOfAt(q, ']', post);
    assert w[|pre| + 1..|pre| + 1 + |q|] == q;
  }

  /** Without newlines, the lazy scan stops at the first ']'. */
  lemma {:induction false} CloseAtIsIndexOf(s: string)
    requires '\n' !in s
    ensures CloseAt(s) == IndexOf(s, ']')
    decreases |s|
  {
    if s != [] && s[0] != ']' {
      assert '\n' !in s[1..] by {
        forall c | c in s[1..] ensures c != '\n' { assert c in s; }
      }
      CloseAtIsIndexOf(s[1..]);
    }
  }

  /** No ']' at all means no match at all. */
  lemma {:induction false} BracketedNoClose(w: string)
    requires ']' !in w
    ensures Bracketed(w) == None
    decreases |w|
  {
    if w != [] {
      assert ']' !in w[1..] by {
        forall c | c in w[1..] ensures c != ']' { assert c in w; }
      }
      BracketedNoClose(w[1..]);
    }
  }

  /** On a text without newlines (every word `split()` yields), the regex
      scanner agrees with the search-based reference. */
  lemma {:induction false} BracketedIsBetween(w: string)
    requires '\n' !in w
    ensures Bracketed(w) == BetweenFirst(w, '[', ']')
    decreases |w|
  {
    if w != [] {
      assert '\n' !in w[1..] by {
        forall c | c in w[1..] ensures c != '\n' { assert c in w; }
      }
      if w[0] == '[' {
        CloseAtIsIndexOf(w[1..]);
        if CloseAt(w[1..]) < 0 {
          BracketedNoClose(w[1..]);
        }
      } else {
        BracketedIsBetween(w[1..]);
        BetweenFirstSkip(w);
      }
    }
  }

  /** A first character other than '[' does not matter to the search. */
  lemma BetweenFirstSkip(w: string)
    requires w != [] && w[0] != '['
    ensures BetweenFirst(w, '[', ']') == BetweenFirst(w[1..], '[', ']')
  {
    var b := IndexOf(w[1..], '[');
    if b >= 0 {
      var e := IndexOf(w[b + 2..], ']');
      if e >= 0 {
        DropSlice(w, 1, b + 1, b + 1 + e);
      } else {
        DropSlice(w, 1, b + 1, b + 1);
      }
    }
  }

  predicate IsDigit(c: char)
  {
    '0' <= c <= '9'
  }

  /** A non-empty run of decimal digits, what `\d+` matches. */
  predicate IsDigits(d: string)
  {
    |d| > 0 && forall c :: c in d ==> IsDigit(c)
  }

  /** Length of the leading run of digits. */
  function DigitRun(s: string): (k: nat)
    ensures k <= |s|
    ensures forall i :: 0 <= i < k ==> IsDigit(s[i])
    ensures k < |s| ==> !IsDigit(s[k])
    decreases |s|
  {
    if s == [] || !IsDigit(s[0]) then 0 else 1 + DigitRun(s[1..])
  }

  /** Every group of `re.findall(r'q\[(\d+)\]', s)`, left to right and
      non-overlapping: a match needs "q[", at least one digit, then ']'. */
  function QubitIndices(s: string): (r: seq<string>)
    ensures forall i :: 0 <= i < |r| ==> IsDigits(r[i])
    decreases |s|
  {
    if |s| < 2 then []
    else if s[0] == 'q' && s[1] == '[' then
      var k := DigitRun(s[2..]);
      if 0 < k && 2 + k < |s| && s[2 + k] == ']' then
        assert IsDigits(s[2..2 + k]) by {
          forall c | c in s[2..2 + k] ensures IsDigit(c) {
            var i :| 0 <= i < k && s[2..2 + k][i] == c;
            assert s[2..][i] == c;
          }
        }
        [s[2..2 + k]] + QubitIndices(s[3 + k..])
      else QubitIndices(s[1..])
    else QubitIndices(s[1..])
  }

  /** The operand text `q[d0],q[d1],...` of a gate on the qubits `ds`. */
  function Operands(ds: seq<string>): string
  {
    if |ds| == 0 then ""
    else if |ds| == 1 then "q[" + ds[0] + "]"
    else "q[" + ds[0] + "]," + Operands(ds[1..])
  }

  /** The operand text holds only digits and the characters of "q[],". */
  lemma {:induction false} OperandsChars(ds: seq<string>)
    requires forall i :: 0 <= i < |ds| ==> IsDigits(ds[i])
    ensures forall c :: c in Operands(ds) ==> IsDigit(c) || c == 'q' || c == '[' || c == ']' || c == ','
    decreases |ds|
  {
    if |ds| > 0 {
      assert IsDigits(ds[0]);
      if |ds| > 1 {
        OperandsChars(ds[1..]);
      }
    }
  }

  /** A well-formed qubit reference is one match. */
  lemma QubitIndicesRef(d: string, t: string)
    requires IsDigits(d)
    ensures QubitIndices("q[" + d + "]" + t) == [d] + QubitIndices(t)
  {
    var s := "q[" + d + "]" + t;
    assert s[2..] == d + "]" + t;
    forall i | 0 <= i < |d| ensures IsDigit(s[2..][i]) {
      assert s[2..][i] == d[i] && d[i] in d;
    }
    assert !IsDigit(s[2..][|d|]);
    DigitRunIs(s[2..], |d|);
    assert s[2..2 + |d|] == d;
    assert s[3 + |d|..] == t;
  }

  lemma DigitRunIs(s: string, k: nat)
    requires k < |s| && !IsDigit(s[k])
    requires forall i :: 0 <= i < k ==> IsDigit(s[i])
    ensures DigitRun(s) == k
    decreases k
  {
    if k > 0 {
      DigitRunIs(s[1..], k - 1);
    }
  }

  /** The qubit indices of an operand list `q[d0],q[d1],...;` are
      `d0, d1, ...`, in order: the control comes before the target. */
  lemma {:induction false} QubitIndicesOfOperands(ds: seq<string>)
    requires forall i :: 0 <= i < |ds| ==> IsDigits(ds[i])
    ensures QubitIndices(Operands(ds) + ";") == ds
    decreases |ds|
  {
    if |ds| == 1 {
      QubitIndicesRef(ds[0], ";");
      assert Operands(ds) + ";" == "q[" + ds[0] + "]" + ";";
      QubitIndicesSkip(';', []);
    } else if |ds| > 1 {
      var o := Operands(ds[1..]) + ";";
      QubitIndicesOfOperands(ds[1..]);
      OperandsCons(ds);
      QubitIndicesRef(ds[0], [','] + o);
      QubitIndicesSkip(',', o);
      assert ds == [ds[0]] + ds[1..];
    }
  }

  /** The operand list split after its first reference. */
  lemma OperandsCons(ds: seq<string>)
    requires |ds| > 1
    ensures Operands(ds) + ";" == "q[" + ds[0] + "]" + ([','] + (Operands(ds[1..]) + ";"))
  {
    var o := Operands(ds[1..]);
    assert Operands(ds) == "q[" + ds[0] + "]," + o;
    assert "q[" + ds[0] + "]," + o + ";" == "q[" + ds[0] + "]" + ([','] + (o + ";"));
  }

  /** A character other than 'q' starts no match. */
  lemma QubitIndicesSkip(c: char, t: string)
    requires c != 'q'
    ensures QubitIndices([c] + t) == QubitIndices(t)
  {
    assert ([c] + t)[1..] == t;
  }

  /** A reference `q[<d>]`, with `d` a digit run, starts at index `k` of `s`. */
  predicate RefAt(s: string, k: int, d: string)
  {
    IsDigits(d) && 0 <= k && k + |d| + 3 <= |s| && s[k..k + |d| + 3] == "q[" + d + "]"
  }

  /** The scan finds a digit run exactly when some reference `q[<run>]`
      occurs in the operand, wherever it is and whatever surrounds it. */
  lemma {:induction false} QubitIndicesAll(s: string, d: string)
    ensures d in QubitIndices(s) <==> exists k :: 0 <= k <= |s| && RefAt(s, k, d)
    decreases |s|
  {
    if |s| >= 2 {
      var k := DigitRun(s[2..]);
      if s[0] == 'q' && s[1] == '[' && 0 < k && 2 + k < |s| && s[2 + k] == ']' {
        var m := s[2..2 + k];
        assert IsDigits(m) by {
          forall c | c in m ensures IsDigit(c) {
            var i :| 0 <= i < k && m[i] == c;
            assert s[2..][i] == c;
          }
        }
        assert s[..k + 3] == "q[" + m + "]";
        QubitIndicesAll(s[3 + k..], d);
        MatchFirst(s, m, d);
      } else {
        assert QubitIndices(s) == QubitIndices(s[1..]);
        RefAtZero(s, d);
        QubitIndicesAll(s[1..], d);
        SkipFirst(s, d);
      }
    }
  }

  /** The step of `QubitIndicesAll` where a reference opens the text. */
  lemma MatchFirst(s: string, m: string, d: string)
    requires RefAt(s, 0, m)
    requires var t := s[|m| + 3..];
      d in QubitIndices(t) <==> exists j :: 0 <= j <= |t| && RefAt(t, j, d)
    ensures d in QubitIndices(s) <==> exists k :: 0 <= k <= |s| && RefAt(s, k, d)
  {
    var t := s[|m| + 3..];
    assert s == "q[" + m + "]" + t;
    QubitIndicesRef(m, t);
    assert QubitIndices(s) == [m] + QubitIndices(t);
    MatchFound(s, m, d);
    MatchReported(s, m, d);
  }

  lemma MatchFound(s: string, m: string, d: string)
    requires RefAt(s, 0, m)
    requires var t := s[|m| + 3..];
      d in QubitIndices(t) ==> exists j :: 0 <= j <= |t| && RefAt(t, j, d)
    ensures d == m || d in QubitIndices(s[|m| + 3..]) ==> exists k :: 0 <= k <= |s| && RefAt(s, k, d)
  {
    var t := s[|m| + 3..];
    if d == m {
      assert RefAt(s, 0, d);
    } else if d in QubitIndices(t) {
      var j :| 0 <= j <= |t| && RefAt(t, j, d);
      RefAtShift(s, |m| + 3, d);
      assert RefAt(s, j + |m| + 3, d);
    }
  }

  lemma MatchReported(s: string, m: string, d: string)
    requires RefAt(s, 0, m)
    requires var t := s[|m| + 3..];
      (exists j :: 0 <= j <= |t| && RefAt(t, j, d)) ==> d in QubitIndices(t)
    ensures (exists k :: 0 <= k <= |s| && RefAt(s, k, d)) ==> d == m || d in QubitIndices(s[|m| + 3..])
  {
    var t := s[|m| + 3..];
    if exists kk :: 0 <= kk <= |s| && RefAt(s, kk, d) {
      var kk :| 0 <= kk <= |s| && RefAt(s, kk, d);
      RefAtZero(s, d);
      RefAtZero(s, m);
      NoRefInside(s, m);
      assert kk == 0 || kk >= |m| + 3;
      if kk >= |m| + 3 {
        RefAtShift(s, |m| + 3, d);
        assert RefAt(t, kk - (|m| + 3), d);
      }
    }
  }

  /** The step of `QubitIndicesAll` where the scan moves on by one. */
  lemma SkipFirst(s: string, d: string)
    requires |s| >= 1 && QubitIndices(s) == QubitIndices(s[1..]) && !RefAt(s, 0, d)
    requires d in QubitIndices(s[1..]) <==> exists j :: 0 <= j <= |s[1..]| && RefAt(s[1..], j, d)
    ensures d in QubitIndices(s) <==> exists k :: 0 <= k <= |s| && RefAt(s, k, d)
  {
    RefAtShift(s, 1, d);
    if d in QubitIndices(s) {
      var j :| 0 <= j <= |s[1..]| && RefAt(s[1..], j, d);
      assert RefAt(s, j + 1, d);
    }
    if exists kk :: 0 <= kk <= |s| && RefAt(s, kk, d) {
      var kk :| 0 <= kk <= |s| && RefAt(s, kk, d);
      assert RefAt(s[1..], kk - 1, d);
    }
  }

  /** A reference in a suffix is a reference in the whole text, further on. */
  lemma RefAtShift(s: string, n: nat, d: string)
    requires n <= |s|
    ensures forall j :: 0 <= j ==> (RefAt(s[n..], j, d) <==> RefAt(s, j + n, d))
  {
    forall j | 0 <= j ensures RefAt(s[n..], j, d) <==> RefAt(s, j + n, d) {
      if j + |d| + 3 <= |s[n..]| {
        assert s[n..][j..j + |d| + 3] == s[j + n..j + n + |d| + 3];
      }
    }
  }

  /** A reference at the front is "q[", the whole leading digit run, then ']'. */
  lemma RefAtZero(s: string, d: string)
    ensures RefAt(s, 0, d) ==>
      |s| >= 2 && s[0] == 'q' && s[1] == '[' && DigitRun(s[2..]) == |d| &&
      2 + |d| < |s| && s[2 + |d|] == ']' && s[2..2 + |d|] == d
  {
    if RefAt(s, 0, d) {
      var r := "q[" + d + "]";
      assert s[..|d| + 3] == r;
      assert s[0] == r[0] && s[1] == r[1] && s[2 + |d|] == r[2 + |d|];
      forall i | 0 <= i < |d| ensures IsDigit(s[2..][i]) {
        assert s[2..][i] == r[2 + i] == d[i] && d[i] in d;
      }
      DigitRunIs(s[2..], |d|);
      assert s[2..2 + |d|] == r[2..2 + |d|];
    }
  }

  /** No reference starts inside another: '[', a digit and ']' are not 'q'. */
  lemma NoRefInside(s: string, m: string)
    requires RefAt(s, 0, m)
    ensures forall k, d :: 0 < k < |m| + 3 ==> !RefAt(s, k, d)
  {
    var r := "q[" + m + "]";
    assert s[..|m| + 3] == r;
    forall k | 0 < k < |m| + 3 ensures s[k] != 'q' {
      assert s[k] == r[k];
      if 2 <= k < |m| + 2 {
        assert r[k] == m[k - 2] && m[k - 2] in m;
      }
    }
    forall k, d | 0 < k < |m| + 3 ensures !RefAt(s, k, d) {
      assert ("q[" + d + "]")[0] == 'q';
      if k + |d| + 3 <= |s| {
        assert s[k..k + |d| + 3][0] == s[k];
      }
    }
  }

  /** Without any "q[" in the operand, there is nothing to match. */
  lemma {:induction false} QubitIndicesNone(s: string)
    requires Find(s, "q[") < 0
    ensures QubitIndices(s) == []
    decreases |s|
  {
    if |s| >= 2 {
      FindIsFirst(s, "q[");
      assert !Occurs(s, "q[", 0);
      assert s[..2] == [s[0], s[1]];
      forall k | 0 <= k < |s| - 2 ensures !Occurs(s[1..], "q[", k) {
        assert s[k + 1..k + 3] == s[1..][k..k + 2];
        assert !Occurs(s, "q[", k + 1);
      }
      QubitIndicesNone(s[1..]);
    }
  }

  /** Python's `s.replace("pi", "M_PI")`: every non-overlapping "pi",
      scanned from the left, becomes "M_PI". */
  function SubstitutePi(s: string): string
    decreases |s|
  {
    if |s| >= 2 && s[0] == 'p' && s[1] == 'i' then "M_PI" + SubstitutePi(s[2..])
    else if s == [] then []
    else [s[0]] + SubstitutePi(s[1..])
  }

  /** The substitution brings in no character but those of "M_PI". */
  lemma {:induction false} SubstitutePiChars(s: string)
    ensures forall c :: c in SubstitutePi(s) ==> c in s || c in "M_PI"
    decreases |s|
  {
    if |s| >= 2 && s[0] == 'p' && s[1] == 'i' {
      SubstitutePiChars(s[2..]);
      assert forall c :: c in s[2..] ==> c in s;
    } else if s != [] {
      SubstitutePiChars(s[1..]);
      assert forall c :: c in s[1..] ==> c in s;
    }
  }

  /** A final character other than 'i' cannot complete a "pi", so it is
      kept as it is. */
  lemma {:induction false} SubstitutePiSnoc(s: string, c: char)
    requires c != 'i'
    ensures SubstitutePi(s + [c]) == SubstitutePi(s) + [c]
    decreases |s|
  {
    var t := s + [c];
    if |s| >= 2 && s[0] == 'p' && s[1] == 'i' {
      assert t[2..] == s[2..] + [c];
      SubstitutePiSnoc(s[2..], c);
    } else if s != [] {
      assert t[1..] == s[1..] + [c];
      SubstitutePiSnoc(s[1..], c);
    } else {
      assert t == [c];
      assert t[1..] == [];
    }
  }

  /** The first character of a substituted text. */
  lemma SubstitutePiHead(u: string)
    requires u != []
    ensures SubstitutePi(u) != []
    ensures SubstitutePi(u)[0] == if |u| >= 2 && u[0] == 'p' && u[1] == 'i' then 'M' else u[0]
  {
  }

  /** No 'p' is followed by an 'i'. */
  predicate NoPi(r: string)
  {
    forall k :: 0 <= k < |r| - 1 ==> !(r[k] == 'p' && r[k + 1] == 'i')
  }

  lemma {:induction false} SubstitutedNoPi(s: string)
    ensures NoPi(SubstitutePi(s))
    decreases |s|
  {
    var r := SubstitutePi(s);
    if |s| >= 2 && s[0] == 'p' && s[1] == 'i' {
      var t := SubstitutePi(s[2..]);
      SubstitutedNoPi(s[2..]);
      assert r == "M_PI" + t;
      forall k | 0 <= k < |r| - 1 ensures !(r[k] == 'p' && r[k + 1] == 'i') {
        if k >= 4 {
          assert r[k] == t[k - 4] && r[k + 1] == t[k - 3];
        } else {
          assert r[k] == "M_PI"[k];
        }
      }
    } else if s != [] {
      var t := SubstitutePi(s[1..]);
      SubstitutedNoPi(s[1..]);
      assert r == [s[0]] + t;
      forall k | 0 <= k < |r| - 1 ensures !(r[k] == 'p' && r[k + 1] == 'i') {
        if k >= 1 {
          assert r[k] == t[k - 1] && r[k + 1] == t[k];
        } else {
          SubstitutePiHead(s[1..]);
          assert r[0] == s[0] && r[1] == t[0];
        }
      }
    }
  }

  /** The substitution leaves no "pi" behind. */
  lemma SubstitutePiLeavesNoPi(s: string)
    ensures Find(SubstitutePi(s), "pi") < 0
  {
    var r := SubstitutePi(s);
    SubstitutedNoPi(s);
    forall k | 0 <= k && k + 2 <= |r| ensures !Occurs(r, "pi", k) {
      assert r[k..k + 2] == [r[k], r[k + 1]];
    }
  }

  /** "M_PI" starts at index `k` of `s`. */
  predicate MPiAt(s: string, k: int)
  {
    0 <= k && k + 4 <= |s| && s[k] == 'M' && s[k + 1] == '_' && s[k + 2] == 'P' && s[k + 3] == 'I'
  }

  /** The inverse substitution, "M_PI" back to "pi". */
  function RestorePi(s: string): string
    decreases |s|
  {
    if MPiAt(s, 0) then "pi" + RestorePi(s[4..])
    else if s == [] then []
    else [s[0]] + RestorePi(s[1..])
  }

  /** Where the substituted text does not start with 'M', its first
      character is copied from the original. */
  lemma SubstitutedCopies(u: string)
    requires SubstitutePi(u) != [] && SubstitutePi(u)[0] != 'M'
    ensures u != [] && SubstitutePi(u) == [u[0]] + SubstitutePi(u[1..])
  {
  }

  /** A substituted text starts with "_PI" only where the original does. */
  lemma SubstitutedUnderscore(u: string)
    requires |SubstitutePi(u)| >= 3
    requires SubstitutePi(u)[0] == '_' && SubstitutePi(u)[1] == 'P' && SubstitutePi(u)[2] == 'I'
    ensures |u| >= 3 && u[0] == '_' && u[1] == 'P' && u[2] == 'I'
  {
    SubstitutedCopies(u);
    SubstitutedCopies(u[1..]);
    assert u[1..][1..] == u[2..];
    SubstitutedCopies(u[2..]);
  }

  /** Undoing the substitution gives back the angle text, provided that text
      did not already contain "M_PI": nothing but "pi" is changed. */
  lemma {:induction false} RestoreSubstitutePi(s: string)
    requires forall k :: !MPiAt(s, k)
    ensures RestorePi(SubstitutePi(s)) == s
    decreases |s|
  {
    if |s| >= 2 && s[0] == 'p' && s[1] == 'i' {
      NoMPiInSuffix(s, 2);
      RestoreSubstitutePi(s[2..]);
      var t := SubstitutePi(s[2..]);
      var r := "M_PI" + t;
      assert MPiAt(r, 0);
      assert r[4..] == t;
      assert s == "pi" + s[2..];
    } else if s != [] {
      NoMPiInSuffix(s, 1);
      RestoreSubstitutePi(s[1..]);
      var t := SubstitutePi(s[1..]);
      var r := [s[0]] + t;
      assert SubstitutePi(s) == r;
      assert !MPiAt(s, 0);
      assert !MPiAt(r, 0) by {
        if MPiAt(r, 0) {
          SubstitutedUnderscore(s[1..]);
        }
      }
      assert r[1..] == t;
      assert s == [s[0]] + s[1..];
    }
  }

  lemma NoMPiInSuffix(s: string, n: nat)
    requires n <= |s|
    requires forall k :: !MPiAt(s, k)
    ensures forall k :: !MPiAt(s[n..], k)
  {
    forall k | 0 <= k ensures !MPiAt(s[n..], k) {
      assert !MPiAt(s, k + n);
    }
  }
}
