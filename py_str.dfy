/**
 * Python's built-in `str` operations. `in`, `endswith` and `replace` are the
 * ones the duration conversion calls; `StartsWith` is what `Contains` and
 * `Replace` are defined with, and `Split`/`Join` are how the model of `eval`
 * cuts its text at `+` and `*`. Strings are sequences of characters.
 */
module PyStr {

  /** `s.startswith(pre)`. */
  predicate StartsWith(s: string, pre: string) {
    |pre| <= |s| && s[..|pre|] == pre
  }

  /** `s.endswith(suf)`. */
  predicate EndsWith(s: string, suf: string) {
    |suf| <= |s| && s[|s| - |suf|..] == suf
  }

  /** `pat` occurs in `s` starting at index `i`. */
  predicate OccursAt(s: string, pat: string, i: nat) {
    i + |pat| <= |s| && s[i..i + |pat|] == pat
  }

  /** `pat in s`, scanning `s` from the left; the empty pattern is in every string. */
  predicate Contains(s: string, pat: string)
    decreases |s|
  {
    StartsWith(s, pat) || (|s| > 0 && Contains(s[1..], pat))
  }

  /**
   * `s.replace(pat, rep)`: every non-overlapping occurrence of `pat`, found
   * scanning from the left, is replaced by `rep`. With an empty `pat`,
   * Python puts `rep` before every character and once more at the end.
   */
  function Replace(s: string, pat: string, rep: string): string
    decreases |s|
  {
    if |pat| == 0 then
      if |s| == 0 then rep else rep + [s[0]] + Replace(s[1..], pat, rep)
    else if StartsWith(s, pat) then rep + Replace(s[|pat|..], pat, rep)
    else if |s| == 0 then []
    else [s[0]] + Replace(s[1..], pat, rep)
  }

  /** `s.split(sep)` for a single separator character: never an empty list. */
  function Split(s: string, sep: char): (r: seq<string>)
    ensures |r| > 0
    decreases |s|
  {
    if |s| == 0 then [[]]
    else
      var rest := Split(s[1..], sep);
      if s[0] == sep then [[]] + rest
      else [[s[0]] + rest[0]] + rest[1..]
  }

  /** `sep.join(parts)`, the inverse of `Split`. */
  function Join(parts: seq<string>, sep: char): string
    decreases |parts|
  {
    if |parts| == 0 then []
    else if |parts| == 1 then parts[0]
    else parts[0] + [sep] + Join(parts[1..], sep)
  }

  // ---------------------------------------------------------------------
  // Contains

  /** The recursive scan finds exactly the positions where `pat` occurs. */
  lemma {:induction false} ContainsIff(s: string, pat: string)
    ensures Contains(s, pat) <==> exists i: nat :: OccursAt(s, pat, i)
    decreases |s|
  {
    if StartsWith(s, pat) {
      assert OccursAt(s, pat, 0);
    } else if |s| > 0 {
      ContainsIff(s[1..], pat);
      forall i: nat
        ensures OccursAt(s[1..], pat, i) <==> OccursAt(s, pat, i + 1)
      {
        if i + 1 + |pat| <= |s| {
          SliceShift(s, i, |pat|);
        }
      }
      if exists j: nat :: OccursAt(s, pat, j) {
        var j: nat :| OccursAt(s, pat, j);
        assert j != 0;
        assert OccursAt(s[1..], pat, j - 1);
      }
    }
  }

  /** A slice of the tail is the slice of the string one position further on. */
  lemma SliceShift(s: string, i: nat, n: nat)
    requires i + 1 + n <= |s|
    ensures s[1..][i..i + n] == s[i + 1..i + 1 + n]
  {
    var t := s[1..];
    var u, v := t[i..i + n], s[i + 1..i + 1 + n];
    forall k | 0 <= k < n
      ensures u[k] == v[k]
    {
    }
  }

  /** `[c] in s` is the same as the character `c` occurring in `s`. */
  lemma {:induction false} ContainsChar(s: string, c: char)
    ensures Contains(s, [c]) <==> c in s
    decreases |s|
  {
    if |s| > 0 {
      ContainsChar(s[1..], c);
      assert s == [s[0]] + s[1..];
    }
  }

  /** A string cannot contain a pattern one of whose characters it lacks. */
  lemma {:induction false} ContainsNeedsChar(s: string, pat: string, c: char)
    requires c in pat
    ensures Contains(s, pat) ==> c in s
    decreases |s|
  {
    if StartsWith(s, pat) {
      var k :| 0 <= k < |pat| && pat[k] == c;
      assert s[k] == c;
    } else if |s| > 0 {
      ContainsNeedsChar(s[1..], pat, c);
    }
  }

  /** A pattern placed between two strings is found. */
  lemma {:induction false} ContainsMiddle(a: string, pat: string, b: string)
    ensures Contains(a + pat + b, pat)
    decreases |a|
  {
    if |a| == 0 {
      assert a + pat + b == pat + b;
      assert (pat + b)[..|pat|] == pat;
    } else if !StartsWith(a + pat + b, pat) {
      ContainsMiddle(a[1..], pat, b);
      assert (a + pat + b)[1..] == a[1..] + pat + b;
    }
  }

  // ---------------------------------------------------------------------
  // Replace

  /** Without an occurrence of the pattern, `replace` gives back its input. */
  lemma {:induction false} ReplaceAbsent(s: string, pat: string, rep: string)
    requires |pat| > 0 && !Contains(s, pat)
    ensures Replace(s, pat, rep) == s
    decreases |s|
  {
    if |s| > 0 {
      ReplaceAbsent(s[1..], pat, rep);
      assert s == [s[0]] + s[1..];
    }
  }

  /** A prefix free of the pattern's first character is copied unchanged. */
  lemma {:induction false} ReplaceSkip(a: string, t: string, pat: string, rep: string)
    requires |pat| > 0 && pat[0] !in a
    ensures Replace(a + t, pat, rep) == a + Replace(t, pat, rep)
    decreases |a|
  {
    if |a| > 0 {
      assert (a + t)[0] == a[0];
      assert !StartsWith(a + t, pat);
      assert (a + t)[1..] == a[1..] + t;
      ReplaceSkip(a[1..], t, pat, rep);
      assert a == [a[0]] + a[1..];
    } else {
      assert a + t == t;
    }
  }

  /** An occurrence at the front is replaced and the scan resumes after it. */
  lemma ReplaceMatch(pat: string, t: string, rep: string)
    requires |pat| > 0
    ensures Replace(pat + t, pat, rep) == rep + Replace(t, pat, rep)
  {
    assert (pat + t)[..|pat|] == pat;
    assert (pat + t)[|pat|..] == t;
  }

  /** `n` copies of `s`, one after the other. */
  function Copies(s: string, n: nat): string
    decreases n
  {
    if n == 0 then [] else s + Copies(s, n - 1)
  }

  lemma CopiesTwoMore(c: char, k: nat)
    ensures Copies([c], k + 2) == [c, c] + Copies([c], k)
  {
    assert Copies([c], k + 2) == [c] + ([c] + Copies([c], k));
  }

  /**
   * Matches do not overlap: in a run of `2n + 1` equal characters the
   * two-character pattern is replaced `n` times, each match starting after
   * the previous one ends, and the last character is left over.
   */
  lemma {:induction false} ReplaceRun(c: char, rep: string, n: nat)
    ensures Replace(Copies([c], 2 * n + 1), [c, c], rep) == Copies(rep, n) + [c]
  {
    if n == 0 {
      assert Copies([c], 1) == [c];
      assert Replace([], [c, c], rep) == [];
      assert Replace([c], [c, c], rep) == [c] + Replace([], [c, c], rep);
    } else {
      var tail := Copies([c], 2 * (n - 1) + 1);
      CopiesTwoMore(c, 2 * (n - 1) + 1);
      assert Copies([c], 2 * n + 1) == [c, c] + tail;
      ReplaceMatch([c, c], tail, rep);
      ReplaceRun(c, rep, n - 1);
      assert Copies(rep, n) == rep + Copies(rep, n - 1);
    }
  }

  /** One occurrence surrounded by text that cannot start another one. */
  lemma ReplaceOnce(a: string, pat: string, b: string, rep: string)
    requires |pat| > 0 && pat[0] !in a && pat[0] !in b
    ensures Replace(a + pat + b, pat, rep) == a + rep + b
  {
    assert a + pat + b == a + (pat + b);
    ReplaceSkip(a, pat + b, pat, rep);
    ReplaceMatch(pat, b, rep);
    ReplaceNone(b, pat, rep);
  }

  /** A string lacking the pattern's first character is left as it is. */
  lemma ReplaceNone(s: string, pat: string, rep: string)
    requires |pat| > 0 && pat[0] !in s
    ensures Replace(s, pat, rep) == s
  {
    ReplaceSkip(s, [], pat, rep);
    assert s + [] == s;
  }

  /** Every character of the result comes from the input or from `rep`. */
  lemma {:induction false} ReplaceChars(s: string, pat: string, rep: string, x: char)
    ensures x in Replace(s, pat, rep) ==> x in s || x in rep
    decreases |s|
  {
    if |pat| == 0 {
      if |s| > 0 {
        ReplaceChars(s[1..], pat, rep, x);
      }
    } else if StartsWith(s, pat) {
      ReplaceChars(s[|pat|..], pat, rep, x);
    } else if |s| > 0 {
      ReplaceChars(s[1..], pat, rep, x);
    }
  }

  /** A character that is no part of the pattern survives the replacement. */
  lemma {:induction false} ReplaceKeeps(s: string, pat: string, rep: string, x: char)
    requires x in s && x !in pat
    ensures x in Replace(s, pat, rep)
    decreases |s|
  {
    if |pat| == 0 {
      if s[0] != x { ReplaceKeeps(s[1..], pat, rep, x); }
    } else if StartsWith(s, pat) {
      var k :| 0 <= k < |s| && s[k] == x;
      assert forall j :: 0 <= j < |pat| ==> s[j] == pat[j];
      assert k >= |pat|;
      assert s[|pat|..][k - |pat|] == x;
      ReplaceKeeps(s[|pat|..], pat, rep, x);
    } else if s[0] != x {
      ReplaceKeeps(s[1..], pat, rep, x);
    }
  }

  /** Replacing a character by text without it removes every occurrence. */
  lemma {:induction false} ReplaceRemoves(s: string, c: char, rep: string)
    requires c !in rep
    ensures c !in Replace(s, [c], rep)
    decreases |s|
  {
    if |s| > 0 {
      ReplaceRemoves(s[1..], c, rep);
      if StartsWith(s, [c]) {
        assert s[1..] == s[|[c]|..];
      }
    }
  }

  // ---------------------------------------------------------------------
  // Split and Join

  /** One step of `Split`: a leading character opens or extends the first piece. */
  lemma SplitCons(c: char, t: string, sep: char)
    ensures Split([c] + t, sep)
         == if c == sep then [[]] + Split(t, sep) else [[c] + Split(t, sep)[0]] + Split(t, sep)[1..]
  {
    assert ([c] + t)[0] == c;
    assert ([c] + t)[1..] == t;
  }

  /** Peeling the first character off `a + [sep] + b`. */
  lemma ConsSplitOff(a: string, b: string, sep: char)
    requires |a| > 0
    ensures a + [sep] + b == [a[0]] + (a[1..] + [sep] + b)
    ensures a == [a[0]] + a[1..]
  {
  }

  /** The step of `Split` commutes with appending further pieces. */
  lemma ConsPieces(c: char, pa: seq<string>, pb: seq<string>, sep: char)
    requires |pa| > 0
    ensures (if c == sep then [[]] + (pa + pb) else [[c] + (pa + pb)[0]] + (pa + pb)[1..])
         == (if c == sep then [[]] + pa else [[c] + pa[0]] + pa[1..]) + pb
  {
    if c != sep {
      assert (pa + pb)[0] == pa[0];
      assert (pa + pb)[1..] == pa[1..] + pb;
    }
  }

  /** Splitting at a separator placed between two strings splits each of them. */
  lemma {:induction false} SplitConcat(a: string, b: string, sep: char)
    ensures Split(a + [sep] + b, sep) == Split(a, sep) + Split(b, sep)
    decreases |a|
  {
    if |a| == 0 {
      assert a + [sep] + b == [sep] + b;
      SplitCons(sep, b, sep);
    } else {
      var c, a' := a[0], a[1..];
      var x := a' + [sep] + b;
      ConsSplitOff(a, b, sep);
      var pa, pb := Split(a', sep), Split(b, sep);
      assert Split(x, sep) == pa + pb by { SplitConcat(a', b, sep); }
      SplitCons(c, x, sep);
      SplitCons(c, a', sep);
      ConsPieces(c, pa, pb, sep);
    }
  }

  /** A string without the separator is one piece. */
  lemma {:induction false} SplitNone(s: string, sep: char)
    requires sep !in s
    ensures Split(s, sep) == [s]
    decreases |s|
  {
    if |s| > 0 {
      SplitNone(s[1..], sep);
      assert s == [s[0]] + s[1..];
    }
  }

  /** Every character other than the separator lands in some piece. */
  lemma {:induction false} SplitCovers(s: string, sep: char, x: char) returns (k: nat)
    requires x in s && x != sep
    ensures k < |Split(s, sep)| && x in Split(s, sep)[k]
    decreases |s|
  {
    if s[0] == x {
      k := 0;
    } else {
      var j := SplitCovers(s[1..], sep, x);
      if s[0] == sep {
        k := j + 1;
      } else if j == 0 {
        k := 0;
      } else {
        k := j;
      }
    }
  }

  /** No piece of a split holds the separator. */
  lemma {:induction false} SplitPiecesFree(s: string, sep: char, k: nat)
    requires k < |Split(s, sep)|
    ensures sep !in Split(s, sep)[k]
    decreases |s|
  {
    if |s| > 0 {
      var rest := Split(s[1..], sep);
      if s[0] == sep {
        if k > 0 { SplitPiecesFree(s[1..], sep, k - 1); }
      } else if k == 0 {
        SplitPiecesFree(s[1..], sep, 0);
      } else {
        SplitPiecesFree(s[1..], sep, k);
      }
    }
  }

  /** Joining the pieces with the separator gives back the split string. */
  lemma {:induction false} JoinSplit(s: string, sep: char)
    ensures Join(Split(s, sep), sep) == s
    decreases |s|
  {
    if |s| > 0 {
      var rest := Split(s[1..], sep);
      JoinSplit(s[1..], sep);
      if s[0] == sep {
        assert Split(s, sep)[1..] == rest;
        assert s == [sep] + s[1..];
      } else {
        var r := Split(s, sep);
        assert r[1..] == rest[1..];
        if |rest| == 1 {
          assert s == [s[0]] + rest[0];
        } else {
          assert rest[1..][1..] == rest[2..];
          assert Join(rest, sep) == rest[0] + [sep] + Join(rest[1..], sep);
          assert s == [s[0]] + s[1..];
        }
      }
    }
  }
}
