/**
 * Character-level string operations the web worker relies on: prefix tests,
 * literal replace-all (the behaviour `String.replaceAll` has for a pattern and
 * a replacement with no regular-expression metacharacters), and splitting an
 * output buffer into LF-terminated lines.
 */
module Text {

  /** `s` begins with `prefix` (Java's `String.startsWith`). */
  predicate StartsWith(s: string, prefix: string)
  {
    |prefix| <= |s| && s[..|prefix|] == prefix
  }

  /** Appending in two steps is appending the concatenation. */
  lemma AppendAssoc(a: string, b: string, c: string)
    ensures (a + b) + c == a + (b + c)
  {
  }

  /** `pat` occurs in `s` at some position. */
  predicate Occurs(s: string, pat: string)
    decreases |s|
  {
    StartsWith(s, pat) || (|s| > 0 && Occurs(s[1..], pat))
  }

  /**
   * Replaces, scanning left to right, every non-overlapping occurrence of
   * `pat` in `s` by `rep`; after a match the scan resumes behind it.
   */
  function ReplaceAll(s: string, pat: string, rep: string): string
    requires pat != []
    decreases |s|
  {
    if |s| == 0 then []
    else if StartsWith(s, pat) then rep + ReplaceAll(s[|pat|..], pat, rep)
    else [s[0]] + ReplaceAll(s[1..], pat, rep)
  }

  /** The number of occurrences ReplaceAll replaces. */
  function Count(s: string, pat: string): nat
    requires pat != []
    decreases |s|
  {
    if |s| == 0 then 0
    else if StartsWith(s, pat) then 1 + Count(s[|pat|..], pat)
    else Count(s[1..], pat)
  }

  /** A text in which the pattern does not occur comes back unchanged. */
  lemma {:induction false} ReplaceAbsent(s: string, pat: string, rep: string)
    requires pat != [] && !Occurs(s, pat)
    ensures ReplaceAll(s, pat, rep) == s
    decreases |s|
  {
    if |s| > 0 {
      ReplaceAbsent(s[1..], pat, rep);
      assert [s[0]] + s[1..] == s;
    }
  }

  /** Replacing the pattern by itself changes nothing. */
  lemma {:induction false} ReplaceSelf(s: string, pat: string)
    requires pat != []
    ensures ReplaceAll(s, pat, pat) == s
    decreases |s|
  {
    if |s| > 0 {
      if StartsWith(s, pat) {
        ReplaceSelf(s[|pat|..], pat);
        assert s[..|pat|] + s[|pat|..] == s;
      } else {
        ReplaceSelf(s[1..], pat);
        assert [s[0]] + s[1..] == s;
      }
    }
  }

  /** Each replaced occurrence changes the length by |rep| - |pat|. */
  lemma {:induction false} ReplaceLength(s: string, pat: string, rep: string)
    requires pat != []
    ensures |ReplaceAll(s, pat, rep)| == |s| + Count(s, pat) * (|rep| - |pat|)
    decreases |s|
  {
    if |s| > 0 {
      if StartsWith(s, pat) {
        var t := s[|pat|..];
        assert |ReplaceAll(s, pat, rep)| == |rep| + |ReplaceAll(t, pat, rep)|;
        assert Count(s, pat) == 1 + Count(t, pat);
        ReplaceLength(t, pat, rep);
        Distribute(Count(t, pat), |rep| - |pat|);
      } else {
        ReplaceLength(s[1..], pat, rep);
      }
    }
  }

  lemma Distribute(c: nat, d: int)
    ensures (1 + c) * d == c * d + d
  {
  }

  /** An occurrence at the front is replaced and the scan resumes behind it. */
  lemma ReplaceFront(b: string, pat: string, rep: string)
    requires pat != []
    ensures ReplaceAll(pat + b, pat, rep) == rep + ReplaceAll(b, pat, rep)
  {
    assert (pat + b)[..|pat|] == pat;
    assert (pat + b)[|pat|..] == b;
  }

  /**
   * When the pattern cannot overlap itself at its first character, the
   * first occurrence behind a pattern-free prefix is the one replaced, and
   * the scan resumes behind it.
   */
  lemma {:induction false} ReplaceFirstOccurrence(a: string, pat: string, rest: string, rep: string)
    requires pat != [] && pat[0] !in pat[1..] && !Occurs(a, pat)
    ensures ReplaceAll(a + (pat + rest), pat, rep) == a + (rep + ReplaceAll(rest, pat, rep))
    decreases |a|
  {
    if |a| == 0 {
      assert a + (pat + rest) == pat + rest;
      ReplaceFront(rest, pat, rep);
    } else {
      var s := a + (pat + rest);
      assert !StartsWith(a, pat);
      assert !StartsWith(s, pat) by {
        if |pat| <= |s| {
          if |a| < |pat| {
            assert pat[|a|] == pat[1..][|a| - 1];
            assert s[..|pat|][|a|] == pat[0] != pat[|a|];
          } else {
            assert s[..|pat|] == a[..|pat|];
          }
        }
      }
      assert s[0] == a[0] && s[1..] == a[1..] + (pat + rest);
      ReplaceFirstOccurrence(a[1..], pat, rest, rep);
      assert [a[0]] + a[1..] == a;
    }
  }

  /**
   * Splits a buffer at every LF into the text between them: a buffer
   * holding k LF characters yields k + 1 pieces, the last one being whatever
   * follows the final LF.
   */
  function SplitLF(s: string): (lines: seq<string>)
    ensures |lines| >= 1
    decreases |s|
  {
    if |s| == 0 then [""]
    else
      var rest := SplitLF(s[1..]);
      if s[0] == '\n' then [""] + rest
      else [[s[0]] + rest[0]] + rest[1..]
  }

  /** Text without LF is a single piece. */
  lemma {:induction false} SplitNoLF(t: string)
    requires '\n' !in t
    ensures SplitLF(t) == [t]
    decreases |t|
  {
    if |t| > 0 {
      SplitNoLF(t[1..]);
      assert [t[0]] + t[1..] == t;
    }
  }

  /** Appending text without LF extends the last piece. */
  lemma {:induction false} SplitAppendText(s: string, t: string)
    requires '\n' !in t
    ensures var p := SplitLF(s); SplitLF(s + t) == p[..|p| - 1] + [p[|p| - 1] + t]
    decreases |s|
  {
    if |s| == 0 {
      assert s + t == t;
      SplitNoLF(t);
    } else {
      var c := s[0];
      var q := SplitLF(s[1..]);
      var r := SplitLF(s[1..] + t);
      var n := |q|;
      assert (s + t)[0] == c && (s + t)[1..] == s[1..] + t;
      SplitAppendText(s[1..], t);
      assert r == q[..n - 1] + [q[n - 1] + t];
      var p := SplitLF(s);
      if c == '\n' {
        assert p == [""] + q;
        assert SplitLF(s + t) == [""] + r;
        assert p[..|p| - 1] == [""] + q[..n - 1];
      } else if n == 1 {
        assert p == [[c] + q[0]];
        assert SplitLF(s + t) == [[c] + r[0]];
        AppendAssoc([c], q[0], t);
      } else {
        assert SplitLF(s + t) == [[c] + q[0]] + r[1..] by {
          assert r[0] == q[0];
        }
        assert r[1..] == q[1..n - 1] + [q[n - 1] + t];
        assert p == [[c] + q[0]] + q[1..];
        assert p[..|p| - 1] == [[c] + q[0]] + q[1..n - 1];
      }
    }
  }

  /** Appending an LF closes the last piece and opens an empty one. */
  lemma {:induction false} SplitAppendLF(s: string)
    ensures SplitLF(s + "\n") == SplitLF(s) + [""]
    decreases |s|
  {
    if |s| == 0 {
      assert s + "\n" == "\n";
      assert SplitLF("\n") == [""] + SplitLF("");
    } else {
      assert (s + "\n")[0] == s[0] && (s + "\n")[1..] == s[1..] + "\n";
      SplitAppendLF(s[1..]);
    }
  }

  /** Appending text without LF to pieces `p` + [last] extends `last`. */
  lemma AppendText(s: string, p: seq<string>, last: string, t: string)
    requires '\n' !in t && SplitLF(s) == p + [last]
    ensures SplitLF(s + t) == p + [last + t]
  {
    SplitAppendText(s, t);
    assert (p + [last])[..|p|] == p;
  }

  /** Appending a line without LF and its LF after complete lines `p` adds it as a piece. */
  lemma AppendLine(s: string, p: seq<string>, line: string)
    requires '\n' !in line && SplitLF(s) == p + [""]
    ensures SplitLF(s + (line + "\n")) == p + [line, ""]
  {
    assert s + (line + "\n") == (s + line) + "\n";
    AppendText(s, p, "", line);
    assert "" + line == line;
    SplitAppendLF(s + line);
  }
}
