/** The few Python string operations the two converters rely on. */
module Text {

  /** `c.lower()` for one character. Only the ASCII capitals change; see README for why this is enough here. */
  function LowerChar(c: char): char
  {
    if 'A' <= c <= 'Z' then (c as int - 'A' as int + 'a' as int) as char else c
  }

  /** `s.lower()`. */
  function Lower(s: string): (r: string)
    ensures |r| == |s|
  {
    seq(|s|, i requires 0 <= i < |s| => LowerChar(s[i]))
  }

  /** After lowering no capital is left, every capital became its small letter, and every other character stays where it was. */
  lemma LowerSpec(s: string)
    ensures forall i :: 0 <= i < |s| ==> !('A' <= Lower(s)[i] <= 'Z')
    ensures forall i :: 0 <= i < |s| && 'A' <= s[i] <= 'Z' ==> Lower(s)[i] as int == s[i] as int + 32
    ensures forall i :: 0 <= i < |s| && !('A' <= s[i] <= 'Z') ==> Lower(s)[i] == s[i]
  {
  }

  /** `s.endswith(t)`. */
  predicate EndsWith(s: string, t: string)
  {
    |t| <= |s| && s[|s| - |t|..] == t
  }

  /** The slice `s[-n:]` for a positive `n`: the last `n` characters, or all of `s` when it is shorter. */
  function TailSlice(s: string, n: nat): string
  {
    if |s| >= n then s[|s| - n..] else s
  }

  /** `s.rfind(c)`: the index of the last occurrence of `c`, or -1. */
  function RFind(s: string, c: char): (i: int)
    ensures -1 <= i < |s|
    ensures i >= 0 ==> s[i] == c
    ensures forall j :: i < j < |s| ==> s[j] != c
  {
    if |s| == 0 then -1
    else if s[|s| - 1] == c then |s| - 1
    else RFind(s[..|s| - 1], c)
  }

  /** A dot followed by at least one character and no further dot, such as ".cbz" or ".pdf". */
  predicate DotHeaded(e: string)
  {
    |e| >= 2 && e[0] == '.' && forall k :: 1 <= k < |e| ==> e[k] != '.'
  }

  /** `s.replace(pat, repl)` for a non-empty `pat`: every non-overlapping occurrence, found left to right, is replaced. */
  function Replace(s: string, pat: string, repl: string): string
    requires |pat| > 0
    decreases |s|
  {
    if |s| < |pat| then s
    else if s[..|pat|] == pat then repl + Replace(s[|pat|..], pat, repl)
    else [s[0]] + Replace(s[1..], pat, repl)
  }

  /** `pat` occurs in `s` starting at index `i`. */
  predicate OccursAt(s: string, pat: string, i: nat)
  {
    i + |pat| <= |s| && s[i..i + |pat|] == pat
  }

  /** Characters before the first occurrence of `pat` are kept as they are. */
  lemma {:induction false} ReplaceSkips(s: string, pat: string, repl: string, k: nat)
    requires |pat| > 0 && k <= |s|
    requires forall i: nat :: i < k ==> !OccursAt(s, pat, i)
    ensures Replace(s, pat, repl) == s[..k] + Replace(s[k..], pat, repl)
    decreases k
  {
    if k > 0 && |s| >= |pat| {
      assert !OccursAt(s, pat, 0);
      assert s[0..0 + |pat|] == s[..|pat|];
      var t := s[1..];
      forall i: nat | i < k - 1 ensures !OccursAt(t, pat, i) {
        assert !OccursAt(s, pat, i + 1);
        if i + |pat| <= |t| {
          assert t[i..i + |pat|] == s[i + 1..i + 1 + |pat|];
        }
      }
      ReplaceSkips(t, pat, repl, k - 1);
      assert s[..k] == [s[0]] + t[..k - 1];
      assert t[k - 1..] == s[k..];
    } else if k > 0 {
      assert Replace(s[k..], pat, repl) == s[k..];
      assert s == s[..k] + s[k..];
    }
  }

  /** `pat` occurs in `s` at no position other than at its very end. */
  predicate OnlyAtEnd(s: string, pat: string)
  {
    forall i: nat :: i < |s| - |pat| ==> !OccursAt(s, pat, i)
  }

  /** Replacing by a string of the same length keeps the length. */
  lemma {:induction false} ReplaceKeepsLength(s: string, pat: string, repl: string)
    requires |pat| > 0 && |repl| == |pat|
    ensures |Replace(s, pat, repl)| == |s|
    decreases |s|
  {
    if |s| < |pat| {
    } else if s[..|pat|] == pat {
      ReplaceKeepsLength(s[|pat|..], pat, repl);
    } else {
      ReplaceKeepsLength(s[1..], pat, repl);
    }
  }

  /** Two occurrences of a dot-headed pattern never overlap. */
  lemma NoOverlap(s: string, pat: string, j: nat)
    requires DotHeaded(pat)
    requires 0 < j < |pat| && j + |pat| <= |s|
    requires s[..|pat|] == pat
    ensures !OccursAt(s, pat, j)
  {
  }

  /** Putting text in front keeps a string's ending. */
  lemma EndsWithPrepend(a: string, x: string, t: string)
    requires EndsWith(x, t)
    ensures EndsWith(a + x, t)
  {
    assert (a + x)[|a + x| - |t|..] == x[|x| - |t|..];
  }

  /** When `s` ends with a dot-headed `pat`, that last occurrence is replaced: the result ends with `repl`. */
  lemma {:induction false} ReplaceEndsWith(s: string, pat: string, repl: string)
    requires DotHeaded(pat) && EndsWith(s, pat)
    ensures EndsWith(Replace(s, pat, repl), repl)
    decreases |s|
  {
    var n := |pat|;
    if s[..n] == pat {
      var rest := s[n..];
      assert Replace(s, pat, repl) == repl + Replace(rest, pat, repl);
      if |s| == n {
        assert Replace(rest, pat, repl) == [];
        assert EndsWith(repl, repl);
      } else {
        if |s| < 2 * n {
          assert s[|s| - n..] == s[|s| - n..|s| - n + n];
          NoOverlap(s, pat, |s| - n);
          assert false;
        }
        assert rest[|rest| - n..] == s[|s| - n..];
        ReplaceEndsWith(rest, pat, repl);
        EndsWithPrepend(repl, Replace(rest, pat, repl), repl);
      }
    } else {
      var t := s[1..];
      assert Replace(s, pat, repl) == [s[0]] + Replace(t, pat, repl);
      assert t[|t| - n..] == s[|s| - n..];
      ReplaceEndsWith(t, pat, repl);
      EndsWithPrepend([s[0]], Replace(t, pat, repl), repl);
    }
  }

  /** When the only occurrence of `pat` is the one that ends `s`, replacing rewrites just that tail. */
  lemma {:induction false} ReplaceOnlyTail(s: string, pat: string, repl: string)
    requires |pat| > 0 && EndsWith(s, pat) && OnlyAtEnd(s, pat)
    ensures Replace(s, pat, repl) == s[..|s| - |pat|] + repl
    decreases |s|
  {
    if |s| == |pat| {
      assert s[..|pat|] == s;
      assert Replace(s[|pat|..], pat, repl) == [];
    } else {
      assert !OccursAt(s, pat, 0);
      assert s[..|pat|] != pat by { assert s[0..0 + |pat|] == s[..|pat|]; }
      var t := s[1..];
      assert t[|t| - |pat|..] == s[|s| - |pat|..];
      forall i: nat | i < |t| - |pat| ensures !OccursAt(t, pat, i) {
        assert !OccursAt(s, pat, i + 1);
        assert t[i..i + |pat|] == s[i + 1..i + 1 + |pat|];
      }
      ReplaceOnlyTail(t, pat, repl);
      assert [s[0]] + t[..|t| - |pat|] == s[..|s| - |pat|];
    }
  }
}
