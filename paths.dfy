/**
 * Paths as pathlib sees them: a sequence of components, the final component's suffix,
 * `with_suffix`, and the order in which `sorted` puts paths.
 */
module Paths {
  import opened Text
  import opened Ordering

  /** A path as its components (pathlib's `parts`), e.g. ["comics", "x.cbz"]. */
  type Path = seq<string>

  /** `PurePath.name`: the final component, empty for a path with no components. */
  function Name(p: Path): string
  {
    if |p| == 0 then "" else p[|p| - 1]
  }

  /**
   * `PurePath.suffix`: the final component from its last dot on, provided that dot is neither the
   * first nor the last character; otherwise empty. So ".png" and "a." have no suffix.
   */
  function Suffix(p: Path): (r: string)
    ensures r == "" || (DotHeaded(r) && |r| < |Name(p)| && EndsWith(Name(p), r))
  {
    var name := Name(p);
    var i := RFind(name, '.');
    if 0 < i < |name| - 1 then name[i..] else ""
  }

  /** The final component without its suffix. */
  function Stem(p: Path): string
  {
    Name(p)[..|Name(p)| - |Suffix(p)|]
  }

  /** The suffixes `with_suffix` accepts: empty, or a dot and more, without a separator. */
  predicate ValidSuffix(s: string)
  {
    s == "" || (|s| >= 2 && s[0] == '.' && '/' !in s)
  }

  /**
   * `PurePath.with_suffix(suffix)`: the final component's suffix is replaced by `suffix` (appended
   * when it has none). pathlib raises ValueError for an empty name or an invalid suffix.
   */
  function WithSuffix(p: Path, suffix: string): (r: Path)
    requires Name(p) != "" && ValidSuffix(suffix)
    ensures |r| == |p|
  {
    p[..|p| - 1] + [Stem(p) + suffix]
  }

  /** A component that ends in a dot-headed `e`, with something before it, has exactly `e` as its suffix. */
  lemma SuffixOfDotHeaded(p: Path, stem: string, e: string)
    requires DotHeaded(e) && |stem| > 0 && Name(p) == stem + e
    ensures Suffix(p) == e
  {
    var name := Name(p);
    var i := RFind(name, '.');
    assert name[|stem|] == '.';
    assert i == |stem|;
    assert name[i..] == e;
  }

  /** After `with_suffix(s)` for a dot-headed `s`, the suffix is `s`: only the last suffix was replaced. */
  lemma WithSuffixHasSuffix(p: Path, s: string)
    requires Name(p) != "" && ValidSuffix(s) && DotHeaded(s)
    ensures Suffix(WithSuffix(p, s)) == s
    ensures Stem(WithSuffix(p, s)) == Stem(p)
    ensures WithSuffix(p, s)[..|p| - 1] == p[..|p| - 1]
  {
    var q := WithSuffix(p, s);
    assert Name(q) == Stem(p) + s;
    SuffixOfDotHeaded(q, Stem(p), s);
  }

  /** A final component is its stem followed by its suffix. */
  lemma StemAndSuffix(p: Path)
    ensures Stem(p) + Suffix(p) == Name(p)
  {
    var name := Name(p);
    assert name == name[..|name| - |Suffix(p)|] + name[|name| - |Suffix(p)|..];
  }

  /** `with_suffix` can be undone: putting the old suffix back gives the original path. */
  lemma WithSuffixRestores(p: Path, s: string)
    requires Name(p) != "" && Suffix(p) != "" && ValidSuffix(Suffix(p))
    requires ValidSuffix(s) && DotHeaded(s)
    ensures WithSuffix(WithSuffix(p, s), Suffix(p)) == p
  {
    var q := WithSuffix(p, s);
    WithSuffixHasSuffix(p, s);
    StemAndSuffix(p);
    var parent, stem, was := p[..|p| - 1], Stem(p), Suffix(p);
    assert WithSuffix(q, was) == parent + [stem + was];
    assert parent + [Name(p)] == p;
  }

  /** `Path("a.b.cbz").with_suffix(".pdf")` is `Path("a.b.pdf")`. */
  lemma WithSuffixExample()
    ensures WithSuffix(["a.b.cbz"], ".pdf") == ["a.b.pdf"]
  {
    var p: Path := ["a.b.cbz"];
    assert Name(p) == "a.b" + ".cbz";
    SuffixOfDotHeaded(p, "a.b", ".cbz");
    assert Stem(p) == "a.b";
    assert "a.b" + ".pdf" == "a.b.pdf" by {
      forall i | 0 <= i < 7 ensures ("a.b" + ".pdf")[i] == "a.b.pdf"[i] {
      }
    }
    assert p[..0] + ["a.b" + ".pdf"] == ["a.b.pdf"];
  }

  /** The order of characters: by code point, as Python compares them. */
  function CharLess(a: char, b: char): bool
  {
    a < b
  }

  /** Python's `<` on strings. */
  function StrLess(a: string, b: string): bool
  {
    LexLess(a, b, CharLess)
  }

  /** `<` on paths: their component lists compared as Python compares lists of strings. */
  function PathLess(p: Path, q: Path): bool
  {
    LexLess(p, q, StrLess)
  }

  lemma StrLessIsStrictTotalOrder()
    ensures StrictTotalOrder(StrLess)
  {
    assert StrictTotalOrder(CharLess);
    forall a: string ensures !StrLess(a, a) {
      LexLessIrreflexive(a, CharLess);
    }
    forall a: string, b: string, c: string | StrLess(a, b) && StrLess(b, c) ensures StrLess(a, c) {
      LexLessTransitive(a, b, c, CharLess);
    }
    forall a: string, b: string | a != b ensures StrLess(a, b) || StrLess(b, a) {
      LexLessConnected(a, b, CharLess);
    }
  }

  lemma PathLessIsStrictTotalOrder()
    ensures StrictTotalOrder(PathLess)
  {
    StrLessIsStrictTotalOrder();
    forall a: Path ensures !PathLess(a, a) {
      LexLessIrreflexive(a, StrLess);
    }
    forall a: Path, b: Path, c: Path | PathLess(a, b) && PathLess(b, c) ensures PathLess(a, c) {
      LexLessTransitive(a, b, c, StrLess);
    }
    forall a: Path, b: Path | a != b ensures PathLess(a, b) || PathLess(b, a) {
      LexLessConnected(a, b, StrLess);
    }
  }

  /** Paths under one directory compare as their parts below it do. */
  lemma {:induction false} PathLessUnderPrefix(d: Path, a: Path, b: Path)
    ensures PathLess(d + a, d + b) == PathLess(a, b)
  {
    if d != [] {
      StrLessIsStrictTotalOrder();
      assert !StrLess(d[0], d[0]);
      assert (d + a)[0] == d[0] == (d + b)[0];
      assert (d + a)[1..] == d[1..] + a && (d + b)[1..] == d[1..] + b;
      PathLessUnderPrefix(d[1..], a, b);
    } else {
      assert d + a == a && d + b == b;
    }
  }

  /**
   * Paths are not ordered as their text: "a/b" comes before "a-b" although '/' is above '-'.
   */
  lemma PathOrderIsNotTextOrder()
    ensures PathLess(["a", "b"], ["a-b"])
    ensures StrLess("a-b", "a/b")
  {
  }
}
