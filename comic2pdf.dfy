/**
 * The legacy script (comic2pdf.py): dispatch on the last four characters of a file name, the
 * output name made by `str.replace`, the page assembly in `to_pdf` with its descent through
 * single-entry directories, the clean-up of the extraction directory, and the directory loop.
 */
module Comic2Pdf {
  import opened Text
  import opened Ordering
  import opened Paths
  import opened Files
  import opened Comics2Pdf

  // ---------------------------------------------------------------------------------------------
  // launch_convert and the output name

  datatype Handler = ZipHandler | RarHandler | NoHandler

  /** The handler `launch_convert` picks: the last four characters compared exactly, case included. */
  function Dispatch(file: string): (h: Handler)
    ensures h == ZipHandler <==> EndsWith(file, ".cbz") || EndsWith(file, ".zip")
    ensures h == RarHandler <==> EndsWith(file, ".cbr") || EndsWith(file, ".rar")
  {
    var tail := TailSlice(file, 4);
    if tail == ".cbz" || tail == ".zip" then ZipHandler
    else if tail == ".cbr" || tail == ".rar" then RarHandler
    else NoHandler
  }

  /** `filein.replace(filein[-4:], ".pdf")`: every occurrence of the last four characters becomes ".pdf". */
  function OutputName(file: string): string
    requires file != ""
  {
    Replace(file, TailSlice(file, 4), ".pdf")
  }

  /** What `launch_convert(file)` sets in motion: a handler with the name it will write, or nothing. */
  datatype Job = ZipJob(file: string, output: string) | RarJob(file: string, output: string) | Skipped(file: string)

  function LaunchConvert(file: string): (job: Job)
    ensures job.file == file
    ensures job.ZipJob? <==> Dispatch(file) == ZipHandler
    ensures job.RarJob? <==> Dispatch(file) == RarHandler
  {
    match Dispatch(file)
    case ZipHandler => ZipJob(file, OutputName(file))
    case RarHandler => RarJob(file, OutputName(file))
    case NoHandler => Skipped(file)
  }

  /** The extension `Dispatch` matched is dot-headed. */
  lemma DispatchedTail(file: string)
    requires Dispatch(file) != NoHandler
    ensures DotHeaded(TailSlice(file, 4)) && EndsWith(file, TailSlice(file, 4)) && |file| >= 4
  {
  }

  /** For every name a handler accepts, the output name ends in ".pdf" and is as long as the input. */
  lemma OutputNameEndsWithPdf(file: string)
    requires Dispatch(file) != NoHandler
    ensures EndsWith(OutputName(file), ".pdf") && |OutputName(file)| == |file|
  {
    var tail := TailSlice(file, 4);
    DispatchedTail(file);
    ReplaceEndsWith(file, tail, ".pdf");
    ReplaceKeepsLength(file, tail, ".pdf");
  }

  lemma SpelledInside()
    ensures "x" + (".pdf" + (".old" + ".pdf")) == "x.pdf.old.pdf"
  {
    forall i | 0 <= i < 13 ensures ("x" + (".pdf" + (".old" + ".pdf")))[i] == "x.pdf.old.pdf"[i] {
    }
  }

  lemma SpelledDirectory()
    ensures "c" + (".pdf" + ("/a" + ".pdf")) == "c.pdf/a.pdf"
  {
    forall i | 0 <= i < 11 ensures ("c" + (".pdf" + ("/a" + ".pdf")))[i] == "c.pdf/a.pdf"[i] {
    }
  }

  lemma ReplaceHead(e: string, rest: string)
    requires |e| > 0
    ensures Replace(e + rest, e, ".pdf") == ".pdf" + Replace(rest, e, ".pdf")
  {
    assert (e + rest)[..|e|] == e && (e + rest)[|e|..] == rest;
  }

  lemma ReplaceOldCbz()
    ensures Replace(".old.cbz", ".cbz", ".pdf") == ".old" + ".pdf"
  {
    var u := ".old.cbz";
    forall i: nat | i < 4 ensures !OccursAt(u, ".cbz", i) {
      assert u[i..i + 4][0] == u[i] && u[i..i + 4][1] == u[i + 1];
    }
    ReplaceSkips(u, ".cbz", ".pdf", 4);
    assert u[..4] == ".old" && u[4..] == ".cbz" + [];
    ReplaceHead(".cbz", []);
  }

  lemma ReplaceXCbz()
    ensures Replace("x.cbz.old.cbz", ".cbz", ".pdf") == "x" + (".pdf" + (".old" + ".pdf"))
  {
    var s := "x.cbz.old.cbz";
    assert !OccursAt(s, ".cbz", 0) by { assert s[0..4][0] == 'x'; }
    ReplaceSkips(s, ".cbz", ".pdf", 1);
    assert s[..1] == "x" && s[1..] == ".cbz" + ".old.cbz";
    ReplaceHead(".cbz", ".old.cbz");
    ReplaceOldCbz();
  }

  /** Every occurrence of the extension is rewritten, also one inside the name. */
  lemma OutputNameRewritesInside()
    ensures OutputName("x.cbz.old.cbz") == "x.pdf.old.pdf"
  {
    assert TailSlice("x.cbz.old.cbz", 4) == ".cbz";
    ReplaceXCbz();
    SpelledInside();
  }

  /** An occurrence in a directory name is rewritten too, so the PDF is aimed at a directory that is not there. */
  lemma OutputNameRewritesDirectory()
    ensures OutputName("c.zip/a.zip") == "c.pdf/a.pdf"
  {
    assert TailSlice("c.zip/a.zip", 4) == ".zip";
    ReplaceCZip();
    SpelledDirectory();
  }

  lemma ReplaceAZip()
    ensures Replace("/a.zip", ".zip", ".pdf") == "/a" + ".pdf"
  {
    var u := "/a.zip";
    forall i: nat | i < 2 ensures !OccursAt(u, ".zip", i) {
      assert u[i..i + 4][0] == u[i];
    }
    ReplaceSkips(u, ".zip", ".pdf", 2);
    assert u[..2] == "/a" && u[2..] == ".zip" + [];
    ReplaceHead(".zip", []);
  }

  lemma ReplaceCZip()
    ensures Replace("c.zip/a.zip", ".zip", ".pdf") == "c" + (".pdf" + ("/a" + ".pdf"))
  {
    var t := "c.zip/a.zip";
    assert !OccursAt(t, ".zip", 0) by { assert t[0..4][0] == 'c'; }
    ReplaceSkips(t, ".zip", ".pdf", 1);
    assert t[..1] == "c" && t[1..] == ".zip" + "/a.zip";
    ReplaceHead(".zip", "/a.zip");
    ReplaceAZip();
  }

  /** Dispatch and the tail it matched see only the last component of `dir + "/" + name` once `name` has more than four characters. */
  lemma TailOfEntry(dir: string, name: string)
    requires |name| > 4
    ensures TailSlice(dir + "/" + name, 4) == TailSlice(name, 4)
    ensures Dispatch(dir + "/" + name) == Dispatch(name)
  {
    var file := dir + "/" + name;
    assert file[|file| - 4..] == name[|name| - 4..];
  }

  /** The legacy name of `dir + "/" + name` when the four-character extension occurs only at its end. */
  lemma EntryOutputName(dir: string, name: string)
    requires |name| > 4
    requires OnlyAtEnd(dir + "/" + name, TailSlice(name, 4))
    ensures OutputName(dir + "/" + name) == dir + "/" + (name[..|name| - 4] + ".pdf")
  {
    var file := dir + "/" + name;
    var tail := TailSlice(file, 4);
    TailOfEntry(dir, name);
    assert EndsWith(file, tail);
    ReplaceOnlyTail(file, tail, ".pdf");
    assert file[..|file| - 4] == dir + "/" + name[..|name| - 4];
  }

  /** `with_suffix(".pdf")` on a path whose last component is a dispatched entry with a non-empty stem. */
  lemma EntryWithSuffix(parent: Path, name: string)
    requires |name| > 4 && Dispatch(name) != NoHandler
    ensures var out := WithSuffix(parent + [name], ".pdf");
      out == parent + [Name(out)] && Name(out) == name[..|name| - 4] + ".pdf"
  {
    var n := |name| - 4;
    var tail := TailSlice(name, 4);
    DispatchedTail(name);
    assert name == name[..n] + tail;
    SuffixOfDotHeaded(parent + [name], name[..n], tail);
  }

  /**
   * For the path `dir + "/" + name` that `opendir` hands over, where `name` is a directory entry
   * (no separator) with at least one character before the extension and the extension occurs
   * nowhere else in the string: the legacy name keeps `dir`, and its last component is what
   * `with_suffix(".pdf")` makes of the entry, whatever path `parent` stands for `dir`.
   */
  lemma OutputNameIsWithSuffix(dir: string, parent: Path, name: string)
    requires '/' !in name && |name| > 4
    requires Dispatch(dir + "/" + name) != NoHandler
    requires OnlyAtEnd(dir + "/" + name, TailSlice(name, 4))
    ensures var out := WithSuffix(parent + [name], ".pdf");
      && out == parent + [Name(out)]
      && Name(out) == Stem(parent + [name]) + ".pdf"
      && OutputName(dir + "/" + name) == dir + "/" + Name(out)
  {
    TailOfEntry(dir, name);
    EntryOutputName(dir, name);
    EntryWithSuffix(parent, name);
  }

  /**
   * A path `dir + "/" + name` the legacy script dispatches, where the entry `name` has at least one
   * character before the extension, is one the current converter supports too, with the same kind
   * of reader. (The entry ".zip" is dispatched but has no suffix: see DispatchDiffers.)
   */
  lemma LegacyAcceptsOnlySupported(dir: string, parent: Path, name: string)
    requires '/' !in name && |name| > 4
    ensures Dispatch(dir + "/" + name) == ZipHandler ==> ContainerOf(parent + [name]) == Some(ZipFamily)
    ensures Dispatch(dir + "/" + name) == RarHandler ==> ContainerOf(parent + [name]) == Some(RarFamily)
  {
    TailOfEntry(dir, name);
    if Dispatch(name) != NoHandler {
      var tail := TailSlice(name, 4);
      DispatchedTail(name);
      LowerSlice(name, |name| - 4);
      assert Lower(tail) == tail;
      ExtensionIs(parent + [name], tail);
    }
  }

  /**
   * Where the two versions part: the legacy match is case-sensitive, so "x.CBZ" is skipped although
   * the current converter supports it; and the entry ".zip" of a directory "d" is dispatched
   * although, as a path, it has no suffix.
   */
  lemma DispatchDiffers()
    ensures Dispatch("x.CBZ") == NoHandler && IsSupported(["x.CBZ"])
    ensures Dispatch("d/.zip") == ZipHandler && !IsSupported(["d", ".zip"])
  {
    assert Lower("x.CBZ")[1..] == ".cbz";
    ExtensionIs(["x.CBZ"], ".cbz");
    assert TailSlice("d/.zip", 4) == ".zip";
    assert Suffix(["d", ".zip"]) == "" by {
      assert Name(["d", ".zip"]) == ".zip";
      var i := RFind(".zip", '.');
      assert ".zip"[0] == '.' && ".zip"[1] != '.' && ".zip"[2] != '.' && ".zip"[3] != '.';
    }
  }

  // ---------------------------------------------------------------------------------------------
  // opendir

  /** The jobs `opendir(directory)` starts: one `launch_convert` per listed name, in sorted name order. */
  method OpenDir(directory: string, listing: set<string>) returns (jobs: seq<Job>)
    ensures var names := SortedSet(listing, StrLess);
      |jobs| == |names| && forall k :: 0 <= k < |jobs| ==> jobs[k] == LaunchConvert(directory + "/" + names[k])
  {
    var entries := Enumerate(listing);
    var names := Sort(entries, StrLess);
    jobs := LaunchAll(directory, names);
    StrLessIsStrictTotalOrder();
    SortListing(entries, listing, StrLess);
  }

  /** The loop of `opendir`: one `launch_convert` per name, in the order given. */
  method LaunchAll(directory: string, names: seq<string>) returns (jobs: seq<Job>)
    ensures |jobs| == |names| && forall k :: 0 <= k < |jobs| ==> jobs[k] == LaunchConvert(directory + "/" + names[k])
  {
    jobs := LaunchEach(LaunchConvert, directory, names);
  }

  /** The loop itself, with the launcher as a parameter so that its definition stays out of the loop's proof. */
  method LaunchEach(launch: string -> Job, directory: string, names: seq<string>) returns (jobs: seq<Job>)
    ensures |jobs| == |names| && forall k :: 0 <= k < |jobs| ==> jobs[k] == launch(directory + "/" + names[k])
  {
    jobs := [];
    for i := 0 to |names|
      invariant |jobs| == i
      invariant forall k :: 0 <= k < i ==> jobs[k] == launch(directory + "/" + names[k])
    {
      jobs := jobs + [launch(directory + "/" + names[i])];
    }
  }

  /** `opendir` visits every listed name once, in increasing order. */
  lemma OpenDirOrder(listing: set<string>)
    ensures var names := SortedSet(listing, StrLess);
      && Increasing(names, StrLess)
      && Distinct(names)
      && forall n :: n in names <==> n in listing
  {
    StrLessIsStrictTotalOrder();
    SortedSetIsIncreasing(listing, StrLess);
    IncreasingIsDistinct(SortedSet(listing, StrLess), StrLess);
  }

  // ---------------------------------------------------------------------------------------------
  // to_pdf

  /** `image.endswith(".jpg") or ... ".JPG" ... ".jpeg" ... ".JPEG"`: four exact spellings. */
  predicate IsJpegName(name: string)
  {
    EndsWith(name, ".jpg") || EndsWith(name, ".JPG") || EndsWith(name, ".jpeg") || EndsWith(name, ".JPEG")
  }

  /** Mixed case and other image types are skipped; a bare ".jpg" is taken. */
  lemma JpegNameExamples()
    ensures IsJpegName("p1.jpg") && IsJpegName("P2.JPEG") && IsJpegName(".jpg")
    ensures !IsJpegName("p3.Jpg") && !IsJpegName("p4.png") && !IsJpegName("p5.jpg.txt")
  {
    JpegNameTaken();
    JpegNameSkips();
  }

  lemma JpegNameTaken()
    ensures IsJpegName("p1.jpg") && IsJpegName("P2.JPEG") && IsJpegName(".jpg")
  {
  }

  lemma JpegNameSkips()
    ensures !IsJpegName("p3.Jpg") && !IsJpegName("p4.png") && !IsJpegName("p5.jpg.txt")
  {
  }

  /** The entries at or below `dir`. */
  ghost function Below(tree: FileTree, dir: Path): set<Path>
  {
    set p | p in tree && |dir| <= |p| && p[..|dir|] == dir
  }

  lemma BelowShrinks(tree: FileTree, dir: Path, n: string)
    requires IsDir(tree, dir)
    ensures Below(tree, dir + [n]) < Below(tree, dir)
  {
    forall p | p in Below(tree, dir + [n]) ensures p in Below(tree, dir) {
      assert p[..|dir|] == p[..|dir| + 1][..|dir|];
    }
    assert dir[..|dir|] == dir;
    assert dir in Below(tree, dir);
  }

  lemma SingletonMember<T>(s: set<T>, x: T, y: T)
    requires |s| == 1 && x in s && y in s
    ensures x == y
  {
    assert |s - {x}| == 0;
    assert y in s - {x} || y == x;
  }

  /**
   * Where the descent of `to_pdf` stops: the first directory on the way down that does not hold
   * exactly one entry; None when it reaches something that is not a directory.
   */
  ghost function StopDir(tree: FileTree, dir: Path): Option<Path>
    decreases Below(tree, dir)
  {
    if !IsDir(tree, dir) then None
    else if |Children(tree, dir)| == 1 then
      var n :| n in Children(tree, dir);
      BelowShrinks(tree, dir, n);
      StopDir(tree, dir + [n])
    else Some(dir)
  }

  /**
   * The descent does not check that a single entry is a directory: when a directory's only entry is
   * a file, `os.listdir` is called on that file and `to_pdf` crashes.
   */
  lemma SingleEntryNotDirCrashes(tree: FileTree, unwritable: set<string>, filename: string, dir: Path, n: string)
    requires IsDir(tree, dir) && Children(tree, dir) == {n} && !IsDir(tree, dir + [n])
    ensures StopDir(tree, dir) == None
    ensures ToPdfResult(tree, unwritable, filename, dir) == Crashed
  {
    var m :| m in Children(tree, dir) && StopDir(tree, dir) == StopDir(tree, dir + [m]);
    assert m == n;
  }

  /**
   * The descent goes down through directories that hold exactly one entry, at every level, and
   * stops at a directory that holds none or several.
   */
  lemma {:induction false} StopDirDescends(tree: FileTree, dir: Path)
    ensures StopDir(tree, dir).Some? ==>
      var d := StopDir(tree, dir).value;
      && IsDir(tree, d) && |Children(tree, d)| != 1
      && |dir| <= |d| && d[..|dir|] == dir
      && forall k :: |dir| <= k < |d| ==> Children(tree, d[..k]) == {d[k]}
    decreases Below(tree, dir)
  {
    if IsDir(tree, dir) && |Children(tree, dir)| == 1 {
      var n :| n in Children(tree, dir) && StopDir(tree, dir) == StopDir(tree, dir + [n]);
      BelowShrinks(tree, dir, n);
      StopDirDescends(tree, dir + [n]);
      if StopDir(tree, dir).Some? {
        var d := StopDir(tree, dir).value;
        assert d[..|dir| + 1] == dir + [n];
        assert d[..|dir|] == d[..|dir| + 1][..|dir|];
        forall k | |dir| <= k < |d| ensures Children(tree, d[..k]) == {d[k]} {
          if k == |dir| {
            assert d[..k] == dir && d[k] == n;
            forall m | m in Children(tree, dir) ensures m == n {
              SingletonMember(Children(tree, dir), m, n);
            }
          }
        }
      }
    }
  }

  /** The images in `names` that PIL opens all open. */
  predicate AllOpen(tree: FileTree, dir: Path, names: seq<string>)
  {
    forall k :: 0 <= k < |names| ==> Open(tree, dir + [names[k]]).Some?
  }

  /** The pages made from `names` inside `dir`, one each, in order, in the mode PIL reports. */
  function PageList(tree: FileTree, dir: Path, names: seq<string>): (pages: seq<Page>)
    requires AllOpen(tree, dir, names)
    ensures |pages| == |names|
    ensures forall k :: 0 <= k < |names| ==> pages[k].source == dir + [names[k]]
  {
    if names == [] then []
    else
      var last := names[|names| - 1];
      PageList(tree, dir, names[..|names| - 1]) + [Page(dir + [last], Open(tree, dir + [last]).value)]
  }

  /** One more image that opens extends the page list by its page. */
  lemma PageListSnoc(tree: FileTree, dir: Path, names: seq<string>, name: string)
    requires AllOpen(tree, dir, names) && Open(tree, dir + [name]).Some?
    ensures AllOpen(tree, dir, names + [name])
    ensures PageList(tree, dir, names + [name]) == PageList(tree, dir, names) + [Page(dir + [name], Open(tree, dir + [name]).value)]
  {
    assert (names + [name])[..|names|] == names;
  }

  /** A JPEG-named entry that does not open makes the JPEG-named entries of the whole listing fail to open. */
  lemma NotAllOpen(tree: FileTree, dir: Path, ordered: seq<string>, i: nat)
    requires i < |ordered| && IsJpegName(ordered[i]) && Open(tree, dir + [ordered[i]]).None?
    ensures !AllOpen(tree, dir, Filter(ordered, IsJpegName))
  {
    assert ordered == ordered[..i + 1] + ordered[i + 1..];
    assert ordered[..i + 1] == ordered[..i] + [ordered[i]];
    FilterAppend(ordered[..i + 1], ordered[i + 1..], IsJpegName);
    FilterSnoc(ordered[..i], ordered[i], IsJpegName);
    var k := |Filter(ordered[..i], IsJpegName)|;
    assert Filter(ordered, IsJpegName)[k] == ordered[i];
  }

  /** What `to_pdf` leaves behind: the pages of the PDF it saved, or an uncaught exception. */
  datatype LegacyOutcome = Saved(pages: seq<Page>) | Crashed

  /** The JPEG-named entries of the directory `d`, in sorted name order. */
  ghost function JpegNames(tree: FileTree, d: Path): seq<string>
  {
    Filter(SortedSet(Children(tree, d), StrLess), IsJpegName)
  }

  /**
   * What `to_pdf` does once the descent has stopped at `d`: it crashes when a JPEG-named entry does
   * not open, when no entry is JPEG-named (`im` stays None) or when saving fails.
   */
  ghost function LevelResult(tree: FileTree, unwritable: set<string>, filename: string, d: Path): LegacyOutcome
  {
    var jpegs := JpegNames(tree, d);
    if !AllOpen(tree, d, jpegs) || jpegs == [] || filename in unwritable then Crashed
    else Saved(PageList(tree, d, jpegs))
  }

  /** The outcome of `to_pdf(filename, dir)`; it also crashes when the descent meets a non-directory. */
  ghost function ToPdfResult(tree: FileTree, unwritable: set<string>, filename: string, dir: Path): LegacyOutcome
  {
    match StopDir(tree, dir)
    case None => Crashed
    case Some(d) => LevelResult(tree, unwritable, filename, d)
  }

  /**
   * A saved PDF has one page per JPEG-named entry of the directory where the descent stopped, in
   * sorted name order, the first of them as page one; a directory with no JPEG-named entry crashes.
   */
  lemma ToPdfPages(tree: FileTree, unwritable: set<string>, filename: string, dir: Path)
    ensures var r := ToPdfResult(tree, unwritable, filename, dir);
      && (StopDir(tree, dir).Some? && JpegNames(tree, StopDir(tree, dir).value) == [] ==> r == Crashed)
      && (r.Saved? ==>
            var d := StopDir(tree, dir).value;
            var jpegs := JpegNames(tree, d);
            && |r.pages| == |jpegs| > 0
            && r.pages[0].source == d + [jpegs[0]]
            && Increasing(jpegs, StrLess)
            && (forall k :: 0 <= k < |jpegs| ==> r.pages[k].source == d + [jpegs[k]])
            && forall n :: n in jpegs <==> n in Children(tree, d) && IsJpegName(n))
  {
    if ToPdfResult(tree, unwritable, filename, dir).Saved? {
      var d := StopDir(tree, dir).value;
      StrLessIsStrictTotalOrder();
      SortedSetIsIncreasing(Children(tree, d), StrLess);
      FilterIncreasing(SortedSet(Children(tree, d), StrLess), IsJpegName, StrLess);
    }
  }

  // ---------------------------------------------------------------------------------------------
  // clean_tmp_dir

  /** The files directly inside `dir`. */
  function FilesIn(fs: FileTree, dir: Path): set<Path>
  {
    set q | q in ChildPaths(fs, dir) && fs[q].File?
  }

  /** `dir` is a directory that holds only files, so every `os.remove` succeeds and `os.rmdir` follows. */
  predicate OnlyFiles(fs: FileTree, dir: Path)
  {
    IsDir(fs, dir) && forall q :: q in ChildPaths(fs, dir) ==> fs[q].File?
  }

  /**
   * What `clean_tmp_dir(dir)` may do: remove files directly inside `dir`, and `dir` itself; when
   * `dir` holds only files, all of them and `dir` are gone. A sub-directory stops the loop (the
   * error is swallowed), leaving `dir` and whatever was not yet removed.
   */
  ghost predicate Cleaned(before: FileTree, after: FileTree, dir: Path)
  {
    && (forall q :: q in after ==> q in before && after[q] == before[q])
    && (forall q :: q in before && q !in after ==> q in FilesIn(before, dir) || (q == dir && OnlyFiles(before, dir)))
    && (OnlyFiles(before, dir) ==> dir !in after && forall q :: q in ChildPaths(before, dir) ==> q !in after)
  }

  /** Without `p`. */
  function Remove(fs: FileTree, p: Path): (r: FileTree)
    ensures forall q :: q in r <==> q in fs && q != p
    ensures forall q :: q in r ==> r[q] == fs[q]
  {
    map q | q in fs && q != p :: fs[q]
  }

  /**
   * The legacy script's view of the disk: the extraction directory "/tmp/c2p/" and what lies below
   * it (keyed relative to it, [] being the directory itself), and the PDFs it writes, by name.
   */
  class LegacyConverter {
    var tree: FileTree
    var pdfs: map<string, seq<Page>>
    /** Names where saving a PDF raises (a missing directory, no permission, ...). */
    const unwritable: set<string>

    constructor (tree: FileTree, unwritable: set<string>)
      ensures this.tree == tree && this.unwritable == unwritable && pdfs == map[]
    {
      this.tree := tree;
      this.unwritable := unwritable;
      pdfs := map[];
    }

    /** `clean_tmp_dir(dir)`: remove the listed entries in listing order, then the directory; swallow any error. */
    method CleanTmpDir(dir: Path)
      modifies this`tree
      ensures Cleaned(old(tree), tree, dir)
    {
      if !IsDir(tree, dir) {
        return;
      }
      var entries := Enumerate(Children(tree, dir));
      ghost var removed: set<Path> := {};
      for i := 0 to |entries|
        invariant removed == set j | 0 <= j < i :: dir + [entries[j]]
        invariant removed <= FilesIn(old(tree), dir)
        invariant forall q :: q in tree <==> q in old(tree) && q !in removed
        invariant forall q :: q in tree ==> tree[q] == old(tree)[q]
      {
        var path := dir + [entries[i]];
        ChildEntry(old(tree), dir, entries[i]);
        assert path !in removed by {
          forall j | 0 <= j < i ensures dir + [entries[j]] != path {
            assert (dir + [entries[j]])[|dir|] == entries[j];
          }
        }
        if !IsFile(tree, path) {
          assert !OnlyFiles(old(tree), dir);
          return;
        }
        tree := Remove(tree, path);
        removed := removed + {path};
      }
      forall q | q in ChildPaths(old(tree), dir) ensures q in removed {
        assert q == dir + [q[|dir|]];
        assert q[|dir|] in Children(old(tree), dir);
        var j :| 0 <= j < |entries| && entries[j] == q[|dir|];
      }
      assert dir !in removed;
      tree := Remove(tree, dir);
    }

    /**
     * `to_pdf(filename, dir)`: descend while the listing has exactly one entry; then take the
     * JPEG-named entries in sorted order, the first as the base image and the rest appended, save
     * the PDF and clean the directory.
     */
    method ToPdf(filename: string, dir: Path) returns (outcome: LegacyOutcome)
      modifies this`tree, this`pdfs
      ensures outcome == ToPdfResult(old(tree), unwritable, filename, dir)
      ensures outcome.Crashed? ==> tree == old(tree) && pdfs == old(pdfs)
      ensures outcome.Saved? ==>
        && pdfs == old(pdfs)[filename := outcome.pages]
        && Cleaned(old(tree), tree, StopDir(old(tree), dir).value)
      decreases Below(tree, dir)
    {
      if !IsDir(tree, dir) {
        return Crashed;
      }
      var listing := Children(tree, dir);
      if |listing| == 1 {
        var n :| n in listing;
        ghost var m :| m in listing && StopDir(tree, dir) == StopDir(tree, dir + [m]);
        SingletonMember(listing, m, n);
        BelowShrinks(tree, dir, n);
        outcome := ToPdf(filename, dir + [n]);
        return;
      }
      outcome := SaveLevel(filename, dir);
    }

    /** The `else` branch of `to_pdf`: assemble the pages of `dir`, save them, clean `dir`. */
    method SaveLevel(filename: string, dir: Path) returns (outcome: LegacyOutcome)
      requires IsDir(tree, dir) && |Children(tree, dir)| != 1
      modifies this`tree, this`pdfs
      ensures outcome == LevelResult(old(tree), unwritable, filename, dir)
      ensures outcome.Crashed? ==> tree == old(tree) && pdfs == old(pdfs)
      ensures outcome.Saved? ==> pdfs == old(pdfs)[filename := outcome.pages] && Cleaned(old(tree), tree, dir)
    {
      var names := Enumerate(Children(tree, dir));
      StrLessIsStrictTotalOrder();
      SortListing(names, Children(tree, dir), StrLess);
      var ordered := Sort(names, StrLess);
      var readable, first, rest := AssemblePages(dir, ordered);
      if !readable {
        return Crashed;
      }
      if first.None? {
        return Crashed;
      }
      if filename in unwritable {
        return Crashed;
      }
      outcome := Saved([first.value] + rest);
      pdfs := pdfs[filename := outcome.pages];
      CleanTmpDir(dir);
    }

    /**
     * The loop of `to_pdf` over the sorted names: the first JPEG-named image becomes `im`, the
     * later ones are appended to `im_list`; `readable` is false where `Image.open` raises.
     */
    method AssemblePages(dir: Path, ordered: seq<string>) returns (readable: bool, first: Option<Page>, rest: seq<Page>)
      ensures readable <==> AllOpen(tree, dir, Filter(ordered, IsJpegName))
      ensures readable ==> (first.None? <==> Filter(ordered, IsJpegName) == [])
      ensures readable && first.Some? ==> [first.value] + rest == PageList(tree, dir, Filter(ordered, IsJpegName))
    {
      first, rest := None, [];
      ghost var names: seq<string> := [];
      ghost var pages: seq<Page> := [];
      for i := 0 to |ordered|
        invariant names == Filter(ordered[..i], IsJpegName)
        invariant AllOpen(tree, dir, names) && pages == PageList(tree, dir, names)
        invariant first.None? <==> names == []
        invariant first.None? ==> rest == []
        invariant first.Some? ==> [first.value] + rest == pages
      {
        var name := ordered[i];
        assert ordered[..i + 1] == ordered[..i] + [name];
        FilterSnoc(ordered[..i], name, IsJpegName);
        if IsJpegName(name) {
          var image := Open(tree, dir + [name]);
          if image.None? {
            NotAllOpen(tree, dir, ordered, i);
            return false, first, rest;
          }
          var page := Page(dir + [name], image.value);
          PageListSnoc(tree, dir, names, name);
          if first.None? {
            assert pages == [];
            first := Some(page);
          } else {
            ConcatAssociative([first.value], rest, [page]);
            rest := rest + [page];
          }
          names := names + [name];
          pages := pages + [page];
        }
      }
      assert ordered[..|ordered|] == ordered;
      readable := true;
    }
  }
}
