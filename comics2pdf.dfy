/**
 * The current converter (comics2pdf.py): classify a file by its lower-cased suffix, extract the
 * archive into a fresh temporary directory, collect the images below it in path order, turn the
 * ones that open into PDF pages, and remove the temporary directory again; or do this for every
 * comic file directly inside a directory.
 */
module Comics2Pdf {
  import opened Text
  import opened Ordering
  import opened Paths
  import opened Files

  /** `SUPPORTED_EXTENSIONS`. */
  const SupportedExtensions: set<string> := {".cbz", ".zip", ".cbr", ".rar"}

  /** `IMAGE_EXTENSIONS`. */
  const ImageExtensions: set<string> := {".jpg", ".jpeg", ".png", ".gif", ".bmp", ".tiff", ".webp"}

  /** `path.suffix.lower()`: empty, or a dot followed by characters none of which is a dot. */
  function Extension(p: Path): (r: string)
    ensures |r| == |Suffix(p)|
    ensures r == "" || DotHeaded(r)
  {
    Lower(Suffix(p))
  }

  predicate IsSupported(p: Path)
  {
    Extension(p) in SupportedExtensions
  }

  predicate IsImage(p: Path)
  {
    Extension(p) in ImageExtensions
  }

  // ---------------------------------------------------------------------------------------------
  // Classification by extension

  /** The final component ends with `e` whatever the case of its letters, and has something before it. */
  predicate NamedWith(p: Path, e: string)
  {
    |Name(p)| > |e| && EndsWith(Lower(Name(p)), e)
  }

  lemma LowerSlice(s: string, a: nat)
    requires a <= |s|
    ensures Lower(s)[a..] == Lower(s[a..])
  {
  }

  /** A lower-cased suffix `e` means the name ends with `e` in some case, after at least one character. */
  lemma ExtensionIsNamed(p: Path, e: string)
    requires DotHeaded(e) && Extension(p) == e
    ensures NamedWith(p, e)
  {
    var name := Name(p);
    var suf := Suffix(p);
    assert suf != "" && |suf| < |name| && EndsWith(name, suf);
    var n := |name| - |suf|;
    assert name[n..] == suf;
    LowerSlice(name, n);
    assert Lower(name)[n..] == e;
  }

  /** A name ending, in some case, with a dot-headed `e` after at least one character has `e` as its lower-cased suffix. */
  lemma NamedIsExtension(p: Path, e: string)
    requires DotHeaded(e) && NamedWith(p, e)
    ensures Extension(p) == e
  {
    var name := Name(p);
    var n := |name| - |e|;
    var t := name[n..];
    LowerSlice(name, n);
    assert Lower(t) == e;
    assert t[0] == '.' by {
      assert LowerChar(t[0]) == e[0];
    }
    forall k | 1 <= k < |t| ensures t[k] != '.' {
      assert LowerChar(t[k]) == e[k];
    }
    assert name == name[..n] + t;
    SuffixOfDotHeaded(p, name[..n], t);
  }

  /** The lower-cased suffix is `e` exactly when the name ends with `e` in any case and is longer than `e`. */
  lemma ExtensionIs(p: Path, e: string)
    requires DotHeaded(e)
    ensures Extension(p) == e <==> NamedWith(p, e)
  {
    if Extension(p) == e {
      ExtensionIsNamed(p, e);
    }
    if NamedWith(p, e) {
      NamedIsExtension(p, e);
    }
  }

  /** For a set of dot-headed extensions, the lower-cased suffix is one of them exactly when the name ends with one of them. */
  lemma ExtensionInSet(p: Path, exts: set<string>)
    requires forall e :: e in exts ==> DotHeaded(e)
    ensures Extension(p) in exts <==> exists e :: e in exts && NamedWith(p, e)
  {
    if Extension(p) in exts {
      ExtensionIs(p, Extension(p));
    }
    if exists e :: e in exts && NamedWith(p, e) {
      var e :| e in exts && NamedWith(p, e);
      ExtensionIs(p, e);
    }
  }

  /** `item.suffix.lower() in IMAGE_EXTENSIONS`: the name ends with an image extension, in any case, after at least one character. */
  lemma IsImageByName(p: Path)
    ensures IsImage(p) <==> exists e :: e in ImageExtensions && NamedWith(p, e)
  {
    assert forall e :: e in ImageExtensions ==> DotHeaded(e);
    ExtensionInSet(p, ImageExtensions);
  }

  /** `suffix.lower() in SUPPORTED_EXTENSIONS`, in the same terms. */
  lemma IsSupportedByName(p: Path)
    ensures IsSupported(p) <==> exists e :: e in SupportedExtensions && NamedWith(p, e)
  {
    assert forall e :: e in SupportedExtensions ==> DotHeaded(e);
    ExtensionInSet(p, SupportedExtensions);
  }

  /** "P01.JPG" is an image; ".png" (no suffix) and "a.png.txt" (suffix ".txt") are not. */
  lemma ImageExamples()
    ensures IsImage(["P01.JPG"])
    ensures !IsImage([".png"])
    ensures !IsImage(["a.png.txt"])
  {
    UpperJpgIsImage();
    DotPngHasNoSuffix();
    TxtIsNotImage();
  }

  lemma UpperJpgIsImage()
    ensures IsImage(["P01.JPG"])
  {
    assert Lower("P01.JPG")[3..] == ".jpg";
    ExtensionIs(["P01.JPG"], ".jpg");
  }

  lemma DotPngHasNoSuffix()
    ensures Suffix([".png"]) == ""
  {
    var i := RFind(".png", '.');
    assert ".png"[0] == '.' && ".png"[1] != '.' && ".png"[2] != '.' && ".png"[3] != '.';
  }

  lemma TxtIsNotImage()
    ensures Extension(["a.png.txt"]) == ".txt"
  {
    assert Lower("a.png.txt")[5..] == ".txt";
    ExtensionIs(["a.png.txt"], ".txt");
  }

  // ---------------------------------------------------------------------------------------------
  // extract_archive

  datatype Container = ZipFamily | RarFamily

  /** Which reader `extract_archive` picks from the lower-cased suffix: one exactly for the supported suffixes. */
  function ContainerOf(p: Path): (r: Option<Container>)
    ensures r.Some? <==> IsSupported(p)
  {
    var ext := Extension(p);
    if ext == ".cbz" || ext == ".zip" then Some(ZipFamily)
    else if ext == ".cbr" || ext == ".rar" then Some(RarFamily)
    else None
  }

  /**
   * What the reader for `c` extracts from the file at `p`; None where it raises one of the errors
   * `extract_archive` catches (a missing file or a directory: OSError; anything that is not such an
   * archive: BadZipFile or rarfile.Error).
   */
  function ReadAs(fs: FileTree, p: Path, c: Container): Option<FileTree>
  {
    if IsFile(fs, p) && fs[p].content.Archive? then
      (if c == ZipFamily then fs[p].content.asZip else fs[p].content.asRar)
    else None
  }

  datatype Extraction = Extracted(container: Container, tree: FileTree) | Unsupported | ExtractError

  /**
   * `extract_archive(archive, temp_dir)`: true is `Extracted`, with what was written into the
   * (empty) temporary directory; false is `Unsupported` or `ExtractError`.
   */
  function ExtractArchive(fs: FileTree, archive: Path): (r: Extraction)
    ensures r.Unsupported? <==> !IsSupported(archive)
    ensures r.Extracted? && r.container == ZipFamily <==>
      (Extension(archive) == ".cbz" || Extension(archive) == ".zip") && ReadAs(fs, archive, ZipFamily).Some?
    ensures r.Extracted? && r.container == RarFamily <==>
      (Extension(archive) == ".cbr" || Extension(archive) == ".rar") && ReadAs(fs, archive, RarFamily).Some?
    ensures r.Extracted? ==> ReadAs(fs, archive, r.container) == Some(r.tree)
  {
    match ContainerOf(archive)
    case None => Unsupported
    case Some(c) =>
      match ReadAs(fs, archive, c)
      case Some(tree) => Extracted(c, tree)
      case None => ExtractError
  }

  // ---------------------------------------------------------------------------------------------
  // collect_image_files

  /** The files below the directory that count as images. */
  function ImageSet(tree: FileTree): set<Path>
  {
    set p | p in tree && tree[p].File? && IsImage(p)
  }

  /**
   * `collect_image_files(directory)`, where `tree` is what lies below `directory`: walk it in
   * whatever order `rglob` yields, keep the files with an image extension, and sort.
   */
  method CollectImageFiles(tree: FileTree) returns (files: seq<Path>)
    ensures Increasing(files, PathLess)
    ensures forall p :: p in files <==> IsFile(tree, p) && IsImage(p)
    ensures files == SortedSet(ImageSet(tree), PathLess)
  {
    var walk := Enumerate(tree.Keys);
    var found := KeepImages(walk, ImageSet(tree));
    PathLessIsStrictTotalOrder();
    SortListing(found, ImageSet(tree), PathLess);
    SortedSetIsIncreasing(ImageSet(tree), PathLess);
    files := Sort(found, PathLess);
  }

  /** The walk's entries that are image files (the set `images`), each once. */
  method KeepImages(walk: seq<Path>, images: set<Path>) returns (found: seq<Path>)
    requires Distinct(walk)
    ensures Distinct(found)
    ensures forall p :: p in found <==> p in walk && p in images
  {
    found := [];
    for i := 0 to |walk|
      invariant Distinct(found)
      invariant forall p :: p in found <==> p in walk[..i] && p in images
    {
      var item := walk[i];
      if item in images {
        assert item !in walk[..i];
        found := found + [item];
      }
      assert walk[..i + 1] == walk[..i] + [item];
    }
    assert walk[..|walk|] == walk;
  }

  // ---------------------------------------------------------------------------------------------
  // convert_images_to_pdf

  /** The colour mode a page is stored in: RGBA and palette (P) images are converted to RGB. */
  function PdfMode(mode: string): (r: string)
    ensures r != "RGBA" && r != "P"
    ensures mode == "RGBA" || mode == "P" ==> r == "RGB"
    ensures mode != "RGBA" && mode != "P" ==> r == mode
  {
    if mode == "RGBA" || mode == "P" then "RGB" else mode
  }

  /** The pages built from `files`: one for each image that opens, in the order given. */
  function Pages(files: seq<Path>, tree: FileTree): (pages: seq<Page>)
    ensures |pages| <= |files|
    ensures forall k :: 0 <= k < |pages| ==>
      && pages[k].source in files
      && Open(tree, pages[k].source).Some?
      && pages[k].mode == PdfMode(Open(tree, pages[k].source).value)
  {
    if files == [] then []
    else
      var last := files[|files| - 1];
      var before := Pages(files[..|files| - 1], tree);
      match Open(tree, last)
      case None => before
      case Some(mode) => before + [Page(last, PdfMode(mode))]
  }

  /** The test an image passes when PIL opens it. */
  function Opens(tree: FileTree): Path -> bool
  {
    (f: Path) => Open(tree, f).Some?
  }

  /** The source image of each page. */
  function Sources(pages: seq<Page>): seq<Path>
  {
    seq(|pages|, k requires 0 <= k < |pages| => pages[k].source)
  }

  lemma SourcesSnoc(pages: seq<Page>, page: Page)
    ensures Sources(pages + [page]) == Sources(pages) + [page.source]
  {
  }

  /** Images that fail to open are skipped and the rest keep their order: the pages come from exactly the images that open. */
  lemma {:induction false} PagesAreTheImagesThatOpen(files: seq<Path>, tree: FileTree)
    ensures Sources(Pages(files, tree)) == Filter(files, Opens(tree))
  {
    if files != [] {
      var init := files[..|files| - 1];
      var last := files[|files| - 1];
      assert files == init + [last];
      PagesAreTheImagesThatOpen(init, tree);
      FilterSnoc(init, last, Opens(tree));
      var before := Pages(init, tree);
      match Open(tree, last)
      case None =>
      case Some(mode) => SourcesSnoc(before, Page(last, PdfMode(mode)));
    }
  }

  /** `convert_images_to_pdf` builds no page exactly when no image opens. */
  lemma {:induction false} NoPagesIffNothingOpens(files: seq<Path>, tree: FileTree)
    ensures Pages(files, tree) == [] <==> forall f :: f in files ==> Open(tree, f).None?
  {
    if files != [] {
      var init := files[..|files| - 1];
      NoPagesIffNothingOpens(init, tree);
      assert files == init + [files[|files| - 1]];
    }
  }

  /** The first image that opens is page one. */
  lemma {:induction false} FirstOpeningImageIsPageOne(files: seq<Path>, tree: FileTree, k: nat)
    requires k < |files| && Open(tree, files[k]).Some?
    requires forall j :: 0 <= j < k ==> Open(tree, files[j]).None?
    ensures Pages(files, tree) != []
    ensures Pages(files, tree)[0] == Page(files[k], PdfMode(Open(tree, files[k]).value))
    decreases |files|
  {
    var init := files[..|files| - 1];
    if k == |files| - 1 {
      NoPagesIffNothingOpens(init, tree);
    } else {
      FirstOpeningImageIsPageOne(init, tree, k);
    }
  }

  // ---------------------------------------------------------------------------------------------
  // convert_comic_to_pdf and process_directory

  /** What a Python function hands back; `convert_comic_to_pdf` is annotated `-> bool` but can fall off its end. */
  datatype PyReturn = ReturnsTrue | ReturnsFalse | ReturnsNone

  /** The observable steps of one conversion, in the order they happen. */
  datatype Event =
    | Started(file: Path)                   // convert_comic_to_pdf(file) is called
    | Rejected                              // "Unsupported file"
    | TempCreated                           // tempfile.mkdtemp
    | ExtractionFailed                      // extract_archive returned False
    | NoImagesFound                         // collect_image_files found nothing
    | PdfStep(output: Path, saved: bool)    // convert_images_to_pdf ran; whether a PDF was saved
    | TempRemoved                           // shutil.rmtree in the finally clause

  /** The files conversions were started for, in order. */
  function Attempts(log: seq<Event>): seq<Path>
  {
    if log == [] then []
    else (if log[0].Started? then [log[0].file] else []) + Attempts(log[1..])
  }

  lemma {:induction false} AttemptsAppend(a: seq<Event>, b: seq<Event>)
    ensures Attempts(a + b) == Attempts(a) + Attempts(b)
  {
    if a != [] {
      assert (a + b)[1..] == a[1..] + b;
      AttemptsAppend(a[1..], b);
    } else {
      assert a + b == b;
    }
  }

  lemma ConcatAssociative<T>(a: seq<T>, b: seq<T>, c: seq<T>)
    ensures a + (b + c) == a + b + c
  {
  }

  /** The steps of a supported conversion, appended one by one, are the run's steps appended at once. */
  lemma Wrapped(before: seq<Event>, begun: seq<Event>, mid: seq<Event>, file: Path)
    requires begun == before + [Started(file)]
    ensures begun + [TempCreated] + mid + [TempRemoved] == before + ([Started(file), TempCreated] + mid + [TempRemoved])
  {
  }

  lemma {:induction false} AttemptsOfOthers(log: seq<Event>)
    requires forall k :: 0 <= k < |log| ==> !log[k].Started?
    ensures Attempts(log) == []
  {
    if log != [] {
      AttemptsOfOthers(log[1..]);
    }
  }

  /** The output of one conversion: the value returned, the steps taken and the resulting files. */
  datatype Run = Run(ret: PyReturn, events: seq<Event>, fs: FileTree)

  /** A supported file has a name, so `with_suffix` applies to it. */
  lemma SupportedHasName(file: Path)
    requires IsSupported(file)
    ensures Name(file) != "" && Suffix(file) != ""
  {
    assert |Extension(file)| == |Suffix(file)|;
  }

  /** The output path: `file_path.with_suffix(".pdf")`. */
  function PdfPath(file: Path): (r: Path)
    requires IsSupported(file)
    ensures Suffix(r) == ".pdf" && Stem(r) == Stem(file) && r[..|r| - 1] == file[..|file| - 1]
  {
    SupportedHasName(file);
    WithSuffixHasSuffix(file, ".pdf");
    WithSuffix(file, ".pdf")
  }

  /**
   * What the `try` block of `convert_comic_to_pdf(file)` does inside its fresh temporary directory:
   * the value returned, the steps taken, and the user's files afterwards.
   */
  ghost function ConvertInside(fs: FileTree, unwritable: set<Path>, file: Path): Run
    requires IsSupported(file)
  {
    match ExtractArchive(fs, file)
    case Extracted(_, tree) =>
      var images := SortedSet(ImageSet(tree), PathLess);
      if images == [] then Run(ReturnsFalse, [NoImagesFound], fs)
      else
        var output := PdfPath(file);
        var pages := Pages(images, tree);
        var saved := pages != [] && !IsDir(fs, output) && output !in unwritable;
        Run(ReturnsNone, [PdfStep(output, saved)], if saved then fs[output := File(Pdf(pages))] else fs)
    case _ => Run(ReturnsFalse, [ExtractionFailed], fs)
  }

  /** What `convert_comic_to_pdf(file)` does, given the files around it and the paths it cannot write. */
  ghost function Convert(fs: FileTree, unwritable: set<Path>, file: Path): Run
  {
    if !IsSupported(file) then Run(ReturnsFalse, [Started(file), Rejected], fs)
    else
      var inside := ConvertInside(fs, unwritable, file);
      Run(inside.ret, [Started(file), TempCreated] + inside.events + [TempRemoved], inside.fs)
  }

  /** Inside the temporary directory exactly one step is taken: the extraction fails, no image is found, or the PDF step runs. */
  lemma InsideIsOneStep(fs: FileTree, unwritable: set<Path>, file: Path)
    requires IsSupported(file)
    ensures var ev := ConvertInside(fs, unwritable, file).events;
      |ev| == 1 && (ev[0].ExtractionFailed? || ev[0].NoImagesFound? || ev[0].PdfStep?)
  {
  }

  /** The steps of one call, spelled out: four for a supported suffix, two for any other. */
  lemma ConvertEvents(fs: FileTree, unwritable: set<Path>, file: Path)
    ensures var ev := Convert(fs, unwritable, file).events;
      if IsSupported(file) then
        var inside := ConvertInside(fs, unwritable, file).events;
        && inside[0] != TempCreated && inside[0] != TempRemoved && !inside[0].Started?
        && ev == [Started(file), TempCreated, inside[0], TempRemoved]
      else ev == [Started(file), Rejected]
  {
    if IsSupported(file) {
      InsideIsOneStep(fs, unwritable, file);
      var inside := ConvertInside(fs, unwritable, file).events;
      assert inside == [inside[0]];
    }
  }

  /** The steps of a supported file, seen as a sequence: the temporary directory brackets the one inner step. */
  lemma Bracketed(file: Path, ev: seq<Event>, e: Event)
    requires ev == [Started(file), TempCreated, e, TempRemoved] && e != TempCreated && e != TempRemoved
    ensures |ev| >= 2 && ev[0] == Started(file) && TempCreated in ev
    ensures ev[1] == TempCreated && ev[|ev| - 1] == TempRemoved
    ensures forall k :: 1 < k < |ev| - 1 ==> ev[k] != TempCreated && ev[k] != TempRemoved
  {
  }

  /**
   * The temporary directory is created only for a supported suffix, and then it is removed as the
   * very last step, whatever happened in between; nothing else creates or removes it.
   */
  lemma TempDirIsAlwaysRemoved(fs: FileTree, unwritable: set<Path>, file: Path)
    ensures var ev := Convert(fs, unwritable, file).events;
      && |ev| >= 2 && ev[0] == Started(file)
      && (TempCreated in ev <==> IsSupported(file))
      && (IsSupported(file) ==>
            && ev[1] == TempCreated
            && ev[|ev| - 1] == TempRemoved
            && forall k :: 1 < k < |ev| - 1 ==> ev[k] != TempCreated && ev[k] != TempRemoved)
  {
    ConvertEvents(fs, unwritable, file);
    var ev := Convert(fs, unwritable, file).events;
    if IsSupported(file) {
      Bracketed(file, ev, ConvertInside(fs, unwritable, file).events[0]);
    } else {
      assert ev == [Started(file), Rejected];
    }
  }

  /** A log that starts `file` first and nothing after records exactly that one attempt. */
  lemma StartedOnce(file: Path, ev: seq<Event>)
    requires |ev| > 0 && ev[0] == Started(file)
    requires forall k :: 1 <= k < |ev| ==> !ev[k].Started?
    ensures Attempts(ev) == [file]
  {
    var rest := ev[1..];
    forall k | 0 <= k < |rest| ensures !rest[k].Started? {
      assert rest[k] == ev[k + 1];
    }
    AttemptsOfOthers(rest);
  }

  /** One call is one attempt: exactly one `Started` step, for the file given. */
  lemma ConvertStartsOnce(fs: FileTree, unwritable: set<Path>, file: Path)
    ensures Attempts(Convert(fs, unwritable, file).events) == [file]
  {
    ConvertEvents(fs, unwritable, file);
    StartedOnce(file, Convert(fs, unwritable, file).events);
  }

  /**
   * The result of `convert_comic_to_pdf`: False for a rejected suffix, a failed extraction or no
   * images; once the PDF step has run the function falls through and returns None, whether or
   * not the PDF was saved. It never returns True.
   */
  lemma ConvertResult(fs: FileTree, unwritable: set<Path>, file: Path)
    ensures var r := Convert(fs, unwritable, file);
      && r.ret != ReturnsTrue
      && (r.ret == ReturnsNone <==>
            && IsSupported(file)
            && ExtractArchive(fs, file).Extracted?
            && ImageSet(ExtractArchive(fs, file).tree) != {})
  {
    if IsSupported(file) && ExtractArchive(fs, file).Extracted? {
      var tree := ExtractArchive(fs, file).tree;
      PathLessIsStrictTotalOrder();
      SortedSetIsIncreasing(ImageSet(tree), PathLess);
      if ImageSet(tree) != {} {
        var p :| p in ImageSet(tree);
        assert p in SortedSet(ImageSet(tree), PathLess);
      }
    }
  }

  /**
   * What is written: only `file.with_suffix(".pdf")`, and only when some image opens and the path is
   * writable and not a directory; it then holds one page per image that opens, in path order, first image first.
   */
  lemma ConvertWrites(fs: FileTree, unwritable: set<Path>, file: Path)
    ensures var r := Convert(fs, unwritable, file);
      r.fs == fs ||
      (&& IsSupported(file)
       && ExtractArchive(fs, file).Extracted?
       && var tree := ExtractArchive(fs, file).tree;
          var pages := Pages(SortedSet(ImageSet(tree), PathLess), tree);
          && pages != []
          && !IsDir(fs, PdfPath(file)) && PdfPath(file) !in unwritable
          && r.fs == fs[PdfPath(file) := File(Pdf(pages))]
          && Sources(pages) == Filter(SortedSet(ImageSet(tree), PathLess), Opens(tree)))
  {
    if IsSupported(file) {
      assert Convert(fs, unwritable, file).fs == ConvertInside(fs, unwritable, file).fs;
      if ExtractArchive(fs, file).Extracted? {
        var tree := ExtractArchive(fs, file).tree;
        PagesAreTheImagesThatOpen(SortedSet(ImageSet(tree), PathLess), tree);
      }
    }
  }

  /**
   * And conversely: a supported archive that extracts, where some image opens and the output path
   * is writable and not a directory, gets its PDF written at `file.with_suffix(".pdf")`, one page
   * per image that opens, in path order; the third step is a successful PDF step, and the call
   * returns None.
   */
  lemma ConvertSaves(fs: FileTree, unwritable: set<Path>, file: Path, tree: FileTree)
    requires IsSupported(file) && ExtractArchive(fs, file).Extracted? && ExtractArchive(fs, file).tree == tree
    requires Pages(SortedSet(ImageSet(tree), PathLess), tree) != []
    requires !IsDir(fs, PdfPath(file)) && PdfPath(file) !in unwritable
    ensures var pages := Pages(SortedSet(ImageSet(tree), PathLess), tree);
      var r := Convert(fs, unwritable, file);
      && r.ret == ReturnsNone
      && r.events[2] == PdfStep(PdfPath(file), true)
      && r.fs == fs[PdfPath(file) := File(Pdf(pages))]
      && Sources(pages) == Filter(SortedSet(ImageSet(tree), PathLess), Opens(tree))
  {
    InsideSaves(fs, unwritable, file, tree);
    ConvertEvents(fs, unwritable, file);
    PagesAreTheImagesThatOpen(SortedSet(ImageSet(tree), PathLess), tree);
  }

  /** The `try` block's part of ConvertSaves. */
  lemma InsideSaves(fs: FileTree, unwritable: set<Path>, file: Path, tree: FileTree)
    requires IsSupported(file) && ExtractArchive(fs, file).Extracted? && ExtractArchive(fs, file).tree == tree
    requires Pages(SortedSet(ImageSet(tree), PathLess), tree) != []
    requires !IsDir(fs, PdfPath(file)) && PdfPath(file) !in unwritable
    ensures ConvertInside(fs, unwritable, file)
      == Run(ReturnsNone, [PdfStep(PdfPath(file), true)], fs[PdfPath(file) := File(Pdf(Pages(SortedSet(ImageSet(tree), PathLess), tree)))])
  {
    assert SortedSet(ImageSet(tree), PathLess) != [];
  }

  /** The test `process_directory` applies to each entry: `is_file()` and a supported suffix. */
  function IsComic(fs: FileTree): Path -> bool
  {
    (f: Path) => IsFile(fs, f) && IsSupported(f)
  }

  /** The comic files directly inside `dir`. */
  function ComicFiles(fs: FileTree, dir: Path): set<Path>
  {
    set p | p in ChildPaths(fs, dir) && IsComic(fs)(p)
  }

  /** Filtering any listing of the directory and sorting it gives the sorted comic files. */
  lemma ListingToBatch(fs: FileTree, dir: Path, entries: seq<Path>)
    requires Distinct(entries) && forall p :: p in entries <==> p in ChildPaths(fs, dir)
    ensures Sort(Filter(entries, IsComic(fs)), PathLess) == SortedSet(ComicFiles(fs, dir), PathLess)
  {
    PathLessIsStrictTotalOrder();
    SortListing(Filter(entries, IsComic(fs)), ComicFiles(fs, dir), PathLess);
  }

  /** The batch order: every comic file directly inside the directory, once each, in ascending path order. */
  lemma BatchOrder(fs: FileTree, dir: Path)
    ensures var batch := SortedSet(ComicFiles(fs, dir), PathLess);
      && Increasing(batch, PathLess)
      && Distinct(batch)
      && forall p :: p in batch <==> p in fs && |p| == |dir| + 1 && p[..|dir|] == dir && fs[p].File? && IsSupported(p)
  {
    PathLessIsStrictTotalOrder();
    SortedSetIsIncreasing(ComicFiles(fs, dir), PathLess);
    IncreasingIsDistinct(SortedSet(ComicFiles(fs, dir), PathLess), PathLess);
  }

  /** What converting `files` one after the other does: every step taken, and the files at the end. */
  datatype BatchRun = BatchRun(events: seq<Event>, fs: FileTree)

  ghost function Batch(fs: FileTree, unwritable: set<Path>, files: seq<Path>): BatchRun
  {
    if files == [] then BatchRun([], fs)
    else
      var before := Batch(fs, unwritable, files[..|files| - 1]);
      var last := Convert(before.fs, unwritable, files[|files| - 1]);
      BatchRun(before.events + last.events, last.fs)
  }

  /** One more file extends a batch by that file's conversion, run on the files the batch left. */
  lemma BatchStep(fs: FileTree, unwritable: set<Path>, files: seq<Path>, i: nat)
    requires i < |files|
    ensures var before := Batch(fs, unwritable, files[..i]);
      var step := Convert(before.fs, unwritable, files[i]);
      Batch(fs, unwritable, files[..i + 1]) == BatchRun(before.events + step.events, step.fs)
  {
    assert files[..i + 1][..i] == files[..i];
  }

  /** A batch attempts exactly the files it is given, in the order given. */
  lemma {:induction false} BatchAttempts(fs: FileTree, unwritable: set<Path>, files: seq<Path>)
    ensures Attempts(Batch(fs, unwritable, files).events) == files
  {
    if files != [] {
      var init := files[..|files| - 1];
      var last := files[|files| - 1];
      assert files == init + [last];
      var before := Batch(fs, unwritable, init);
      var step := Convert(before.fs, unwritable, last).events;
      assert Batch(fs, unwritable, files).events == before.events + step;
      BatchAttempts(fs, unwritable, init);
      ConvertStartsOnce(before.fs, unwritable, last);
      AttemptsAppend(before.events, step);
    }
  }

  /**
   * The converter's state: the user's files (where the PDFs land), the temporary directory while
   * one exists, and a record of the steps taken.
   */
  class Converter {
    var fs: FileTree
    /** Paths where saving a PDF raises an OSError (permissions, a full disk, ...). */
    const unwritable: set<Path>
    /** The temporary extraction directory and what it holds; None when there is none. */
    var workspace: Option<FileTree>
    ghost var log: seq<Event>

    constructor (fs: FileTree, unwritable: set<Path>)
      ensures this.fs == fs && this.unwritable == unwritable
      ensures workspace == None && log == []
    {
      this.fs := fs;
      this.unwritable := unwritable;
      workspace := None;
      log := [];
    }

    /**
     * `convert_images_to_pdf(image_files, output_path)`, opening the images in the temporary
     * directory. It returns true only after a successful save; saving onto a directory or onto an
     * unwritable path raises an OSError, which is caught and reported as false.
     */
    method ConvertImagesToPdf(imageFiles: seq<Path>, outputPath: Path) returns (ok: bool)
      requires workspace.Some?
      modifies this`fs
      ensures ok <==> && imageFiles != [] && Pages(imageFiles, workspace.value) != []
                      && !IsDir(old(fs), outputPath) && outputPath !in unwritable
      ensures fs == if ok then old(fs)[outputPath := File(Pdf(Pages(imageFiles, workspace.value)))] else old(fs)
    {
      if imageFiles == [] {
        return false;
      }
      var tree := workspace.value;
      var converted: seq<Page> := [];
      for i := 0 to |imageFiles|
        invariant converted == Pages(imageFiles[..i], tree)
      {
        var path := imageFiles[i];
        assert imageFiles[..i + 1][..i] == imageFiles[..i];
        match Open(tree, path)
        case None =>
        case Some(mode) =>
          converted := converted + [Page(path, PdfMode(mode))];
      }
      assert imageFiles[..|imageFiles|] == imageFiles;
      if converted == [] {
        return false;
      }
      var first := converted[0];
      var remaining := if |converted| > 1 then converted[1..] else [];
      assert [first] + remaining == converted;
      if IsDir(fs, outputPath) || outputPath in unwritable {
        return false;
      }
      fs := fs[outputPath := File(Pdf([first] + remaining))];
      ok := true;
    }

    /** The `try` block of `convert_comic_to_pdf`, run inside a fresh, empty temporary directory. */
    method ConvertInWorkspace(file: Path) returns (r: PyReturn)
      requires workspace == Some(map[]) && IsSupported(file)
      modifies this
      ensures workspace.Some?
      ensures var inside := ConvertInside(old(fs), unwritable, file);
        r == inside.ret && fs == inside.fs && log == old(log) + inside.events
    {
      var extraction := ExtractArchive(fs, file);
      if !extraction.Extracted? {
        log := log + [ExtractionFailed];
        return ReturnsFalse;
      }
      workspace := Some(extraction.tree);
      var imageFiles := CollectImageFiles(extraction.tree);
      if imageFiles == [] {
        log := log + [NoImagesFound];
        return ReturnsFalse;
      }
      var outputPath := PdfPath(file);
      var saved := ConvertImagesToPdf(imageFiles, outputPath);
      log := log + [PdfStep(outputPath, saved)];
      r := ReturnsNone;
    }

    /**
     * `convert_comic_to_pdf(file)`: an unsupported suffix is rejected before any temporary
     * directory exists; otherwise the directory is created, and removed again on every way out.
     */
    method ConvertComicToPdf(file: Path) returns (r: PyReturn)
      requires workspace.None?
      modifies this
      ensures workspace.None?
      ensures var run := Convert(old(fs), unwritable, file);
        r == run.ret && fs == run.fs && log == old(log) + run.events
    {
      log := log + [Started(file)];
      if !IsSupported(file) {
        log := log + [Rejected];
        return ReturnsFalse;
      }
      ghost var begun := log;
      workspace := Some(map[]);
      log := log + [TempCreated];
      r := ConvertInWorkspace(file);
      ghost var mid := ConvertInside(old(fs), unwritable, file).events;
      workspace := None;
      log := log + [TempRemoved];
      Wrapped(old(log), begun, mid, file);
    }

    /**
     * `sorted(f for f in dir.iterdir() if f.is_file() and f.suffix.lower() in SUPPORTED_EXTENSIONS)`:
     * the comic files directly inside `dir`, in ascending path order, whatever order the listing came in.
     */
    method ListComicFiles(dir: Path) returns (ordered: seq<Path>)
      ensures ordered == SortedSet(ComicFiles(fs, dir), PathLess)
    {
      var entries := Enumerate(ChildPaths(fs, dir));
      var comicFiles := Filter(entries, IsComic(fs));
      ListingToBatch(fs, dir, entries);
      ordered := Sort(comicFiles, PathLess);
    }

    /**
     * `process_directory(dir)`: nothing happens unless `dir` is a directory; otherwise every comic
     * file directly inside it is converted, once, in sorted order.
     */
    method ProcessDirectory(dir: Path)
      requires workspace.None?
      modifies this
      ensures workspace.None?
      ensures !IsDir(old(fs), dir) ==> fs == old(fs) && log == old(log)
      ensures IsDir(old(fs), dir) ==>
        var batch := Batch(old(fs), unwritable, SortedSet(ComicFiles(old(fs), dir), PathLess));
        fs == batch.fs && log == old(log) + batch.events
      ensures Attempts(log) == Attempts(old(log)) +
        (if IsDir(old(fs), dir) then SortedSet(ComicFiles(old(fs), dir), PathLess) else [])
    {
      if !IsDir(fs, dir) {
        return;
      }
      var ordered := ListComicFiles(dir);
      ConvertAll(ordered);
      BatchAttempts(old(fs), unwritable, ordered);
      AttemptsAppend(old(log), Batch(old(fs), unwritable, ordered).events);
    }

    /** The loop of `process_directory`: convert each file in turn, each conversion seeing the files the previous ones left. */
    method ConvertAll(files: seq<Path>)
      requires workspace.None?
      modifies this
      ensures workspace.None?
      ensures var batch := Batch(old(fs), unwritable, files);
        fs == batch.fs && log == old(log) + batch.events
    {
      for i := 0 to |files|
        invariant workspace.None?
        invariant var batch := Batch(old(fs), unwritable, files[..i]);
          fs == batch.fs && log == old(log) + batch.events
      {
        ghost var done := Batch(old(fs), unwritable, files[..i]).events;
        ghost var step := Convert(fs, unwritable, files[i]).events;
        BatchStep(old(fs), unwritable, files, i);
        ConcatAssociative(old(log), done, step);
        var _ := ConvertComicToPdf(files[i]);
      }
      assert files[..|files|] == files;
    }
  }
}
