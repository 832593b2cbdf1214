# comics2pdf in Dafny

This project models the two command-line comic converters of the comics2pdf repository and proves
properties of them. Each converter turns a comic book archive (`.cbz`/`.zip` or `.cbr`/`.rar`)
into one PDF, with one page per picture.

- **comics2pdf.py** is the current converter. It classifies a file by the lower-cased
  pathlib suffix and extracts the archive into a fresh temporary directory. It collects the
  image files below that directory in sorted path order, turns every image that PIL can open into
  a PDF page, saves the PDF next to the archive under `with_suffix(".pdf")`, and removes the
  temporary directory whatever happened. `process_directory` does this for every comic file
  directly inside a directory, in sorted order.
- **comic2pdf.py** is the older script. It dispatches on the last four characters of the name.
  It makes the output name with `str.replace`. `to_pdf` descends through directories that hold a
  single entry and builds the PDF from the JPEG-named entries in sorted name order.
  `clean_tmp_dir` empties and removes the extraction directory, and `opendir` runs the dispatch
  for every name in a directory.

Modules:

- `Text` holds the Python string operations used: `lower`, `endswith`, `s[-4:]`, `rfind` and
  `replace`.
- `Ordering` holds strict total orders, Python's lexicographic comparison, `sorted` (an insertion
  sort) and the sorted enumeration of a finite set.
- `Paths` holds pathlib's `name`, `suffix` and `with_suffix`, and the component-wise order of paths.
- `Files` holds a file system as a map from paths to directories and files. File contents are kept
  abstract: what PIL, zipfile or rarfile would make of each file.
- `Comics2Pdf` models comics2pdf.py. The class `Converter` holds the user's files, the temporary
  directory while one exists, and a ghost record of the observable steps.
- `Comic2Pdf` models comic2pdf.py. The class `LegacyConverter` holds the extraction directory
  and the PDFs written.

File-system listings (`rglob`, `iterdir`, `os.listdir`) come back in an order the model does not
fix. The method `Ordering.Enumerate` produces them in any order. Each result that is sorted
afterwards is proved equal to the one sorted enumeration of the listed set, so it does not depend
on the listing order.

Two facts of the code shape the model:

- `sorted` on `Path` objects compares component by component, not as strings. Sorting the path
  strings gives a different order (`Paths.PathOrderIsNotTextOrder`).
- `convert_comic_to_pdf` reports failures as `False` and has no `return` after the PDF step. So it
  returns `None` once the PDF step has run, saved or not, and never returns `True`
  (`Comics2Pdf.ConvertResult`).

`str.lower` is modelled for ASCII letters only. Python lowers two other characters to something
that starts with an ASCII letter: U+212A (KELVIN SIGN) becomes `k`, and U+0130 (LATIN CAPITAL
LETTER I WITH DOT ABOVE) becomes `i` followed by U+0307 (COMBINING DOT ABOVE), two characters. No
extension the converters test contains `k` or U+0307. The model keeps both characters unchanged,
and neither of them is in any extension either. So membership in the extension sets comes out the
same. The model's lowering keeps the length of the text; Python's does not promise
that.

## Model

| member | source | states |
|---|---|---|
| Text.Lower | comics2pdf.py:41 | The ASCII lowering keeps the length of the text (Python's `str.lower` need not, see the note above). |
| Text.LowerSpec | comics2pdf.py:41 | After `str.lower` no capital letter is left, each capital became its small letter, and every other character is unchanged. |
| Text.RFind | comics2pdf.py:41 | The index found holds the character and no later index does; -1 when the character is absent. This is the dot search behind `suffix`. |
| Text.Replace | comic2pdf.py:21 | `str.replace`: every non-overlapping occurrence of the pattern, scanned from the left, is replaced. Its properties are the lemmas below. |
| Text.ReplaceKeepsLength | comic2pdf.py:21 | Replacing a pattern by a text of the same length, as ".cbz" by ".pdf", keeps the length of the name. |
| Text.ReplaceEndsWith | comic2pdf.py:21 | A name that ends with a dot-headed pattern still ends with the replacement after `replace`. |
| Text.ReplaceOnlyTail | comic2pdf.py:38 | When the pattern occurs only at the end, `replace` rewrites just that tail and keeps everything before it. |
| Text.ReplaceSkips | comic2pdf.py:38 | Characters before the first occurrence of the pattern come through `replace` unchanged. |
| Ordering.LexLessIrreflexive | comics2pdf.py:44 | Python's comparison of lists or strings never puts a value below itself. |
| Ordering.LexLessTransitive | comics2pdf.py:44 | Python's comparison of lists or strings is transitive. |
| Ordering.LexLessConnected | comics2pdf.py:44 | Python's comparison of lists or strings orders any two different values one way or the other. |
| Ordering.Sort | comics2pdf.py:44 | `sorted` returns a permutation of its input (same multiset). |
| Ordering.SortIncreasing | comics2pdf.py:44 | `sorted` on distinct values returns them in strictly increasing order. |
| Ordering.SortedUnique | comics2pdf.py:44 | Two increasing sequences with the same members are equal, so a set has exactly one sorted order. |
| Ordering.SortListing | comics2pdf.py:44 | Sorting any duplicate-free listing of a set gives the set's sorted enumeration, whatever the listing order. |
| Ordering.SortedSetIsIncreasing | comics2pdf.py:44 | The sorted enumeration of a set is increasing and holds exactly the set's members. |
| Ordering.IncreasingIsDistinct | comics2pdf.py:154 | An increasing sequence repeats no value, so no file is converted twice. |
| Ordering.Filter | comics2pdf.py:146 | A comprehension with a condition keeps exactly the elements that pass it, and keeps a duplicate-free input duplicate-free. |
| Ordering.FilterSnoc | comics2pdf.py:146 | Filtering one more element at the end extends the result by that element exactly when it passes. |
| Ordering.FilterAppend | comics2pdf.py:146 | Filtering a concatenation is the concatenation of the filtered parts. |
| Ordering.FilterIncreasing | comic2pdf.py:59-64 | Skipping names that fail a test keeps a sorted listing sorted. |
| Ordering.Enumerate | comics2pdf.py:40 | A directory walk yields every entry of the tree exactly once, in some order. |
| Paths.Suffix | comics2pdf.py:41 | A suffix is empty, or it is a dot-headed ending of the name that is shorter than the name. |
| Paths.WithSuffix | comics2pdf.py:132 | `with_suffix` keeps the number of components; it replaces the final component by its stem and the new suffix, and is defined only for a path with a name and a valid suffix. |
| Paths.SuffixOfDotHeaded | comics2pdf.py:41 | A name made of a non-empty stem and a dot-headed ending has exactly that ending as its suffix. |
| Paths.StemAndSuffix | comics2pdf.py:132 | A name is its stem followed by its suffix. |
| Paths.WithSuffixHasSuffix | comics2pdf.py:132 | After `with_suffix(".pdf")` the suffix is ".pdf", the stem is unchanged and the parent directory is unchanged. |
| Paths.WithSuffixRestores | comics2pdf.py:132 | `with_suffix` can be undone: putting the old suffix back gives the original path. |
| Paths.WithSuffixExample | comics2pdf.py:132 | Only the last suffix is replaced: "a.b.cbz" becomes "a.b.pdf". |
| Paths.StrLessIsStrictTotalOrder | comic2pdf.py:59 | Python's string order is a strict total order, so `sorted` on names is well defined. |
| Paths.PathLessIsStrictTotalOrder | comics2pdf.py:44 | The order on `Path` objects is a strict total order. |
| Paths.PathLessUnderPrefix | comics2pdf.py:40-44 | Paths under one directory compare as their parts below it do, so sorting the walk of the temporary directory is sorting the archive's own paths. |
| Paths.PathOrderIsNotTextOrder | comics2pdf.py:44 | The path order differs from the order of the path strings: "a/b" comes before "a-b" as paths but after it as text. |
| Files.ChildEntry | comics2pdf.py:146 | Every name a directory lists leads to an entry of that directory. |
| Comics2Pdf.Extension | comics2pdf.py:41 | The suffix after ASCII lowering is as long as the suffix, and is empty or a dot followed by characters none of which is a dot. |
| Comics2Pdf.ExtensionIsNamed | comics2pdf.py:41 | A lower-cased suffix equal to a given extension means the name ends with it, in some letter case, after at least one character. |
| Comics2Pdf.NamedIsExtension | comics2pdf.py:41 | A name that ends, in some letter case, with a dot-headed extension after at least one character has that extension as its lower-cased suffix. |
| Comics2Pdf.ExtensionIs | comics2pdf.py:41 | The lower-cased suffix is a given extension exactly when the name ends with it in any letter case and has at least one character before it. |
| Comics2Pdf.ExtensionInSet | comics2pdf.py:41 | The lower-cased suffix is in a set of extensions exactly when the name ends, in any case, with one of them after at least one character. |
| Comics2Pdf.IsImageByName | comics2pdf.py:22-41 | A file counts as an image exactly when its name ends, in any case, with one of the seven image extensions after at least one character. |
| Comics2Pdf.IsSupportedByName | comics2pdf.py:15-32 | A file is supported exactly when its name ends, in any case, with ".cbz", ".zip", ".cbr" or ".rar" after at least one character. |
| Comics2Pdf.ImageExamples | comics2pdf.py:22-41 | "P01.JPG" is an image. ".png" has no suffix and "a.png.txt" has the suffix ".txt", so neither is an image. |
| Comics2Pdf.ContainerOf | comics2pdf.py:52-64 | A reader is picked exactly for the four supported extensions. |
| Comics2Pdf.ExtractArchive | comics2pdf.py:47-70 | An unsupported suffix is refused. ".cbz"/".zip" use the ZIP reader and ".cbr"/".rar" the RAR reader. Extraction succeeds exactly when the chosen reader reads the file, and then yields what that reader extracts. |
| Comics2Pdf.CollectImageFiles | comics2pdf.py:36-44 | The result is increasing, holds exactly the files of the tree with an image extension, and is the sorted enumeration of that set whatever the walk order. |
| Comics2Pdf.KeepImages | comics2pdf.py:40-42 | The walk's entries that are image files are kept, each once. |
| Comics2Pdf.PdfMode | comics2pdf.py:89-90 | An RGBA or palette (P) image is converted to RGB; every other colour mode is kept; so a stored page is never RGBA or P. |
| Comics2Pdf.Pages | comics2pdf.py:83-95 | Every page comes from one of the given images that opens and is stored in that image's PDF mode; there are no more pages than images. |
| Comics2Pdf.SourcesSnoc | comics2pdf.py:91 | Appending one page appends its image to the page sources. |
| Comics2Pdf.PagesAreTheImagesThatOpen | comics2pdf.py:83-95 | The page sources are exactly the images that open, in the given order; images that fail to open are skipped. |
| Comics2Pdf.NoPagesIffNothingOpens | comics2pdf.py:97-99 | No page is built exactly when no image opens. |
| Comics2Pdf.FirstOpeningImageIsPageOne | comics2pdf.py:103-106 | The first image that opens becomes page one, in its PDF mode. |
| Comics2Pdf.Converter.ConvertImagesToPdf | comics2pdf.py:73-112 | True exactly when there are images, some open, and the output path is neither a directory nor unwritable (saving there raises an OSError, caught as False). Then the output path holds a PDF of exactly those pages, and otherwise no file changes. |
| Comics2Pdf.AttemptsAppend | comics2pdf.py:154-155 | The files started in two runs one after the other are those of the first, then those of the second. |
| Comics2Pdf.AttemptsOfOthers | comics2pdf.py:115-137 | Steps other than a start record no conversion attempt. |
| Comics2Pdf.SupportedHasName | comics2pdf.py:117-132 | A supported file has a name and a suffix, so `with_suffix` does not raise. |
| Comics2Pdf.PdfPath | comics2pdf.py:132 | The output path has the suffix ".pdf", the archive's stem and the archive's directory. |
| Comics2Pdf.ConvertInside | comics2pdf.py:123-134 | The `try` block as a specification: False when extraction fails or no image is found; otherwise None, after the PDF step, which writes `with_suffix(".pdf")` only when some image opens and the path is neither a directory nor unwritable. |
| Comics2Pdf.Convert | comics2pdf.py:115-137 | The whole call as a specification: an unsupported suffix is rejected with False before any temporary directory exists; otherwise the directory is created, the `try` block runs, and the directory is removed. |
| Comics2Pdf.InsideIsOneStep | comics2pdf.py:123-134 | Inside the temporary directory exactly one step is taken: extraction fails, no image is found, or the PDF step runs. |
| Comics2Pdf.ConvertEvents | comics2pdf.py:115-137 | A supported file takes exactly the steps start, temporary directory created, one inner step, temporary directory removed; any other file takes start and rejection. |
| Comics2Pdf.TempDirIsAlwaysRemoved | comics2pdf.py:117-137 | A temporary directory is created exactly for a supported suffix. It is then removed as the very last step on every path, and nothing in between creates or removes one. |
| Comics2Pdf.ConvertStartsOnce | comics2pdf.py:115-137 | One call records exactly one conversion attempt, for the file it was given. |
| Comics2Pdf.ConvertResult | comics2pdf.py:115-137 | The function never returns True. It returns None exactly when the suffix is supported, extraction succeeded and the archive holds an image file, and False otherwise. |
| Comics2Pdf.ConvertWrites | comics2pdf.py:115-137 | Either no file changes, or only `with_suffix(".pdf")` is written. In that case the path is writable and not a directory, some image opened, and the PDF's pages come from exactly the images that open, in sorted path order. |
| Comics2Pdf.InsideSaves | comics2pdf.py:123-134 | When the archive extracts, some image opens and the output path is writable and not a directory, the `try` block returns None after a successful PDF step and writes only the PDF of those pages. |
| Comics2Pdf.ConvertSaves | comics2pdf.py:115-137 | The converse of ConvertWrites: a supported archive that extracts, where some image opens and the output path is writable and not a directory, gets `with_suffix(".pdf")` written with one page per image that opens, in path order; the PDF step succeeds and None is returned. |
| Comics2Pdf.Converter.ConvertInWorkspace | comics2pdf.py:123-134 | The return value, the user's files and the recorded steps are those of the `try` block's specification. |
| Comics2Pdf.Converter.ConvertComicToPdf | comics2pdf.py:115-137 | The return value, the user's files and the recorded steps are those of the conversion's specification, and no temporary directory is left. |
| Comics2Pdf.ListingToBatch | comics2pdf.py:146-154 | Filtering any listing of the directory and sorting it gives the sorted set of comic files in it. |
| Comics2Pdf.BatchOrder | comics2pdf.py:146-154 | The batch holds every supported file directly inside the directory and nothing else, once each, in increasing path order. |
| Comics2Pdf.Converter.ListComicFiles | comics2pdf.py:146-154 | The files to convert are the sorted comic files of the directory, whatever the listing order. |
| Comics2Pdf.Batch | comics2pdf.py:154-155 | The loop as a specification: the files are converted one after the other, each on the files the earlier conversions left, and their steps are concatenated. |
| Comics2Pdf.BatchStep | comics2pdf.py:154-155 | One more file extends a batch by that file's conversion, run on the files the earlier conversions left. |
| Comics2Pdf.BatchAttempts | comics2pdf.py:154-155 | A batch attempts exactly the files it is given, in the given order. |
| Comics2Pdf.Converter.ConvertAll | comics2pdf.py:154-155 | The files and steps after the loop are those of converting the given files one after the other. |
| Comics2Pdf.Converter.ProcessDirectory | comics2pdf.py:140-155 | Nothing changes unless the path is a directory. Otherwise each comic file directly inside it is converted once, in sorted order, each conversion seeing the files the earlier ones wrote. |
| Comic2Pdf.Dispatch | comic2pdf.py:94-98 | The ZIP handler is chosen exactly when the name ends with ".cbz" or ".zip", and the RAR handler exactly when it ends with ".cbr" or ".rar". Letter case counts. |
| Comic2Pdf.LaunchConvert | comic2pdf.py:94-98 | A ZIP or RAR job is started exactly when the dispatch picks that handler; any other name is skipped. |
| Comic2Pdf.DispatchedTail | comic2pdf.py:95-97 | A dispatched name ends with the dot-headed four characters it was matched on. |
| Comic2Pdf.OutputName | comic2pdf.py:21 | `filein.replace(filein[-4:], ".pdf")`: every occurrence of the last four characters becomes ".pdf". Its properties are the lemmas below. |
| Comic2Pdf.OutputNameEndsWithPdf | comic2pdf.py:21 | Every dispatched name gets an output name that ends in ".pdf" and is as long as the input. |
| Comic2Pdf.OutputNameRewritesInside | comic2pdf.py:38 | Every occurrence of the extension is rewritten, also one inside the name: "x.cbz.old.cbz" becomes "x.pdf.old.pdf". |
| Comic2Pdf.OutputNameRewritesDirectory | comic2pdf.py:21 | An occurrence in a directory name is rewritten too: "c.zip/a.zip" becomes "c.pdf/a.pdf", a directory that need not exist. |
| Comic2Pdf.TailOfEntry | comic2pdf.py:95-103 | For `directory + '/' + file` with a file name longer than four characters, the four characters dispatched on, and so the handler, are those of the file name. |
| Comic2Pdf.EntryOutputName | comic2pdf.py:38 | For `directory + '/' + file` where the extension occurs only at the end, the output name is the directory, "/", the file name without its last four characters, and ".pdf". |
| Comic2Pdf.EntryWithSuffix | comics2pdf.py:132 | `with_suffix(".pdf")` of a path whose file name is dispatched and longer than four characters keeps the parent and turns the file name into its first part plus ".pdf". |
| Comic2Pdf.OutputNameIsWithSuffix | comic2pdf.py:38 | For the path `directory + '/' + file` that `opendir` passes on, where the file name has no separator, is longer than four characters and the extension occurs nowhere else in the string: the output name keeps the directory, and its file name is the one `with_suffix(".pdf")` gives that path. |
| Comic2Pdf.LegacyAcceptsOnlySupported | comic2pdf.py:94-98 | For the path `directory + '/' + file` with a file name longer than four characters and without separator: when the script dispatches it, the current converter supports that path, with the same reader family. |
| Comic2Pdf.DispatchDiffers | comic2pdf.py:94-98 | The two versions differ: "x.CBZ" is skipped here but supported by the current converter, and "d/.zip" is dispatched here but, as the path d/.zip, has no suffix there. |
| Comic2Pdf.OpenDir | comic2pdf.py:101-103 | One job per listed name, in sorted name order, each for the directory, "/" and the name. |
| Comic2Pdf.LaunchAll | comic2pdf.py:102-103 | One job per name, in the order given, each what `launch_convert` starts for the directory, "/" and the name. |
| Comic2Pdf.LaunchEach | comic2pdf.py:102-103 | The loop itself: one launch per name, in the order given, for the directory, "/" and the name. |
| Comic2Pdf.OpenDirOrder | comic2pdf.py:102 | The names visited are the listed names, each once, in increasing order. |
| Comic2Pdf.IsJpegName | comic2pdf.py:64 | A name is taken exactly when it ends with ".jpg", ".JPG", ".jpeg" or ".JPEG", compared exactly. |
| Comic2Pdf.JpegNameExamples | comic2pdf.py:64 | Only the four exact spellings count: "p1.jpg", "P2.JPEG" and ".jpg" are taken; "p3.Jpg", "p4.png" and "p5.jpg.txt" are not. |
| Comic2Pdf.BelowShrinks | comic2pdf.py:52 | Descending into an entry strictly shrinks what lies below, so the recursion ends. |
| Comic2Pdf.StopDir | comic2pdf.py:50-52 | The descent as a specification: a directory with exactly one entry is left for that entry; the descent stops at a directory with none or several, and fails (None) when it meets something that is not a directory. |
| Comic2Pdf.SingleEntryNotDirCrashes | comic2pdf.py:50-52 | The descent does not check that the single entry is a directory: when a directory's only entry is a file, the descent fails and `to_pdf` crashes. |
| Comic2Pdf.StopDirDescends | comic2pdf.py:50-52 | The descent stops at a directory that does not hold exactly one entry. Every directory passed on the way down holds exactly the entry descended into. |
| Comic2Pdf.PageList | comic2pdf.py:71-75 | One page per name, in order, each made from the named entry. |
| Comic2Pdf.PageListSnoc | comic2pdf.py:71-75 | One more image that opens appends its page to the page list. |
| Comic2Pdf.NotAllOpen | comic2pdf.py:64-65 | A JPEG-named entry that does not open makes the whole level fail. |
| Comic2Pdf.LevelResult | comic2pdf.py:54-81 | One level as a specification: it crashes when a JPEG-named entry does not open, none exists, or the save fails; otherwise the pages of its JPEG-named entries are saved. |
| Comic2Pdf.ToPdfResult | comic2pdf.py:49-81 | `to_pdf` as a specification: the level where the descent stops, or a crash when the descent meets a non-directory. |
| Comic2Pdf.ToPdfPages | comic2pdf.py:49-81 | A level with no JPEG-named entry crashes. A saved PDF has one page per JPEG-named entry of the stopping directory, in increasing name order, the first of them as page one. Those entries are exactly the directory's JPEG-named entries. |
| Comic2Pdf.Remove | comic2pdf.py:88 | After `os.remove` the path is gone and every other entry is unchanged. |
| Comic2Pdf.LegacyConverter.CleanTmpDir | comic2pdf.py:84-91 | Only files directly inside the directory, and the directory itself, are removed, and nothing else changes. A directory holding only files is removed with all of them. |
| Comic2Pdf.LegacyConverter.ToPdf | comic2pdf.py:49-81 | The outcome is the specification's. A crash changes nothing. A save writes the pages under the output name and cleans the directory where the descent stopped. |
| Comic2Pdf.LegacyConverter.SaveLevel | comic2pdf.py:54-81 | A level crashes when a JPEG-named entry does not open, none exists, or the save fails; otherwise its pages are saved and the directory cleaned. |
| Comic2Pdf.LegacyConverter.AssemblePages | comic2pdf.py:59-77 | Reading succeeds exactly when every JPEG-named entry opens. The first such image is the base page and the others follow in the order given. |

## Left out

- The GUI front end (comics2pdf_gui.py) and the argument handling of `main` and `start` are not
  part of this model. Neither are the progress and status messages written to the terminal.
- PIL is abstract. An image either opens in a colour mode or raises OSError. Pixel data, the PDF
  encoding and the 100 dpi resolution setting are not modelled, and neither are errors PIL raises
  outside the caught set, such as a ValueError from `convert`.
- Comics2Pdf.Converter.ConvertImagesToPdf: a failed save is modelled as leaving the file system
  unchanged. A partly written PDF that PIL may leave behind is not modelled.
- Comics2Pdf.ExtractArchive: an archive is either extracted completely or not at all. Members
  written before an error are not modelled, and neither are zip-slip paths or what `mkdir` of the
  fresh temporary directory could raise.
- Comics2Pdf.ExtractArchive: `extractall` of zipfile raises RuntimeError for an encrypted member
  and NotImplementedError for an unsupported compression method. Neither is in the caught set
  `(BadZipFile, rarfile.Error, OSError)` of line 68, so the exception leaves
  `convert_comic_to_pdf` after the temporary directory is removed. The model has no outcome for
  an uncaught exception: its readers either extract the archive or fail with a caught error.
- Comics2Pdf.Converter.ProcessDirectory: such an uncaught exception, from zipfile or from PIL,
  ends the loop of lines 154-155, and the remaining files are never attempted. The model states
  that every comic file is attempted, which holds only when no conversion raises.
- The temporary directory is a `workspace` field holding the extracted tree, keyed relative to the
  directory. Where `mkdtemp` puts it, its uniqueness and an error from `mkdtemp` itself are not
  modelled. `Paths.PathLessUnderPrefix` shows that the relative keys sort as the full paths do.
- Comics2Pdf.CollectImageFiles: symbolic links and special files are not modelled; an entry is a
  directory or a regular file.
- The steps of a conversion form a ghost record (`log`). They stand for the observable order of
  temporary-directory creation and removal and of the PDF step, not for printed text.
- `handle_zip` and `handle_rar` are left out: they extract with zipfile or patool into the fixed
  directory "/tmp/c2p/" and call `to_pdf` and `clean_tmp_dir` there. Comic2Pdf.OpenDir therefore
  returns the jobs `launch_convert` would start, not their effects. It also does not model an
  exception from one job ending the loop.
- Comic2Pdf.LegacyConverter.ToPdf: the in-place re-save of each JPEG at 96 dpi (line 67) is left
  out, because its errors are swallowed and it does not change which pages are made. Paths
  are kept as components, so `newdir + name + "/"` becomes `dir + [name]`. The output stays a
  string name.
- Comic2Pdf.OutputName requires a non-empty name. It is only applied to dispatched names, which
  end in four characters, and Python's `"".replace("", ".pdf")` is not modelled.
- `str.lower` is modelled for ASCII letters only (see the note above). The suffix rule is that of
  Python 3.13 and earlier: a name ending in a dot has no suffix. Characters are compared as Dafny
  `char` values, which agrees with Python's code-point order within the Basic Multilingual Plane.
