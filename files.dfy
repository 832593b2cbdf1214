/**
 * The file system the converters see, with file contents kept abstract: what an image decoder,
 * a ZIP reader or a RAR reader would make of each file, and the PDFs the converters write.
 */
module Files {
  import opened Paths

  datatype Option<T> = None | Some(value: T)

  /** One page of a written PDF: the image it was made from and the colour mode it was stored in. */
  datatype Page = Page(source: Path, mode: string)

  /** What a file holds, as far as the converters can tell. */
  datatype Content =
    | Picture(mode: string)                                  // an image PIL opens, in colour mode `mode` ("RGB", "RGBA", "P", "L", ...)
    | Opaque                                                 // bytes PIL cannot identify as an image
    | Archive(asZip: Option<FileTree>, asRar: Option<FileTree>) // what zipfile and rarfile extract from it (None: they raise)
    | Pdf(pages: seq<Page>)                                  // a PDF written by a converter

  datatype Node = Dir | File(content: Content)

  /** A file system, or a directory's contents, keyed by path. */
  type FileTree = map<Path, Node>

  predicate IsDir(fs: FileTree, p: Path)
  {
    p in fs && fs[p].Dir?
  }

  predicate IsFile(fs: FileTree, p: Path)
  {
    p in fs && fs[p].File?
  }

  /** The entries directly inside `d`, as full paths (`Path.iterdir`). */
  function ChildPaths(fs: FileTree, d: Path): set<Path>
  {
    set k | k in fs && |k| == |d| + 1 && k[..|d|] == d
  }

  /** The names of the entries directly inside `d` (`os.listdir`). */
  function Children(fs: FileTree, d: Path): set<string>
  {
    set k | k in fs && |k| == |d| + 1 && k[..|d|] == d :: k[|d|]
  }

  /** A listed name leads to an entry of the file system. */
  lemma ChildEntry(fs: FileTree, d: Path, n: string)
    requires n in Children(fs, d)
    ensures d + [n] in ChildPaths(fs, d)
  {
    var k :| k in fs && |k| == |d| + 1 && k[..|d|] == d && k[|d|] == n;
    assert k == d + [n];
  }

  /** `Image.open(p)`: the colour mode of the image at `p`, or None where PIL raises an OSError. */
  function Open(fs: FileTree, p: Path): Option<string>
  {
    if p in fs && fs[p].File? && fs[p].content.Picture? then Some(fs[p].content.mode) else None
  }
}
