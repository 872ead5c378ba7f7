/**
 * The in-memory snapshot of a filesystem that the tree printer walks.
 *
 * Every filesystem query the printer makes becomes a field of an `Entry`:
 * the link-aware metadata (`symlink_metadata`), the link-following metadata
 * (`metadata`, on which `Path::is_dir` is built) and the result of listing
 * the directory (`read_dir`), whose items may themselves be unreadable.
 */
module FsModel {

  datatype Option<+T> = None | Some(value: T)

  /** The part of a file's metadata the printer looks at; `mode` is the
      Unix `st_mode` word as returned by `permissions().mode()`. */
  datatype Meta = Meta(isSymlink: bool, isDir: bool, mode: bv32)

  /**
   * One filesystem object. `name` is its final path component after lossy
   * conversion to text and `utf8` says whether the raw name was valid UTF-8
   * (`OsStr::to_str` succeeds). A path without a final component (such as
   * `/` or `..`) has the empty name. `linkMeta` and `meta` are `None` when
   * the corresponding metadata query fails.
   */
  datatype Entry = Entry(
    name: string,
    utf8: bool,
    linkMeta: Option<Meta>,
    meta: Option<Meta>,
    contents: Contents)

  /** What `read_dir` yields for this path: the items of a successful
      listing, or a failure. Only consulted when the entry is a directory. */
  datatype Contents = Listing(items: seq<DirItem>) | ReadError

  /** One item of the `read_dir` iterator: an entry, or an I/O error. */
  datatype DirItem = Item(entry: Entry) | ItemError

  /** `Path::is_dir`: follows symbolic links, and a metadata failure reads
      as "not a directory". */
  predicate IsDir(e: Entry)
  {
    e.meta.Some? && e.meta.value.isDir
  }

  /** The link-aware metadata says the entry is a symbolic link; a failed
      query reads as "not a link". */
  predicate IsLink(e: Entry)
  {
    e.linkMeta.Some? && e.linkMeta.value.isSymlink
  }
}
