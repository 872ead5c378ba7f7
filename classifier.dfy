/**
 * The colour classifier: an ordered decision table over an entry's metadata.
 * The colour itself (an ANSI escape sequence) is not modelled; the class
 * stands for it: Symlink is cyan, Directory blue and bold, WorldWritable
 * yellow, Executable green, Plain uncoloured.
 */
module Classifier {
  import opened FsModel

  datatype ColorClass = Symlink | Directory | WorldWritable | Executable | Plain

  /** The "other" write permission bit, octal 002. */
  const OtherWrite: bv32 := 0x2
  /** The user, group and other execute bits, octal 111. */
  const AnyExecute: bv32 := 0x49

  /**
   * The class of an entry. The first rule that applies wins: a symbolic link
   * (link-aware query), then a failed link-following metadata query, then a
   * directory, then the other-write bit, then any execute bit.
   */
  function Colorize(e: Entry): ColorClass
  {
    if IsLink(e) then Symlink
    else match e.meta
      case None => Plain
      case Some(m) =>
        if m.isDir then Directory
        else if m.mode & OtherWrite != 0 then WorldWritable
        else if m.mode & AnyExecute != 0 then Executable
        else Plain
  }

  /** The decision table read class by class: each class holds exactly when
      its own rule applies and no earlier rule does. */
  lemma ColorizeDecisionTable(e: Entry, c: ColorClass)
    requires c == Colorize(e)
    ensures c == Symlink <==> IsLink(e)
    ensures c == Directory <==> !IsLink(e) && IsDir(e)
    ensures c == WorldWritable <==>
      !IsLink(e) && e.meta.Some? && !e.meta.value.isDir && e.meta.value.mode & OtherWrite != 0
    ensures c == Executable <==>
      !IsLink(e) && e.meta.Some? && !e.meta.value.isDir
      && e.meta.value.mode & OtherWrite == 0 && e.meta.value.mode & AnyExecute != 0
    ensures c == Plain <==>
      !IsLink(e) && (e.meta.None? || (!e.meta.value.isDir && e.meta.value.mode & (OtherWrite | AnyExecute) == 0))
  {
  }

  /** A symbolic link is a Symlink whatever its target is. */
  lemma SymlinkDominates(e: Entry, meta: Option<Meta>)
    requires IsLink(e)
    ensures Colorize(e.(meta := meta)) == Symlink
  {
  }

  /** A directory's class does not depend on its permission bits. */
  lemma DirectoryIgnoresMode(e: Entry, mode: bv32)
    requires IsDir(e)
    ensures Colorize(e.(meta := Some(e.meta.value.(mode := mode)))) == Colorize(e)
    ensures !IsLink(e) ==> Colorize(e) == Directory
  {
  }

  /** A world-writable file stays WorldWritable when execute bits are added. */
  lemma WorldWritableBeatsExecutable(e: Entry)
    requires !IsLink(e) && e.meta.Some? && !e.meta.value.isDir
    requires e.meta.value.mode & OtherWrite != 0
    ensures Colorize(e.(meta := Some(e.meta.value.(mode := e.meta.value.mode | AnyExecute)))) == WorldWritable
  {
  }

  /** Each of the three execute bits alone makes a plain file Executable. */
  lemma AnyExecuteBitSuffices(e: Entry, bit: bv32)
    requires !IsLink(e) && e.meta.Some? && !e.meta.value.isDir
    requires e.meta.value.mode & (OtherWrite | AnyExecute) == 0
    requires bit == 0x40 || bit == 0x8 || bit == 0x1
    ensures Colorize(e.(meta := Some(e.meta.value.(mode := e.meta.value.mode | bit)))) == Executable
  {
  }

  /** Only the bits of octal 113 matter: setuid, setgid, sticky, read and the
      other write bits of owner and group never change the class. */
  lemma OnlyWriteAndExecuteBitsMatter(e: Entry)
    requires e.meta.Some?
    ensures Colorize(e.(meta := Some(e.meta.value.(mode := e.meta.value.mode & (OtherWrite | AnyExecute))))) == Colorize(e)
  {
  }
}
