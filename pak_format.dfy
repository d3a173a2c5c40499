/** The record layouts of pak.h: a PAK archive header, the directory
    headers it announces, and the file headers each directory announces.
    Field widths are those of the C++ members; names are byte strings kept
    without their terminating NUL.
 */
module PakFormat {
  import opened Common

  /** One packed file (`struct File`). */
  datatype File = File(
    nameLength: uint32,          // length of the name including its NUL
    size: uint64,                // size of the file's content
    pakOffset: uint64,           // offset of the content from the start of the archive
    crc32: uint32,               // checksum of the content
    zero: uint32,                // reserved, always 0
    name: seq<byte>,             // e.g. "campfire_01.fxt"
    data: Option<seq<byte>>)     // content once loaded; None is the source's nullptr

  /** One directory (`struct Dir`). */
  datatype Dir = Dir(
    dirIndex: uint32,            // 1-based index
    nameLength: uint32,          // length of the name including its NUL
    numOfFiles: uint32,          // number of file headers that follow
    zero: uint32,                // reserved, always 0
    name: seq<byte>,             // encoded path, e.g. "\bin_win32\\effects\"
    files: seq<File>)

  /** The whole archive header (`struct Pak`). */
  datatype Pak = Pak(
    tag: uint64,                 // format tag, usually TAG_MAGIC
    baseOffset: uint64,          // where file content starts
    numDirs: uint32,             // number of directory headers that follow
    zero: uint32,                // reserved, always 0
    directories: seq<Dir>)

  /** "PKBE" followed by version 1. */
  const TAG_MAGIC: uint64 := 0x504B_4245_0000_0001

  /** A `File` as declared: `zero` and `data` have initialisers, the other
      members are overwritten by `load` before they are read. */
  const DefaultFile: File := File(0, 0, 0, 0, 0, [], None)

  /** A `Dir` as declared: `zero` is 0 and `files` starts empty. */
  const DefaultDir: Dir := Dir(0, 0, 0, 0, [], [])

  /** A `Pak` before `load`: `directories` starts empty. */
  const EmptyPak: Pak := Pak(0, 0, 0, 0, [])

  /** A file header as the parser accepts it: reserved field zero, the
      declared name length matching the name, no NUL inside the name, and
      no content attached. */
  predicate WellFormedFile(f: File)
  {
    f.zero == 0 && f.nameLength == |f.name| + 1 && 0 !in f.name && f.data.None?
  }

  /** The fixed fields and the name of a directory header as the parser
      accepts them. */
  predicate WellFormedDirHeader(d: Dir)
  {
    d.zero == 0 && d.nameLength == |d.name| + 1 && 0 !in d.name
  }

  /** A directory header as the parser accepts it, with exactly the
      announced number of well-formed files. */
  predicate WellFormedDir(d: Dir)
  {
    WellFormedDirHeader(d) && d.numOfFiles == |d.files| &&
    forall i :: 0 <= i < |d.files| ==> WellFormedFile(d.files[i])
  }

  /** An archive header as the parser accepts it, with exactly the announced
      number of well-formed directories.  The tag and the base offset are
      not checked by the source. */
  predicate WellFormedPak(p: Pak)
  {
    p.zero == 0 && p.numDirs == |p.directories| &&
    forall i :: 0 <= i < |p.directories| ==> WellFormedDir(p.directories[i])
  }

  /** The tag as it appears on the wire: bytes 50 4B 42 45 00 00 00 01. */
  lemma TagMagicOnWire()
    ensures ReadU64([0x50, 0x4B, 0x42, 0x45, 0x00, 0x00, 0x00, 0x01], 0) == Ok((TAG_MAGIC, 8))
  {
  }
}
