/** The header parser of pak.cpp.

    `File::load`, `Dir::load` and `Pak::load` read the fields of their record
    one after another through a shared cursor; a directory then loads its
    announced number of files, an archive its announced number of
    directories, each starting where the previous one ended.  The source
    checks the reserved fields and the name lengths with `assert`; here a
    failed check is an error result.

    Each `load` is modelled twice: `Parse*` states what it computes as a
    function of the buffer and the cursor, and `Load*` is the step-by-step
    procedure, proved to compute exactly that.
 */
module PakLoad {
  import opened Common
  import opened PakFormat

  function ParseFile(buf: seq<byte>, pos: nat): Result<(File, nat)>
  {
    if |buf| < pos + 28 then Err(Truncated)
    else if ReadU32(buf, pos + 24).value.0 != 0 then Err(ReservedNotZero)
    else match ReadString(buf, pos + 28)
      case Err(e) => Err(e)
      case Ok((name, next)) =>
        if |name| + 1 != ReadU32(buf, pos).value.0 then Err(NameLengthMismatch)
        else Ok((File(ReadU32(buf, pos).value.0, ReadU64(buf, pos + 4).value.0,
                      ReadU64(buf, pos + 12).value.0, ReadU32(buf, pos + 20).value.0,
                      0, name, None), next))
  }

  /** The fixed fields and the name of a directory header; `files` is left
      empty. */
  function ParseDirHeader(buf: seq<byte>, pos: nat): Result<(Dir, nat)>
  {
    if |buf| < pos + 16 then Err(Truncated)
    else if ReadU32(buf, pos + 12).value.0 != 0 then Err(ReservedNotZero)
    else match ReadString(buf, pos + 16)
      case Err(e) => Err(e)
      case Ok((name, next)) =>
        if |name| + 1 != ReadU32(buf, pos + 4).value.0 then Err(NameLengthMismatch)
        else Ok((Dir(ReadU32(buf, pos).value.0, ReadU32(buf, pos + 4).value.0,
                     ReadU32(buf, pos + 8).value.0, 0, name, []), next))
  }

  /** A directory header followed by its announced number of file headers. */
  function ParseDir(buf: seq<byte>, pos: nat): Result<(Dir, nat)>
  {
    match ParseDirHeader(buf, pos)
    case Err(e) => Err(e)
    case Ok((header, next)) =>
      match Repeat(ParseFile, buf, next, header.numOfFiles)
      case Err(e) => Err(e)
      case Ok((files, end)) => Ok((header.(files := files), end))
  }

  /** `n` records in a row, each read by `item` starting where the
      previous one ended: the loops of `Dir::load` and `Pak::load`. */
  function Repeat<T>(item: (seq<byte>, nat) -> Result<(T, nat)>, buf: seq<byte>, pos: nat, n: nat)
    : Result<(seq<T>, nat)>
    decreases n
  {
    if n == 0 then Ok(([], pos)) else
    match item(buf, pos)
    case Err(e) => Err(e)
    case Ok((x, next)) =>
      match Repeat(item, buf, next, n - 1)
      case Err(e) => Err(e)
      case Ok((rest, end)) => Ok(([x] + rest, end))
  }

  /** The archive header parsed from the start of `buf`, with the position
      where the parse stopped. */
  function ParsePak(buf: seq<byte>): Result<(Pak, nat)>
  {
    match ParsePakHeader(buf)
    case Err(e) => Err(e)
    case Ok((header, next)) =>
      match Repeat(ParseDir, buf, next, header.numDirs)
      case Err(e) => Err(e)
      case Ok((dirs, end)) => Ok((header.(directories := dirs), end))
  }

  /** The 24 fixed bytes of the archive header; `directories` is left empty. */
  function ParsePakHeader(buf: seq<byte>): Result<(Pak, nat)>
  {
    if |buf| < 24 then Err(Truncated)
    else if ReadU32(buf, 20).value.0 != 0 then Err(ReservedNotZero)
    else Ok((Pak(ReadU64(buf, 0).value.0, ReadU64(buf, 8).value.0, ReadU32(buf, 16).value.0, 0, []), 24))
  }

  /** `xs` put in front of the items of a successful parse. */
  function Prepend<T>(xs: seq<T>, r: Result<(seq<T>, nat)>): Result<(seq<T>, nat)>
  {
    match r
    case Ok(v) => Ok((xs + v.0, v.1))
    case Err(e) => Err(e)
  }

  lemma PrependNothing<T>(r: Result<(seq<T>, nat)>)
    ensures Prepend([], r) == r
  {
    if r.Ok? {
      assert [] + r.value.0 == r.value.0;
    }
  }

  /** One more record loaded: the rest of the run starts after it. */
  lemma RepeatStep<T>(item: (seq<byte>, nat) -> Result<(T, nat)>, buf: seq<byte>, pos: nat, n: nat,
                      loaded: seq<T>)
    requires n > 0
    ensures item(buf, pos).Err? ==>
              Prepend(loaded, Repeat(item, buf, pos, n)) == Err(item(buf, pos).error)
    ensures item(buf, pos).Ok? ==>
              var (x, next) := item(buf, pos).value;
              Prepend(loaded, Repeat(item, buf, pos, n))
              == Prepend(loaded + [x], Repeat(item, buf, next, n - 1))
  {
    if item(buf, pos).Ok? {
      var (x, next) := item(buf, pos).value;
      var rest := Repeat(item, buf, next, n - 1);
      if rest.Ok? {
        assert loaded + ([x] + rest.value.0) == (loaded + [x]) + rest.value.0;
      }
    }
  }

  /** `File::load` on a default-constructed `File`. */
  method LoadFile(host: Endian, buf: seq<byte>, pos: nat) returns (r: Result<(File, nat)>)
    ensures r == ParseFile(buf, pos)
  {
    var file := DefaultFile;
    var data := pos;
    var nameLength :- GetUint32(host, buf, data);
    file, data := file.(nameLength := nameLength.0), nameLength.1;
    var size :- GetUint64(host, buf, data);
    file, data := file.(size := size.0), size.1;
    var pakOffset :- GetUint64(host, buf, data);
    file, data := file.(pakOffset := pakOffset.0), pakOffset.1;
    var crc32 :- GetUint32(host, buf, data);
    file, data := file.(crc32 := crc32.0), crc32.1;
    var zero :- GetUint32(host, buf, data);
    file, data := file.(zero := zero.0), zero.1;
    if file.zero != 0 {
      return Err(ReservedNotZero);
    }
    var name :- GetString(buf, data);
    file, data := file.(name := name.0), name.1;
    if |file.name| + 1 != file.nameLength {
      return Err(NameLengthMismatch);
    }
    return Ok((file, data));
  }

  /** `Dir::load` on a default-constructed `Dir`. */
  method LoadDir(host: Endian, buf: seq<byte>, pos: nat) returns (r: Result<(Dir, nat)>)
    ensures r == ParseDir(buf, pos)
  {
    var dir := DefaultDir;
    var data := pos;
    var dirIndex :- GetUint32(host, buf, data);
    dir, data := dir.(dirIndex := dirIndex.0), dirIndex.1;
    var nameLength :- GetUint32(host, buf, data);
    dir, data := dir.(nameLength := nameLength.0), nameLength.1;
    var numOfFiles :- GetUint32(host, buf, data);
    dir, data := dir.(numOfFiles := numOfFiles.0), numOfFiles.1;
    var zero :- GetUint32(host, buf, data);
    dir, data := dir.(zero := zero.0), zero.1;
    if dir.zero != 0 {
      return Err(ReservedNotZero);
    }
    var name :- GetString(buf, data);
    dir, data := dir.(name := name.0), name.1;
    if |dir.name| + 1 != dir.nameLength {
      return Err(NameLengthMismatch);
    }
    ghost var filesStart, header := data, dir;
    assert ParseDirHeader(buf, pos) == Ok((header, filesStart));
    PrependNothing(Repeat(ParseFile, buf, filesStart, dir.numOfFiles));
    var fileIdx := 0;
    while fileIdx < dir.numOfFiles
      invariant fileIdx <= dir.numOfFiles
      invariant dir == header.(files := dir.files)
      invariant Repeat(ParseFile, buf, filesStart, dir.numOfFiles)
                == Prepend(dir.files, Repeat(ParseFile, buf, data, dir.numOfFiles - fileIdx))
    {
      RepeatStep(ParseFile, buf, data, dir.numOfFiles - fileIdx, dir.files);
      var file :- LoadFile(host, buf, data);
      dir, data := dir.(files := dir.files + [file.0]), file.1;
      fileIdx := fileIdx + 1;
    }
    assert dir.files + [] == dir.files;
    return Ok((dir, data));
  }

  /** `Pak::load` on a `Pak` whose `directories` is still empty. */
  method LoadPak(host: Endian, buf: seq<byte>) returns (r: Result<(Pak, nat)>)
    ensures r == ParsePak(buf)
  {
    var pak := EmptyPak;
    var data := 0;
    var tag :- GetUint64(host, buf, data);
    pak, data := pak.(tag := tag.0), tag.1;
    var baseOffset :- GetUint64(host, buf, data);
    pak, data := pak.(baseOffset := baseOffset.0), baseOffset.1;
    var numDirs :- GetUint32(host, buf, data);
    pak, data := pak.(numDirs := numDirs.0), numDirs.1;
    var zero :- GetUint32(host, buf, data);
    pak, data := pak.(zero := zero.0), zero.1;
    if pak.zero != 0 {
      return Err(ReservedNotZero);
    }
    ghost var dirsStart, header := data, pak;
    PrependNothing(Repeat(ParseDir, buf, dirsStart, pak.numDirs));
    var dirIdx := 0;
    while dirIdx < pak.numDirs
      invariant dirIdx <= pak.numDirs
      invariant pak == header.(directories := pak.directories)
      invariant Repeat(ParseDir, buf, dirsStart, pak.numDirs)
                == Prepend(pak.directories, Repeat(ParseDir, buf, data, pak.numDirs - dirIdx))
    {
      RepeatStep(ParseDir, buf, data, pak.numDirs - dirIdx, pak.directories);
      var dir :- LoadDir(host, buf, data);
      pak, data := pak.(directories := pak.directories + [dir.0]), dir.1;
      dirIdx := dirIdx + 1;
    }
    assert pak.directories + [] == pak.directories;
    return Ok((pak, data));
  }
}
