/** What the header parser of pak.cpp guarantees.

    In both directions the parser and the header encoder of PakHeaders are
    inverse: a successful parse returns well-formed records whose encoding
    is exactly the bytes consumed, and well-formed records encoded into a
    buffer parse back to themselves.  From this follows the byte count a
    successful parse consumes, which is what an archive stores as its base
    offset.
 */
module PakProperties {
  import opened Common
  import opened PakFormat
  import opened PakHeaders
  import opened PakLoad

  // ---------------------------------------------------------------------
  // Single fields

  lemma ReadU32Embedded(buf: seq<byte>, pos: nat)
    requires ReadU32(buf, pos).Ok?
    ensures Embedded(buf, pos, U32(ReadU32(buf, pos).value.0))
  {
    ReadU32IsBigEndian(buf, pos);
    BeBytesOfBeValue(buf[pos..pos + 4]);
  }

  lemma ReadU64Embedded(buf: seq<byte>, pos: nat)
    requires ReadU64(buf, pos).Ok?
    ensures Embedded(buf, pos, U64(ReadU64(buf, pos).value.0))
  {
    ReadU64IsBigEndian(buf, pos);
    BeBytesOfBeValue(buf[pos..pos + 8]);
  }

  lemma ReadStringEmbedded(buf: seq<byte>, pos: nat)
    requires ReadString(buf, pos).Ok?
    ensures Embedded(buf, pos, Terminated(ReadString(buf, pos).value.0))
  {
    var (name, next) := ReadString(buf, pos).value;
    assert buf[pos..next] == buf[pos..next - 1] + [buf[next - 1]];
  }

  lemma EmbeddedU32Reads(buf: seq<byte>, pos: nat, v: uint32)
    requires Embedded(buf, pos, U32(v))
    ensures ReadU32(buf, pos) == Ok((v, pos + 4))
  {
    Pow256Widths();
    BeValueOfBeBytes(v, 4);
    ReadU32IsBigEndian(buf, pos);
  }

  lemma EmbeddedU64Reads(buf: seq<byte>, pos: nat, v: uint64)
    requires Embedded(buf, pos, U64(v))
    ensures ReadU64(buf, pos) == Ok((v, pos + 8))
  {
    Pow256Widths();
    BeValueOfBeBytes(v, 8);
    ReadU64IsBigEndian(buf, pos);
  }

  lemma EmbeddedNameReads(buf: seq<byte>, pos: nat, name: seq<byte>)
    requires 0 !in name && Embedded(buf, pos, Terminated(name))
    ensures ReadString(buf, pos) == Ok((name, pos + |name| + 1))
  {
    var end := pos + |name|;
    assert buf[end] == Terminated(name)[|name|] == 0;
    assert buf[pos..end] == buf[pos..end + 1][..|name|] == name;
    forall k | pos <= k < end
      ensures buf[k] != 0
    {
      assert buf[k] == name[k - pos];
    }
  }

  // ---------------------------------------------------------------------
  // File headers

  /** A parsed file header is well formed, and the bytes it was read from
      are its encoding. */
  lemma ParsedFileIsEncoded(buf: seq<byte>, pos: nat, f: File, next: nat)
    requires ParseFile(buf, pos) == Ok((f, next))
    ensures WellFormedFile(f) && next == pos + |EncodeFile(f)| && Embedded(buf, pos, EncodeFile(f))
  {
    ReadU32Embedded(buf, pos);
    ReadU64Embedded(buf, pos + 4);
    ReadU64Embedded(buf, pos + 12);
    ReadU32Embedded(buf, pos + 20);
    ReadU32Embedded(buf, pos + 24);
    ReadStringEmbedded(buf, pos + 28);
    EmbeddedConcat(buf, pos + 24, U32(f.zero), Terminated(f.name));
    EmbeddedConcat(buf, pos + 20, U32(f.crc32), U32(f.zero) + Terminated(f.name));
    EmbeddedConcat(buf, pos + 12, U64(f.pakOffset), U32(f.crc32) + (U32(f.zero) + Terminated(f.name)));
    EmbeddedConcat(buf, pos + 4, U64(f.size),
      U64(f.pakOffset) + (U32(f.crc32) + (U32(f.zero) + Terminated(f.name))));
    EmbeddedConcat(buf, pos, U32(f.nameLength),
      U64(f.size) + (U64(f.pakOffset) + (U32(f.crc32) + (U32(f.zero) + Terminated(f.name)))));
  }

  /** A well-formed file header, encoded at `pos`, parses back to itself. */
  lemma EncodedFileParses(buf: seq<byte>, pos: nat, f: File, next: nat)
    requires WellFormedFile(f) && Embedded(buf, pos, EncodeFile(f)) && next == pos + |EncodeFile(f)|
    ensures ParseFile(buf, pos) == Ok((f, next))
  {
    EmbeddedConcat(buf, pos, U32(f.nameLength),
      U64(f.size) + (U64(f.pakOffset) + (U32(f.crc32) + (U32(f.zero) + Terminated(f.name)))));
    EmbeddedConcat(buf, pos + 4, U64(f.size),
      U64(f.pakOffset) + (U32(f.crc32) + (U32(f.zero) + Terminated(f.name))));
    EmbeddedConcat(buf, pos + 12, U64(f.pakOffset), U32(f.crc32) + (U32(f.zero) + Terminated(f.name)));
    EmbeddedConcat(buf, pos + 20, U32(f.crc32), U32(f.zero) + Terminated(f.name));
    EmbeddedConcat(buf, pos + 24, U32(f.zero), Terminated(f.name));
    EmbeddedU32Reads(buf, pos, f.nameLength);
    EmbeddedU64Reads(buf, pos + 4, f.size);
    EmbeddedU64Reads(buf, pos + 12, f.pakOffset);
    EmbeddedU32Reads(buf, pos + 20, f.crc32);
    EmbeddedU32Reads(buf, pos + 24, f.zero);
    EmbeddedNameReads(buf, pos + 28, f.name);
  }

  /** Every file header parsed from `buf` is well formed and encoded where
      it was read. */
  lemma FilesAreEncoded(buf: seq<byte>)
    ensures ItemsAreEncoded(ParseFile, EncodeFile, WellFormedFile, buf)
  {
    EachParsedFileIsEncoded(buf);
  }

  lemma EachParsedFileIsEncoded(buf: seq<byte>)
    ensures forall q: nat :: ParseFile(buf, q).Ok? ==>
              var (f, next) := ParseFile(buf, q).value;
              WellFormedFile(f) && next == q + |EncodeFile(f)| && Embedded(buf, q, EncodeFile(f))
  {
    forall q: nat | ParseFile(buf, q).Ok?
      ensures var (f, next) := ParseFile(buf, q).value;
              WellFormedFile(f) && next == q + |EncodeFile(f)| && Embedded(buf, q, EncodeFile(f))
    {
      var (f, next) := ParseFile(buf, q).value;
      ParsedFileIsEncoded(buf, q, f, next);
    }
  }

  // ---------------------------------------------------------------------
  // Runs of records

  /** Each record `item` reads from `buf` satisfies `wf`, and the bytes it
      was read from are its encoding under `enc`. */
  ghost predicate ItemsAreEncoded<T>(item: (seq<byte>, nat) -> Result<(T, nat)>, enc: T -> seq<byte>,
                                     wf: T -> bool, buf: seq<byte>)
  {
    forall q: nat :: item(buf, q).Ok? ==>
      var (x, next) := item(buf, q).value;
      wf(x) && next == q + |enc(x)| && Embedded(buf, q, enc(x))
  }

  /** Two pieces found one after the other form their concatenation. */
  lemma EmbeddedStep(buf: seq<byte>, pos: nat, a: seq<byte>, b: seq<byte>, mid: nat, next: nat)
    requires mid == pos + |a| && Embedded(buf, pos, a)
    requires next == mid + |b| && Embedded(buf, mid, b)
    ensures next == pos + |a + b| && Embedded(buf, pos, a + b)
  {
    EmbeddedConcat(buf, pos, a, b);
  }

  lemma EncodeAllCons<T>(enc: T -> seq<byte>, x: T, xs: seq<T>)
    ensures EncodeAll(enc, [x] + xs) == enc(x) + EncodeAll(enc, xs)
  {
    assert ([x] + xs)[1..] == xs;
  }

  /** A run is its first record followed by the rest of the run. */
  lemma RepeatOf<T>(item: (seq<byte>, nat) -> Result<(T, nat)>, buf: seq<byte>, pos: nat, n: nat,
                    xs: seq<T>, mid: nat, end: nat)
    requires n > 0 && xs != [] && item(buf, pos) == Ok((xs[0], mid))
    requires Repeat(item, buf, mid, n - 1) == Ok((xs[1..], end))
    ensures Repeat(item, buf, pos, n) == Ok((xs, end))
  {
    assert [xs[0]] + xs[1..] == xs;
  }

  /** The encoding of a non-empty run sits in `buf` exactly when that of
      its first record does and the encoding of the rest follows it. */
  lemma EmbeddedFirst<T>(buf: seq<byte>, pos: nat, enc: T -> seq<byte>, xs: seq<T>, end: nat)
    returns (mid: nat)
    requires xs != [] && Embedded(buf, pos, EncodeAll(enc, xs)) && end == pos + |EncodeAll(enc, xs)|
    ensures mid == pos + |enc(xs[0])| && Embedded(buf, pos, enc(xs[0]))
    ensures Embedded(buf, mid, EncodeAll(enc, xs[1..])) && end == mid + |EncodeAll(enc, xs[1..])|
  {
    EmbeddedConcat(buf, pos, enc(xs[0]), EncodeAll(enc, xs[1..]));
    mid := pos + |enc(xs[0])|;
  }

  /** A successful run of `n` records has `n` well-formed records, lying in
      the buffer in order. */
  lemma {:induction false} RepeatIsEncoded<T>(item: (seq<byte>, nat) -> Result<(T, nat)>,
                                              enc: T -> seq<byte>, wf: T -> bool,
                                              buf: seq<byte>, pos: nat, n: nat, xs: seq<T>, next: nat)
    requires ItemsAreEncoded(item, enc, wf, buf)
    requires pos <= |buf| && Repeat(item, buf, pos, n) == Ok((xs, next))
    ensures |xs| == n && (forall i :: 0 <= i < |xs| ==> wf(xs[i]))
    ensures next == pos + |EncodeAll(enc, xs)| && Embedded(buf, pos, EncodeAll(enc, xs))
    decreases n
  {
    if n > 0 {
      var (x, mid) := item(buf, pos).value;
      var (tail, end) := Repeat(item, buf, mid, n - 1).value;
      assert xs == [x] + tail && end == next;
      RepeatIsEncoded(item, enc, wf, buf, mid, n - 1, tail, next);
      EncodeAllCons(enc, x, tail);
      EmbeddedStep(buf, pos, enc(x), EncodeAll(enc, tail), mid, next);
      forall i | 0 <= i < |xs|
        ensures wf(xs[i])
      {
        if i > 0 {
          assert xs[i] == tail[i - 1];
        }
      }
    }
  }

  // ---------------------------------------------------------------------
  // Directory headers

  lemma ParsedDirHeaderIsEncoded(buf: seq<byte>, pos: nat, h: Dir, next: nat)
    requires ParseDirHeader(buf, pos) == Ok((h, next))
    ensures WellFormedDirHeader(h) && h.files == []
    ensures next == pos + |EncodeDirHeader(h)| && Embedded(buf, pos, EncodeDirHeader(h))
  {
    ReadU32Embedded(buf, pos);
    ReadU32Embedded(buf, pos + 4);
    ReadU32Embedded(buf, pos + 8);
    ReadU32Embedded(buf, pos + 12);
    ReadStringEmbedded(buf, pos + 16);
    EmbeddedConcat(buf, pos + 12, U32(h.zero), Terminated(h.name));
    EmbeddedConcat(buf, pos + 8, U32(h.numOfFiles), U32(h.zero) + Terminated(h.name));
    EmbeddedConcat(buf, pos + 4, U32(h.nameLength),
      U32(h.numOfFiles) + (U32(h.zero) + Terminated(h.name)));
    EmbeddedConcat(buf, pos, U32(h.dirIndex),
      U32(h.nameLength) + (U32(h.numOfFiles) + (U32(h.zero) + Terminated(h.name))));
  }

  lemma EncodedDirHeaderParses(buf: seq<byte>, pos: nat, d: Dir, next: nat)
    requires WellFormedDirHeader(d) && Embedded(buf, pos, EncodeDirHeader(d))
    requires next == pos + |EncodeDirHeader(d)|
    ensures ParseDirHeader(buf, pos) == Ok((d.(files := []), next))
  {
    EmbeddedConcat(buf, pos, U32(d.dirIndex),
      U32(d.nameLength) + (U32(d.numOfFiles) + (U32(d.zero) + Terminated(d.name))));
    EmbeddedConcat(buf, pos + 4, U32(d.nameLength),
      U32(d.numOfFiles) + (U32(d.zero) + Terminated(d.name)));
    EmbeddedConcat(buf, pos + 8, U32(d.numOfFiles), U32(d.zero) + Terminated(d.name));
    EmbeddedConcat(buf, pos + 12, U32(d.zero), Terminated(d.name));
    EmbeddedU32Reads(buf, pos, d.dirIndex);
    EmbeddedU32Reads(buf, pos + 4, d.nameLength);
    EmbeddedU32Reads(buf, pos + 8, d.numOfFiles);
    EmbeddedU32Reads(buf, pos + 12, d.zero);
    EmbeddedNameReads(buf, pos + 16, d.name);
  }

  /** A run of file headers read from `buf` is well formed and lies in the
      buffer in order. */
  lemma FileRunIsEncoded(buf: seq<byte>, pos: nat, n: nat, fs: seq<File>, next: nat)
    requires pos <= |buf| && Repeat(ParseFile, buf, pos, n) == Ok((fs, next))
    ensures |fs| == n && (forall i :: 0 <= i < |fs| ==> WellFormedFile(fs[i]))
    ensures next == pos + |EncodeAll(EncodeFile, fs)| && Embedded(buf, pos, EncodeAll(EncodeFile, fs))
  {
    FilesAreEncoded(buf);
    RepeatIsEncoded(ParseFile, EncodeFile, WellFormedFile, buf, pos, n, fs, next);
  }

  /** Well-formed file headers encoded one after the other parse back. */
  lemma {:induction false} FileRunParses(buf: seq<byte>, pos: nat, n: nat, fs: seq<File>, next: nat)
    requires n == |fs| && forall i :: 0 <= i < |fs| ==> WellFormedFile(fs[i])
    requires Embedded(buf, pos, EncodeAll(EncodeFile, fs)) && next == pos + |EncodeAll(EncodeFile, fs)|
    ensures Repeat(ParseFile, buf, pos, n) == Ok((fs, next))
    decreases n
  {
    if fs != [] {
      var mid := EmbeddedFirst(buf, pos, EncodeFile, fs, next);
      EncodedFileParses(buf, pos, fs[0], mid);
      assert forall i :: 0 <= i < |fs[1..]| ==> fs[1..][i] == fs[i + 1];
      FileRunParses(buf, mid, n - 1, fs[1..], next);
      RepeatOf(ParseFile, buf, pos, n, fs, mid, next);
    }
  }

  /** A directory is its header followed by its run of files. */
  lemma ParseDirOf(buf: seq<byte>, pos: nat, d: Dir, mid: nat, end: nat)
    requires ParseDirHeader(buf, pos) == Ok((d.(files := []), mid))
    requires Repeat(ParseFile, buf, mid, d.numOfFiles) == Ok((d.files, end))
    ensures ParseDir(buf, pos) == Ok((d, end))
  {
  }

  /** The encoding of a directory split into its header and its files. */
  lemma EncodedDirSplit(buf: seq<byte>, pos: nat, d: Dir, end: nat) returns (mid: nat)
    requires Embedded(buf, pos, EncodeDir(d)) && end == pos + |EncodeDir(d)|
    ensures mid == pos + |EncodeDirHeader(d)| && Embedded(buf, pos, EncodeDirHeader(d))
    ensures end == mid + |EncodeAll(EncodeFile, d.files)| && Embedded(buf, mid, EncodeAll(EncodeFile, d.files))
  {
    EmbeddedConcat(buf, pos, EncodeDirHeader(d), EncodeAll(EncodeFile, d.files));
    mid := pos + |EncodeDirHeader(d)|;
  }

  lemma ParseDirSplit(buf: seq<byte>, pos: nat, d: Dir, next: nat) returns (mid: nat)
    requires ParseDir(buf, pos) == Ok((d, next))
    ensures ParseDirHeader(buf, pos) == Ok((d.(files := []), mid))
    ensures Repeat(ParseFile, buf, mid, d.numOfFiles) == Ok((d.files, next))
  {
    mid := ParseDirHeader(buf, pos).value.1;
  }

  /** A parsed directory is well formed (its `files` has exactly
      `num_of_files` entries), and the bytes it was read from are its
      encoding. */
  lemma ParsedDirIsEncoded(buf: seq<byte>, pos: nat, d: Dir, next: nat)
    requires ParseDir(buf, pos) == Ok((d, next))
    ensures WellFormedDir(d) && next == pos + |EncodeDir(d)| && Embedded(buf, pos, EncodeDir(d))
  {
    var mid := ParseDirSplit(buf, pos, d, next);
    ParsedDirHeaderIsEncoded(buf, pos, d.(files := []), mid);
    FileRunIsEncoded(buf, mid, d.numOfFiles, d.files, next);
    assert EncodeDirHeader(d) == EncodeDirHeader(d.(files := []));
    EmbeddedStep(buf, pos, EncodeDirHeader(d), EncodeAll(EncodeFile, d.files), mid, next);
  }

  /** A well-formed directory, encoded at `pos`, parses back to itself. */
  lemma EncodedDirParses(buf: seq<byte>, pos: nat, d: Dir, next: nat)
    requires WellFormedDir(d) && Embedded(buf, pos, EncodeDir(d)) && next == pos + |EncodeDir(d)|
    ensures ParseDir(buf, pos) == Ok((d, next))
  {
    var mid := EncodedDirSplit(buf, pos, d, next);
    EncodedDirHeaderParses(buf, pos, d, mid);
    FileRunParses(buf, mid, d.numOfFiles, d.files, next);
    ParseDirOf(buf, pos, d, mid, next);
  }

  /** Every directory parsed from `buf` is well formed and encoded where it
      was read. */
  lemma DirsAreEncoded(buf: seq<byte>)
    ensures ItemsAreEncoded(ParseDir, EncodeDir, WellFormedDir, buf)
  {
    EachParsedDirIsEncoded(buf);
  }

  lemma EachParsedDirIsEncoded(buf: seq<byte>)
    ensures forall q: nat :: ParseDir(buf, q).Ok? ==>
              var (d, next) := ParseDir(buf, q).value;
              WellFormedDir(d) && next == q + |EncodeDir(d)| && Embedded(buf, q, EncodeDir(d))
  {
    forall q: nat | ParseDir(buf, q).Ok?
      ensures var (d, next) := ParseDir(buf, q).value;
              WellFormedDir(d) && next == q + |EncodeDir(d)| && Embedded(buf, q, EncodeDir(d))
    {
      var (d, next) := ParseDir(buf, q).value;
      ParsedDirIsEncoded(buf, q, d, next);
    }
  }

  // ---------------------------------------------------------------------
  // The archive header

  lemma ParsedPakHeaderIsEncoded(buf: seq<byte>, h: Pak, next: nat)
    requires ParsePakHeader(buf) == Ok((h, next))
    ensures h.zero == 0 && h.directories == []
    ensures next == 24 == |EncodePakHeader(h)| && Embedded(buf, 0, EncodePakHeader(h))
  {
    ReadU64Embedded(buf, 0);
    ReadU64Embedded(buf, 8);
    ReadU32Embedded(buf, 16);
    ReadU32Embedded(buf, 20);
    EmbeddedConcat(buf, 16, U32(h.numDirs), U32(h.zero));
    EmbeddedConcat(buf, 8, U64(h.baseOffset), U32(h.numDirs) + U32(h.zero));
    EmbeddedConcat(buf, 0, U64(h.tag), U64(h.baseOffset) + (U32(h.numDirs) + U32(h.zero)));
  }

  lemma EncodedPakHeaderParses(buf: seq<byte>, p: Pak)
    requires p.zero == 0 && Embedded(buf, 0, EncodePakHeader(p))
    ensures ParsePakHeader(buf) == Ok((p.(directories := []), 24))
  {
    EmbeddedConcat(buf, 0, U64(p.tag), U64(p.baseOffset) + (U32(p.numDirs) + U32(p.zero)));
    EmbeddedConcat(buf, 8, U64(p.baseOffset), U32(p.numDirs) + U32(p.zero));
    EmbeddedConcat(buf, 16, U32(p.numDirs), U32(p.zero));
    EmbeddedU64Reads(buf, 0, p.tag);
    EmbeddedU64Reads(buf, 8, p.baseOffset);
    EmbeddedU32Reads(buf, 16, p.numDirs);
    EmbeddedU32Reads(buf, 20, p.zero);
  }

  /** A run of directories read from `buf` is well formed and lies in the
      buffer in order. */
  lemma DirRunIsEncoded(buf: seq<byte>, pos: nat, n: nat, ds: seq<Dir>, next: nat)
    requires pos <= |buf| && Repeat(ParseDir, buf, pos, n) == Ok((ds, next))
    ensures |ds| == n && (forall i :: 0 <= i < |ds| ==> WellFormedDir(ds[i]))
    ensures next == pos + |EncodeAll(EncodeDir, ds)| && Embedded(buf, pos, EncodeAll(EncodeDir, ds))
  {
    DirsAreEncoded(buf);
    RepeatIsEncoded(ParseDir, EncodeDir, WellFormedDir, buf, pos, n, ds, next);
  }

  /** Well-formed directories encoded one after the other parse back. */
  lemma {:induction false} DirRunParses(buf: seq<byte>, pos: nat, n: nat, ds: seq<Dir>, next: nat)
    requires n == |ds| && forall i :: 0 <= i < |ds| ==> WellFormedDir(ds[i])
    requires Embedded(buf, pos, EncodeAll(EncodeDir, ds)) && next == pos + |EncodeAll(EncodeDir, ds)|
    ensures Repeat(ParseDir, buf, pos, n) == Ok((ds, next))
    decreases n
  {
    if ds != [] {
      var mid := EmbeddedFirst(buf, pos, EncodeDir, ds, next);
      EncodedDirParses(buf, pos, ds[0], mid);
      assert forall i :: 0 <= i < |ds[1..]| ==> ds[1..][i] == ds[i + 1];
      DirRunParses(buf, mid, n - 1, ds[1..], next);
      RepeatOf(ParseDir, buf, pos, n, ds, mid, next);
    }
  }

  /** An archive is its fixed header followed by its run of directories. */
  lemma ParsePakOf(buf: seq<byte>, p: Pak, mid: nat, end: nat)
    requires ParsePakHeader(buf) == Ok((p.(directories := []), mid))
    requires Repeat(ParseDir, buf, mid, p.numDirs) == Ok((p.directories, end))
    ensures ParsePak(buf) == Ok((p, end))
  {
  }

  /** The encoding of an archive split into its fixed header and its
      directories. */
  lemma EncodedPakSplit(buf: seq<byte>, p: Pak, end: nat)
    requires Embedded(buf, 0, EncodePak(p)) && end == |EncodePak(p)|
    ensures |EncodePakHeader(p)| == 24 && Embedded(buf, 0, EncodePakHeader(p))
    ensures end == 24 + |EncodeAll(EncodeDir, p.directories)| && Embedded(buf, 24, EncodeAll(EncodeDir, p.directories))
  {
    EmbeddedConcat(buf, 0, EncodePakHeader(p), EncodeAll(EncodeDir, p.directories));
  }

  lemma ParsePakSplit(buf: seq<byte>, p: Pak, next: nat) returns (mid: nat)
    requires ParsePak(buf) == Ok((p, next))
    ensures ParsePakHeader(buf) == Ok((p.(directories := []), mid))
    ensures Repeat(ParseDir, buf, mid, p.numDirs) == Ok((p.directories, next))
  {
    mid := ParsePakHeader(buf).value.1;
  }

  lemma ParsedPakIsEncoded(buf: seq<byte>, p: Pak, next: nat)
    requires ParsePak(buf) == Ok((p, next))
    ensures WellFormedPak(p) && next == |EncodePak(p)| && Embedded(buf, 0, EncodePak(p))
  {
    var mid := ParsePakSplit(buf, p, next);
    ParsedPakHeaderIsEncoded(buf, p.(directories := []), mid);
    DirRunIsEncoded(buf, mid, p.numDirs, p.directories, next);
    assert EncodePakHeader(p) == EncodePakHeader(p.(directories := []));
    EmbeddedStep(buf, 0, EncodePakHeader(p), EncodeAll(EncodeDir, p.directories), mid, next);
  }

  /** A well-formed archive, encoded at the start of `buf`, parses back to
      itself. */
  lemma EncodedPakParses(buf: seq<byte>, p: Pak, end: nat)
    requires WellFormedPak(p) && Embedded(buf, 0, EncodePak(p)) && end == |EncodePak(p)|
    ensures ParsePak(buf) == Ok((p, end))
  {
    EncodedPakSplit(buf, p, end);
    EncodedPakHeaderParses(buf, p);
    DirRunParses(buf, 24, p.numDirs, p.directories, end);
    ParsePakOf(buf, p, 24, end);
  }

  /** Round trip: the header chain of a well-formed archive, followed by
      anything (the file content region), parses back to the same archive
      and stops exactly at the end of the headers. */
  lemma PakRoundTrip(p: Pak, rest: seq<byte>)
    requires WellFormedPak(p)
    ensures ParsePak(EncodePak(p) + rest) == Ok((p, PakHeaderSize(p)))
  {
    var buf := EncodePak(p) + rest;
    assert buf[..|EncodePak(p)|] == EncodePak(p);
    EncodedPakLength(p);
    EncodedPakParses(buf, p, PakHeaderSize(p));
  }

  /** A successful `Pak::load` yields a well-formed archive and consumes
      exactly 24 + sum over directories of (16 + name length + sum over its
      files of (28 + name length)) bytes, which it re-encodes to. */
  lemma PakLoadConsumesHeaderSize(buf: seq<byte>)
    requires ParsePak(buf).Ok?
    ensures var (p, next) := ParsePak(buf).value;
            WellFormedPak(p) && next == PakHeaderSize(p) <= |buf| &&
            buf[..next] == EncodePak(p)
  {
    var (p, next) := ParsePak(buf).value;
    ParsedPakIsEncoded(buf, p, next);
    EncodedPakLength(p);
  }

  // ---------------------------------------------------------------------
  // Rejections

  /** A file header whose fixed fields are present but whose reserved field
      is not zero is rejected. */
  lemma FileReservedRejected(buf: seq<byte>, pos: nat)
    requires pos + 28 <= |buf| && ReadU32(buf, pos + 24).value.0 != 0
    ensures ParseFile(buf, pos) == Err(ReservedNotZero)
  {
  }

  /** A file header whose name does not have the declared length is rejected. */
  lemma FileNameLengthRejected(buf: seq<byte>, pos: nat)
    requires pos + 28 <= |buf| && ReadU32(buf, pos + 24).value.0 == 0
    requires ReadString(buf, pos + 28).Ok?
    requires |ReadString(buf, pos + 28).value.0| + 1 != ReadU32(buf, pos).value.0
    ensures ParseFile(buf, pos) == Err(NameLengthMismatch)
  {
  }

  lemma DirReservedRejected(buf: seq<byte>, pos: nat)
    requires pos + 16 <= |buf| && ReadU32(buf, pos + 12).value.0 != 0
    ensures ParseDir(buf, pos) == Err(ReservedNotZero)
  {
  }

  lemma DirNameLengthRejected(buf: seq<byte>, pos: nat)
    requires pos + 16 <= |buf| && ReadU32(buf, pos + 12).value.0 == 0
    requires ReadString(buf, pos + 16).Ok?
    requires |ReadString(buf, pos + 16).value.0| + 1 != ReadU32(buf, pos + 4).value.0
    ensures ParseDir(buf, pos) == Err(NameLengthMismatch)
  {
  }

  lemma PakReservedRejected(buf: seq<byte>)
    requires 24 <= |buf| && ReadU32(buf, 20).value.0 != 0
    ensures ParsePak(buf) == Err(ReservedNotZero)
  {
  }
}
