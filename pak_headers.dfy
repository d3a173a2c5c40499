/** The header chain of a PAK archive written out, and its size.

    pak.h declares `save_to_memory` and `size_in_pak` but their bodies are
    not part of this model; the encoder and the size functions below are
    the model's own, written from the wire layout the parser reads, so that
    the parser's consumed-bytes and round-trip properties can be stated.
 */
module PakHeaders {
  import opened Common
  import opened PakFormat

  /** `v` as `n` big-endian bytes (its low `8 * n` bits). */
  function BeBytes(v: nat, n: nat): (r: seq<byte>)
    ensures |r| == n
  {
    if n == 0 then [] else BeBytes(v / 256, n - 1) + [(v % 256) as byte]
  }

  lemma {:induction false} BeValueOfBeBytes(v: nat, n: nat)
    requires v < Pow256(n)
    ensures BeValue(BeBytes(v, n)) == v
  {
    if n > 0 {
      var s := BeBytes(v, n);
      assert s[..|s| - 1] == BeBytes(v / 256, n - 1);
      assert v / 256 < Pow256(n - 1) by {
        DivBound(v, Pow256(n - 1));
      }
      BeValueOfBeBytes(v / 256, n - 1);
      ByteOfNat(v % 256);
      assert BeValue(s) == (v / 256) * 256 + v % 256;
    }
  }

  lemma ByteOfNat(x: nat)
    requires x < 256
    ensures (x as byte) as nat == x
  {
  }

  lemma NatOfByte(b: byte)
    ensures (b as nat) as byte == b
  {
  }

  lemma DivModOf(q: nat, r: nat)
    requires r < 256
    ensures (q * 256 + r) / 256 == q && (q * 256 + r) % 256 == r
  {
  }

  lemma DivBound(v: nat, p: nat)
    requires v < 256 * p
    ensures v / 256 < p
  {
  }

  lemma {:induction false} BeBytesOfBeValue(s: seq<byte>)
    ensures BeBytes(BeValue(s), |s|) == s
  {
    if s != [] {
      var init := s[..|s| - 1];
      var v := BeValue(s);
      DivModOf(BeValue(init), s[|s| - 1] as nat);
      NatOfByte(s[|s| - 1]);
      BeBytesOfBeValue(init);
    }
  }

  function U32(v: uint32): seq<byte> { BeBytes(v, 4) }
  function U64(v: uint64): seq<byte> { BeBytes(v, 8) }

  /** A name followed by its NUL terminator. */
  function Terminated(name: seq<byte>): seq<byte> { name + [0] }

  function EncodeFile(f: File): seq<byte>
  {
    U32(f.nameLength) + (U64(f.size) + (U64(f.pakOffset) + (U32(f.crc32) +
    (U32(f.zero) + Terminated(f.name)))))
  }

  function EncodeDirHeader(d: Dir): seq<byte>
  {
    U32(d.dirIndex) + (U32(d.nameLength) + (U32(d.numOfFiles) + (U32(d.zero) +
    Terminated(d.name))))
  }

  function EncodeDir(d: Dir): seq<byte>
  {
    EncodeDirHeader(d) + EncodeAll(EncodeFile, d.files)
  }

  function EncodePakHeader(p: Pak): seq<byte>
  {
    U64(p.tag) + (U64(p.baseOffset) + (U32(p.numDirs) + U32(p.zero)))
  }

  function EncodePak(p: Pak): seq<byte>
  {
    EncodePakHeader(p) + EncodeAll(EncodeDir, p.directories)
  }

  /** The encodings of `xs`, one after the other. */
  function EncodeAll<T>(enc: T -> seq<byte>, xs: seq<T>): seq<byte>
  {
    if xs == [] then [] else enc(xs[0]) + EncodeAll(enc, xs[1..])
  }

  /** Header sizes as the format counts them: fixed fields plus the declared
      name length (which includes the NUL). */
  function FileHeaderSize(f: File): nat { 28 + f.nameLength }

  function DirHeaderSize(d: Dir): nat { 16 + d.nameLength + SumOf(FileHeaderSize, d.files) }

  /** What a well-formed archive stores as `base_offset`:
      24 + sum over directories of (16 + name length + sum over its files of
      (28 + name length)). */
  function PakHeaderSize(p: Pak): nat { 24 + SumOf(DirHeaderSize, p.directories) }

  function SumOf<T>(size: T -> nat, xs: seq<T>): nat
  {
    if xs == [] then 0 else size(xs[0]) + SumOf(size, xs[1..])
  }

  lemma {:induction false} EncodedAllLength<T>(enc: T -> seq<byte>, size: T -> nat, xs: seq<T>)
    requires forall i :: 0 <= i < |xs| ==> |enc(xs[i])| == size(xs[i])
    ensures |EncodeAll(enc, xs)| == SumOf(size, xs)
  {
    if xs != [] {
      assert forall i :: 0 <= i < |xs[1..]| ==> xs[1..][i] == xs[i + 1];
      EncodedAllLength(enc, size, xs[1..]);
    }
  }

  lemma EncodedFileLength(f: File)
    requires WellFormedFile(f)
    ensures |EncodeFile(f)| == FileHeaderSize(f)
  {
  }

  lemma EncodedDirLength(d: Dir)
    requires WellFormedDir(d)
    ensures |EncodeDir(d)| == DirHeaderSize(d)
  {
    EncodedAllLength(EncodeFile, FileHeaderSize, d.files);
  }

  lemma EncodedPakLength(p: Pak)
    requires WellFormedPak(p)
    ensures |EncodePak(p)| == PakHeaderSize(p)
  {
    forall i | 0 <= i < |p.directories|
      ensures |EncodeDir(p.directories[i])| == DirHeaderSize(p.directories[i])
    {
      EncodedDirLength(p.directories[i]);
    }
    EncodedAllLength(EncodeDir, DirHeaderSize, p.directories);
  }

  /** `e` sits in `buf` starting at `pos`. */
  predicate Embedded(buf: seq<byte>, pos: nat, e: seq<byte>)
  {
    pos + |e| <= |buf| && buf[pos..pos + |e|] == e
  }

  /** A concatenation sits at `pos` exactly when its first part does and its
      second part follows. */
  lemma EmbeddedConcat(buf: seq<byte>, pos: nat, a: seq<byte>, b: seq<byte>)
    ensures Embedded(buf, pos, a + b) <==> Embedded(buf, pos, a) && Embedded(buf, pos + |a|, b)
  {
    if Embedded(buf, pos, a) && Embedded(buf, pos + |a|, b) {
      assert buf[pos..pos + |a + b|] == buf[pos..pos + |a|] + buf[pos + |a|..pos + |a| + |b|];
    }
    if Embedded(buf, pos, a + b) {
      assert buf[pos..pos + |a|] == (a + b)[..|a|];
      assert buf[pos + |a|..pos + |a| + |b|] == (a + b)[|a|..];
    }
  }
}
