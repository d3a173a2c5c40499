/** The big-endian binary cursor of common.h.

    The source reads through a `const char*&` that it advances; here the
    buffer is a byte sequence and the cursor a position into it.  Every read
    returns the decoded value together with the position just after it, or
    fails where the source would have read past the end of the buffer.
 */
module Common {

  newtype byte = x: int | 0 <= x < 256
  type uint32 = x: nat | x < 0x1_0000_0000
  type uint64 = x: nat | x < 0x1_0000_0000_0000_0000

  datatype Option<+T> = None | Some(value: T)

  /** Why a read or a header parse fails. */
  datatype Error =
    | Truncated           // a fixed-width field runs past the end of the buffer
    | Unterminated        // no NUL byte at or after the cursor
    | ReservedNotZero     // a reserved `zero` field holds something else
    | NameLengthMismatch  // the declared name length is not the name's length plus its NUL

  datatype Result<+T> = Ok(value: T) | Err(error: Error) {
    predicate IsFailure() { Err? }

    function PropagateFailure<U>(): Result<U>
      requires Err?
    {
      Err(error)
    }

    function Extract(): T
      requires Ok?
    {
      value
    }
  }

  function Pow256(n: nat): (r: nat)
    ensures r > 0
  {
    if n == 0 then 1 else 256 * Pow256(n - 1)
  }

  /** The value of `s` read as an unsigned integer whose first byte is the
      most significant. */
  function BeValue(s: seq<byte>): (r: nat)
    ensures r < Pow256(|s|)
  {
    if s == [] then 0 else BeValue(s[..|s| - 1]) * 256 + s[|s| - 1] as nat
  }

  /** The value of `s` read as an unsigned integer whose first byte is the
      least significant: how a little-endian host reads memory. */
  function LeValue(s: seq<byte>): nat
  {
    if s == [] then 0 else s[0] as nat + 256 * LeValue(s[1..])
  }

  /** Splitting a big-endian number: the leading bytes are the high part. */
  lemma {:induction false} BeValueAppend(a: seq<byte>, b: seq<byte>)
    ensures BeValue(a + b) == BeValue(a) * Pow256(|b|) + BeValue(b)
  {
    if b == [] {
      assert a + b == a;
    } else {
      var b' := b[..|b| - 1];
      assert (a + b)[..|a + b| - 1] == a + b';
      BeValueAppend(a, b');
      var x, p, y := BeValue(a), Pow256(|b'|), BeValue(b');
      assert (x * p + y) * 256 == x * (p * 256) + y * 256 by {
        MulDistributes(x * p, y, 256);
        MulAssociates(x, p, 256);
      }
    }
  }

  lemma MulDistributes(x: nat, y: nat, z: nat)
    ensures (x + y) * z == x * z + y * z
  {
  }

  lemma MulAssociates(x: nat, y: nat, z: nat)
    ensures (x * y) * z == x * (y * z)
  {
  }

  /** The four-byte case of BeValue written out. */
  lemma BeValue4(s: seq<byte>)
    requires |s| == 4
    ensures BeValue(s) == s[0] as nat * 0x100_0000 + s[1] as nat * 0x1_0000
                          + s[2] as nat * 0x100 + s[3] as nat
  {
    assert s[..1][..0] == [];
    assert BeValue(s[..1]) == s[0] as nat;
    assert s[..2][..1] == s[..1];
    assert BeValue(s[..2]) == s[0] as nat * 0x100 + s[1] as nat;
    assert s[..3][..2] == s[..2];
    assert BeValue(s[..3]) == s[0] as nat * 0x1_0000 + s[1] as nat * 0x100 + s[2] as nat;
    assert s[..3] == s[..|s| - 1];
  }

  lemma Pow256Widths()
    ensures Pow256(4) == 0x1_0000_0000
    ensures Pow256(8) == 0x1_0000_0000_0000_0000
  {
  }

  function Reverse(s: seq<byte>): (r: seq<byte>)
    ensures |r| == |s|
  {
    if s == [] then [] else [s[|s| - 1]] + Reverse(s[..|s| - 1])
  }

  lemma {:induction false} ReverseAt(s: seq<byte>, k: nat)
    requires k < |s|
    ensures Reverse(s)[k] == s[|s| - 1 - k]
  {
    if k > 0 {
      ReverseAt(s[..|s| - 1], k - 1);
    }
  }

  lemma ReverseReverse(s: seq<byte>)
    ensures Reverse(Reverse(s)) == s
  {
    forall k | 0 <= k < |s|
      ensures Reverse(Reverse(s))[k] == s[k]
    {
      ReverseAt(Reverse(s), k);
      ReverseAt(s, |s| - 1 - k);
    }
  }

  /** Reading the reversed bytes little-endian gives the big-endian value. */
  lemma {:induction false} LeValueOfReverse(s: seq<byte>)
    ensures LeValue(Reverse(s)) == BeValue(s)
  {
    if s != [] {
      var init := s[..|s| - 1];
      assert Reverse(s)[1..] == Reverse(init);
      LeValueOfReverse(init);
    }
  }

  /** The byte order of the host the source is compiled for
      (`std::endian::native`). */
  datatype Endian = Little | Big

  /** What `BE_to_native` does to the bytes of a value: a little-endian host
      reverses them, a big-endian host leaves them alone. */
  function BeToNative(host: Endian, s: seq<byte>): seq<byte>
  {
    if host == Little then Reverse(s) else s
  }

  /** How the host reads the bytes of an integer in memory as a number. */
  function NativeValue(host: Endian, s: seq<byte>): nat
  {
    match host
    case Little => LeValue(s)
    case Big => BeValue(s)
  }

  /** Swapping twice restores the original bytes. */
  lemma BeToNativeInvolution(host: Endian, s: seq<byte>)
    ensures BeToNative(host, BeToNative(host, s)) == s
  {
    if host == Little {
      ReverseReverse(s);
    }
  }

  /** Whatever the host, a value in memory after `BE_to_native` reads as the
      big-endian value of the original bytes. */
  lemma NativeReadIsBigEndian(host: Endian, s: seq<byte>)
    ensures NativeValue(host, BeToNative(host, s)) == BeValue(s)
  {
    if host == Little {
      LeValueOfReverse(s);
    }
  }

  lemma ReverseOfLength(s: seq<byte>, r: seq<byte>)
    requires |r| == |s|
    requires forall k :: 0 <= k < |s| ==> r[k] == s[|s| - 1 - k]
    ensures r == Reverse(s)
  {
    forall k | 0 <= k < |s|
      ensures r[k] == Reverse(s)[k]
    {
      ReverseAt(s, k);
    }
  }

  /** `BE_to_native(uint32_t*)`: swaps bytes 0 and 3, 1 and 2 in place. */
  method BeToNative32(host: Endian, value: array<byte>)
    requires value.Length == 4
    modifies value
    ensures value[..] == BeToNative(host, old(value[..]))
  {
    if host == Little {
      ghost var s := value[..];
      value[0], value[3] := value[3], value[0];
      value[1], value[2] := value[2], value[1];
      assert value[0] == s[3] && value[1] == s[2] && value[2] == s[1] && value[3] == s[0];
      ReverseOfLength(s, value[..]);
    }
  }

  /** `BE_to_native(uint64_t*)`: swaps bytes 0 and 7, 1 and 6, 2 and 5,
      3 and 4 in place. */
  method BeToNative64(host: Endian, value: array<byte>)
    requires value.Length == 8
    modifies value
    ensures value[..] == BeToNative(host, old(value[..]))
  {
    if host == Little {
      ghost var s := value[..];
      value[0], value[7] := value[7], value[0];
      value[1], value[6] := value[6], value[1];
      value[2], value[5] := value[5], value[2];
      value[3], value[4] := value[4], value[3];
      assert value[0] == s[7] && value[1] == s[6] && value[2] == s[5] && value[3] == s[4];
      assert value[4] == s[3] && value[5] == s[2] && value[6] == s[1] && value[7] == s[0];
      ReverseOfLength(s, value[..]);
    }
  }

  /** The 32-bit big-endian field at `pos`, and the position after it. */
  function ReadU32(buf: seq<byte>, pos: nat): (r: Result<(uint32, nat)>)
    ensures r.Ok? <==> pos + 4 <= |buf|
    ensures r.Err? ==> r.error == Truncated
    ensures r.Ok? ==> r.value.1 == pos + 4
  {
    if pos + 4 <= |buf| then
      Ok((buf[pos] as nat * 0x100_0000 + buf[pos + 1] as nat * 0x1_0000
          + buf[pos + 2] as nat * 0x100 + buf[pos + 3] as nat, pos + 4))
    else
      Err(Truncated)
  }

  /** The 32-bit field is the big-endian number its four bytes spell. */
  lemma ReadU32IsBigEndian(buf: seq<byte>, pos: nat)
    requires pos + 4 <= |buf|
    ensures ReadU32(buf, pos).value.0 == BeValue(buf[pos..pos + 4])
  {
    BeValue4(buf[pos..pos + 4]);
  }

  /** The 64-bit big-endian field at `pos`, and the position after it: its
      high word is the 32-bit field at `pos`, its low word the one after. */
  function ReadU64(buf: seq<byte>, pos: nat): (r: Result<(uint64, nat)>)
    ensures r.Ok? <==> pos + 8 <= |buf|
    ensures r.Err? ==> r.error == Truncated
    ensures r.Ok? ==> r.value.1 == pos + 8
  {
    if pos + 8 <= |buf| then
      Ok((ReadU32(buf, pos).value.0 * 0x1_0000_0000 + ReadU32(buf, pos + 4).value.0, pos + 8))
    else
      Err(Truncated)
  }

  /** The 64-bit field is the big-endian number its eight bytes spell. */
  lemma ReadU64IsBigEndian(buf: seq<byte>, pos: nat)
    requires pos + 8 <= |buf|
    ensures ReadU64(buf, pos).value.0 == BeValue(buf[pos..pos + 8])
  {
    Pow256Widths();
    assert buf[pos..pos + 8] == buf[pos..pos + 4] + buf[pos + 4..pos + 8];
    BeValueAppend(buf[pos..pos + 4], buf[pos + 4..pos + 8]);
    ReadU32IsBigEndian(buf, pos);
    ReadU32IsBigEndian(buf, pos + 4);
  }

  /** The position of the first NUL byte at or after `i`, if there is one. */
  function FindNul(buf: seq<byte>, i: nat): (r: Option<nat>)
    decreases |buf| - i
    ensures r.Some? ==> i <= r.value < |buf| && buf[r.value] == 0 &&
                        forall k :: i <= k < r.value ==> buf[k] != 0
    ensures r.None? ==> forall k :: i <= k < |buf| ==> buf[k] != 0
  {
    if i >= |buf| then None
    else if buf[i] == 0 then Some(i)
    else FindNul(buf, i + 1)
  }

  /** The NUL-terminated string at `pos` without its NUL, and the position
      after the NUL. */
  function ReadString(buf: seq<byte>, pos: nat): (r: Result<(seq<byte>, nat)>)
    ensures r.Err? <==> forall k :: pos <= k < |buf| ==> buf[k] != 0
    ensures r.Err? ==> r.error == Unterminated
    ensures r.Ok? ==> r.value.1 == pos + |r.value.0| + 1 <= |buf| &&
                      buf[pos..r.value.1 - 1] == r.value.0 &&
                      buf[r.value.1 - 1] == 0 && 0 !in r.value.0
  {
    match FindNul(buf, pos)
    case None => Err(Unterminated)
    case Some(end) => Ok((buf[pos..end], end + 1))
  }

  /** `get_uint32`: copies the four bytes at the cursor into a value, puts
      them in host order and advances the cursor by four. */
  method GetUint32(host: Endian, buf: seq<byte>, pos: nat) returns (r: Result<(uint32, nat)>)
    ensures r == ReadU32(buf, pos)
  {
    if |buf| < pos + 4 {
      return Err(Truncated);
    }
    var result := new byte[4](i requires 0 <= i < 4 => buf[pos + i]);
    assert result[..] == buf[pos..pos + 4];
    BeToNative32(host, result);
    NativeReadIsBigEndian(host, buf[pos..pos + 4]);
    ReadU32IsBigEndian(buf, pos);
    var value := NativeValue(host, result[..]);
    return Ok((value, pos + 4));
  }

  /** `get_uint64`: as `get_uint32`, for eight bytes. */
  method GetUint64(host: Endian, buf: seq<byte>, pos: nat) returns (r: Result<(uint64, nat)>)
    ensures r == ReadU64(buf, pos)
  {
    if |buf| < pos + 8 {
      return Err(Truncated);
    }
    var result := new byte[8](i requires 0 <= i < 8 => buf[pos + i]);
    assert result[..] == buf[pos..pos + 8];
    BeToNative64(host, result);
    NativeReadIsBigEndian(host, buf[pos..pos + 8]);
    ReadU64IsBigEndian(buf, pos);
    var value := NativeValue(host, result[..]);
    return Ok((value, pos + 8));
  }

  /** `get_string`: takes the bytes up to the first NUL and advances the
      cursor past that NUL. */
  method GetString(buf: seq<byte>, pos: nat) returns (r: Result<(seq<byte>, nat)>)
    ensures r == ReadString(buf, pos)
  {
    var end := pos;
    while end < |buf| && buf[end] != 0
      invariant pos <= end
      invariant FindNul(buf, end) == FindNul(buf, pos)
      decreases |buf| - end
    {
      end := end + 1;
    }
    if end >= |buf| {
      return Err(Unterminated);
    }
    return Ok((buf[pos..end], end + 1));
  }
}
