/** Byte-level vocabulary shared by every part of the model: the elements
    of a Python `bytes` value, the exceptions the core raises (as values),
    Python's clamping slice, and the little/big-endian integer readers that
    `struct.unpack` performs. */
module Bytes {

  /** One element of a Python `bytes`/`bytearray`. */
  type byte = x: int | 0 <= x < 256

  predicate IsByte(x: int) {
    0 <= x < 256
  }

  datatype Option<T> = None | Some(value: T)

  /** The exceptions the modelled code raises, one constructor per cause. */
  datatype Error =
    | ByteOutOfRange      // ValueError: a value outside 0..255 placed in bytes/bytearray
    | NotAscii            // UnicodeEncodeError from str.encode('ascii')
    | NotBlockMultiple    // ValueError: ECB input whose length is not a multiple of 16
    | NotConnected        // RuntimeError("Not connected to badge")
    | MissingKey          // KeyError from a dict lookup
    | ShortUnpack         // struct.error: struct.unpack on too few bytes
    | HeaderTooShort      // ValueError("Invalid BTSnoop header: too short")
    | BadIdentification   // ValueError("Invalid BTSnoop identification")
    | ShortRecord         // ValueError("Insufficient data for record header")

  datatype Result<T> = Ok(value: T) | Err(error: Error)

  function Min(a: int, b: int): int {
    if a < b then a else b
  }

  function Max(a: int, b: int): int {
    if a < b then b else a
  }

  /** `bytes(n)`: n zero bytes. */
  function Zeros(n: nat): (r: seq<byte>)
    ensures |r| == n
    ensures forall i :: 0 <= i < n ==> r[i] == 0
  {
    seq(n, _ => 0)
  }

  /** Python's `s[lo:hi]` for non-negative bounds: both ends clamp to `|s|`,
      and an empty range gives the empty sequence. */
  function Slice<T>(s: seq<T>, lo: nat, hi: nat): (r: seq<T>)
    ensures |r| == if lo < hi && lo < |s| then Min(hi, |s|) - lo else 0
    ensures forall k :: 0 <= k < |r| ==> r[k] == s[lo + k]
  {
    if lo >= |s| || hi <= lo then [] else s[lo..Min(hi, |s|)]
  }

  /** `struct.unpack('<H', ...)`: two bytes, least significant first. */
  function U16LE(lo: byte, hi: byte): (v: nat)
    ensures v < 65536
  {
    lo as int + 256 * hi
  }

  /** `struct.unpack('>I', ...)`: four bytes, most significant first. */
  function U32BE(s: seq<byte>): (v: nat)
    requires |s| == 4
  {
    ((s[0] as int * 256 + s[1]) * 256 + s[2]) * 256 + s[3]
  }

  /** `struct.unpack('>Q', ...)`: eight bytes, most significant first. */
  function U64BE(s: seq<byte>): (v: nat)
    requires |s| == 8
  {
    U32BE(s[..4]) * 4294967296 + U32BE(s[4..])
  }

  /** Regrouping a three-part concatenation. */
  lemma ConcatAssoc3<T>(a: seq<T>, b: seq<T>, c: seq<T>)
    ensures a + b + c == a + (b + c)
  {
  }

  /** Regrouping a four-part concatenation. */
  lemma ConcatAssoc<T>(a: seq<T>, b: seq<T>, c: seq<T>, d: seq<T>)
    ensures a + b + c + d == a + (b + c + d)
  {
  }

  /** `b''.join(ss)`: the concatenation of a list of byte strings. */
  function Flatten<T>(ss: seq<seq<T>>): seq<T> {
    if ss == [] then [] else ss[0] + Flatten(ss[1..])
  }

  lemma {:induction false} FlattenAppend<T>(ss: seq<seq<T>>, s: seq<T>)
    ensures Flatten(ss + [s]) == Flatten(ss) + s
  {
    if ss == [] {
      assert ss + [s] == [s];
    } else {
      assert (ss + [s])[1..] == ss[1..] + [s];
      FlattenAppend(ss[1..], s);
    }
  }
}
