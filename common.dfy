/** Shared vocabulary of the decoder: bytes, fixed-width unsigned fields,
    the error kinds and the Option/Result wrappers. */
module Common {

  /** One octet of a transport stream packet. */
  type byte = x: int | 0 <= x < 0x100

  // Unsigned fields of the wire format, named by their width in bits.
  type uint2 = x: int | 0 <= x < 4
  type uint4 = x: int | 0 <= x < 0x10
  type uint5 = x: int | 0 <= x < 0x20
  type uint9 = x: int | 0 <= x < 0x200
  type uint10 = x: int | 0 <= x < 0x400
  type uint12 = x: int | 0 <= x < 0x1000
  type uint15 = x: int | 0 <= x < 0x8000
  type uint16 = x: int | 0 <= x < 0x1_0000
  type uint22 = x: int | 0 <= x < 0x40_0000
  type uint32 = x: int | 0 <= x < 0x1_0000_0000
  type uint33 = x: int | 0 <= x < 0x2_0000_0000

  /** A two's-complement octet (Go's int8). */
  type int8 = x: int | -0x80 <= x < 0x80

  /** A 13-bit packet identifier. */
  type PID = x: int | 0 <= x < 0x2000

  /** The value of the sync byte that opens every packet. */
  const SyncByte: byte := 0x47

  datatype Error =
    | InvalidSyncByte   // byte 0 of a packet is not 0x47
    | OutOfBounds       // a read, or a declared length, runs past the bytes supplied

  datatype Option<+T> = None | Some(value: T)

  datatype Result<+T> = Ok(value: T) | Err(error: Error) {
    predicate IsFailure() { Err? }

    function PropagateFailure<U>(): Result<U>
      requires Err?
    {
      Err(error)
    }

    function Extract(): T
      requires Ok?
    {
      value
    }
  }

  /** 2^k for the bit positions of one octet. */
  function Pow2(k: nat): (p: nat)
    requires k < 8
    ensures 0 < p
  {
    if k == 0 then 1 else 2 * Pow2(k - 1)
  }

  /** Bit k (0 = least significant) of an octet, as Go's `x>>k&0x1 > 0`. */
  predicate Bit(x: byte, k: nat)
    requires k < 8
  {
    if k == 0 then x % 2 == 1 else Bit(x / 2, k - 1)
  }

  /** Bit k is the k-th binary digit: `x / 2^k` is odd. */
  lemma {:induction false} BitShift(x: byte, k: nat)
    requires k < 8
    ensures Bit(x, k) <==> x / Pow2(k) % 2 == 1
  {
    if k > 0 {
      BitShift(x / 2, k - 1);
      HalfThenShift(x, k);
    }
  }

  /** Halving, then dividing by 2^(k-1), is dividing by 2^k. */
  lemma HalfThenShift(x: byte, k: nat)
    requires 0 < k < 8
    ensures x / 2 / Pow2(k - 1) == x / Pow2(k)
  {
    if k == 1 {
    } else if k == 2 {
    } else if k == 3 {
    } else if k == 4 {
    } else if k == 5 {
    } else if k == 6 {
    } else {
      assert Pow2(k) == 128 && Pow2(k - 1) == 64;
    }
  }

  // Division by a constant power of two, from a quotient and remainder in range.

  lemma Div2(x: int, q: int, r: int)
    requires 0 <= r < 2 && x == q * 2 + r
    ensures x / 2 == q && x % 2 == r
  {
  }

  lemma Div4(x: int, q: int, r: int)
    requires 0 <= r < 4 && x == q * 4 + r
    ensures x / 4 == q && x % 4 == r
  {
  }

  lemma Div8(x: int, q: int, r: int)
    requires 0 <= r < 8 && x == q * 8 + r
    ensures x / 8 == q && x % 8 == r
  {
  }

  lemma Div16(x: int, q: int, r: int)
    requires 0 <= r < 0x10 && x == q * 0x10 + r
    ensures x / 0x10 == q && x % 0x10 == r
  {
  }

  lemma Div32(x: int, q: int, r: int)
    requires 0 <= r < 0x20 && x == q * 0x20 + r
    ensures x / 0x20 == q && x % 0x20 == r
  {
  }

  lemma Div256(x: int, q: int, r: int)
    requires 0 <= r < 0x100 && x == q * 0x100 + r
    ensures x / 0x100 == q && x % 0x100 == r
  {
  }

  lemma Div64(x: int, q: int, r: int)
    requires 0 <= r < 0x40 && x == q * 0x40 + r
    ensures x / 0x40 == q && x % 0x40 == r
  {
  }

  /** The value of a set-or-clear bit at position k. */
  function BitValue(f: bool, k: nat): nat
    requires k < 8
  {
    if f then Pow2(k) else 0
  }

  /** Two octets read big-endian. */
  function Be16(hi: byte, lo: byte): uint16
  {
    hi * 0x100 + lo
  }

  /** Four octets read big-endian. */
  function Be32(b: seq<byte>): uint32
    requires |b| >= 4
  {
    b[0] as int * 0x100_0000 + b[1] as int * 0x1_0000 + b[2] as int * 0x100 + b[3] as int
  }

  /** The n bytes of b starting at pos, or OutOfBounds when they are not all there.
      This is the slice `b[pos:pos+n]` of the Go code, which panics instead. */
  function ReadAt(b: seq<byte>, pos: nat, n: nat): Result<seq<byte>>
  {
    if pos + n <= |b| then Ok(b[pos..pos + n]) else Err(OutOfBounds)
  }

  /** `n` copies of `x`. */
  function Repeat(x: byte, n: nat): (r: seq<byte>)
    ensures |r| == n
    ensures forall i :: 0 <= i < n ==> r[i] == x
  {
    if n == 0 then [] else [x] + Repeat(x, n - 1)
  }
}
