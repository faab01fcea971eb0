/**
  The target process's memory, seen through the only capability the
  scanning code uses: "read n bytes at address a". The memory is a finite
  partial map from address to byte; a read succeeds exactly when every
  address it covers is mapped, and never succeeds partially.
 */
module Memory {
  import opened Wrappers

  type byte = x: int | 0 <= x < 256

  /** The error type of the crate (`MfError`). `ReadFailed` stands for the
      `NtStatus` error a failed `ReadProcessMemory` reports. `InvalidString`
      is the error `read_str` returns for bytes that are not UTF-8.
      `LengthUnderflow` stands for the underflow of `len - offset` in
      `create_pattern`, which the code does not check. */
  datatype MfError =
    | ReadFailed
    | ProcessNotFound
    | ModuleNotFound
    | NoThreads
    | InvalidString
    | LengthUnderflow

  /** The address space of the target process. */
  type Mem = map<nat, byte>

  /** Every address a, a+1, ..., a+n-1 is mapped. */
  predicate Mapped(m: Mem, a: nat, n: nat) {
    forall k :: a <= k < a + n ==> k in m
  }

  /** `read_buf(a, buf)` with `buf.len() == n`: all n bytes or a failure. */
  function Read(m: Mem, a: nat, n: nat): (r: Result<seq<byte>, MfError>)
    ensures r.Ok? <==> Mapped(m, a, n)
    ensures r.Ok? ==> |r.value| == n && forall i :: 0 <= i < n ==> r.value[i] == m[a + i]
    ensures r.Err? ==> r.error == ReadFailed
  {
    if Mapped(m, a, n) then Ok(seq(n, i requires 0 <= i < n => m[a + i])) else Err(ReadFailed)
  }

  /** The addresses a, a+1, ..., a+n-1. */
  ghost function Span(a: nat, n: nat): (r: set<nat>)
    ensures |r| == n
    ensures forall k :: k in r <==> a <= k < a + n
  {
    if n == 0 then {} else Span(a, n - 1) + {a + n - 1}
  }

  /** A successful read of n bytes needs at least n mapped addresses, so
      in a finite memory the readable windows have bounded length. */
  lemma MappedBound(m: Mem, a: nat, n: nat)
    requires Mapped(m, a, n)
    ensures n <= |m.Keys|
  {
    var r := Span(a, n);
    assert r <= m.Keys;
    assert m.Keys == r + (m.Keys - r);
  }

  /** A shorter read at the same address returns a prefix of a longer one. */
  lemma ReadPrefix(m: Mem, a: nat, n: nat, l: nat)
    requires n <= l && Mapped(m, a, l)
    ensures Mapped(m, a, n) && Read(m, a, n).value == Read(m, a, l).value[..n]
  {
  }

  /** The width in bytes of `usize` on the 64-bit target. */
  const WORD_SIZE: nat := 8

  function Pow256(n: nat): (p: nat)
    ensures p >= 1
  {
    if n == 0 then 1 else 256 * Pow256(n - 1)
  }

  /** The unsigned integer whose little-endian bytes are `bs`. */
  function LittleEndian(bs: seq<byte>): (w: nat)
    ensures w < Pow256(|bs|)
  {
    if bs == [] then 0 else bs[0] + 256 * LittleEndian(bs[1..])
  }

  /** The little-endian encoding of `w` in `n` bytes. */
  function ToLittleEndian(w: nat, n: nat): (bs: seq<byte>)
    ensures |bs| == n
  {
    if n == 0 then [] else [w % 256] + ToLittleEndian(w / 256, n - 1)
  }

  /** Decoding inverts encoding for every value that fits in n bytes. */
  lemma {:induction false} LittleEndianRoundTrip(w: nat, n: nat)
    requires w < Pow256(n)
    ensures LittleEndian(ToLittleEndian(w, n)) == w
  {
    if n > 0 {
      LittleEndianRoundTrip(w / 256, n - 1);
      var bs := ToLittleEndian(w, n);
      assert bs[1..] == ToLittleEndian(w / 256, n - 1);
    }
  }

  /** Encoding inverts decoding: the bytes of a word are recovered from its
      value. */
  lemma {:induction false} LittleEndianInverse(bs: seq<byte>)
    ensures ToLittleEndian(LittleEndian(bs), |bs|) == bs
  {
    if bs != [] {
      var w := LittleEndian(bs);
      assert w % 256 == bs[0] && w / 256 == LittleEndian(bs[1..]);
      LittleEndianInverse(bs[1..]);
    }
  }

  /** `read::<usize>(a)`: one machine word, decoded little-endian: the
      word's own encoding is the 8 bytes at `a`. */
  function ReadWord(m: Mem, a: nat): (r: Result<nat, MfError>)
    ensures r.Ok? <==> Mapped(m, a, WORD_SIZE)
    ensures r.Ok? ==> r.value < Pow256(WORD_SIZE)
    ensures r.Ok? ==> ToLittleEndian(r.value, WORD_SIZE) == Read(m, a, WORD_SIZE).value
    ensures r.Err? ==> r.error == ReadFailed
  {
    match Read(m, a, WORD_SIZE)
    case Ok(bs) =>
      LittleEndianInverse(bs);
      Ok(LittleEndian(bs))
    case Err(e) => Err(e)
  }
}
