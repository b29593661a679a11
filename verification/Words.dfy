/** Machine words: bytes, 32-bit unsigned arithmetic that wraps around, and the forward byte copy. */
module Words {

  newtype byte = b: int | 0 <= b < 0x100

  const WIDTH := 0x1_0000_0000

  type uint32 = n: int | 0 <= n < WIDTH

  /** `a + b` as C++ computes it on `uint32_t`. */
  function Add32(a: nat, b: nat): (r: uint32)
    ensures a + b < WIDTH ==> r == a + b
  {
    (a + b) % WIDTH
  }

  /** `a - b` as C++ computes it on `uint32_t`. */
  function Sub32(a: nat, b: nat): (r: uint32)
    ensures 0 <= a - b < WIDTH ==> r == a - b
  {
    (a - b) % WIDTH
  }

  function Min(a: nat, b: nat): nat {
    if a <= b then a else b
  }

  // Memory accesses of the concurrent models. What an access out of range would do does not matter:
  // their invariants show that there is none.

  ghost function Load(mem: seq<byte>, slot: nat): byte {
    if slot < |mem| then mem[slot] else 0
  }

  ghost function Store(mem: seq<byte>, slot: nat, b: byte): seq<byte> {
    if slot < |mem| then mem[slot := b] else mem
  }

  function Drop<T>(s: seq<T>, n: nat): seq<T> {
    if n <= |s| then s[n..] else []
  }

  lemma Reassociate<T>(a: seq<T>, b: seq<T>, c: seq<T>)
    ensures (a + b) + c == a + (b + c)
  {
  }

  lemma SliceStart(data: array<byte>, at: nat, n: nat, len: nat)
    requires n <= len && at + len <= data.Length
    ensures data[at..at + n] == data[at..at + len][..n]
  {
  }

  lemma SliceIs(data: array<byte>, at: nat, s: seq<byte>)
    requires at + |s| <= data.Length && forall j :: 0 <= j < |s| ==> data[at + j] == s[j]
    ensures data[at..at + |s|] == s
  {
  }

  datatype Option<+T> = None | Some(value: T)

  /** Copies `n` bytes upwards, one at a time. Source and destination may be the same array as
      long as the copy moves bytes down (or not at all), so no byte is overwritten before it is read. */
  method CopyForward(dst: array<byte>, to: nat, src: array<byte>, from: nat, n: nat)
    requires to + n <= dst.Length && from + n <= src.Length
    requires dst == src ==> to <= from
    modifies dst
    ensures forall i {:trigger dst[i]} :: 0 <= i < dst.Length ==>
      dst[i] == if to <= i < to + n then old(src[from + i - to]) else old(dst[i])
  {
    var k := 0;
    while k < n
      invariant k <= n
      invariant forall i :: 0 <= i < dst.Length ==>
        dst[i] == if to <= i < to + k then old(src[from + i - to]) else old(dst[i])
      invariant dst != src ==> src[..] == old(src[..])
    {
      dst[to + k] := src[from + k];
      k := k + 1;
    }
  }

  /** Copies the bytes of a string or message into an array. */
  method CopyBytes(dst: array<byte>, to: nat, src: seq<byte>)
    requires to + |src| <= dst.Length
    modifies dst
    ensures forall i :: 0 <= i < dst.Length ==>
      dst[i] == if to <= i < to + |src| then src[i - to] else old(dst[i])
  {
    for k := 0 to |src|
      invariant forall i :: 0 <= i < dst.Length ==>
        dst[i] == if to <= i < to + k then src[i - to] else old(dst[i])
    {
      dst[to + k] := src[k];
    }
  }
}
