/** The index arithmetic of the single-producer single-consumer ring.

    A side that has moved `total` bytes since initialisation stores an index in 0..C *inclusive*:
    a contiguous copy may leave the index at C, and a copy that wraps always leaves it at 1 or more. */
module RingIndex {
  import opened Words

  /** The index a side stores once it has moved `total` bytes. */
  function IndexOf(total: nat, c: nat): (index: nat)
    requires c > 0
    ensures index <= c
    ensures index == 0 <==> total == 0
  {
    if total > 0 && total % c == 0 then c else total % c
  }

  /** The slot of the `k`-th byte ever moved. */
  function Slot(k: nat, c: nat): (slot: nat)
    requires c > 0
    ensures slot < c
  {
    k % c
  }

  // The computations of SPSC, on wrapping words.

  function CalcSize(c: nat, readIndex: nat, writeIndex: nat): uint32 {
    if writeIndex >= readIndex then Sub32(writeIndex, readIndex)
    else Sub32(Add32(writeIndex, c), readIndex)
  }

  function Capacity(c: nat, readIndex: nat, writeIndex: nat): uint32 {
    var avail := Sub32(c, CalcSize(c, readIndex, writeIndex));
    if avail <= 1 then 0 else Sub32(avail, 1)
  }

  /** How many bytes `write` decides to copy when `Capacity` is not zero. */
  function WriteLength(capacity: uint32, dataLen: nat): nat
    requires capacity > 0
  {
    var avail := Sub32(capacity, 1);
    if avail < dataLen then avail else dataLen
  }

  /** The index stored after a copy of `len` bytes that started at `index`. */
  function Advance(c: nat, index: nat, len: nat): uint32 {
    var top := Sub32(c, index);
    if len <= top then Add32(index, len) else Sub32(len, top)
  }

  /** The slot that byte `j` of a copy starting at `index` occupies: first the bytes up to the top
      of the memory, then the remainder from slot 0. */
  function CopySlot(c: nat, index: nat, j: nat): nat {
    if index + j < c then index + j else index + j - c
  }

  /** The room a queue holding `queued` bytes offers: the writer gives up two bytes, one in
      `capacity` and one more in `write`. */
  function Room(c: nat, queued: int): nat {
    if queued + 2 <= c then c - 2 - queued else 0
  }

  // Modular arithmetic.

  lemma MulAtLeast(d: int, c: nat)
    ensures d > 0 ==> d * c >= c
    ensures d < 0 ==> d * c + c <= 0
  {
  }

  lemma ModUnique(n: nat, c: nat, q: nat, r: nat)
    requires c > 0 && r < c && n == q * c + r
    ensures n % c == r
  {
    var d := n / c - q;
    assert d * c == r - n % c by {
      assert n == (n / c) * c + n % c;
      assert d * c == (n / c) * c - q * c;
    }
    MulAtLeast(d, c);
  }

  /** Moving at most one lap from position `k`. */
  lemma ModStep(k: nat, j: nat, c: nat)
    requires c > 0 && j <= c
    ensures (k + j) % c == if k % c + j < c then k % c + j else k % c + j - c
  {
    if k % c + j < c {
      ModUnique(k + j, c, k / c, k % c + j);
    } else {
      assert (k / c + 1) * c == (k / c) * c + c;
      ModUnique(k + j, c, k / c + 1, k % c + j - c);
    }
  }

  /** Two different bytes less than a lap apart never share a slot. */
  lemma SlotsApart(k: nat, l: nat, c: nat)
    requires c > 0 && k < l < k + c
    ensures Slot(k, c) != Slot(l, c)
  {
    ModStep(k, l - k, c);
  }

  lemma IndexSlot(total: nat, c: nat)
    requires c > 0
    ensures IndexOf(total, c) % c == total % c
  {
    if total > 0 && total % c == 0 {
      ModUnique(c, c, 1, 0);
    } else {
      ModUnique(total % c, c, 0, total % c);
    }
  }

  lemma FullLap(c: nat)
    requires c > 0
    ensures IndexOf(c, c) == c
  {
    ModUnique(c, c, 1, 0);
  }

  // Exactness: the wrapping computations on indices equal the unbounded ones on totals.

  /** Wrap-around never shows: `writeIndex + mCapacity` may overflow 32 bits, but the difference
      taken next brings it back. */
  lemma CalcSizeUnbounded(c: uint32, readIndex: nat, writeIndex: nat)
    requires readIndex <= c && writeIndex <= c
    ensures CalcSize(c, readIndex, writeIndex)
         == if writeIndex >= readIndex then writeIndex - readIndex else writeIndex + c - readIndex
  {
  }

  /** `calcSize` takes no modulus, yet it returns the exact number of queued bytes if and only if
      fewer than C bytes are queued, or the very first lap is exactly full. */
  lemma {:induction false} CalcSizeExact(c: uint32, r: nat, w: nat)
    requires 0 < c && r <= w
    ensures CalcSize(c, IndexOf(r, c), IndexOf(w, c)) == w - r <==> w - r < c || (r == 0 && w == c)
  {
    CalcSizeUnbounded(c, IndexOf(r, c), IndexOf(w, c));
    if w - r <= c {
      ModStep(r, w - r, c);
    }
  }

  /** What the writer may copy, seen through both reserved bytes: exactly `Room`. */
  lemma CapacityExact(c: uint32, r: nat, w: nat)
    requires 0 < c && r <= w <= r + Room(c, 0)
    ensures var cap := Capacity(c, IndexOf(r, c), IndexOf(w, c));
      && (cap == 0 ==> Room(c, w - r) == 0)
      && (cap > 0 ==> cap == Room(c, w - r) + 1)
  {
    hide CalcSize, IndexOf;
    CalcSizeExact(c, r, w);
  }

  lemma WriteLengthExact(capacity: uint32, dataLen: nat)
    requires capacity > 0
    ensures WriteLength(capacity, dataLen) == Min(dataLen, capacity - 1)
  {
  }

  lemma AdvanceUnbounded(c: uint32, index: nat, len: nat)
    requires index <= c && len <= c
    ensures Advance(c, index, len) == if index + len <= c then index + len else index + len - c
  {
  }

  /** Storing the index after a copy of at most one lap keeps the representation. */
  lemma AdvanceExact(c: uint32, total: nat, len: nat)
    requires 0 < c && len <= c
    ensures Advance(c, IndexOf(total, c), len) == IndexOf(total + len, c)
  {
    AdvanceUnbounded(c, IndexOf(total, c), len);
    ModStep(total, len, c);
  }

  /** Byte `j` of a copy that starts after `total` bytes lands in slot `(total + j) mod C`. */
  lemma CopySlotExact(c: uint32, total: nat, j: nat)
    requires 0 < c && j < c
    ensures CopySlot(c, IndexOf(total, c), j) == Slot(total + j, c)
  {
    ModStep(total, j, c);
  }

  /** Which byte of a copy of `n` bytes from `index` lands in `slot`; -1 when none does. */
  function Landing(c: nat, index: nat, n: nat, slot: nat): int {
    if index <= slot < c && slot < index + n then slot - index
    else if slot + c < index + n then slot + c - index
    else -1
  }

  /** A copy made after `total` bytes hits the slots of bytes `total .. total + n` and no slot of the
      bytes before them that are less than a lap older than its last byte. */
  lemma LandingExact(c: nat, total: nat, n: nat, k: nat)
    requires 0 < c && n <= c && k < total + n <= k + c
    ensures Landing(c, IndexOf(total, c), n, Slot(k, c)) == if k >= total then k - total else -1
  {
    if k >= total {
      ModStep(total, k - total, c);
    } else {
      ModStep(k, total - k, c);
    }
  }

  /** Index C behaves like position 0: a copy from it goes to the same slots, and as soon as the copy
      is not empty the index stored next is the same. */
  lemma TopIsBottom(c: uint32, j: nat, len: nat)
    requires 0 < c && j < c && 0 < len <= c
    ensures CopySlot(c, c, j) == CopySlot(c, 0, j)
    ensures Advance(c, c, len) == Advance(c, 0, len)
  {
  }

  /** The one ambiguous pair of indices never arises while the two reserved bytes stay free. */
  lemma NeverAmbiguous(c: nat, r: nat, w: nat)
    requires 0 < c && r <= w <= r + Room(c, 0)
    ensures !(IndexOf(r, c) == 0 && IndexOf(w, c) == c)
    ensures IndexOf(r, c) % c == IndexOf(w, c) % c ==> r == w
  {
    IndexSlot(r, c);
    IndexSlot(w, c);
    if r < w {
      SlotsApart(r, w, c);
    }
  }
}
