/** The circular buffer both guidance engines keep their magnitude history
    in.  The firmware header defines a float and a uint32 variant with the
    same code; the host test build defines the float one again.  All three
    are the one generic class `CircBuf<T>` below, at `real` or `U32`. */
module CircBuf {

  /** uint32_t */
  newtype U32 = x: int | 0 <= x < 0x1_0000_0000

  /** Cursor after a write at `i`: one further on, back to 0 on reaching
      `size`. */
  function NextIdx(i: nat, size: nat): (r: nat)
    requires i < size
    ensures r < size
    ensures r == (i + 1) % size
    ensures r == 0 <==> i == size - 1
  {
    var j := i + 1;
    if j == size then 0 else j
  }

  /** The slot a read looks at when the cursor is `i`: the one before it,
      `size - 1` when the cursor is 0. */
  function PrevIdx(i: nat, size: nat): (r: nat)
    requires i < size
    ensures r < size
    ensures NextIdx(r, size) == i
  {
    if i == 0 then size - 1 else i - 1
  }

  /** The slot the next read looks at is the one the last write filled. */
  lemma PrevOfNext(i: nat, size: nat)
    requires i < size
    ensures PrevIdx(NextIdx(i, size), size) == i
  {
  }

  /** The cursor after `n` writes starting at `i`. */
  function Advance(i: nat, size: nat, n: nat): (r: nat)
    requires i < size
    ensures r < size
    decreases n
  {
    if n == 0 then i else Advance(NextIdx(i, size), size, n - 1)
  }

  /** `n` writes move the cursor `n` places on, modulo the size. */
  lemma {:induction false} AdvanceIsModular(i: nat, size: nat, n: nat)
    requires i < size
    ensures Advance(i, size, n) == (i + n) % size
    decreases n
  {
    if n == 0 {
      ModUnique(i, 0, i, size);
    } else if i + 1 < size {
      assert Advance(i, size, n) == Advance(i + 1, size, n - 1);
      AdvanceIsModular(i + 1, size, n - 1);
    } else {
      assert Advance(i, size, n) == Advance(0, size, n - 1);
      AdvanceIsModular(0, size, n - 1);
      assert i + n == (n - 1) + size;
      ModAddSize(n - 1, size);
    }
  }

  /** After `size` consecutive writes the cursor is back where it began. */
  lemma FullLapReturns(i: nat, size: nat)
    requires i < size
    ensures Advance(i, size, size) == i
  {
    AdvanceIsModular(i, size, size);
    ModAddSize(i, size);
    ModUnique(i, 0, i, size);
  }

  lemma ModAddSize(m: nat, size: nat)
    requires 0 < size
    ensures (m + size) % size == m % size
  {
    var q, r := m / size, m % size;
    assert m == q * size + r;
    assert m + size == (q + 1) * size + r;
    ModUnique(m + size, q + 1, r, size);
  }

  /** Euclidean division has one quotient and one remainder. */
  lemma ModUnique(a: int, q: int, r: int, size: int)
    requires 0 < size && 0 <= r < size && a == q * size + r
    ensures a % size == r
  {
    var q', r' := a / size, a % size;
    assert a == q' * size + r';
    var k := q - q';
    assert k * size == r' - r;
    if k >= 1 {
      MulAtLeast(k, size);
      assert false;
    } else if k <= -1 {
      MulAtLeast(-k, size);
      assert false;
    }
  }

  lemma MulAtLeast(k: int, size: int)
    requires k >= 1 && size > 0
    ensures k * size >= size
  {
  }

  /** circ_buf_float / circ_buf_uint32: a caller-owned array, the cursor of
      the next write, and the number of slots in use. */
  class CircBuf<T> {
    var buf: array?<T>
    var idx: nat
    var size: nat

    /** What the writes and reads need: a buffer of at least `size` slots,
        `size` non-zero, and the cursor inside it. */
    ghost predicate Valid()
      reads this
    {
      buf != null && 0 < size <= buf.Length && idx < size
    }

    /** circ_buf_init: binds the buffer and its size, cursor at 0.  Like the
        C code it checks nothing; the result is `Valid()` exactly when the
        caller supplied a usable buffer and size. */
    constructor (buf: array?<T>, size: nat)
      ensures this.buf == buf && this.size == size && idx == 0
      ensures Valid() <==> buf != null && 0 < size <= buf.Length
    {
      this.buf := buf;
      this.size := size;
      idx := 0;
    }

    /** circ_buf_rd: the slot just before the cursor, i.e. the value of the
        most recent write. */
    function Read(): (v: T)
      reads this, buf
      requires Valid()
      ensures v == buf[PrevIdx(idx, size)]
    {
      buf[PrevIdx(idx, size)]
    }

    /** circ_buf_wr: stores `val` at the cursor, leaves every other slot as
        it was, advances the cursor one place (wrapping), and a read right
        after returns `val`. */
    method Write(val: T)
      requires Valid()
      modifies this, buf
      ensures Valid() && buf == old(buf) && size == old(size)
      ensures buf[..] == old(buf[..])[old(idx) := val]
      ensures idx == NextIdx(old(idx), size)
      ensures Read() == val
    {
      var i := idx;
      buf[i] := val;
      i := i + 1;
      if i == size {
        idx := 0;
      } else {
        idx := i;
      }
      PrevOfNext(old(idx), size);
    }
  }

  /** The float and uint32 buffers of the firmware header. */
  type CircBufFloat = CircBuf<real>
  type CircBufUint32 = CircBuf<U32>
}
