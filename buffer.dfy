/**
 * The growable byte buffer of src/buffer.c and src/buffer.h: a window
 * [data, tail) of live bytes inside a heap block [head, end). Pointers are
 * modelled as offsets from `head`; the block itself is an array whose length
 * is `end - head`. A NULL `head` is `hasBlock == false` with an empty array.
 *
 * Allocation can fail: every operation that may call malloc/realloc takes
 * `allocOk`, the outcome the allocator chose.
 */
module ByteBuffer {
  import opened Bytes
  import opened Wrappers

  /** getpagesize(), a fixed power of two. */
  const PAGE_SIZE: nat := 4096

  function Pow2(k: nat): (r: nat)
    ensures r >= 1
  {
    if k == 0 then 1 else 2 * Pow2(k - 1)
  }

  lemma {:induction false} Pow2Monotone(i: nat, j: nat)
    requires i <= j
    ensures Pow2(i) <= Pow2(j)
  {
    if i < j {
      Pow2Monotone(i, j - 1);
    }
  }

  /** Sizes of the form PAGE_SIZE * 2^k, the only sizes a heap block ever has. */
  ghost predicate IsPageOrder(n: nat) {
    exists k: nat :: n == PAGE_SIZE * Pow2(k)
  }

  /** The smallest j >= k with PAGE_SIZE * 2^j >= size. */
  function OrderFrom(k: nat, size: nat): (j: nat)
    ensures j >= k && PAGE_SIZE * Pow2(j) >= size
    ensures j == k || PAGE_SIZE * Pow2(j - 1) < size
    decreases size - PAGE_SIZE * Pow2(k)
  {
    if PAGE_SIZE * Pow2(k) >= size then k else OrderFrom(k + 1, size)
  }

  /** The block size that buffer_resize and buffer_set_persistent_size choose for `size`. */
  function Capacity(size: nat): nat {
    PAGE_SIZE * Pow2(OrderFrom(0, size))
  }

  /** Capacity(size) is the smallest PAGE_SIZE * 2^k that holds `size` bytes. */
  lemma CapacityIsLeast(size: nat, k: nat)
    ensures Capacity(size) >= size && Capacity(size) >= PAGE_SIZE && IsPageOrder(Capacity(size))
    ensures PAGE_SIZE * Pow2(k) >= size ==> Capacity(size) <= PAGE_SIZE * Pow2(k)
  {
    var j := OrderFrom(0, size);
    Pow2Monotone(0, j);
    if PAGE_SIZE * Pow2(k) >= size && j > k {
      Pow2Monotone(k, j - 1);
    }
    if j <= k {
      Pow2Monotone(j, k);
    }
  }

  /** The doubling loop shared by buffer_resize and buffer_set_persistent_size. */
  method PageRoundUp(size: nat) returns (newSize: nat)
    ensures newSize == Capacity(size)
  {
    newSize := PAGE_SIZE;
    ghost var k: nat := 0;
    while newSize < size
      invariant newSize == PAGE_SIZE * Pow2(k)
      invariant OrderFrom(k, size) == OrderFrom(0, size)
      decreases size - newSize
    {
      newSize := newSize * 2;
      k := k + 1;
    }
  }

  function Min(a: nat, b: nat): nat { if a <= b then a else b }

  /** s[lo..hi] is s[lo..mid] followed by s[mid..hi]. */
  lemma SliceSplit(s: seq<bv8>, lo: nat, mid: nat, hi: nat)
    requires lo <= mid <= hi <= |s|
    ensures s[lo..hi] == s[lo..mid] + s[mid..hi]
  {
  }

  /** A window of a window of a block is a window of the block. */
  lemma WindowOfWindow(a: array<bv8>, lo: nat, hi: nat, i: nat, j: nat)
    requires lo <= hi <= a.Length && i <= j <= hi - lo
    ensures a[lo..hi][i..j] == a[lo + i..lo + j]
  {
    forall k | 0 <= k < j - i
      ensures a[lo..hi][i..j][k] == a[lo + i..lo + j][k]
    {
    }
  }

  /** Two sequences that agree on their first `k` elements agree on every shorter prefix. */
  lemma CommonPrefix(a: seq<bv8>, b: seq<bv8>, m: nat, k: nat)
    requires m <= k <= |a| && k <= |b| && a[..k] == b[..k]
    ensures a[..m] == b[..m]
  {
    assert a[..m] == a[..k][..m];
    assert b[..m] == b[..k][..m];
  }

  /** memcpy/memset into a block: write `src` at `at`, keeping the bytes in [from, at). */
  method CopyInto(block: array<bv8>, from: nat, at: nat, src: seq<bv8>)
    requires from <= at && at + |src| <= block.Length
    modifies block
    ensures block[from..at] == old(block[from..at])
    ensures block[at..at + |src|] == src
  {
    var i := 0;
    while i < |src|
      invariant 0 <= i <= |src|
      invariant block[from..at] == old(block[from..at])
      invariant block[at..at + i] == src[..i]
    {
      block[at + i] := src[i];
      i := i + 1;
    }
  }

  /** memcpy out of a block: copy the `n` bytes at `from` to the front of `dest`. */
  method CopyOut(dest: array<bv8>, block: array<bv8>, from: nat, n: nat)
    requires dest != block && from + n <= block.Length && n <= dest.Length
    modifies dest
    ensures dest[..n] == block[from..from + n]
    ensures dest[n..] == old(dest[n..])
  {
    var i := 0;
    while i < n
      invariant 0 <= i <= n
      invariant dest[..i] == block[from..from + i]
      invariant dest[n..] == old(dest[n..])
    {
      dest[i] := block[from + i];
      i := i + 1;
    }
  }

  /** realloc: a fresh block of `newSize` bytes that starts with the old block's bytes. */
  method Reallocate(block: array<bv8>, newSize: nat) returns (grown: array<bv8>)
    ensures fresh(grown) && grown.Length == newSize
    ensures grown[..Min(block.Length, newSize)] == block[..Min(block.Length, newSize)]
  {
    grown := new bv8[newSize];
    var n := Min(block.Length, newSize);
    var i := 0;
    while i < n
      modifies grown
      invariant 0 <= i <= n
      invariant grown[..i] == block[..i]
    {
      grown[i] := block[i];
      i := i + 1;
    }
  }

  class Buffer {
    var persistent: nat
    var head: array<bv8>
    var hasBlock: bool
    var data: nat
    var tail: nat

    /** head <= data <= tail <= end; a NULL head has every pointer NULL. */
    ghost predicate Valid()
      reads this
    {
      && data <= tail <= head.Length
      && (!hasBlock ==> head.Length == 0 && data == 0 && tail == 0)
      && (hasBlock ==> IsPageOrder(head.Length))
    }

    /** The live bytes, [data, tail). */
    ghost function Contents(): seq<bv8>
      reads this, head
      requires Valid()
    {
      head[data..tail]
    }

    /** A zero-filled struct buffer, as a caller declares it before buffer_init. */
    constructor ()
      ensures Valid() && !hasBlock && persistent == 0 && Contents() == []
    {
      persistent, head, hasBlock, data, tail := 0, new bv8[0], false, 0, 0;
    }

    function Size(): nat
      reads this
    {
      head.Length
    }

    function Headroom(): nat
      reads this
    {
      data
    }

    function Tailroom(): nat
      reads this
      requires Valid()
    {
      head.Length - tail
    }

    /** buffer_length: the number of live bytes; the three regions tile the block. */
    function Length(): (n: nat)
      reads this, head
      requires Valid()
      ensures n == |Contents()|
      ensures Headroom() + n + Tailroom() == Size()
    {
      tail - data
    }

    /**
     * buffer_resize: move the live bytes to the front of the block, then
     * reallocate it to Capacity(size) bytes, clipping the live bytes when the
     * new block is smaller. If the allocator fails, the compaction has
     * already happened and -1 is returned.
     */
    method Resize(size: nat, allocOk: bool) returns (r: int)
      requires Valid()
      modifies this, head
      ensures Valid() && persistent == old(persistent)
      ensures r == (if allocOk then 0 else -1)
      ensures allocOk ==> hasBlock && fresh(head) && Size() == Capacity(size) && data == 0
      ensures allocOk ==> Contents() == old(Contents())[..Min(old(Length()), Capacity(size))]
      ensures !allocOk ==> hasBlock == old(hasBlock) && head == old(head) && Contents() == old(Contents())
      ensures !allocOk && old(hasBlock) ==> data == 0
      ensures !allocOk && !old(hasBlock) ==> data == old(data) && tail == old(tail)
    {
      var newSize := PageRoundUp(size);
      CapacityIsLeast(size, 0);
      var dataLen := Length();
      ghost var live := Contents();
      if hasBlock {
        if data > 0 {
          Compact();
        }
        if !allocOk {
          return -1;
        }
        ghost var before := head[..];
        assert before[..dataLen] == live;
        head := Reallocate(head, newSize);
        CommonPrefix(head[..], before, Min(dataLen, newSize), Min(|before|, newSize));
      } else {
        if !allocOk {
          return -1;
        }
        head := new bv8[newSize];
      }
      hasBlock, data, tail := true, 0, Min(dataLen, newSize);
      r := 0;
    }

    /** The memmove step of buffer_resize: slide the live bytes to the start of the block. */
    method Compact()
      requires Valid()
      modifies this`data, this`tail, head
      ensures Valid() && data == 0 && Contents() == old(Contents())
    {
      ghost var live := Contents();
      var dataLen := tail - data;
      var i := 0;
      // copying forwards is safe: the target precedes the source
      while i < dataLen
        modifies head
        invariant 0 <= i <= dataLen && data + dataLen == tail <= head.Length
        invariant head[..i] == live[..i]
        invariant forall j :: i <= j < dataLen ==> head[data + j] == live[j]
      {
        head[i] := head[data + i];
        i := i + 1;
      }
      data, tail := 0, dataLen;
    }

    /** buffer_init: clear every field, then allocate only when `size` is not 0. */
    method Init(size: nat, allocOk: bool) returns (r: int)
      modifies this
      ensures Valid() && persistent == 0 && Contents() == [] && data == 0
      ensures size == 0 ==> r == 0 && !hasBlock && Size() == 0
      ensures size > 0 ==> r == (if allocOk then 0 else -1)
      ensures size > 0 && allocOk ==> hasBlock && Size() == Capacity(size)
      ensures size > 0 && !allocOk ==> !hasBlock && Size() == 0
    {
      persistent, head, hasBlock, data, tail := 0, new bv8[0], false, 0, 0;
      r := 0;
      if size > 0 {
        r := Resize(size, allocOk);
      }
    }

    /** buffer_free: release the block and clear every field, unless there is no block. */
    method Free()
      requires Valid()
      modifies this
      ensures Valid()
      ensures old(hasBlock) ==> !hasBlock && Size() == 0 && data == 0 && tail == 0 && persistent == 0
      ensures !old(hasBlock) ==> unchanged(this)
    {
      if hasBlock {
        persistent, head, hasBlock, data, tail := 0, new bv8[0], false, 0, 0;
      }
    }

    /** buffer_grow: resize to the current block size plus `len`. */
    method Grow(len: nat, allocOk: bool) returns (r: int)
      requires Valid()
      modifies this, head
      ensures Valid() && persistent == old(persistent) && Contents() == old(Contents())
      ensures r == (if allocOk then 0 else -1)
      ensures allocOk ==> fresh(head) && Size() == Capacity(old(Size()) + len) && Tailroom() >= len
      ensures !allocOk ==> head == old(head) && hasBlock == old(hasBlock)
      ensures old(hasBlock) || allocOk ==> data == 0
      ensures !old(hasBlock) && !allocOk ==> data == old(data)
    {
      ghost var oldLen := Length();
      r := Resize(Size() + len, allocOk);
      if allocOk {
        CapacityIsLeast(old(Size()) + len, 0);
        assert Min(oldLen, Capacity(old(Size()) + len)) == oldLen;
      }
    }

    /** The room buffer_put finds at the tail once it has rewound an empty window. */
    function PutRoom(): nat
      reads this
      requires Valid()
    {
      if tail == data then head.Length else head.Length - tail
    }

    /**
     * buffer_put: extend the live bytes by `len` and return the offset of the
     * first new byte. An empty window is first rewound to the block start;
     * the block grows only when the room at the tail is short. NULL is
     * returned when growing fails, and also when there is still no block
     * (which happens for `len == 0` on a buffer never hasBlock).
     */
    method Put(len: nat, allocOk: bool) returns (p: Option<nat>)
      requires Valid()
      modifies this, head
      ensures Valid() && persistent == old(persistent)
      ensures old(PutRoom()) >= len ==> head == old(head) && hasBlock == old(hasBlock)
      ensures old(PutRoom()) < len && allocOk ==> fresh(head) && Size() == Capacity(old(Size()) + len)
      ensures p.Some? <==> (old(PutRoom()) >= len || allocOk) && (old(hasBlock) || len > 0)
      ensures p.Some? ==> p.value == data + old(Length()) && tail == p.value + len
      ensures p.Some? ==> Length() == old(Length()) + len && Contents()[..old(Length())] == old(Contents())
      ensures p.None? ==> Contents() == old(Contents())
    {
      var ok := MakeRoom(len, allocOk);
      if !ok || !hasBlock {
        return None;
      }
      WindowOfWindow(head, data, tail + len, 0, tail - data);
      p := Some(tail);
      tail := tail + len;
    }

    /**
     * The first half of buffer_put: rewind an empty window, then grow the
     * block when the room at the tail is short of `len`.
     */
    method MakeRoom(len: nat, allocOk: bool) returns (ok: bool)
      requires Valid()
      modifies this, head
      ensures Valid() && persistent == old(persistent) && Contents() == old(Contents())
      ensures ok <==> old(PutRoom()) >= len || allocOk
      ensures ok ==> Tailroom() >= len && (hasBlock <==> old(hasBlock) || len > 0)
      ensures old(PutRoom()) >= len ==> head == old(head) && hasBlock == old(hasBlock)
      ensures old(PutRoom()) < len && allocOk ==> fresh(head) && Size() == Capacity(old(Size()) + len)
      ensures !ok ==> head == old(head)
    {
      if Length() == 0 {
        data, tail := 0, 0;
      }
      ok := true;
      if Tailroom() < len {
        var r := Grow(len, allocOk);
        ok := r == 0;
      }
    }

    /**
     * buffer_pull: drop min(len, length) bytes from the front, copying them
     * to `dest` first when `dest` is not NULL; `tail` does not move.
     */
    method Pull(dest: array?<bv8>, len: nat) returns (n: nat)
      requires Valid()
      requires dest != null ==> dest != head && Min(len, Length()) <= dest.Length
      modifies this, dest
      ensures Valid() && head == old(head) && hasBlock == old(hasBlock) && persistent == old(persistent)
      ensures n == Min(len, old(Length())) && tail == old(tail)
      ensures Contents() == old(Contents())[n..]
      ensures dest != null ==> dest[..n] == old(Contents())[..n] && dest[n..] == old(dest[n..])
    {
      ghost var live := Contents();
      n := if len > Length() then Length() else len;
      if dest != null {
        CopyOut(dest, head, data, n);
        WindowOfWindow(head, data, tail, 0, n);
        assert dest[..n] == live[..n];
      }
      WindowOfWindow(head, data, tail, n, tail - data);
      data := data + n;
    }

    /**
     * buffer_check_persistent_size: shrink the block back to the persistent
     * size when one is set, the block is larger and the live bytes fit.
     */
    method CheckPersistentSize(allocOk: bool)
      requires Valid()
      modifies this, head
      ensures Valid() && persistent == old(persistent) && Contents() == old(Contents())
      ensures (persistent > 0 && old(Size()) > persistent && old(Length()) < persistent && allocOk)
          ==> Size() == Capacity(persistent)
      ensures (persistent > 0 && old(Size()) > persistent && old(Length()) < persistent && !allocOk)
          ==> head == old(head) && hasBlock == old(hasBlock) && Size() == old(Size())
      ensures !(persistent > 0 && old(Size()) > persistent && old(Length()) < persistent)
          ==> unchanged(this)
    {
      if persistent > 0 && Size() > persistent && Length() < persistent {
        ghost var oldLen := Length();
        var _ := Resize(persistent, allocOk);
        CapacityIsLeast(persistent, 0);
        assert Min(oldLen, Capacity(persistent)) == oldLen;
      }
    }

    /** buffer_set_persistent_size: store the rounded-up persistent size. */
    method SetPersistentSize(size: nat)
      modifies this`persistent
      ensures persistent == Capacity(size)
    {
      persistent := PageRoundUp(size);
    }

    /**
     * buffer_truncate: cut the live bytes down to `len` when there are more,
     * then apply the persistent-size policy; otherwise change nothing.
     */
    method Truncate(len: nat, allocOk: bool)
      requires Valid()
      modifies this, head
      ensures Valid() && persistent == old(persistent)
      ensures old(Length()) > len ==> Contents() == old(Contents())[..len]
      ensures old(Length()) > len && persistent > 0 && old(Size()) > persistent && len < persistent
          ==> Size() == (if allocOk then Capacity(persistent) else old(Size()))
      ensures old(Length()) > len && !(persistent > 0 && old(Size()) > persistent && len < persistent)
          ==> head == old(head) && Size() == old(Size())
      ensures old(Length()) <= len ==> unchanged(this) && Contents() == old(Contents())
    {
      if Length() > len {
        tail := data + len;
        CheckPersistentSize(allocOk);
      }
    }

    /** Fill the `|src|` bytes that buffer_put has just reserved at `at`. */
    method Append(at: nat, src: seq<bv8>)
      requires Valid() && data <= at && tail == at + |src|
      modifies head
      ensures Valid() && Contents() == old(Contents()[..at - data]) + src
    {
      CopyInto(head, data, at, src);
      SliceSplit(head[..], data, at, tail);
    }

    /** buffer_put_zero: append `len` zero bytes. */
    method PutZero(len: nat, allocOk: bool) returns (p: Option<nat>)
      requires Valid()
      modifies this, head
      ensures Valid() && persistent == old(persistent)
      ensures p.Some? <==> (old(PutRoom()) >= len || allocOk) && (old(hasBlock) || len > 0)
      ensures p.Some? ==> Contents() == old(Contents()) + seq(len, _ => 0)
      ensures p.None? ==> Contents() == old(Contents())
    {
      p := Put(len, allocOk);
      if p.Some? {
        Append(p.value, seq(len, _ => 0));
      }
    }

    /** buffer_put_data: append exactly the bytes of `src`. */
    method PutData(src: seq<bv8>, allocOk: bool) returns (p: Option<nat>)
      requires Valid()
      modifies this, head
      ensures Valid() && persistent == old(persistent)
      ensures p.Some? <==> (old(PutRoom()) >= |src| || allocOk) && (old(hasBlock) || |src| > 0)
      ensures p.Some? ==> Contents() == old(Contents()) + src
      ensures p.None? ==> Contents() == old(Contents())
    {
      p := Put(|src|, allocOk);
      if p.Some? {
        Append(p.value, src);
      }
    }

    /** Shared by buffer_put_u8 .. buffer_put_u64: append `width` bytes holding `val` in host order. */
    method PutWord(val: nat, width: nat, allocOk: bool) returns (r: int)
      requires Valid() && 0 < width && val < Pow256(width)
      modifies this, head
      ensures Valid() && persistent == old(persistent)
      ensures r == (if old(PutRoom()) >= width || allocOk then 0 else -1)
      ensures r == 0 ==> Contents() == old(Contents()) + LittleEndianBytes(val, width)
      ensures r == 0 ==> LittleEndian(Contents()[old(Length())..]) == val
      ensures r == -1 ==> Contents() == old(Contents())
    {
      var p := PutData(LittleEndianBytes(val, width), allocOk);
      r := if p.Some? then 0 else -1;
      if r == 0 {
        LittleEndianRoundTrip(val, width);
        assert Contents()[old(Length())..] == LittleEndianBytes(val, width);
      }
    }

    /** buffer_put_u8. */
    method PutU8(val: bv8, allocOk: bool) returns (r: int)
      requires Valid()
      modifies this, head
      ensures Valid() && persistent == old(persistent)
      ensures r == (if old(PutRoom()) >= 1 || allocOk then 0 else -1)
      ensures r == 0 ==> Contents() == old(Contents()) + [val]
      ensures r == -1 ==> Contents() == old(Contents())
    {
      OneByte(val);
      r := PutWord(val as nat, 1, allocOk);
    }

    /** buffer_put_u16. */
    method PutU16(val: u16, allocOk: bool) returns (r: int)
      requires Valid()
      modifies this, head
      ensures Valid() && persistent == old(persistent)
      ensures r == (if old(PutRoom()) >= 2 || allocOk then 0 else -1)
      ensures r == 0 ==> |Contents()| == old(|Contents()|) + 2 && LittleEndian(Contents()[old(Length())..]) == val as nat
      ensures r == 0 ==> Contents()[..old(Length())] == old(Contents())
      ensures r == -1 ==> Contents() == old(Contents())
    {
      r := PutWord(val as nat, 2, allocOk);
    }

    /** buffer_put_u32. */
    method PutU32(val: u32, allocOk: bool) returns (r: int)
      requires Valid()
      modifies this, head
      ensures Valid() && persistent == old(persistent)
      ensures r == (if old(PutRoom()) >= 4 || allocOk then 0 else -1)
      ensures r == 0 ==> |Contents()| == old(|Contents()|) + 4 && LittleEndian(Contents()[old(Length())..]) == val as nat
      ensures r == 0 ==> Contents()[..old(Length())] == old(Contents())
      ensures r == -1 ==> Contents() == old(Contents())
    {
      r := PutWord(val as nat, 4, allocOk);
    }

    /** buffer_put_u64. */
    method PutU64(val: u64, allocOk: bool) returns (r: int)
      requires Valid()
      modifies this, head
      ensures Valid() && persistent == old(persistent)
      ensures r == (if old(PutRoom()) >= 8 || allocOk then 0 else -1)
      ensures r == 0 ==> |Contents()| == old(|Contents()|) + 8 && LittleEndian(Contents()[old(Length())..]) == val as nat
      ensures r == 0 ==> Contents()[..old(Length())] == old(Contents())
      ensures r == -1 ==> Contents() == old(Contents())
    {
      r := PutWord(val as nat, 8, allocOk);
    }

    /** buffer_put_string: append the bytes of the C string `s` before its first NUL, without the NUL. */
    method PutString(s: seq<bv8>, allocOk: bool) returns (r: int)
      requires Valid()
      modifies this, head
      ensures Valid() && persistent == old(persistent)
      ensures r == (if (old(PutRoom()) >= StrLen(s) || allocOk) && (old(hasBlock) || StrLen(s) > 0) then 0 else -1)
      ensures r == 0 ==> Contents() == old(Contents()) + s[..StrLen(s)] && 0 !in Contents()[old(Length())..]
      ensures r == -1 ==> Contents() == old(Contents())
    {
      var len := StrLen(s);
      var p := PutData(s[..len], allocOk);
      r := if p.Some? then 0 else -1;
      if r == 0 {
        assert Contents()[old(Length())..] == s[..len];
      }
    }

    /**
     * Shared by buffer_pull_u8 .. buffer_pull_u64: with at least `width` live
     * bytes, consume them and return their host-order value; otherwise
     * return 0 and change nothing.
     */
    method PullWord(width: nat) returns (v: nat)
      requires Valid()
      modifies this`data
      ensures Valid()
      ensures v < Pow256(width)
      ensures old(Length()) < width ==> v == 0 && data == old(data)
      ensures old(Length()) >= width ==> v == LittleEndian(old(Contents())[..width]) && Contents() == old(Contents())[width..]
    {
      v := 0;
      if Length() >= width {
        WindowOfWindow(head, data, tail, 0, width);
        v := LittleEndian(head[data..data + width]);
        data := data + width;
      }
    }

    /** buffer_pull_u8. */
    method PullU8() returns (v: bv8)
      requires Valid()
      modifies this`data
      ensures Valid()
      ensures old(Length()) < 1 ==> v == 0 && data == old(data)
      ensures old(Length()) >= 1 ==> v == old(Contents())[0] && Contents() == old(Contents())[1..]
    {
      var w := PullWord(1);
      v := w as bv8;
      if old(Length()) >= 1 {
        SingleByte(old(Contents())[..1]);
      }
    }

    /** buffer_pull_u16. */
    method PullU16() returns (v: u16)
      requires Valid()
      modifies this`data
      ensures Valid()
      ensures old(Length()) < 2 ==> v == 0 && data == old(data)
      ensures old(Length()) >= 2 ==> v as nat == LittleEndian(old(Contents())[..2]) && Contents() == old(Contents())[2..]
    {
      var w := PullWord(2);
      v := w as u16;
    }

    /** buffer_pull_u32. */
    method PullU32() returns (v: u32)
      requires Valid()
      modifies this`data
      ensures Valid()
      ensures old(Length()) < 4 ==> v == 0 && data == old(data)
      ensures old(Length()) >= 4 ==> v as nat == LittleEndian(old(Contents())[..4]) && Contents() == old(Contents())[4..]
    {
      var w := PullWord(4);
      v := w as u32;
    }

    /** buffer_pull_u64. */
    method PullU64() returns (v: u64)
      requires Valid()
      modifies this`data
      ensures Valid()
      ensures old(Length()) < 8 ==> v == 0 && data == old(data)
      ensures old(Length()) >= 8 ==> v as nat == LittleEndian(old(Contents())[..8]) && Contents() == old(Contents())[8..]
    {
      var w := PullWord(8);
      v := w as u64;
    }

    /**
     * Shared by buffer_get_u8 .. buffer_get_u64: the host-order value of the
     * `width` live bytes at `offset`, or 0 when they are not all live. The
     * guard is the corrected one (see GetGuardAsWritten).
     */
    method GetWord(offset: int, width: nat) returns (v: nat)
      requires Valid()
      ensures v < Pow256(width)
      ensures 0 <= offset && offset + width <= Length() ==> v == LittleEndian(Contents()[offset..offset + width])
      ensures !(0 <= offset && offset + width <= Length()) ==> v == 0
    {
      v := 0;
      if 0 <= offset && offset + width <= Length() {
        var lo := data + offset;
        WindowOfWindow(head, data, tail, offset, offset + width);
        v := LittleEndian(head[lo..lo + width]);
      }
    }

    /** buffer_get_u8. */
    method GetU8(offset: int) returns (v: bv8)
      requires Valid()
      ensures 0 <= offset < Length() ==> v == Contents()[offset]
      ensures !(0 <= offset < Length()) ==> v == 0
    {
      var w := GetWord(offset, 1);
      v := w as bv8;
      if 0 <= offset < Length() {
        SingleByte(Contents()[offset..offset + 1]);
      }
    }

    /** buffer_get_u16. */
    method GetU16(offset: int) returns (v: u16)
      requires Valid()
      ensures 0 <= offset && offset + 2 <= Length()
          ==> v as int == Contents()[offset] as int + 256 * Contents()[offset + 1] as int
      ensures !(0 <= offset && offset + 2 <= Length()) ==> v == 0
    {
      var w := GetWord(offset, 2);
      v := w as u16;
    }

    /** buffer_get_u32. */
    method GetU32(offset: int) returns (v: u32)
      requires Valid()
      ensures 0 <= offset && offset + 4 <= Length() ==> v as nat == LittleEndian(Contents()[offset..offset + 4])
      ensures !(0 <= offset && offset + 4 <= Length()) ==> v == 0
    {
      var w := GetWord(offset, 4);
      v := w as u32;
    }

    /** buffer_get_u64. */
    method GetU64(offset: int) returns (v: u64)
      requires Valid()
      ensures 0 <= offset && offset + 8 <= Length() ==> v as nat == LittleEndian(Contents()[offset..offset + 8])
      ensures !(0 <= offset && offset + 8 <= Length()) ==> v == 0
    {
      var w := GetWord(offset, 8);
      v := w as u64;
    }
  }

  /**
   * The guard of buffer_get_u16/u32/u64 as written: `offset + width - 1`
   * is computed as a signed size and compared, converted to unsigned, with
   * the length.
   */
  predicate GetGuardAsWritten(length: nat, offset: int, width: nat)
    requires 0 < width && length < 0x8000_0000_0000_0000
    requires -0x8000_0000_0000_0000 <= offset < 0x8000_0000_0000_0000 - width
  {
    length > (offset + width - 1) % 0x1_0000_0000_0000_0000
  }

  /** With offset -1 and one live byte, the guard of buffer_get_u16 admits a read that starts before the data. */
  lemma GetU16NegativeOffsetPassesGuard()
    ensures GetGuardAsWritten(1, -1, 2)
    ensures !(0 <= -1 && -1 + 2 <= 1)
  {
  }

  /** The guard of buffer_get_u32 admits offset -1 with three live bytes. */
  lemma GetU32NegativeOffsetPassesGuard()
    ensures GetGuardAsWritten(3, -1, 4)
    ensures !(0 <= -1 && -1 + 4 <= 3)
  {
  }

  /** The guard of buffer_get_u64 admits offset -1 with seven live bytes. */
  lemma GetU64NegativeOffsetPassesGuard()
    ensures GetGuardAsWritten(7, -1, 8)
    ensures !(0 <= -1 && -1 + 8 <= 7)
  {
  }
}
