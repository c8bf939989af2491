/**
 * The pixel buffer of load_image_new (gl_texture.c): its size, the row
 * pointers that put the file's last row first (OpenGL reads texture rows
 * bottom-up), and the copy of the decoded rows through those pointers.
 */
module RowLayout {

  newtype byte = x: int | 0 <= x < 256

  /** RGBA, 8 bits per channel. */
  const BYTES_PER_PIXEL := 4

  /** Largest value of a C int, and of a PNG width or height (2^31 - 1). */
  const INT32_MAX := 0x7FFF_FFFF

  /** Number of values of a 32-bit int. */
  const INT32_MODULUS := 2 * (INT32_MAX + 1)

  /** Number of values of a 64-bit size_t. */
  const SIZE_T_MODULUS := 0x1_0000_0000_0000_0000

  /** The bytes of one pixel row. */
  function Stride(w: int): int
  {
    w * BYTES_PER_PIXEL
  }

  // ---------------------------------------------------------------------
  // Buffer size
  // ---------------------------------------------------------------------

  /** Two's-complement wrap-around of a 32-bit int: the int congruent to x modulo 2^32. */
  function WrapInt32(x: int): (r: int)
    ensures -INT32_MAX - 1 <= r <= INT32_MAX
    ensures (r - x) % INT32_MODULUS == 0
    ensures -INT32_MAX - 1 <= x <= INT32_MAX ==> r == x
  {
    (x + INT32_MAX + 1) % INT32_MODULUS - (INT32_MAX + 1)
  }

  /**
   * `*w * *h * 4` as written: a product of C ints, so it wraps (in
   * practice) once the image holds 2^31 bytes or more.
   */
  function ImageBytesAsWritten(w: int, h: int): (n: int)
    ensures -INT32_MAX - 1 <= n <= INT32_MAX
    ensures (n - w * h * BYTES_PER_PIXEL) % INT32_MODULUS == 0
  {
    var wh := WrapInt32(w * h);
    var n := WrapInt32(wh * BYTES_PER_PIXEL);
    CongruentTimesFour(wh, w * h);
    CongruenceTransitive(n, wh * BYTES_PER_PIXEL, w * h * BYTES_PER_PIXEL);
    n
  }

  lemma CongruentTimesFour(a: int, b: int)
    requires (a - b) % INT32_MODULUS == 0
    ensures (a * BYTES_PER_PIXEL - b * BYTES_PER_PIXEL) % INT32_MODULUS == 0
  {
    var k := (a - b) / INT32_MODULUS;
    assert a - b == k * INT32_MODULUS;
    assert a * BYTES_PER_PIXEL - b * BYTES_PER_PIXEL == (4 * k) * INT32_MODULUS;
  }

  lemma CongruenceTransitive(a: int, b: int, c: int)
    requires (a - b) % INT32_MODULUS == 0 && (b - c) % INT32_MODULUS == 0
    ensures (a - c) % INT32_MODULUS == 0
  {
    var k1, k2 := (a - b) / INT32_MODULUS, (b - c) / INT32_MODULUS;
    assert a - c == (k1 + k2) * INT32_MODULUS;
  }

  /** The int product is right as long as the image holds fewer than 2^31 bytes. */
  lemma ImageBytesAsWrittenExactWhenSmall(w: int, h: int)
    requires 0 <= w && 0 <= h && w * h * BYTES_PER_PIXEL <= INT32_MAX
    ensures ImageBytesAsWritten(w, h) == w * h * BYTES_PER_PIXEL
  {
  }

  /**
   * A 32768 x 16384 image (well inside PNG's limits) needs 2^31 bytes, but
   * the int product wraps to a negative size.
   */
  lemma ImageBytesAsWrittenOverflows()
    ensures 32768 * 16384 * BYTES_PER_PIXEL == INT32_MAX + 1
    ensures ImageBytesAsWritten(32768, 16384) == -INT32_MAX - 1
  {
  }

  /**
   * The buffer size computed in size_t: `(size_t)*w * *h * 4`. For every
   * width and height PNG allows it is the exact byte count.
   */
  function ImageBytes(w: int, h: int): (n: nat)
    requires 1 <= w <= INT32_MAX && 1 <= h <= INT32_MAX
    ensures n == h * Stride(w)
    ensures n == w * h * BYTES_PER_PIXEL
  {
    ProductBound(w, h);
    RowsTimesStride(w, h);
    ((w * h) % SIZE_T_MODULUS * BYTES_PER_PIXEL) % SIZE_T_MODULUS
  }

  lemma RowsTimesStride(w: int, h: int)
    ensures w * h * BYTES_PER_PIXEL == h * Stride(w)
  {
  }

  lemma ProductBound(w: int, h: int)
    requires 0 <= w <= INT32_MAX && 0 <= h <= INT32_MAX
    ensures 0 <= w * h <= INT32_MAX * INT32_MAX
  {
    MulMonotone(w, INT32_MAX, h);
    MulMonotone(h, INT32_MAX, INT32_MAX);
  }

  lemma MulMonotone(a: int, b: int, c: int)
    requires 0 <= a <= b && 0 <= c
    ensures 0 <= a * c <= b * c
  {
    assert b * c - a * c == (b - a) * c;
  }

  // ---------------------------------------------------------------------
  // Row pointers
  // ---------------------------------------------------------------------

  /** The byte offset rowPointers[r] gets for file row r: buffer row h - 1 - r. */
  function RowOffset(w: int, h: int, r: int): int
  {
    (h - 1 - r) * Stride(w)
  }

  /**
   * The loop of load_image_new that fills rowPointers: file row h - 1 - i
   * starts at byte i * w * 4, so the file's last row comes first.
   */
  method ComputeRowPointers(w: nat, h: nat) returns (rowPointers: array<int>)
    ensures fresh(rowPointers) && rowPointers.Length == h
    ensures forall i :: 0 <= i < h ==> rowPointers[h - i - 1] == i * w * 4
    ensures forall r :: 0 <= r < h ==> rowPointers[r] == RowOffset(w, h, r)
  {
    rowPointers := new int[h];
    var i := 0;
    while i < h
      invariant 0 <= i <= h
      invariant forall j :: 0 <= j < i ==> rowPointers[h - j - 1] == j * w * 4
    {
      rowPointers[h - i - 1] := i * w * 4;
      i := i + 1;
    }
    forall r | 0 <= r < h
      ensures rowPointers[r] == RowOffset(w, h, r)
    {
      var j := h - 1 - r;
      assert rowPointers[h - j - 1] == j * w * 4;
    }
  }

  /** Every row slice [RowOffset, RowOffset + stride) lies inside the w * h * 4 byte buffer. */
  lemma RowSliceInBuffer(w: nat, h: nat, r: int)
    requires 0 <= r < h
    ensures 0 <= RowOffset(w, h, r)
    ensures RowOffset(w, h, r) + Stride(w) == (h - r) * Stride(w)
    ensures RowOffset(w, h, r) + Stride(w) <= h * Stride(w)
  {
    var s, k := Stride(w), h - 1 - r;
    MulMonotone(0, k, s);
    MulSucc(k, s);
    MulMonotone(k + 1, h, s);
  }

  /** Row r's slice ends where the slice of row r - 1 (or the buffer) ends. */
  lemma RowSliceEnd(w: nat, h: nat, r: int)
    requires 0 <= r < h
    ensures 0 <= RowOffset(w, h, r)
    ensures RowOffset(w, h, r) + Stride(w) == if r == 0 then h * Stride(w) else RowOffset(w, h, r - 1)
  {
    RowSliceInBuffer(w, h, r);
  }

  lemma MulSucc(k: int, s: int)
    ensures (k + 1) * s == k * s + s
  {
  }

  /** The slices of two different rows never overlap: a later file row lies wholly before an earlier one. */
  lemma RowSlicesDisjoint(w: nat, h: nat, r1: int, r2: int)
    requires 0 <= r1 < r2 < h
    ensures RowOffset(w, h, r2) + Stride(w) <= RowOffset(w, h, r1)
  {
    assert RowOffset(w, h, r1) - RowOffset(w, h, r2) == (r2 - r1) * Stride(w);
    MulMonotone(1, r2 - r1, Stride(w));
  }

  /** The file row whose slice holds byte b of the buffer. */
  function RowOfByte(w: int, h: int, b: int): int
    requires w >= 1
  {
    h - 1 - b / Stride(w)
  }

  /** The slices tile the buffer: every byte lies in the slice of the row RowOfByte names. */
  lemma RowSlicesCoverBuffer(w: int, h: nat, b: int)
    requires w >= 1 && 0 <= b < h * Stride(w)
    ensures 0 <= RowOfByte(w, h, b) < h
    ensures RowOffset(w, h, RowOfByte(w, h, b)) <= b < RowOffset(w, h, RowOfByte(w, h, b)) + Stride(w)
  {
    var s := Stride(w);
    var q := b / s;
    assert b == q * s + b % s;
    assert 0 <= q;
    assert RowOffset(w, h, RowOfByte(w, h, b)) == q * s;
  }

  // ---------------------------------------------------------------------
  // Reading the image through the row pointers
  // ---------------------------------------------------------------------

  /** Rows concatenated, first row first. */
  function Flatten<T>(rows: seq<seq<T>>): seq<T>
  {
    if rows == [] then [] else rows[0] + Flatten(rows[1..])
  }

  /** Rows in reverse order, built from the last row. */
  function Reverse<T>(rows: seq<T>): seq<T>
  {
    if rows == [] then [] else [rows[|rows| - 1]] + Reverse(rows[..|rows| - 1])
  }

  /** The buffer cut into `count` rows of `m` bytes. */
  function SplitRows<T>(buf: seq<T>, m: nat, count: nat): seq<seq<T>>
    requires |buf| == count * m
  {
    if count == 0 then [] else [buf[..m]] + SplitRows(buf[m..], m, count - 1)
  }

  /** Every row has m bytes. */
  ghost predicate Uniform<T>(rows: seq<seq<T>>, m: nat)
  {
    forall r :: 0 <= r < |rows| ==> |rows[r]| == m
  }

  lemma {:induction false} ReverseAt<T>(s: seq<T>, k: int)
    requires 0 <= k < |s|
    ensures |Reverse(s)| == |s| && Reverse(s)[k] == s[|s| - 1 - k]
  {
    ReverseLength(s[..|s| - 1]);
    if k > 0 {
      ReverseAt(s[..|s| - 1], k - 1);
    }
  }

  lemma {:induction false} ReverseLength<T>(s: seq<T>)
    ensures |Reverse(s)| == |s|
  {
    if s != [] {
      ReverseLength(s[..|s| - 1]);
    }
  }

  /** Reversing the row order twice restores it. */
  lemma ReverseTwice<T>(s: seq<T>)
    ensures Reverse(Reverse(s)) == s
  {
    ReverseLength(s);
    ReverseLength(Reverse(s));
    forall k | 0 <= k < |s|
      ensures Reverse(Reverse(s))[k] == s[k]
    {
      ReverseAt(Reverse(s), k);
      ReverseAt(s, |s| - 1 - k);
    }
  }

  /** Reversing keeps every row's length. */
  lemma ReverseUniform<T>(rows: seq<seq<T>>, m: nat)
    requires Uniform(rows, m)
    ensures Uniform(Reverse(rows), m)
  {
    ReverseLength(rows);
    forall k | 0 <= k < |rows|
      ensures |Reverse(rows)[k]| == m
    {
      ReverseAt(rows, k);
    }
  }

  lemma {:induction false} FlattenLength<T>(rows: seq<seq<T>>, m: nat)
    requires Uniform(rows, m)
    ensures |Flatten(rows)| == |rows| * m
  {
    if rows != [] {
      FlattenLength(rows[1..], m);
    }
  }

  /** Cutting the concatenation of equal-length rows gives the rows back. */
  lemma {:induction false} SplitFlatten<T>(rows: seq<seq<T>>, m: nat)
    requires Uniform(rows, m)
    ensures |Flatten(rows)| == |rows| * m
    ensures SplitRows(Flatten(rows), m, |rows|) == rows
  {
    FlattenLength(rows, m);
    if rows != [] {
      FlattenLength(rows[1..], m);
      var f := Flatten(rows);
      assert f[..m] == rows[0];
      assert f[m..] == Flatten(rows[1..]);
      SplitFlatten(rows[1..], m);
    }
  }

  /** Reading one more row puts it in front of the rows read so far. */
  lemma FlattenReverseStep<T>(rows: seq<seq<T>>, r: nat)
    requires r < |rows|
    ensures Flatten(Reverse(rows[..r + 1])) == rows[r] + Flatten(Reverse(rows[..r]))
  {
    assert rows[..r + 1][..r] == rows[..r];
  }

  /** The copy of one decoded row into the m bytes at offset p (a memcpy). */
  method CopyRow(buf: array<byte>, p: int, row: seq<byte>)
    requires 0 <= p && p + |row| <= buf.Length
    modifies buf
    ensures buf[..p] == old(buf[..p])
    ensures buf[p..] == row + old(buf[p + |row|..])
  {
    forall c | 0 <= c < |row| {
      buf[p + c] := row[c];
    }
    assert buf[p..] == buf[p..p + |row|] + buf[p + |row|..];
  }

  /**
   * The layout load_image_new gives the row pointers: each slice of m
   * bytes ends where the previous file row's slice starts, and row 0's
   * slice ends at the end of the buffer of `length` bytes, and the last
   * row's slice starts at byte 0.
   */
  ghost predicate BottomUpSlices(rowPointers: array<int>, length: int, m: int)
    reads rowPointers
  {
    && (forall r :: 0 <= r < rowPointers.Length ==>
          0 <= rowPointers[r] && rowPointers[r] + m == if r == 0 then length else rowPointers[r - 1])
    && (if rowPointers.Length == 0 then length else rowPointers[rowPointers.Length - 1]) == 0
  }

  /** The row pointers computed for a w x h image have the bottom-up layout over its w * h * 4 bytes. */
  lemma RowPointersBottomUp(rowPointers: array<int>, w: nat, h: nat)
    requires rowPointers.Length == h
    requires forall r :: 0 <= r < h ==> rowPointers[r] == RowOffset(w, h, r)
    ensures BottomUpSlices(rowPointers, h * Stride(w), Stride(w))
  {
    forall r | 0 <= r < h
      ensures 0 <= rowPointers[r] && rowPointers[r] + Stride(w) == if r == 0 then h * Stride(w) else rowPointers[r - 1]
    {
      RowSliceEnd(w, h, r);
    }
    assert h > 0 ==> RowOffset(w, h, h - 1) == 0;
  }

  /**
   * png_read_image: file row r is copied into the m = w * 4 bytes starting
   * at rowPointers[r]. With the row pointers load_image_new computes, the
   * buffer is the file's rows concatenated last row first.
   */
  method ReadImage(rows: seq<seq<byte>>, rowPointers: array<int>, buf: array<byte>, m: nat)
    requires Uniform(rows, m)
    requires rowPointers.Length == |rows|
    requires BottomUpSlices(rowPointers, buf.Length, m)
    modifies buf
    ensures buf[..] == Flatten(Reverse(rows))
  {
    var h := |rows|;
    var r, end := 0, buf.Length;
    while r < h
      invariant 0 <= r <= h
      invariant end == if r == 0 then buf.Length else rowPointers[r - 1]
      invariant 0 <= end <= buf.Length
      invariant buf[end..] == Flatten(Reverse(rows[..r]))
    {
      var p := rowPointers[r];
      CopyRow(buf, p, rows[r]);
      FlattenReverseStep(rows, r);
      r, end := r + 1, p;
    }
    assert rows[..h] == rows;
  }

  /**
   * The decoded buffer, cut into rows, is the file's rows in reverse: buffer
   * row k is file row h - 1 - k (so buffer row 0 is the file's last row),
   * and reversing the buffer's rows gives back the file's order.
   */
  lemma BottomUpRows(rows: seq<seq<byte>>, w: nat)
    requires Uniform(rows, Stride(w))
    ensures |Flatten(Reverse(rows))| == |rows| * Stride(w)
    ensures var bufRows := SplitRows(Flatten(Reverse(rows)), Stride(w), |rows|);
      |bufRows| == |rows| &&
      (forall k :: 0 <= k < |rows| ==> bufRows[k] == rows[|rows| - 1 - k]) &&
      Reverse(bufRows) == rows
  {
    ReverseLength(rows);
    ReverseUniform(rows, Stride(w));
    SplitFlatten(Reverse(rows), Stride(w));
    forall k | 0 <= k < |rows|
      ensures Reverse(rows)[k] == rows[|rows| - 1 - k]
    {
      ReverseAt(rows, k);
    }
    ReverseTwice(rows);
  }
}
