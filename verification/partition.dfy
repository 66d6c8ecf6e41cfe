/** The three ways the splitters cut the data rows into N consecutive chunks, one chunk per
    output file, as ranges of row (or line) indices:
      - rounded-up chunk size, half-open ranges after the header rows
        (`split_csv_to_excel` in both CSV-based splitters);
      - rounded-up chunk size, inclusive ranges of sheet rows that keep their numbers
        (`split_excel`);
      - rounded-down chunk size, the last chunk taking the remainder
        (`process_large_excel`). */
module Partition {
  import opened Prelude

  // ---------------------------------------------------------------------------
  // Index ranges

  /** `range(a, b)`: the integers from `a` up to but excluding `b`; empty when `b <= a`. */
  function Interval(a: int, b: int): (r: seq<int>)
    ensures |r| == if a < b then b - a else 0
    ensures forall k :: 0 <= k < |r| ==> r[k] == a + k
    decreases b - a
  {
    if a < b then [a] + Interval(a + 1, b) else []
  }

  lemma IntervalAppend(a: int, b: int, c: int)
    requires a <= b <= c
    ensures Interval(a, b) + Interval(b, c) == Interval(a, c)
  {
  }

  /** The entries of `xs` at the given indices, in the order of the indices. */
  function Pick<T>(xs: seq<T>, idx: seq<int>): (r: seq<T>)
    requires forall k :: 0 <= k < |idx| ==> 0 <= idx[k] < |xs|
    ensures |r| == |idx|
    ensures forall k :: 0 <= k < |idx| ==> r[k] == xs[idx[k]]
  {
    seq(|idx|, k requires 0 <= k < |idx| => xs[idx[k]])
  }

  /** Picking a range of indices is slicing. */
  lemma PickInterval<T>(xs: seq<T>, a: int, b: int)
    requires 0 <= a <= b <= |xs|
    ensures Pick(xs, Interval(a, b)) == xs[a..b]
  {
  }

  predicate InBounds(cs: seq<seq<int>>, n: int)
  {
    forall i, k :: 0 <= i < |cs| && 0 <= k < |cs[i]| ==> 0 <= cs[i][k] < n
  }

  /** Every chunk of indices picked from `xs`. */
  function PickEach<T>(xs: seq<T>, cs: seq<seq<int>>): (r: seq<seq<T>>)
    requires InBounds(cs, |xs|)
    ensures |r| == |cs|
    ensures forall i :: 0 <= i < |cs| ==> r[i] == Pick(xs, cs[i])
  {
    seq(|cs|, i requires 0 <= i < |cs| => Pick(xs, cs[i]))
  }

  /** Picking chunk by chunk and joining the pieces is picking the joined chunks. */
  lemma {:induction false} ConcatPickEach<T>(xs: seq<T>, cs: seq<seq<int>>)
    requires InBounds(cs, |xs|)
    ensures forall k :: 0 <= k < |Concat(cs)| ==> 0 <= Concat(cs)[k] < |xs|
    ensures Concat(PickEach(xs, cs)) == Pick(xs, Concat(cs))
    decreases |cs|
  {
    if |cs| > 0 {
      var front := cs[..|cs| - 1];
      var last := cs[|cs| - 1];
      ConcatPickEach(xs, front);
      assert PickEach(xs, cs)[..|cs| - 1] == PickEach(xs, front);
      assert Concat(cs) == Concat(front) + last;
    }
  }

  // ---------------------------------------------------------------------------
  // Chunk size

  /** `(t // n) + (t % n > 0)`: `t / n` rounded up, for a positive `n`. */
  function CeilDiv(t: int, n: int): (q: int)
    requires n >= 1
    ensures (q - 1) * n < t <= q * n
  {
    var d, m := t / n, t % n;
    assert t == d * n + m && 0 <= m < n;
    if m > 0 then
      assert (d + 1) * n == d * n + n;
      d + 1
    else d
  }

  /** The rounded-up quotient is the only integer with that property. */
  lemma CeilDivUnique(t: int, n: int, q: int)
    requires n >= 1
    requires (q - 1) * n < t <= q * n
    ensures q == CeilDiv(t, n)
  {
    var c := CeilDiv(t, n);
    if q < c {
      assert q * n <= (c - 1) * n by { MulMonotone(q, c - 1, n); }
    } else if q > c {
      assert c * n <= (q - 1) * n by { MulMonotone(c, q - 1, n); }
    }
  }

  lemma MulMonotone(a: int, b: int, n: int)
    requires a <= b && n >= 0
    ensures a * n <= b * n
  {
    assert b * n - a * n == (b - a) * n;
  }

  /** Where chunk `i` of chunks of `size` indices starts, counted from the first one
      (`i * size`, by repeated addition). */
  function Offset(i: nat, size: int): int
  {
    if i == 0 then 0 else Offset(i - 1, size) + size
  }

  lemma {:induction false} OffsetIsProduct(i: nat, size: int)
    ensures Offset(i, size) == i * size
  {
    if i > 0 {
      OffsetIsProduct(i - 1, size);
      assert (i - 1) * size + size == i * size;
    }
  }

  lemma {:induction false} OffsetMonotone(i: nat, j: nat, size: int)
    requires i <= j && size >= 0
    ensures Offset(i, size) <= Offset(j, size)
    decreases j
  {
    if i < j {
      OffsetMonotone(i, j - 1, size);
    }
  }

  lemma {:induction false} OffsetNegate(i: nat, size: int)
    ensures Offset(i, -size) == -Offset(i, size)
  {
    if i > 0 {
      OffsetNegate(i - 1, size);
    }
  }

  /** `math.ceil(x)`. */
  function RealCeil(x: real): int
  {
    -((-x).Floor)
  }

  /** `math.ceil(t / n)` over exact quotients is the rounded-up integer quotient. */
  lemma CeilOfQuotient(t: int, n: int)
    requires n >= 1
    ensures RealCeil(t as real / n as real) == CeilDiv(t, n)
  {
    var q := CeilDiv(t, n);
    var x := t as real / n as real;
    assert (q - 1) as real * n as real < t as real <= q as real * n as real;
    assert (q - 1) as real < x <= q as real;
    assert (-x).Floor == -q;
  }

  // ---------------------------------------------------------------------------
  // Rounded-up chunks, half-open

  /** Output file `i` takes indices `[h + i*size, min(h + (i+1)*size, len))`. */
  function Chunk(h: int, len: int, size: int, i: nat): seq<int>
  {
    Interval(h + Offset(i, size), Min(h + Offset(i + 1, size), len))
  }

  /** The chunks of files `0 .. n-1`. */
  function Chunks(h: int, len: int, size: int, n: nat): (r: seq<seq<int>>)
    ensures |r| == n
    ensures forall i :: 0 <= i < n ==> r[i] == Chunk(h, len, size, i)
  {
    seq(n, i requires 0 <= i < n => Chunk(h, len, size, i))
  }

  /** The chunk size `split_csv_to_excel` uses for `len - h` data rows in `n` files. */
  function ChunkSize(h: int, len: int, n: int): int
    requires n >= 1
  {
    CeilDiv(len - h, n)
  }

  lemma ChunksPrefix(h: int, len: int, size: int, i: nat)
    requires h <= len && size >= 0
    ensures Concat(Chunks(h, len, size, i)) == Interval(h, Min(h + Offset(i, size), len))
  {
    ConcatChunks(Chunks(h, len, size, i), h, len, size);
  }

  /** Any run of the chunks `0 .. |cs| - 1`, one after the other, is the rows from `h` up
      to the end of the last of them. */
  lemma {:induction false} ConcatChunks(cs: seq<seq<int>>, h: int, len: int, size: int)
    requires h <= len && size >= 0
    requires forall i :: 0 <= i < |cs| ==> cs[i] == Chunk(h, len, size, i)
    ensures Concat(cs) == Interval(h, Min(h + Offset(|cs|, size), len))
    decreases |cs|
  {
    if |cs| > 0 {
      var m := |cs| - 1;
      ConcatChunks(cs[..m], h, len, size);
      ChunkAfter(h, len, size, |cs|);
      calc {
        Concat(cs);
        Concat(cs[..m]) + cs[m];
        Interval(h, Min(h + Offset(m, size), len)) + Chunk(h, len, size, m);
        Interval(h, Min(h + Offset(|cs|, size), len));
      }
    }
  }

  /** Chunk `i - 1` continues the rows before it. */
  lemma ChunkAfter(h: int, len: int, size: int, i: nat)
    requires i >= 1 && h <= len && size >= 0
    ensures Interval(h, Min(h + Offset(i - 1, size), len)) + Chunk(h, len, size, i - 1)
            == Interval(h, Min(h + Offset(i, size), len))
  {
    var a := h + Offset(i - 1, size);
    OffsetMonotone(0, i - 1, size);
    if a <= len {
      IntervalAppend(h, a, Min(a + size, len));
    }
  }

  /** No data row is dropped or repeated: the chunks of all `n` files, one after the other,
      are exactly the indices from `h` up to `len`. */
  lemma ChunksCover(h: int, len: int, n: int)
    requires n >= 1 && h <= len
    ensures Concat(Chunks(h, len, ChunkSize(h, len, n), n)) == Interval(h, len)
  {
    var size := ChunkSize(h, len, n);
    ChunksPrefix(h, len, size, n);
    assert (size - 1) * n < len - h <= size * n;
    assert size >= 0 by {
      if size < 0 {
        MulMonotone(size, -1, n);
      }
    }
    OffsetIsProduct(n, size);
  }

  /** With a non-negative start, every index of a chunk names a row: a negative size gives
      an empty chunk, a non-negative one starts at `h` or later and ends by `len`. */
  lemma ChunkInBounds(h: int, len: int, size: int, i: nat)
    requires h >= 0
    ensures forall k :: 0 <= k < |Chunk(h, len, size, i)| ==> 0 <= Chunk(h, len, size, i)[k] < len
  {
    if size >= 0 {
      OffsetMonotone(0, i, size);
    } else {
      assert Offset(i + 1, size) == Offset(i, size) + size;
    }
  }

  /** No chunk is longer than the chunk size. */
  lemma ChunkLength(h: int, len: int, size: int, i: nat)
    requires size >= 0
    ensures |Chunk(h, len, size, i)| <= size
  {
  }

  /** Chunks come in file order: every index of an earlier file is below every index of a
      later one (so the chunks are also pairwise disjoint). */
  lemma ChunksOrdered(h: int, len: int, size: int, i: nat, j: nat, x: int, y: int)
    requires size >= 0 && i < j
    requires x in Chunk(h, len, size, i) && y in Chunk(h, len, size, j)
    ensures x < y
  {
    OffsetMonotone(i + 1, j, size);
  }

  /** With a positive chunk size, a file's chunk is empty exactly when it starts at or past
      the end of the rows. */
  lemma ChunkEmpty(h: int, len: int, size: int, i: nat)
    requires size >= 1
    ensures |Chunk(h, len, size, i)| == 0 <==> h + Offset(i, size) >= len
  {
  }

  /** Fewer rows than header rows: every chunk is empty. */
  lemma ChunksWhenShort(h: int, len: int, n: int, i: nat)
    requires n >= 1 && len < h && 0 <= i
    ensures Chunk(h, len, ChunkSize(h, len, n), i) == []
  {
    var size := ChunkSize(h, len, n);
    assert (size - 1) * n < 0;
    assert size <= 0 by {
      if size > 0 {
        MulMonotone(0, size - 1, n);
      }
    }
    OffsetMonotone(0, i, -size);
    OffsetNegate(i, size);
  }

  /** Example: 1012 rows behind 12 header rows into 10 files, 100 per file. */
  lemma ChunkExample()
    ensures ChunkSize(12, 1012, 10) == 100
    ensures Chunk(12, 1012, 100, 0) == Interval(12, 112)
    ensures Chunk(12, 1012, 100, 9) == Interval(912, 1012)
  {
    CeilDivUnique(1000, 10, 100);
    OffsetIsProduct(1, 100);
    OffsetIsProduct(9, 100);
    OffsetIsProduct(10, 100);
  }

  // ---------------------------------------------------------------------------
  // Rounded-up chunks, inclusive

  /** `split_excel`'s file `i` takes sheet rows `13 + i*size` through
      `min(12 + (i+1)*size, maxRow)`, both ends included. */
  function InclusiveChunk(maxRow: int, size: int, i: nat): seq<int>
  {
    Interval(13 + Offset(i, size), Min(12 + Offset(i + 1, size), maxRow) + 1)
  }

  /** The inclusive ranges are the half-open ones with 13 as first index and `maxRow + 1` as
      end. */
  lemma InclusiveIsHalfOpen(maxRow: int, size: int, i: nat)
    ensures InclusiveChunk(maxRow, size, i) == Chunk(13, maxRow + 1, size, i)
  {
    assert Min(12 + Offset(i + 1, size), maxRow) + 1 == Min(13 + Offset(i + 1, size), maxRow + 1);
  }

  function InclusiveChunks(maxRow: int, size: int, n: nat): (r: seq<seq<int>>)
    ensures |r| == n
    ensures forall i :: 0 <= i < n ==> r[i] == InclusiveChunk(maxRow, size, i)
  {
    seq(n, i requires 0 <= i < n => InclusiveChunk(maxRow, size, i))
  }

  /** The inclusive chunks of all `n` files are exactly the sheet rows `13 .. maxRow`. */
  lemma InclusiveChunksCover(maxRow: int, n: int)
    requires n >= 1 && maxRow >= 12
    ensures Concat(InclusiveChunks(maxRow, CeilDiv(maxRow - 12, n), n)) == Interval(13, maxRow + 1)
  {
    var size := CeilDiv(maxRow - 12, n);
    forall i | 0 <= i < n {
      InclusiveIsHalfOpen(maxRow, size, i);
    }
    assert InclusiveChunks(maxRow, size, n) == Chunks(13, maxRow + 1, size, n);
    ChunksCover(13, maxRow + 1, n);
  }

  // ---------------------------------------------------------------------------
  // Rounded-down chunks, the last one taking the remainder

  /** `process_large_excel`'s file `i` of `n` starts at index `i * (t // n)`. */
  function FloorStart(t: int, n: int, i: nat): int
    requires n >= 1
  {
    Offset(i, t / n)
  }

  /** ... and ends before `(i + 1) * (t // n)`, except the last file, which runs to `t`. */
  function FloorEnd(t: int, n: int, i: nat): int
    requires n >= 1
  {
    if i < n - 1 then Offset(i + 1, t / n) else t
  }

  function FloorChunk(t: int, n: int, i: nat): seq<int>
    requires n >= 1
  {
    Interval(FloorStart(t, n, i), FloorEnd(t, n, i))
  }

  function FloorChunks(t: int, n: int, m: nat): (r: seq<seq<int>>)
    requires n >= 1
    ensures |r| == m
    ensures forall i :: 0 <= i < m ==> r[i] == FloorChunk(t, n, i)
  {
    seq(m, i requires 0 <= i < m => FloorChunk(t, n, i))
  }

  /** Every file's bounds lie within `0 .. t`, start before end. */
  lemma FloorBounds(t: int, n: int, i: nat)
    requires n >= 1 && t >= 0 && i < n
    ensures 0 <= FloorStart(t, n, i) <= FloorEnd(t, n, i) <= t
  {
    var size := t / n;
    assert t == size * n + t % n;
    assert size >= 0;
    OffsetMonotone(0, i, size);
    OffsetMonotone(i + 1, n, size);
    OffsetIsProduct(n, size);
  }

  lemma {:induction false} FloorChunksPrefix(t: int, n: int, i: nat)
    requires n >= 1 && t >= 0 && i <= n - 1
    ensures Concat(FloorChunks(t, n, i)) == Interval(0, Offset(i, t / n))
    decreases i
  {
    if i > 0 {
      var size := t / n;
      FloorChunksPrefix(t, n, i - 1);
      assert FloorChunks(t, n, i)[..i - 1] == FloorChunks(t, n, i - 1);
      FloorBounds(t, n, i - 1);
      IntervalAppend(0, Offset(i - 1, size), Offset(i, size));
    }
  }

  /** The chunks of all `n` files are exactly the indices `0 .. t-1`. */
  lemma FloorChunksCover(t: int, n: int)
    requires n >= 1 && t >= 0
    ensures Concat(FloorChunks(t, n, n)) == Interval(0, t)
  {
    FloorChunksPrefix(t, n, n - 1);
    assert FloorChunks(t, n, n)[..n - 1] == FloorChunks(t, n, n - 1);
    FloorBounds(t, n, n - 1);
    IntervalAppend(0, Offset(n - 1, t / n), t);
  }

  /** Every file but the last gets exactly `t // n` indices; the last gets those plus the
      remainder `t % n`. */
  lemma FloorChunkLength(t: int, n: int, i: nat)
    requires n >= 1 && t >= 0 && i < n
    ensures i < n - 1 ==> |FloorChunk(t, n, i)| == t / n
    ensures i == n - 1 ==> |FloorChunk(t, n, i)| == t / n + t % n
  {
    var size := t / n;
    FloorBounds(t, n, i);
    assert t == size * n + t % n;
    OffsetIsProduct(n, size);
  }

  // ---------------------------------------------------------------------------
  // Line selection in process_large_excel

  /** The lines `enumerate(f)` yields with `start <= i < end`: the indices in range that
      name a line, in file order. */
  function Select(lines: seq<string>, start: int, end: int): (r: seq<string>)
    ensures var lo := Min(Max(start, 0), |lines|);
            r == lines[lo..Max(lo, Min(end, |lines|))]
    decreases |lines|
  {
    if |lines| == 0 then []
    else
      var i := |lines| - 1;
      SelectLast(lines, start, end);
      Select(lines[..i], start, end) + (if start <= i < end then [lines[i]] else [])
  }

  /** The window of the first `|lines| - 1` lines, and then the last line when its index is
      in range, is the window of all the lines. */
  lemma SelectLast(lines: seq<string>, start: int, end: int)
    requires |lines| >= 1
    ensures var i := |lines| - 1;
            var lo, lo' := Min(Max(start, 0), |lines|), Min(Max(start, 0), i);
            lines[..i][lo'..Max(lo', Min(end, i))] + (if start <= i < end then [lines[i]] else [])
            == lines[lo..Max(lo, Min(end, |lines|))]
  {
    var i := |lines| - 1;
    var lo, lo' := Min(Max(start, 0), |lines|), Min(Max(start, 0), i);
    if start <= i < end {
      assert lo == lo' && Max(lo', Min(end, i)) == i && Max(lo, Min(end, |lines|)) == |lines|;
      assert lines[..i][lo..i] + [lines[i]] == lines[lo..|lines|];
    } else if start > i {
      assert lo' == i && lo == |lines|;
    } else {
      var hi := Max(lo, Min(end, |lines|));
      assert lo == lo' && Max(lo', Min(end, i)) == hi && hi <= i;
      assert lines[..i][lo..hi] == lines[lo..hi];
    }
  }

  /** What `process_large_excel` hands to output file `i`: the chunk bounds taken from
      `total_rows = len(lines) - 1` compared with 0-based line numbers. */
  function SelectAsWritten(lines: seq<string>, n: int, i: nat): seq<string>
    requires n >= 1
  {
    var t := |lines| - 1;
    Select(lines, FloorStart(t, n, i), FloorEnd(t, n, i))
  }

  /** The selection that skips the header line: chunk index `k` is line `k + 1`. */
  function SelectData(lines: seq<string>, n: int, i: nat): seq<string>
    requires n >= 1
  {
    var t := |lines| - 1;
    Select(lines, FloorStart(t, n, i) + 1, FloorEnd(t, n, i) + 1)
  }

  function SelectAll(lines: seq<string>, n: int, m: nat, data: bool): (r: seq<seq<string>>)
    requires n >= 1
    ensures |r| == m
    ensures forall i :: 0 <= i < m ==> r[i] == if data then SelectData(lines, n, i) else SelectAsWritten(lines, n, i)
  {
    seq(m, i requires 0 <= i < m => if data then SelectData(lines, n, i) else SelectAsWritten(lines, n, i))
  }

  /** The line numbers of file `i`'s chunk, moved up by `shift`. */
  function LineChunk(lines: seq<string>, n: int, i: nat, shift: int): seq<int>
    requires n >= 1
  {
    Shifted(FloorChunk(|lines| - 1, n, i), shift)
  }

  /** Selecting a chunk's lines is picking them by (shifted) index. */
  lemma SelectChunk(lines: seq<string>, n: int, i: nat, shift: int)
    requires n >= 1 && |lines| >= 1 && i < n && (shift == 0 || shift == 1)
    ensures forall k :: 0 <= k < |LineChunk(lines, n, i, shift)| ==>
              0 <= LineChunk(lines, n, i, shift)[k] < |lines|
    ensures shift == 1 ==> SelectData(lines, n, i) == Pick(lines, LineChunk(lines, n, i, shift))
    ensures shift == 0 ==> SelectAsWritten(lines, n, i) == Pick(lines, LineChunk(lines, n, i, shift))
  {
    var t := |lines| - 1;
    FloorBounds(t, n, i);
    var start, end := FloorStart(t, n, i), FloorEnd(t, n, i);
    SelectRange(lines, start, end, shift);
    SelectionWindows(lines, n, i);
    assert LineChunk(lines, n, i, shift) == Shifted(Interval(start, end), shift);
  }

  /** Both selections are windows of chunk `i`'s bounds. */
  lemma SelectionWindows(lines: seq<string>, n: int, i: nat)
    requires n >= 1
    ensures SelectAsWritten(lines, n, i) == Select(lines, FloorStart(|lines| - 1, n, i), FloorEnd(|lines| - 1, n, i))
    ensures SelectData(lines, n, i) == Select(lines, FloorStart(|lines| - 1, n, i) + 1, FloorEnd(|lines| - 1, n, i) + 1)
  {
  }

  /** Selecting the window `a + shift .. b + shift` is picking the indices `a .. b - 1`
      moved up by `shift`. */
  lemma SelectRange(lines: seq<string>, a: int, b: int, shift: int)
    requires 0 <= a <= b <= |lines| - 1 && (shift == 0 || shift == 1)
    ensures forall k :: 0 <= k < |Shifted(Interval(a, b), shift)| ==> 0 <= Shifted(Interval(a, b), shift)[k] < |lines|
    ensures Select(lines, a + shift, b + shift) == Pick(lines, Shifted(Interval(a, b), shift))
  {
    PickShiftedInterval(lines, a, b, shift);
    SelectWindow(lines, a + shift, b + shift);
  }

  /** A window that lies inside the lines is their slice. */
  lemma SelectWindow(lines: seq<string>, a: int, b: int)
    requires 0 <= a <= b <= |lines|
    ensures Select(lines, a, b) == lines[a..b]
  {
    assert Min(Max(a, 0), |lines|) == a && Max(a, Min(b, |lines|)) == b;
  }

  /** Picking a range of indices moved up by `d` is slicing the moved range. */
  lemma PickShiftedInterval(xs: seq<string>, a: int, b: int, d: int)
    requires 0 <= a + d <= b + d <= |xs|
    ensures forall k :: 0 <= k < |Shifted(Interval(a, b), d)| ==> 0 <= Shifted(Interval(a, b), d)[k] < |xs|
    ensures Pick(xs, Shifted(Interval(a, b), d)) == xs[a + d..b + d]
  {
    ShiftedInterval(a, b, d);
    PickInterval(xs, a + d, b + d);
  }

  /** Every index moved up by `d`. */
  function Shifted(idx: seq<int>, d: int): (r: seq<int>)
    ensures |r| == |idx|
    ensures forall k :: 0 <= k < |idx| ==> r[k] == idx[k] + d
  {
    seq(|idx|, k requires 0 <= k < |idx| => idx[k] + d)
  }

  /** Moving indices up distributes over putting them one after the other. */
  lemma ShiftedAppend(a: seq<int>, b: seq<int>, d: int)
    ensures Shifted(a + b, d) == Shifted(a, d) + Shifted(b, d)
  {
  }

  /** Moving every chunk up by `d` and joining them is joining them and moving the whole. */
  lemma {:induction false} ConcatShifted(cs: seq<seq<int>>, sh: seq<seq<int>>, d: int)
    requires |sh| == |cs| && forall i :: 0 <= i < |cs| ==> sh[i] == Shifted(cs[i], d)
    ensures Concat(sh) == Shifted(Concat(cs), d)
    decreases |cs|
  {
    if |cs| > 0 {
      var m := |cs| - 1;
      ConcatShifted(cs[..m], sh[..m], d);
      ShiftedAppend(Concat(cs[..m]), cs[m], d);
      calc {
        Concat(sh);
        Concat(sh[..m]) + sh[m];
        Shifted(Concat(cs[..m]), d) + Shifted(cs[m], d);
        Shifted(Concat(cs[..m]) + cs[m], d);
        Shifted(Concat(cs), d);
      }
    }
  }

  /** As written, the files together receive every line but the last, the header line first
      among them. */
  lemma SelectAsWrittenCover(lines: seq<string>, n: int)
    requires n >= 1 && |lines| >= 1
    ensures Concat(SelectAll(lines, n, n, false)) == lines[..|lines| - 1]
  {
    SelectCover(lines, n, 0);
  }

  /** With the header line skipped, the files together receive exactly the data lines. */
  lemma SelectDataCover(lines: seq<string>, n: int)
    requires n >= 1 && |lines| >= 1
    ensures Concat(SelectAll(lines, n, n, true)) == lines[1..]
  {
    SelectCover(lines, n, 1);
  }

  lemma SelectCover(lines: seq<string>, n: int, shift: int)
    requires n >= 1 && |lines| >= 1 && (shift == 0 || shift == 1)
    ensures Concat(SelectAll(lines, n, n, shift == 1)) == lines[shift..|lines| - 1 + shift]
  {
    var t := |lines| - 1;
    var sh := LineChunks(lines, n, shift);
    SelectAllPicks(lines, n, shift);
    ConcatPickEach(lines, sh);
    ShiftedCover(lines, n, shift);
    PickInterval(lines, shift, t + shift);
    calc {
      Concat(SelectAll(lines, n, n, shift == 1));
      Concat(PickEach(lines, sh));
      Pick(lines, Concat(sh));
      Pick(lines, Interval(shift, t + shift));
      lines[shift..t + shift];
    }
  }

  /** The shifted line numbers of every file's chunk. */
  function LineChunks(lines: seq<string>, n: int, shift: int): (r: seq<seq<int>>)
    requires n >= 1
    ensures |r| == n
    ensures forall i :: 0 <= i < n ==> r[i] == LineChunk(lines, n, i, shift)
  {
    seq(n, i requires 0 <= i < n => LineChunk(lines, n, i, shift))
  }

  lemma SelectAllPicks(lines: seq<string>, n: int, shift: int)
    requires n >= 1 && |lines| >= 1 && (shift == 0 || shift == 1)
    ensures InBounds(LineChunks(lines, n, shift), |lines|)
    ensures SelectAll(lines, n, n, shift == 1) == PickEach(lines, LineChunks(lines, n, shift))
  {
    var sh := LineChunks(lines, n, shift);
    forall i | 0 <= i < n
      ensures forall k :: 0 <= k < |sh[i]| ==> 0 <= sh[i][k] < |lines|
      ensures SelectAll(lines, n, n, shift == 1)[i] == Pick(lines, sh[i])
    {
      SelectChunk(lines, n, i, shift);
    }
  }

  /** The shifted chunks of all files, one after the other, are the line numbers
      `shift .. len(lines) - 1 + shift`. */
  lemma ShiftedCover(lines: seq<string>, n: int, shift: int)
    requires n >= 1 && |lines| >= 1
    ensures Concat(LineChunks(lines, n, shift)) == Interval(shift, |lines| - 1 + shift)
  {
    var t := |lines| - 1;
    var cs := FloorChunks(t, n, n);
    var sh := LineChunks(lines, n, shift);
    ConcatShifted(cs, sh, shift);
    FloorChunksCover(t, n);
    ShiftedInterval(0, t, shift);
    calc {
      Concat(sh);
      Shifted(Concat(cs), shift);
      Shifted(Interval(0, t), shift);
      Interval(shift, t + shift);
    }
  }

  /** A range of indices moved up by `d` is the moved range. */
  lemma ShiftedInterval(a: int, b: int, d: int)
    ensures Shifted(Interval(a, b), d) == Interval(a + d, b + d)
  {
  }

  /** The off-by-one on a three-line file (a header and two data lines) into one output:
      the header line is taken as data and the last data line is lost. */
  lemma SelectAsWrittenExample()
    ensures SelectAsWritten(["header", "a", "b"], 1, 0) == ["header", "a"]
    ensures SelectData(["header", "a", "b"], 1, 0) == ["a", "b"]
  {
  }
}
