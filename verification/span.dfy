/**
 * The `std::span` tutorial: totals over a span, prefix views taken with
 * `first`, fixed-size batches taken with `subspan`, in-place doubling,
 * min/max/sum statistics and row views of a flat 2-D array. A span is a
 * sequence; the `Actor` of the exercise is kept abstract as a type
 * parameter, since only its position in the span matters here.
 */
module Span {
  import opened Seqs
  import opened CppInt

  /** The largest `int` plus one: `max_count` and `batch_size` are `int` parameters. */
  const IntLimit: int := 0x8000_0000

  /** A span never holds more than `PTRDIFF_MAX` elements. */
  const SpanLimit: int := 0x8000_0000_0000_0000

  /** `sum` and `sum_values`: the elements added up left to right, starting from 0. */
  method Accumulate(data: seq<int>) returns (total: int)
    ensures total == Sum(data)
  {
    total := 0;
    for i := 0 to |data|
      invariant total == Sum(data[..i])
    {
      SumAppend(data[..i], [data[i]]);
      assert data[..i + 1] == data[..i] + [data[i]];
      total := total + data[i];
    }
    assert data[..|data|] == data;
  }

  /**
   * `span.first(std::min(static_cast<size_t>(max_count), span.size()))`, as
   * `GetNearestActors` and `ProcessNearbyActors` use it. A negative count
   * converts to a huge `size_t`, so the whole span is taken.
   */
  function TakeFirst<T>(s: seq<T>, maxCount: int): (r: seq<T>)
    requires -IntLimit <= maxCount < IntLimit && |s| < SpanLimit
    ensures |r| <= |s| && r == s[..|r|]
    ensures maxCount >= 0 ==> |r| == Min(maxCount, |s|)
    ensures maxCount < 0 ==> r == s
  {
    s[..Min(ToSizeT(maxCount), |s|)]
  }

  /** The demos: three nearest actors out of six, three nearby ids out of seven. */
  lemma TakeFirstExamples()
    ensures TakeFirst([1, 2, 3, 4, 5, 6], 3) == [1, 2, 3]
    ensures TakeFirst([101, 102, 103, 104, 105, 106, 107], 3) == [101, 102, 103]
  {
    assert ToSizeT(3) == 3;
  }

  /** The batch starting at `offset`: `subspan(offset, min(size_t(batch_size), size - offset))`. */
  function BatchAt<T>(s: seq<T>, offset: nat, batchSize: int): seq<T>
    requires offset < |s|
  {
    s[offset..offset + Min(ToSizeT(batchSize), |s| - offset)]
  }

  /** Consecutive pieces of `size` elements; the last one may be shorter. */
  function Chunks<T>(s: seq<T>, size: nat): seq<seq<T>>
    requires size > 0
    decreases |s|
  {
    if |s| == 0 then [] else [s[..Min(size, |s|)]] + Chunks(s[Min(size, |s|)..], size)
  }

  /** The pieces are non-empty, concatenate back to `s` and number `ceil(|s| / size)`. */
  lemma ChunksPartition<T>(s: seq<T>, size: nat)
    requires size > 0
    ensures Flatten(Chunks(s, size)) == s
    ensures forall k :: 0 <= k < |Chunks(s, size)| ==> |Chunks(s, size)[k]| > 0
    ensures |Chunks(s, size)| == (|s| + size - 1) / size
  {
    ChunksFlatten(s, size);
    ChunksCount(s, size);
  }

  lemma {:induction false} ChunksFlatten<T>(s: seq<T>, size: nat)
    requires size > 0
    ensures Flatten(Chunks(s, size)) == s
    ensures forall k :: 0 <= k < |Chunks(s, size)| ==> |Chunks(s, size)[k]| > 0
    decreases |s|
  {
    if |s| > 0 {
      var m := Min(size, |s|);
      var rest := s[m..];
      ChunksCons(s, size, m);
      ChunksFlatten(rest, size);
      var pieces := Chunks(s, size);
      assert pieces[1..] == Chunks(rest, size);
      assert Flatten(pieces) == s[..m] + Flatten(Chunks(rest, size));
      assert s == s[..m] + rest;
    }
  }

  lemma {:induction false} ChunksCount<T>(s: seq<T>, size: nat)
    requires size > 0
    ensures |Chunks(s, size)| == (|s| + size - 1) / size
    decreases |s|
  {
    if |s| == 0 {
      DivModUnique(size - 1, size, 0, size - 1);
    } else {
      var m := Min(size, |s|);
      var rest := s[m..];
      ChunksCons(s, size, m);
      ChunksCount(rest, size);
      if |s| <= size {
        DivModUnique(size - 1, size, 0, size - 1);
        DivModUnique(|s| + size - 1, size, 1, |s| - 1);
      } else {
        var q, r := (|rest| + size - 1) / size, (|rest| + size - 1) % size;
        MulPred(q + 1, size);
        DivModUnique(|s| + size - 1, size, q + 1, r);
      }
    }
  }

  /** The first piece of a non-empty sequence, then the pieces of the rest. */
  lemma ChunksCons<T>(s: seq<T>, size: nat, m: nat)
    requires size > 0 && 0 < |s| && m == Min(size, |s|)
    ensures Chunks(s, size) == [s[..m]] + Chunks(s[m..], size)
  {
  }

  /** A slice of a suffix is a slice of the whole, shifted by where the suffix starts. */
  lemma SliceOfSuffix<T>(s: seq<T>, m: nat, a: nat, b: nat, from: nat, to: nat)
    requires m <= |s| && a <= b <= |s| - m && from == m + a && to == m + b
    ensures s[m..][a..b] == s[from..to]
  {
  }

  /** A suffix of a suffix is a suffix of the whole. */
  lemma SuffixOfSuffix<T>(s: seq<T>, m: nat, a: nat, from: nat)
    requires m <= |s| && a <= |s| - m && from == m + a
    ensures s[m..][a..] == s[from..]
  {
  }

  /** `k * m` by repeated addition, which keeps multiplication out of the inductive proofs below. */
  function Times(k: nat, m: nat): nat {
    if k == 0 then 0 else Times(k - 1, m) + m
  }

  lemma {:induction false} TimesIsMul(k: nat, m: nat)
    ensures Times(k, m) == k * m
  {
    if k > 0 {
      TimesIsMul(k - 1, m);
      MulPred(k, m);
    }
  }

  /** Piece `k` starts at `start == k * size` and ends `size` later or at the end of `s`. */
  lemma ChunkAt<T>(s: seq<T>, size: nat, k: nat, start: int)
    requires size > 0 && k < |Chunks(s, size)| && start == k * size
    ensures start < |s|
    ensures Chunks(s, size)[k] == s[start..Min(start + size, |s|)]
  {
    TimesIsMul(k, size);
    ChunkAtTimes(s, size, k);
  }

  lemma {:induction false} ChunkAtTimes<T>(s: seq<T>, size: nat, k: nat)
    requires size > 0 && k < |Chunks(s, size)|
    ensures Times(k, size) < |s|
    ensures Chunks(s, size)[k] == s[Times(k, size)..Min(Times(k, size) + size, |s|)]
  {
    if k == 0 {
      ChunkFirst(s, size);
    } else {
      ChunkLater(s, size, k);
      var rest := s[size..];
      var prev := Times(k - 1, size);
      ChunkAtTimes(rest, size, k - 1);
      SliceOfSuffix(s, size, prev, Min(prev + size, |rest|), Times(k, size), Min(Times(k, size) + size, |s|));
    }
  }

  /** The first piece is the first `size` elements, or all of a shorter `s`. */
  lemma ChunkFirst<T>(s: seq<T>, size: nat)
    requires size > 0 && 0 < |Chunks(s, size)|
    ensures Chunks(s, size)[0] == s[..Min(size, |s|)]
  {
  }

  /** A piece after the first is a piece of what follows the first `size` elements. */
  lemma ChunkLater<T>(s: seq<T>, size: nat, k: nat)
    requires size > 0 && 0 < k < |Chunks(s, size)|
    ensures size < |s| && k - 1 < |Chunks(s[size..], size)|
    ensures Chunks(s, size)[k] == Chunks(s[size..], size)[k - 1]
  {
    ChunksCons(s, size, Min(size, |s|));
  }

  /** One iteration with a positive size: the batch at `offset`, then the pieces after it. */
  lemma PositiveBatchStep<T>(actors: seq<T>, batches: seq<seq<T>>, offset: nat, batchSize: int, next: int)
    requires 0 < batchSize < IntLimit && offset < |actors| < SpanLimit
    requires batches + Chunks(actors[Min(offset, |actors|)..], batchSize) == Chunks(actors, batchSize)
    requires next == (offset + ToSizeT(batchSize)) % SizeTModulus
    ensures next == offset + batchSize
    ensures (batches + [BatchAt(actors, offset, batchSize)]) + Chunks(actors[Min(next, |actors|)..], batchSize)
      == Chunks(actors, batchSize)
  {
    assert ToSizeT(batchSize) == batchSize;
    DivModUnique(offset + batchSize, SizeTModulus, 0, offset + batchSize);
    assert next == offset + batchSize;
    var m := Min(batchSize, |actors| - offset);
    assert Min(next, |actors|) == offset + m;
    var rest := actors[offset..];
    assert actors[Min(offset, |actors|)..] == rest;
    var batch := rest[..m];
    var tail := Chunks(actors[Min(next, |actors|)..], batchSize);
    ChunksCons(rest, batchSize, m);
    assert Min(ToSizeT(batchSize), |actors| - offset) == m;
    SliceOfSuffix(actors, offset, 0, m, offset, offset + m);
    assert rest[0..m] == rest[..m];
    assert batch == BatchAt(actors, offset, batchSize);
    SuffixOfSuffix(actors, offset, m, Min(next, |actors|));
    assert Chunks(rest, batchSize) == [batch] + tail;
    assert (batches + [batch]) + tail == batches + ([batch] + tail);
  }

  /** With a negative size the first batch is the whole span and the offset jumps past its end. */
  lemma NegativeBatchStep<T>(actors: seq<T>, batchSize: int)
    requires -IntLimit <= batchSize < 0 && 0 < |actors| < SpanLimit
    ensures BatchAt(actors, 0, batchSize) == actors
    ensures |actors| <= ToSizeT(batchSize) && (0 + ToSizeT(batchSize)) % SizeTModulus == ToSizeT(batchSize)
  {
    DivModUnique(batchSize, SizeTModulus, -1, batchSize + SizeTModulus);
  }

  /**
   * `ProcessActorsBatch`: the batches the loop visits, in order. The offset
   * is a `size_t` and `offset += batch_size` converts a negative size, so
   * after the first batch (which then takes everything) the offset is past
   * the end. A zero size never advances the offset, so it needs an empty span.
   */
  method ProcessActorsBatch<T>(actors: seq<T>, batchSize: int) returns (batches: seq<seq<T>>)
    requires -IntLimit <= batchSize < IntLimit && |actors| < SpanLimit
    requires batchSize != 0 || |actors| == 0
    ensures batchSize > 0 ==> batches == Chunks(actors, batchSize)
    ensures batchSize <= 0 ==> batches == (if |actors| == 0 then [] else [actors])
  {
    var n := |actors|;
    var step := ToSizeT(batchSize);
    batches := [];
    var offset := 0;
    assert actors[0..] == actors;
    while offset < n
      invariant offset < SizeTModulus
      invariant batchSize > 0 ==> batches + Chunks(actors[Min(offset, n)..], batchSize) == Chunks(actors, batchSize)
      invariant batchSize <= 0 ==> (offset == 0 && batches == []) || (0 < n <= offset && batches == [actors])
      decreases SizeTModulus - offset
    {
      var batch := BatchAt(actors, offset, batchSize);
      var next := (offset + step) % SizeTModulus;
      if batchSize > 0 {
        PositiveBatchStep(actors, batches, offset, batchSize, next);
      } else {
        NegativeBatchStep(actors, batchSize);
      }
      batches := batches + [batch];
      offset := next;
    }
    if batchSize > 0 {
      assert actors[Min(offset, n)..] == [];
    }
  }

  /** `double_values` and `safe_process`: every element of the span doubled in place. */
  method DoubleValues(data: seq<int>) returns (result: seq<int>)
    ensures result == Doubled(data)
    ensures Sum(result) == 2 * Sum(data)
  {
    result := data;
    for i := 0 to |data|
      invariant |result| == |data|
      invariant forall k :: 0 <= k < i ==> result[k] == 2 * data[k]
      invariant forall k :: i <= k < |data| ==> result[k] == data[k]
    {
      result := result[i := 2 * result[i]];
    }
    SumDoubled(data);
  }

  /** `DataStats` without the `double` average. */
  datatype DataStats = DataStats(min: int, max: int, sum: int)

  /** `*std::min_element`: the first smallest element. */
  function MinElement(s: seq<int>): (m: int)
    requires |s| > 0
    ensures m in s
    ensures forall i :: 0 <= i < |s| ==> m <= s[i]
  {
    if |s| == 1 then s[0] else Min(s[0], MinElement(s[1..]))
  }

  /** `*std::max_element`: the first largest element. */
  function MaxElement(s: seq<int>): (m: int)
    requires |s| > 0
    ensures m in s
    ensures forall i :: 0 <= i < |s| ==> s[i] <= m
  {
    if |s| == 1 then s[0] else Max(s[0], MaxElement(s[1..]))
  }

  /** `calculate_stats`: all zero for an empty span. */
  function CalculateStats(data: seq<int>): (stats: DataStats)
    ensures |data| == 0 ==> stats == DataStats(0, 0, 0)
    ensures |data| > 0 ==> stats.min in data && stats.max in data
    ensures forall i :: 0 <= i < |data| ==> stats.min <= data[i] <= stats.max
    ensures stats.sum == Sum(data)
  {
    if |data| == 0 then DataStats(0, 0, 0)
    else DataStats(MinElement(data), MaxElement(data), Sum(data))
  }

  /**
   * The rows `data.subspan(y * width, width)` for `y < height`, which
   * `process_2d_data` visits; `subspan` needs every row inside the data.
   */
  function Rows(data: seq<int>, width: nat, height: nat): (rows: seq<seq<int>>)
    requires width * height <= |data|
    ensures |rows| == height
  {
    if height == 0 then []
    else
      assert width * height == width * (height - 1) + width;
      [data[..width]] + Rows(data[width..], width, height - 1)
  }

  /** Row `y` is the `width` elements from `start == y * width` on. */
  lemma RowAt(data: seq<int>, width: nat, height: nat, y: nat, start: int)
    requires width * height <= |data| && y < height && start == y * width
    ensures 0 <= start && start + width <= |data|
    ensures Rows(data, width, height)[y] == data[start..start + width]
  {
    TimesIsMul(y, width);
    RowAtTimes(data, width, height, y);
  }

  lemma {:induction false} RowAtTimes(data: seq<int>, width: nat, height: nat, y: nat)
    requires width * height <= |data| && y < height
    ensures Times(y, width) + width <= |data|
    ensures Rows(data, width, height)[y] == data[Times(y, width)..Times(y, width) + width]
  {
    RowsTail(data, width, height);
    if y > 0 {
      var rest := data[width..];
      var prev := Times(y - 1, width);
      RowAtTimes(rest, width, height - 1, y - 1);
      SliceOfSuffix(data, width, prev, prev + width, Times(y, width), Times(y, width) + width);
    }
  }

  /** The first row, then the rows of what follows it. */
  lemma RowsTail(data: seq<int>, width: nat, height: nat)
    requires width * height <= |data| && height > 0
    ensures width <= |data| && width * height == width + width * (height - 1)
    ensures width * (height - 1) <= |data| - width
    ensures Rows(data, width, height) == [data[..width]] + Rows(data[width..], width, height - 1)
  {
    MulPred(height, width);
  }

  /** A prefix of `n == m + k` elements is the first `m` followed by the next `k`. */
  lemma PrefixSplit<T>(s: seq<T>, m: nat, k: nat, n: nat)
    requires m <= |s| && n == m + k && n <= |s|
    ensures s[..n] == s[..m] + s[m..][..k]
  {
  }

  /** The rows, read in order, are exactly the first `width * height` elements. */
  lemma {:induction false} RowsCoverData(data: seq<int>, width: nat, height: nat)
    requires width * height <= |data|
    ensures Flatten(Rows(data, width, height)) == data[..width * height]
  {
    if height > 0 {
      RowsTail(data, width, height);
      var rows := Rows(data, width, height);
      var rest := data[width..];
      RowsCoverData(rest, width, height - 1);
      assert rows[1..] == Rows(rest, width, height - 1);
      assert Flatten(rows) == data[..width] + Flatten(Rows(rest, width, height - 1));
      PrefixSplit(data, width, width * (height - 1), width * height);
    } else {
      assert width * height == 0;
    }
  }

  /** The 3 x 4 matrix of the demo splits into rows 1..4, 5..8 and 9..12. */
  lemma RowsExample()
    ensures Rows([1, 2, 3, 4, 5, 6, 7, 8, 9, 10, 11, 12], 4, 3) == [[1, 2, 3, 4], [5, 6, 7, 8], [9, 10, 11, 12]]
  {
    var m := [1, 2, 3, 4, 5, 6, 7, 8, 9, 10, 11, 12];
    assert m[..4] == [1, 2, 3, 4] && m[4..] == [5, 6, 7, 8, 9, 10, 11, 12];
    assert m[4..][..4] == [5, 6, 7, 8] && m[4..][4..] == [9, 10, 11, 12];
    assert m[4..][4..][..4] == [9, 10, 11, 12] && m[4..][4..][4..] == [];
    assert Rows(m[4..][4..][4..], 4, 0) == [];
  }
}
