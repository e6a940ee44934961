/** Gap filling and smoothing of sensor series, after
    `src/ML/data_imputation.rs`: linear interpolation of one missing value,
    simple exponential smoothing, and medians of fixed-size chunks.
 */
module DataImputation {
  import opened Outcomes

  // ---------------------------------------------------------------------
  // Linear interpolation

  /** `linear_interpolation`: the straight line through the two neighbours,
      evaluated at the missing index.  Index 0 underflows `missing_index - 1`
      and a missing index without a right neighbour reads out of bounds;
      both panic. */
  function LinearInterpolation(values: seq<real>, missingIndex: nat): (r: Outcome<real>)
    ensures missingIndex == 0 ==> r == Panic("attempt to subtract with overflow")
    ensures missingIndex > 0 && missingIndex + 1 >= |values| ==> r == Panic("index out of bounds")
    ensures 0 < missingIndex && missingIndex + 1 < |values| ==>
      r == Ok((values[missingIndex - 1] + values[missingIndex + 1]) / 2.0)
  {
    if missingIndex == 0 then Panic("attempt to subtract with overflow")
    else if missingIndex + 1 >= |values| then Panic("index out of bounds")
    else
      var m := missingIndex;
      var before := (m - 1) as real;
      var span := (m + 1) as real - before;
      var offset := m as real - before;
      MidpointStep(values[m - 1], values[m + 1], span, offset);
      Ok(values[m - 1] + (values[m + 1] - values[m - 1]) / span * offset)
  }

  lemma MidpointStep(a: real, b: real, span: real, offset: real)
    requires span == 2.0 && offset == 1.0
    ensures a + (b - a) / span * offset == (a + b) / 2.0
  {
  }

  /** The interpolated value lies between the neighbours, at equal distance
      from both. */
  lemma InterpolationBetweenNeighbours(values: seq<real>, missingIndex: nat)
    requires 0 < missingIndex && missingIndex + 1 < |values|
    ensures var r := LinearInterpolation(values, missingIndex).value;
      var a := values[missingIndex - 1];
      var b := values[missingIndex + 1];
      && r - a == b - r
      && (a <= b ==> a <= r <= b)
      && (b <= a ==> b <= r <= a)
  {
  }

  /** For `[1, 2, 5, 10, 20]` at index 2 the formula gives 6, the midpoint of
      2 and 10. */
  lemma InterpolationExample(values: seq<real>)
    requires values == [1.0, 2.0, 5.0, 10.0, 20.0]
    ensures LinearInterpolation(values, 2) == Ok(6.0)
  {
  }

  // ---------------------------------------------------------------------
  // Simple exponential smoothing

  /** `s` follows the smoothing recurrence for `values`: it starts at the
      first value, and each later entry mixes the current value with the
      previous smoothed entry. */
  predicate Smooths(s: seq<real>, values: seq<real>, alpha: real) {
    && |s| == |values|
    && (|values| > 0 ==> s[0] == values[0])
    && forall t :: 1 <= t < |values| ==> s[t] == alpha * values[t] + (1.0 - alpha) * s[t - 1]
  }

  /** `simple_exponential_smoothing`. */
  method SimpleExponentialSmoothing(values: seq<real>, alpha: real) returns (smoothed: seq<real>)
    ensures Smooths(smoothed, values, alpha)
    ensures values == [] ==> smoothed == []
  {
    if |values| == 0 {
      return [];
    }
    smoothed := [values[0]];
    for t := 1 to |values|
      invariant |smoothed| == t
      invariant Smooths(smoothed, values[..t], alpha)
    {
      var smoothedValue := alpha * values[t] + (1.0 - alpha) * smoothed[t - 1];
      smoothed := smoothed + [smoothedValue];
    }
    assert values[..|values|] == values;
  }

  /** The recurrence has exactly one solution. */
  lemma {:induction false} SmoothingUnique(s: seq<real>, s': seq<real>, values: seq<real>, alpha: real)
    requires Smooths(s, values, alpha) && Smooths(s', values, alpha)
    ensures s == s'
  {
    forall t | 0 <= t < |values|
      ensures s[t] == s'[t]
    {
      SmoothingAgreesUpTo(s, s', values, alpha, t);
    }
  }

  lemma {:induction false} SmoothingAgreesUpTo(s: seq<real>, s': seq<real>, values: seq<real>, alpha: real, t: nat)
    requires Smooths(s, values, alpha) && Smooths(s', values, alpha)
    requires t < |values|
    ensures s[t] == s'[t]
  {
    if t > 0 {
      SmoothingAgreesUpTo(s, s', values, alpha, t - 1);
    }
  }

  /** With `0 <= alpha <= 1` every smoothed entry is a weighted average of
      the values so far, so it stays within any bounds the values keep. */
  lemma {:induction false} SmoothingStaysInBounds(s: seq<real>, values: seq<real>, alpha: real,
                                                  lo: real, hi: real, t: nat)
    requires Smooths(s, values, alpha) && 0.0 <= alpha <= 1.0
    requires forall i :: 0 <= i < |values| ==> lo <= values[i] <= hi
    requires t < |values|
    ensures lo <= s[t] <= hi
  {
    if t > 0 {
      SmoothingStaysInBounds(s, values, alpha, lo, hi, t - 1);
      assert s[t] == alpha * values[t] + (1.0 - alpha) * s[t - 1];
      assert lo <= values[t] <= hi;
      MixStaysBetween(alpha, values[t], s[t - 1], lo, hi);
    }
  }

  /** A convex combination of two values in `[lo, hi]` stays in `[lo, hi]`. */
  lemma MixStaysBetween(a: real, x: real, y: real, lo: real, hi: real)
    requires 0.0 <= a <= 1.0 && lo <= x <= hi && lo <= y <= hi
    ensures lo <= a * x + (1.0 - a) * y <= hi
  {
    MixAbove(a, x, y, lo);
    MixAbove(a, -x, -y, -hi);
    assert a * -x + (1.0 - a) * -y == -(a * x + (1.0 - a) * y);
  }

  lemma MixAbove(a: real, x: real, y: real, lo: real)
    requires 0.0 <= a <= 1.0 && lo <= x && lo <= y
    ensures lo <= a * x + (1.0 - a) * y
  {
    var b := 1.0 - a;
    MulMonotone(a, lo, x);
    MulMonotone(b, lo, y);
    var p, q, u, v := a * lo, b * lo, a * x, b * y;
    assert p <= u && q <= v;
    assert p + q == lo;
  }

  lemma MulMonotone(c: real, x: real, y: real)
    requires 0.0 <= c && x <= y
    ensures c * x <= c * y
  {
    assert c * y - c * x == c * (y - x);
  }

  /** `alpha = 1` leaves the series unchanged; `alpha = 0` repeats the first
      value. */
  lemma {:induction false} SmoothingExtremes(s: seq<real>, values: seq<real>, alpha: real)
    requires Smooths(s, values, alpha)
    ensures alpha == 1.0 ==> s == values
    ensures alpha == 0.0 ==> forall t :: 0 <= t < |s| ==> s[t] == values[0]
  {
    if alpha == 1.0 {
      forall t | 0 <= t < |s|
        ensures s[t] == values[t]
      {
        if t > 0 {
          assert s[t] == alpha * values[t] + (1.0 - alpha) * s[t - 1];
        }
      }
    }
    if alpha == 0.0 {
      forall t | 0 <= t < |s|
        ensures s[t] == values[0]
      {
        SmoothingRepeatsFirst(s, values, t);
      }
    }
  }

  lemma {:induction false} SmoothingRepeatsFirst(s: seq<real>, values: seq<real>, t: nat)
    requires Smooths(s, values, 0.0) && t < |s|
    ensures s[t] == values[0]
  {
    if t > 0 {
      SmoothingRepeatsFirst(s, values, t - 1);
    }
  }

  /** `[1, 3, 5, 7, 9]` with `alpha = 0.5` starts `1, 2`. */
  lemma SmoothingExample(s: seq<real>, values: seq<real>)
    requires values == [1.0, 3.0, 5.0, 7.0, 9.0]
    requires Smooths(s, values, 0.5)
    ensures |s| == 5 && s[0] == 1.0 && s[1] == 2.0
  {
  }

  // ---------------------------------------------------------------------
  // Chunk medians

  predicate SortedReals(s: seq<real>) {
    forall i, j :: 0 <= i < j < |s| ==> s[i] <= s[j]
  }

  function InsertReal(x: real, s: seq<real>): (r: seq<real>)
    ensures |r| == |s| + 1
  {
    if |s| == 0 then [x]
    else if x <= s[0] then [x] + s
    else [s[0]] + InsertReal(x, s[1..])
  }

  /** Insertion adds `x` to the elements and nothing else. */
  lemma {:induction false} InsertAddsOne(x: real, s: seq<real>)
    ensures multiset(InsertReal(x, s)) == multiset(s) + multiset{x}
  {
    if |s| > 0 && x > s[0] {
      assert s == [s[0]] + s[1..];
      InsertAddsOne(x, s[1..]);
    }
  }

  lemma {:induction false} InsertKeepsSorted(x: real, s: seq<real>)
    requires SortedReals(s)
    ensures SortedReals(InsertReal(x, s))
  {
    if s != [] && x > s[0] {
      var rest := InsertReal(x, s[1..]);
      InsertKeepsSorted(x, s[1..]);
      InsertAddsOne(x, s[1..]);
      forall j | 0 <= j < |rest|
        ensures s[0] <= rest[j]
      {
        assert rest[j] in multiset(rest);
        assert rest[j] == x || rest[j] in multiset(s[1..]);
        if rest[j] != x {
          var i :| 0 <= i < |s[1..]| && s[1..][i] == rest[j];
          assert s[i + 1] == rest[j];
        }
      }
    }
  }

  /** The chunk sort (`sort_by`), as insertion sort. */
  function SortReals(s: seq<real>): (r: seq<real>)
    ensures |r| == |s|
  {
    if |s| == 0 then [] else InsertReal(s[0], SortReals(s[1..]))
  }

  /** The sort orders the chunk and keeps its elements. */
  lemma {:induction false} SortRealsSorts(s: seq<real>)
    ensures SortedReals(SortReals(s)) && multiset(SortReals(s)) == multiset(s)
  {
    if s != [] {
      assert s == [s[0]] + s[1..];
      SortRealsSorts(s[1..]);
      InsertKeepsSorted(s[0], SortReals(s[1..]));
      InsertAddsOne(s[0], SortReals(s[1..]));
    }
  }

  /** Middle element of the sorted chunk, or the mean of the two middle
      elements for an even length. */
  function MedianOf(chunk: seq<real>): real
    requires chunk != []
  {
    MiddleOf(SortReals(chunk))
  }

  /** The middle of an already sorted chunk. */
  function MiddleOf(segment: seq<real>): real
    requires segment != []
  {
    if |segment| % 2 == 0 then
      var mid := |segment| / 2;
      (segment[mid - 1] + segment[mid]) / 2.0
    else segment[|segment| / 2]
  }

  function MinNat(a: nat, b: nat): nat {
    if a <= b then a else b
  }

  /** Chunk `i` of `data.chunks(size)`: `size` values from `i * size`, the
      last chunk possibly shorter. */
  function Chunk(data: seq<real>, size: nat, i: nat): seq<real>
    requires i * size <= |data|
  {
    data[i * size .. MinNat(i * size + size, |data|)]
  }

  /** The medians of `data.chunks(size)`, chunk by chunk from the front. */
  function ChunkMedians(data: seq<real>, size: nat): seq<real>
    requires size > 0
    decreases |data|
  {
    if data == [] then []
    else
      var n := MinNat(size, |data|);
      [MedianOf(data[..n])] + ChunkMedians(data[n..], size)
  }

  /** One median per chunk: `ceil(|data| / size)` of them. */
  lemma {:induction false} ChunkMediansCount(data: seq<real>, size: nat)
    requires size > 0
    ensures (|ChunkMedians(data, size)| - 1) * size < |data| <= |ChunkMedians(data, size)| * size
    decreases |data|
  {
    if data != [] {
      var n := MinNat(size, |data|);
      var k := |ChunkMedians(data[n..], size)|;
      assert |ChunkMedians(data, size)| == 1 + k;
      ChunkMediansCount(data[n..], size);
      NextChunkStart(k, size);
      NextChunkStart(k - 1, size);
    }
  }

  /** Entry `i` is the median of chunk `i`. */
  lemma {:induction false} ChunkMediansAt(data: seq<real>, size: nat, i: nat)
    requires size > 0 && i < |ChunkMedians(data, size)|
    ensures i * size < |data|
    ensures ChunkMedians(data, size)[i] == MedianOf(Chunk(data, size, i))
    decreases i
  {
    var n := MinNat(size, |data|);
    var rest := ChunkMedians(data[n..], size);
    assert ChunkMedians(data, size) == [MedianOf(data[..n])] + rest;
    if i == 0 {
      assert Chunk(data, size, 0) == data[..n];
    } else {
      ChunkMediansAt(data[n..], size, i - 1);
      ChunkShift(data, size, i);
    }
  }

  /** Chunk `i` of `data` is chunk `i - 1` of what follows the first chunk. */
  lemma ChunkShift(data: seq<real>, size: nat, i: nat)
    requires 0 < size < |data| && 0 < i && (i - 1) * size < |data| - size
    ensures i * size < |data|
    ensures Chunk(data, size, i) == Chunk(data[size..], size, i - 1)
  {
    var a := (i - 1) * size;
    NextChunkStart(i - 1, size);
    assert i * size == a + size;
    var e := MinNat(a + size, |data| - size);
    assert e + size == MinNat(i * size + size, |data|);
    assert data[size..][a..e] == data[a + size..e + size];
  }

  lemma NextChunkStart(i: int, size: nat)
    ensures (i + 1) * size == i * size + size
  {
  }

  /** One turn of the chunk loop: the chunk `data[start..end]` contributes
      one median in front of the medians of the rest. */
  lemma ChunkMediansStep(data: seq<real>, size: nat, start: nat, end: nat)
    requires size > 0 && start < |data|
    requires end == MinNat(start + size, |data|)
    ensures ChunkMedians(data[start..], size)
         == [MedianOf(data[start..end])] + ChunkMedians(data[end..], size)
  {
    var here := data[start..];
    assert here[..end - start] == data[start..end];
    assert here[end - start..] == data[end..];
  }

  /** `median`: nothing for empty data or a zero interval, otherwise one
      median per chunk. */
  method Median(data: seq<real>, timeInterval: nat) returns (result: seq<real>)
    ensures data == [] || timeInterval == 0 ==> result == []
    ensures data != [] && timeInterval > 0 ==> result == ChunkMedians(data, timeInterval)
  {
    if |data| == 0 || timeInterval == 0 {
      return [];
    }
    result := [];
    var start := 0;
    while start < |data|
      invariant start <= |data|
      invariant result + ChunkMedians(data[start..], timeInterval) == ChunkMedians(data, timeInterval)
      decreases |data| - start
    {
      var end := if start + timeInterval <= |data| then start + timeInterval else |data|;
      var segment := data[start..end];
      var median := MiddleOf(SortReals(segment));
      ChunkMediansStep(data, timeInterval, start, end);
      result := result + [median];
      start := end;
    }
    assert data[|data|..] == [];
  }

  /** Number of elements of `s` at most `x` (`below`) or at least `x`. */
  function Count(s: seq<real>, x: real, below: bool): (n: nat)
    ensures n <= |s|
  {
    if s == [] then 0
    else (if (if below then s[0] <= x else s[0] >= x) then 1 else 0) + Count(s[1..], x, below)
  }

  lemma {:induction false} CountConcat(s: seq<real>, t: seq<real>, x: real, below: bool)
    ensures Count(s + t, x, below) == Count(s, x, below) + Count(t, x, below)
  {
    if s != [] {
      assert (s + t)[0] == s[0];
      assert (s + t)[1..] == s[1..] + t;
      CountConcat(s[1..], t, x, below);
    } else {
      assert s + t == t;
    }
  }

  /** Counting depends only on the multiset of elements. */
  lemma {:induction false} CountPermutation(s: seq<real>, t: seq<real>, x: real, below: bool)
    requires multiset(s) == multiset(t)
    ensures Count(s, x, below) == Count(t, x, below)
    decreases |s|
  {
    if s == [] {
      assert |multiset(t)| == 0;
    } else {
      var a := s[0];
      assert s == [a] + s[1..];
      assert a in multiset(t);
      var j :| 0 <= j < |t| && t[j] == a;
      var rest := t[..j] + t[j + 1..];
      assert t == t[..j] + [a] + t[j + 1..];
      assert multiset(t) == multiset(t[..j]) + multiset{a} + multiset(t[j + 1..]);
      assert multiset(rest) == multiset(t[..j]) + multiset(t[j + 1..]);
      assert multiset(s) == multiset{a} + multiset(s[1..]);
      forall e
        ensures multiset(s[1..])[e] == multiset(rest)[e]
      {
        assert multiset(s)[e] == multiset(t)[e];
      }
      assert multiset(s[1..]) == multiset(rest);
      CountPermutation(s[1..], rest, x, below);
      CountConcat(t[..j] + [a], t[j + 1..], x, below);
      CountConcat(t[..j], [a], x, below);
      CountConcat(t[..j], t[j + 1..], x, below);
    }
  }

  /** A run `s[lo..hi]` of elements on the right side of `x` contributes
      its whole length to the count. */
  lemma {:induction false} CountAtLeastRun(s: seq<real>, x: real, below: bool, lo: nat, hi: nat)
    requires lo <= hi <= |s|
    requires forall i :: lo <= i < hi ==> if below then s[i] <= x else s[i] >= x
    ensures Count(s, x, below) >= hi - lo
  {
    if lo > 0 {
      CountAtLeastRun(s[1..], x, below, lo - 1, hi - 1);
    } else if hi > 0 {
      CountAtLeastRun(s[1..], x, below, 0, hi - 1);
    }
  }

  /** The median splits its chunk: at least half of the elements (rounded
      up) are at most the median and at least half are at least it; for an
      odd length the median is one of the elements. */
  lemma MedianSplitsChunk(chunk: seq<real>)
    requires chunk != []
    ensures Count(chunk, MedianOf(chunk), true) >= (|chunk| + 1) / 2
    ensures Count(chunk, MedianOf(chunk), false) >= (|chunk| + 1) / 2
    ensures |chunk| % 2 == 1 ==> MedianOf(chunk) in chunk
  {
    var segment := SortReals(chunk);
    var med := MiddleOf(segment);
    SortRealsSorts(chunk);
    MiddleSplitsSorted(segment);
    CountPermutation(segment, chunk, med, true);
    CountPermutation(segment, chunk, med, false);
    if |chunk| % 2 == 1 {
      assert med in multiset(segment);
    }
  }

  lemma MiddleSplitsSorted(segment: seq<real>)
    requires segment != [] && SortedReals(segment)
    ensures Count(segment, MiddleOf(segment), true) >= (|segment| + 1) / 2
    ensures Count(segment, MiddleOf(segment), false) >= (|segment| + 1) / 2
    ensures |segment| % 2 == 1 ==> MiddleOf(segment) in segment
  {
    var n := |segment|;
    var h := n / 2;
    var med := MiddleOf(segment);
    var lowEnd := n - h;
    assert n % 2 == 0 ==> h > 0 && segment[h - 1] <= med <= segment[h];
    assert n % 2 == 1 ==> med == segment[h];
    forall i | 0 <= i < lowEnd
      ensures segment[i] <= med
    {
      if n % 2 == 0 {
        assert segment[i] <= segment[h - 1];
      } else {
        assert segment[i] <= segment[h];
      }
    }
    forall i | h <= i < n
      ensures segment[i] >= med
    {
      assert segment[h] <= segment[i];
    }
    CountAtLeastRun(segment, med, true, 0, lowEnd);
    CountAtLeastRun(segment, med, false, h, n);
  }

  /** A sorted arrangement of a multiset is unique. */
  lemma {:induction false} SortedUnique(a: seq<real>, b: seq<real>)
    requires SortedReals(a) && SortedReals(b) && multiset(a) == multiset(b)
    ensures a == b
    decreases |a|
  {
    assert |a| == |multiset(a)| == |multiset(b)| == |b|;
    if a != [] {
      SortedHeadIsLeast(a, b[0]);
      SortedHeadIsLeast(b, a[0]);
      DropHead(a, b);
      SortedTail(a);
      SortedTail(b);
      SortedUnique(a[1..], b[1..]);
      assert a == [a[0]] + a[1..] && b == [b[0]] + b[1..];
    }
  }

  lemma SortedHeadIsLeast(a: seq<real>, x: real)
    requires SortedReals(a) && x in multiset(a)
    ensures a[0] <= x
  {
    var i :| 0 <= i < |a| && a[i] == x;
    if i > 0 {
      assert a[0] <= a[i];
    }
  }

  lemma SortedTail(a: seq<real>)
    requires SortedReals(a) && a != []
    ensures SortedReals(a[1..])
  {
    forall i, j | 0 <= i < j < |a| - 1
      ensures a[1..][i] <= a[1..][j]
    {
      assert a[1..][i] == a[i + 1] && a[1..][j] == a[j + 1];
    }
  }

  lemma DropHead(a: seq<real>, b: seq<real>)
    requires a != [] && b != [] && a[0] == b[0] && multiset(a) == multiset(b)
    ensures multiset(a[1..]) == multiset(b[1..])
  {
    assert a == [a[0]] + a[1..] && b == [b[0]] + b[1..];
    assert multiset(a) == multiset{a[0]} + multiset(a[1..]);
    assert multiset(b) == multiset{a[0]} + multiset(b[1..]);
    forall e
      ensures multiset(a[1..])[e] == multiset(b[1..])[e]
    {
      assert multiset(a)[e] == multiset(b)[e];
    }
  }

  /** The sort of `c` is the one sorted arrangement of its elements. */
  lemma SortsTo(c: seq<real>, sorted: seq<real>)
    requires SortedReals(sorted) && multiset(c) == multiset(sorted)
    ensures SortReals(c) == sorted
  {
    SortRealsSorts(c);
    SortedUnique(SortReals(c), sorted);
  }

  lemma FirstChunkMedian(c: seq<real>)
    requires c == [1.0, 5.0, 3.0, 7.0]
    ensures MedianOf(c) == 4.0
  {
    var sorted := [1.0, 3.0, 5.0, 7.0];
    assert multiset(c) == multiset(sorted) && SortedReals(sorted);
    SortsTo(c, sorted);
  }

  lemma SecondChunkMedian(c: seq<real>)
    requires c == [9.0, 2.0, 4.0, 8.0]
    ensures MedianOf(c) == 6.0
  {
    var sorted := [2.0, 4.0, 8.0, 9.0];
    assert multiset(c) == multiset(sorted) && SortedReals(sorted);
    SortsTo(c, sorted);
  }

  /** `[1, 5, 3, 7, 9, 2, 4, 8]` in chunks of 4 has the medians `[4, 6]`. */
  lemma MedianExample(data: seq<real>)
    requires data == [1.0, 5.0, 3.0, 7.0, 9.0, 2.0, 4.0, 8.0]
    ensures ChunkMedians(data, 4) == [4.0, 6.0]
  {
    var r := ChunkMedians(data, 4);
    ChunkMediansCount(data, 4);
    assert |r| == 2;
    ChunkMediansAt(data, 4, 0);
    ChunkMediansAt(data, 4, 1);
    FirstChunkMedian(Chunk(data, 4, 0));
    SecondChunkMedian(Chunk(data, 4, 1));
  }
}
