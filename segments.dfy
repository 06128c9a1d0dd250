/**
 * The reduction `FeaturesWriter.dump` applies to one video's buffer before it
 * writes it: order the clip features by start frame, pad with zero rows up to a
 * multiple of 32, cut into 32 equal chunks and average each chunk.
 */
module Segments {

  /** Every video is reduced to this many temporal segments. */
  const SegmentCount: nat := 32

  /** One feature vector. */
  type Row = seq<real>

  function Zeros(d: nat): (r: Row)
    ensures |r| == d
    ensures forall j :: 0 <= j < d ==> r[j] == 0.0
  {
    seq(d, _ => 0.0)
  }

  predicate HasWidth(rows: seq<Row>, d: nat) {
    forall i :: 0 <= i < |rows| ==> |rows[i]| == d
  }

  // ---------------------------------------------------------------------------
  // Ordering by start-frame key

  /** `m` is the least element of `s`. */
  predicate IsLeast(m: int, s: set<int>) {
    m in s && forall j :: j in s ==> m <= j
  }

  /** A set that is not empty has an element to pick. */
  lemma HasElement(s: set<int>)
    ensures s == {} || exists x :: x in s
  {
    if forall x :: x !in s {
      assert s == {};
    }
  }

  lemma {:induction false} MinExists(s: set<int>)
    requires s != {}
    ensures exists m :: IsLeast(m, s)
    decreases |s|
  {
    HasElement(s);
    var x :| x in s;
    var rest := s - {x};
    if rest == {} {
      assert s == {x} by {
        assert s == rest + {x};
      }
      assert IsLeast(x, s);
    } else {
      MinExists(rest);
      var m :| IsLeast(m, rest);
      var least := if x < m then x else m;
      forall j | j in s
        ensures least <= j
      {
        if j != x {
          assert j in rest;
        }
      }
      assert IsLeast(least, s);
    }
  }

  function Min(s: set<int>): (m: int)
    requires s != {}
    ensures m in s
    ensures forall j :: j in s ==> m <= j
  {
    MinExists(s);
    var m :| IsLeast(m, s);
    m
  }

  /** Python's `sorted(keys)` on distinct integer keys. */
  function SortedKeys(s: set<int>): (ks: seq<int>)
    ensures |ks| == |s|
    ensures forall k :: k in s <==> k in ks
    decreases |s|
  {
    if s == {} then []
    else
      var m := Min(s);
      [m] + SortedKeys(s - {m})
  }

  /** The sorted keys are strictly increasing. */
  lemma {:induction false} SortedKeysIncreasing(s: set<int>)
    ensures forall i :: 0 < i < |SortedKeys(s)| ==> SortedKeys(s)[i - 1] < SortedKeys(s)[i]
    decreases |s|
  {
    if s != {} {
      var m := Min(s);
      var rest := SortedKeys(s - {m});
      SortedKeysIncreasing(s - {m});
      assert SortedKeys(s) == [m] + rest;
      if |rest| > 0 {
        assert rest[0] in s - {m};
      }
    }
  }

  /** How many keys of `s` lie below `k`: the position `k` must take in ascending order. */
  function Rank(s: set<int>, k: int): nat {
    |set j | j in s && j < k|
  }

  /** No key lies below the least one. */
  lemma RankOfMin(s: set<int>)
    requires s != {}
    ensures Rank(s, Min(s)) == 0
  {
    var below := set j | j in s && j < Min(s);
    assert below == {};
  }

  /** Removing the least key lowers the rank of every other key by one. */
  lemma RankWithoutMin(s: set<int>, k: int)
    requires k in s && k != Min(s)
    ensures Rank(s, k) == 1 + Rank(s - {Min(s)}, k)
  {
    var m := Min(s);
    var below := set j | j in s && j < k;
    var belowRest := set j | j in s - {m} && j < k;
    assert below == belowRest + {m};
    assert m !in belowRest;
  }

  /** The key of rank `r` sits at position `r` of the sorted keys. */
  lemma {:induction false} SortedKeysAtRank(s: set<int>, k: int)
    requires k in s
    ensures Rank(s, k) < |s|
    ensures SortedKeys(s)[Rank(s, k)] == k
    decreases |s|
  {
    var m := Min(s);
    if k == m {
      RankOfMin(s);
    } else {
      var rest := s - {m};
      RankWithoutMin(s, k);
      SortedKeysAtRank(rest, k);
      assert SortedKeys(s) == [m] + SortedKeys(rest);
    }
  }

  /** The buffer's rows in ascending order of their start-frame key. */
  function OrderedRows(data: map<int, Row>): (rows: seq<Row>)
    ensures |rows| == |data|
  {
    var ks := SortedKeys(data.Keys);
    seq(|ks|, i requires 0 <= i < |ks| => data[ks[i]])
  }

  /** Each entry of the buffer lands at the position given by its key's rank among the
      keys, whatever order the entries were stored in; so the rows are ascending by key. */
  lemma OrderedRowsByKey(data: map<int, Row>, k: int)
    requires k in data
    ensures Rank(data.Keys, k) < |OrderedRows(data)|
    ensures OrderedRows(data)[Rank(data.Keys, k)] == data[k]
  {
    SortedKeysAtRank(data.Keys, k);
  }

  /** Two entries keep the order of their keys in the dumped rows. */
  lemma OrderedRowsAscending(data: map<int, Row>, k1: int, k2: int)
    requires k1 in data && k2 in data && k1 < k2
    ensures Rank(data.Keys, k1) < Rank(data.Keys, k2)
  {
    var b1 := set j | j in data.Keys && j < k1;
    var b2 := set j | j in data.Keys && j < k2;
    assert b1 <= b2;
    assert k1 in b2 - b1;
    assert b2 == b1 + (b2 - b1);
    assert |b2| == |b1| + |b2 - b1|;
  }

  // ---------------------------------------------------------------------------
  // Padding and chunking

  /** `32 * ceil(n / 32) - n`, the number of zero rows appended. */
  function PaddingCount(n: nat): (p: nat)
    ensures p < SegmentCount
    ensures (n + p) % SegmentCount == 0
  {
    SegmentCount * ((n + SegmentCount - 1) / SegmentCount) - n
  }

  /** One row pads to 32, 32 rows need no padding, 33 rows pad to 64 in chunks of two. */
  lemma PaddingExamples()
    ensures PaddingCount(1) == 31 && ChunkSize(1) == 1
    ensures PaddingCount(32) == 0 && ChunkSize(32) == 1
    ensures PaddingCount(33) == 31 && ChunkSize(33) == 2
  {
  }

  /** The number of padded rows averaged into one segment: `ceil(n / 32)`. */
  function ChunkSize(n: nat): (c: nat)
    ensures SegmentCount * c == n + PaddingCount(n)
    ensures n >= 1 ==> c >= 1
    ensures SegmentCount * c - SegmentCount < n <= SegmentCount * c || n == 0
  {
    (n + PaddingCount(n)) / SegmentCount
  }

  function Padded(rows: seq<Row>, d: nat): (p: seq<Row>)
    ensures |p| == |rows| + PaddingCount(|rows|)
    ensures HasWidth(rows, d) ==> HasWidth(p, d)
  {
    rows + seq(PaddingCount(|rows|), _ => Zeros(d))
  }

  // ---------------------------------------------------------------------------
  // Chunk means

  /** Column `j` summed over rows `[lo, hi)`. */
  function ColumnSum(rows: seq<Row>, d: nat, j: nat, lo: nat, hi: nat): real
    requires HasWidth(rows, d) && j < d
    requires lo <= hi <= |rows|
    decreases hi - lo
  {
    if lo == hi then 0.0 else ColumnSum(rows, d, j, lo, hi - 1) + rows[hi - 1][j]
  }

  /** `chunk.mean(dim=-2)` for the chunk of rows `[lo, hi)`: the element-wise mean. */
  function ChunkMean(rows: seq<Row>, d: nat, lo: nat, hi: nat): (m: Row)
    requires HasWidth(rows, d)
    requires lo < hi <= |rows|
    ensures |m| == d
  {
    seq(d, j requires 0 <= j < d => ColumnSum(rows, d, j, lo, hi) / ((hi - lo) as real))
  }

  /** First padded row of chunk `k` when every chunk holds `c` rows: `k * c`, written as
      repeated addition so that each step from chunk `k` to chunk `k + 1` stays linear for the
      verifier; `ChunkStartIsProduct` proves it equals the product. */
  function ChunkStart(k: nat, c: nat): nat {
    if k == 0 then 0 else ChunkStart(k - 1, c) + c
  }

  lemma {:induction false} ChunkStartIsProduct(k: nat, c: nat)
    ensures ChunkStart(k, c) == k * c
    decreases k
  {
    if k > 0 {
      ChunkStartIsProduct(k - 1, c);
      assert (k - 1) * c + c == k * c;
    }
  }

  /** Chunk `k` of `c` rows lies inside the 32 chunks. */
  lemma {:induction false} ChunkFits(k: nat, c: nat)
    requires k < SegmentCount
    ensures ChunkStart(k, c) + c <= SegmentCount * c
    decreases SegmentCount - k
  {
    if k + 1 < SegmentCount {
      ChunkFits(k + 1, c);
    } else {
      ChunkStartIsProduct(k + 1, c);
    }
  }

  /** The 32 averaged segments of a non-empty buffer of equally wide rows: padding,
      `torch.chunk` into 32 chunks of `ChunkSize` rows, and the mean of each chunk. */
  function Aggregate(rows: seq<Row>, d: nat): (segs: seq<Row>)
    requires |rows| >= 1 && HasWidth(rows, d)
    ensures |segs| == SegmentCount
    ensures HasWidth(segs, d)
  {
    seq(SegmentCount, k requires 0 <= k < SegmentCount => Segment(rows, d, k))
  }

  /** Segment `k`: the mean of the `k`-th chunk of the padded rows. */
  function Segment(rows: seq<Row>, d: nat, k: nat): (m: Row)
    requires |rows| >= 1 && HasWidth(rows, d) && k < SegmentCount
    ensures |m| == d
  {
    var c := ChunkSize(|rows|);
    ChunkFits(k, c);
    ChunkMean(Padded(rows, d), d, ChunkStart(k, c), ChunkStart(k, c) + c)
  }

  // ---------------------------------------------------------------------------
  // What the segments hold

  function MinNat(a: nat, b: nat): nat {
    if a < b then a else b
  }

  lemma {:induction false} ColumnSumSplit(rows: seq<Row>, d: nat, j: nat, lo: nat, mid: nat, hi: nat)
    requires HasWidth(rows, d) && j < d
    requires lo <= mid <= hi <= |rows|
    ensures ColumnSum(rows, d, j, lo, hi) == ColumnSum(rows, d, j, lo, mid) + ColumnSum(rows, d, j, mid, hi)
    decreases hi - mid
  {
    if mid < hi {
      ColumnSumSplit(rows, d, j, lo, mid, hi - 1);
    }
  }

  /** Over rows the padding did not touch, the padded and the unpadded sums agree. */
  lemma {:induction false} ColumnSumUnpadded(rows: seq<Row>, d: nat, j: nat, lo: nat, hi: nat)
    requires HasWidth(rows, d) && j < d
    requires lo <= hi <= |rows|
    ensures HasWidth(Padded(rows, d), d)
    ensures ColumnSum(Padded(rows, d), d, j, lo, hi) == ColumnSum(rows, d, j, lo, hi)
    decreases hi - lo
  {
    if lo < hi {
      ColumnSumUnpadded(rows, d, j, lo, hi - 1);
      assert Padded(rows, d)[hi - 1] == rows[hi - 1];
    }
  }

  /** Over the padding rows the sum is zero. */
  lemma {:induction false} ColumnSumPadding(rows: seq<Row>, d: nat, j: nat, lo: nat, hi: nat)
    requires HasWidth(rows, d) && j < d
    requires |rows| <= lo <= hi <= |Padded(rows, d)|
    ensures HasWidth(Padded(rows, d), d)
    ensures ColumnSum(Padded(rows, d), d, j, lo, hi) == 0.0
    decreases hi - lo
  {
    if lo < hi {
      ColumnSumPadding(rows, d, j, lo, hi - 1);
      assert Padded(rows, d)[hi - 1] == Zeros(d);
    }
  }

  /** Column `j` summed over padded rows `[a, b)` is the same sum over the buffer rows
      in that range: the padding rows are zero. */
  lemma PaddedRangeSum(rows: seq<Row>, d: nat, j: nat, a: nat, b: nat)
    requires HasWidth(rows, d) && j < d
    requires a <= b <= |Padded(rows, d)|
    ensures HasWidth(Padded(rows, d), d)
    ensures MinNat(a, |rows|) <= MinNat(b, |rows|)
    ensures ColumnSum(Padded(rows, d), d, j, a, b) == ColumnSum(rows, d, j, MinNat(a, |rows|), MinNat(b, |rows|))
  {
    var n := |rows|;
    var lo, hi := MinNat(a, n), MinNat(b, n);
    var m := if a < hi then hi else a;
    ColumnSumSplit(Padded(rows, d), d, j, a, m, b);
    if m < b {
      ColumnSumPadding(rows, d, j, m, b);
    }
    if a < hi {
      ColumnSumUnpadded(rows, d, j, a, m);
    }
  }

  /** Segment `k` is the mean of padded rows `[k * c, k * c + c)`. */
  lemma AggregateAt(rows: seq<Row>, d: nat, k: nat)
    requires |rows| >= 1 && HasWidth(rows, d) && k < SegmentCount
    ensures HasWidth(Padded(rows, d), d)
    ensures ChunkStart(k, ChunkSize(|rows|)) + ChunkSize(|rows|) <= |Padded(rows, d)|
    ensures Aggregate(rows, d)[k]
         == ChunkMean(Padded(rows, d), d, ChunkStart(k, ChunkSize(|rows|)), ChunkStart(k, ChunkSize(|rows|)) + ChunkSize(|rows|))
    ensures k * ChunkSize(|rows|) + ChunkSize(|rows|) <= |Padded(rows, d)|
    ensures Aggregate(rows, d)[k]
         == ChunkMean(Padded(rows, d), d, k * ChunkSize(|rows|), k * ChunkSize(|rows|) + ChunkSize(|rows|))
  {
    ChunkFits(k, ChunkSize(|rows|));
    ChunkStartIsProduct(k, ChunkSize(|rows|));
    assert Aggregate(rows, d)[k] == Segment(rows, d, k);
  }

  /** Segment `k` times the chunk size is the sum, column by column, of the buffer rows
      that fall inside chunk `k`; the zero rows of the padding add nothing, but they
      still count in the divisor of the mean. */
  lemma SegmentSum(rows: seq<Row>, d: nat, k: nat, j: nat)
    requires |rows| >= 1 && HasWidth(rows, d)
    requires k < SegmentCount && j < d
    ensures MinNat(ChunkStart(k, ChunkSize(|rows|)), |rows|) <= MinNat(ChunkStart(k, ChunkSize(|rows|)) + ChunkSize(|rows|), |rows|)
    ensures Times(Aggregate(rows, d)[k][j], ChunkSize(|rows|))
         == ColumnSum(rows, d, j, MinNat(ChunkStart(k, ChunkSize(|rows|)), |rows|), MinNat(ChunkStart(k, ChunkSize(|rows|)) + ChunkSize(|rows|), |rows|))
  {
    var c := ChunkSize(|rows|);
    var a := ChunkStart(k, c);
    AggregateAt(rows, d, k);
    PaddedRangeSum(rows, d, j, a, a + c);
    var s := ColumnSum(Padded(rows, d), d, j, a, a + c);
    assert Aggregate(rows, d)[k][j] == s / (c as real);
    MeanTimesCount(s, c);
  }

  /** A segment whose chunk starts past the last buffer row is all zero. */
  lemma TrailingSegmentIsZero(rows: seq<Row>, d: nat, k: nat)
    requires |rows| >= 1 && HasWidth(rows, d)
    requires k < SegmentCount && ChunkStart(k, ChunkSize(|rows|)) >= |rows|
    ensures Aggregate(rows, d)[k] == Zeros(d)
  {
    var c := ChunkSize(|rows|);
    var n := |rows|;
    forall j | 0 <= j < d
      ensures Aggregate(rows, d)[k][j] == 0.0
    {
      SegmentSum(rows, d, k, j);
      assert MinNat(ChunkStart(k, c), n) == n && MinNat(ChunkStart(k, c) + c, n) == n;
      assert ColumnSum(rows, d, j, n, n) == 0.0;
      TimesZero(Aggregate(rows, d)[k][j], c);
    }
  }

  /** A value whose positive multiple is zero is zero. */
  lemma TimesZero(x: real, c: nat)
    requires c >= 1 && Times(x, c) == 0.0
    ensures x == 0.0
  {
    TimesIsProduct(x, c);
  }

  /** With at most 32 buffer rows every chunk holds one padded row, so the segments are
      the rows themselves followed by zero rows. */
  lemma ShortVideoSegments(rows: seq<Row>, d: nat, k: nat)
    requires 1 <= |rows| <= SegmentCount && HasWidth(rows, d)
    requires k < SegmentCount
    ensures ChunkSize(|rows|) == 1
    ensures Aggregate(rows, d)[k] == if k < |rows| then rows[k] else Zeros(d)
  {
    assert ChunkSize(|rows|) == 1;
    ChunkStartIsProduct(k, 1);
    if k < |rows| {
      forall j | 0 <= j < d
        ensures Aggregate(rows, d)[k][j] == rows[k][j]
      {
        SegmentSum(rows, d, k, j);
        assert Times(Aggregate(rows, d)[k][j], 1) == Aggregate(rows, d)[k][j];
      }
    } else {
      TrailingSegmentIsZero(rows, d, k);
    }
  }

  /** `x` times the natural number `c`, as repeated addition: the mean of `c` rows is
      multiplied back by `c` one row at a time in the mass proofs, where a real-by-integer
      product would be nonlinear; `TimesIsProduct` proves it equals `x * c`. */
  function Times(x: real, c: nat): real {
    if c == 0 then 0.0 else Times(x, c - 1) + x
  }

  lemma {:induction false} TimesIsProduct(x: real, c: nat)
    ensures Times(x, c) == x * (c as real)
    decreases c
  {
    if c > 0 {
      TimesIsProduct(x, c - 1);
      assert x * ((c - 1) as real) + x == x * (c as real);
    }
  }

  /** Scaling a mean back by its count gives the sum. */
  lemma MeanTimesCount(s: real, c: nat)
    requires c > 0
    ensures Times(s / (c as real), c) == s
  {
    TimesIsProduct(s / (c as real), c);
  }

  lemma {:induction false} TimesDistributes(a: real, b: real, c: nat)
    ensures Times(a + b, c) == Times(a, c) + Times(b, c)
    decreases c
  {
    if c > 0 {
      TimesDistributes(a, b, c - 1);
    }
  }

  /** Adding segment `m - 1` to the first `m - 1` segments adds the rows of chunk `m - 1`. */
  lemma MassStep(rows: seq<Row>, d: nat, j: nat, m: nat)
    requires |rows| >= 1 && HasWidth(rows, d) && j < d
    requires 0 < m <= SegmentCount
    requires Times(ColumnSum(Aggregate(rows, d), d, j, 0, m - 1), ChunkSize(|rows|))
          == ColumnSum(rows, d, j, 0, MinNat(ChunkStart(m - 1, ChunkSize(|rows|)), |rows|))
    ensures Times(ColumnSum(Aggregate(rows, d), d, j, 0, m), ChunkSize(|rows|))
         == ColumnSum(rows, d, j, 0, MinNat(ChunkStart(m, ChunkSize(|rows|)), |rows|))
  {
    var n := |rows|;
    var c := ChunkSize(n);
    var segs := Aggregate(rows, d);
    var lo := MinNat(ChunkStart(m - 1, c), n);
    var hi := MinNat(ChunkStart(m, c), n);
    SegmentSum(rows, d, m - 1, j);
    var before := ColumnSum(segs, d, j, 0, m - 1);
    var x := segs[m - 1][j];
    assert ColumnSum(segs, d, j, 0, m) == before + x;
    TimesDistributes(before, x, c);
    ColumnSumSplit(rows, d, j, 0, lo, hi);
  }

  /** The first `m` segments, scaled by the chunk size, add up to the rows of the first
      `m` chunks. */
  lemma {:induction false} MassOfPrefix(rows: seq<Row>, d: nat, j: nat, m: nat)
    requires |rows| >= 1 && HasWidth(rows, d) && j < d
    requires m <= SegmentCount
    ensures Times(ColumnSum(Aggregate(rows, d), d, j, 0, m), ChunkSize(|rows|))
         == ColumnSum(rows, d, j, 0, MinNat(ChunkStart(m, ChunkSize(|rows|)), |rows|))
    decreases m
  {
    if m == 0 {
      TimesIsProduct(0.0, ChunkSize(|rows|));
    } else {
      MassOfPrefix(rows, d, j, m - 1);
      MassStep(rows, d, j, m);
    }
  }

  /** Averaging loses nothing: column by column, the 32 segments times the chunk size
      add up to the sum of all buffer rows. */
  lemma MassPreserved(rows: seq<Row>, d: nat, j: nat)
    requires |rows| >= 1 && HasWidth(rows, d) && j < d
    ensures Times(ColumnSum(Aggregate(rows, d), d, j, 0, SegmentCount), ChunkSize(|rows|))
         == ColumnSum(rows, d, j, 0, |rows|)
  {
    MassOfPrefix(rows, d, j, SegmentCount);
    ChunkStartIsProduct(SegmentCount, ChunkSize(|rows|));
  }
}
