/**
 * The k-mer index and scorer (klamp/kmer.py).
 *
 * A `KmerIndex` counts every length-k window of the sequences it is given
 * (a Python `Counter`, here a multiset of strings); `CountHits` scans a
 * query at a stride and reports how many of its windows the index holds.
 */
module Kmer {
  import opened Wrappers

  const DefaultKmerSize: nat := 25

  /** The windows `s[i..i + k]` for i = 0, 1, ..., |s| - k; none when |s| < k. */
  function Windows(s: string, k: nat): (ws: seq<string>)
    ensures |ws| == if |s| >= k then |s| - k + 1 else 0
    ensures forall i :: 0 <= i < |ws| ==> ws[i] == s[i..i + k]
  {
    if |s| < k then [] else seq(|s| - k + 1, i requires 0 <= i < |s| - k + 1 => s[i..i + k])
  }

  /** Every k-mer counted in `m` has length k. */
  predicate AllOfLength(m: multiset<string>, k: nat)
  {
    forall w :: w in m ==> |w| == k
  }

  lemma WindowLengths(m: multiset<string>, s: string, k: nat)
    requires AllOfLength(m, k)
    ensures AllOfLength(m + multiset(Windows(s, k)), k)
  {
    forall w | w in m + multiset(Windows(s, k)) ensures |w| == k {
      if w !in m {
        var j :| 0 <= j < |Windows(s, k)| && Windows(s, k)[j] == w;
      }
    }
  }

  /** Extending a prefix by one element adds that element to its multiset. */
  lemma PrefixStep<T>(q: seq<T>, i: nat)
    requires i < |q|
    ensures multiset(q[..i + 1]) == multiset(q[..i]) + multiset{q[i]}
  {
    assert q[..i + 1] == q[..i] + [q[i]];
  }

  /** The start positions of the occurrences of `w` as a length-k window of `s`. */
  function Occurrences(s: string, k: nat, w: string): set<nat>
  {
    set i: nat | i <= |s| && OccursAt(s, k, w, i)
  }

  predicate OccursAt(s: string, k: nat, w: string, i: nat)
  {
    i + k <= |s| && s[i..i + k] == w
  }

  /** The indices at which `x` occurs in `q`. */
  function Positions<T(==)>(q: seq<T>, x: T): set<nat>
  {
    set i: nat | i < |q| && q[i] == x
  }

  /** A multiset counts each element as often as it occurs in the sequence. */
  lemma {:induction false} MultisetCount<T>(q: seq<T>, x: T)
    ensures multiset(q)[x] == |Positions(q, x)|
    decreases |q|
  {
    if |q| > 0 {
      var q' := q[..|q| - 1];
      assert q == q' + [q[|q| - 1]];
      MultisetCount(q', x);
      if q[|q| - 1] == x {
        assert Positions(q, x) == Positions(q', x) + {|q| - 1};
      } else {
        assert Positions(q, x) == Positions(q', x);
      }
    }
  }

  /** The windows of `s` hold `w` once per position at which `w` occurs. */
  lemma WindowCount(s: string, k: nat, w: string)
    ensures multiset(Windows(s, k))[w] == |Occurrences(s, k, w)|
  {
    MultisetCount(Windows(s, k), w);
    assert Positions(Windows(s, k), w) == Occurrences(s, k, w);
  }

  /** How many of the windows `ws` are keys of the index. */
  function CountIn(ws: seq<string>, index: multiset<string>): (n: nat)
    ensures n <= |ws|
    ensures n == |ws| <==> forall i :: 0 <= i < |ws| ==> ws[i] in index
  {
    if ws == [] then 0
    else
      var n := CountIn(ws[..|ws| - 1], index) + if ws[|ws| - 1] in index then 1 else 0;
      assert forall i :: 0 <= i < |ws| - 1 ==> ws[..|ws| - 1][i] == ws[i];
      n
  }

  /** The windows a `range(i, |s| - k + 1, stride)` scan extracts from `s`. */
  function Sampled(s: string, k: nat, stride: nat, i: nat): (ws: seq<string>)
    requires stride >= 1
    ensures forall j :: 0 <= j < |ws| ==> |ws[j]| == k
    decreases |s| + 1 - i
  {
    if i + k <= |s| then [s[i..i + k]] + Sampled(s, k, stride, i + stride) else []
  }

  /**
   * A scan from 0 examines `len(range(0, |s| - k + 1, stride))` windows,
   * that is, ceil((|s| - k + 1) / stride) of them, and none when |s| < k.
   */
  lemma SampledCount(s: string, k: nat, stride: nat)
    requires stride >= 1
    ensures |Sampled(s, k, stride, 0)| == if |s| >= k then (|s| - k + stride) / stride else 0
  {
    SampledCountFrom(s, k, stride, 0);
    if |s| >= k {
      DivStep(|s| - k + stride, stride);
    }
  }

  lemma {:induction false} SampledCountFrom(s: string, k: nat, stride: nat, i: nat)
    requires stride >= 1
    ensures |Sampled(s, k, stride, i)| == if i + k <= |s| then (|s| - k - i) / stride + 1 else 0
    decreases |s| + 1 - i
  {
    if i + k <= |s| {
      SampledCountFrom(s, k, stride, i + stride);
      var d := |s| - k - i;
      if d >= stride {
        DivStep(d, stride);
      } else {
        DivUnique(d, stride, 0, d);
      }
    }
  }

  /** Integer division is determined by quotient and remainder. */
  lemma DivUnique(d: int, m: int, q: int, r: int)
    requires m >= 1 && 0 <= r < m && d == q * m + r
    ensures d / m == q
  {
    var q', r' := d / m, d % m;
    assert d == q' * m + r';
    if q > q' {
      MulLe(q' + 1, q, m);
    } else if q < q' {
      MulLe(q + 1, q', m);
    }
  }

  lemma MulLe(a: int, b: int, m: int)
    requires a <= b && m >= 0
    ensures a * m <= b * m
  {
    assert b * m - a * m == (b - a) * m;
  }

  lemma DivStep(d: int, m: int)
    requires d >= m >= 1
    ensures d / m == (d - m) / m + 1
  {
    var q, r := (d - m) / m, (d - m) % m;
    assert d == (q + 1) * m + r;
    DivUnique(d, m, q + 1, r);
  }

  /** With stride 1 the scan examines every window. */
  lemma {:induction false} SampledStrideOne(s: string, k: nat, i: nat)
    requires i <= |Windows(s, k)|
    ensures Sampled(s, k, 1, i) == Windows(s, k)[i..]
    decreases |s| + 1 - i
  {
    if i + k <= |s| {
      SampledStrideOne(s, k, i + 1);
    }
  }

  /** One window of the scan moves from the windows still to come to the windows seen. */
  lemma ScanStep(s: string, k: nat, stride: nat, i: nat, seen: seq<string>, index: multiset<string>)
    requires stride >= 1 && i + k <= |s|
    ensures seen + Sampled(s, k, stride, i) == (seen + [s[i..i + k]]) + Sampled(s, k, stride, i + stride)
    ensures CountIn(seen + [s[i..i + k]], index) == CountIn(seen, index) + if s[i..i + k] in index then 1 else 0
  {
    assert (seen + [s[i..i + k]])[..|seen|] == seen;
  }

  /** (hits, kmers): the windows found in the index, and the windows examined. */
  datatype Hits = Hits(hits: nat, kmers: nat)

  datatype KmerError =
    | ZeroStride       // `range` refuses a step of 0
    | WindowTooShort   // `assert len(kmer) == k` fails
    | DivisionByZero   // `n_hits / n_total` with no window examined

  /** The stride `count_hits` uses: the one given, or kmer_size // 2. */
  function StrideOf(stride: Option<int>, k: nat): int
  {
    if stride.None? then k / 2 else stride.value
  }

  class KmerIndex {
    const kmerSize: nat
    var kmerCounts: multiset<string>

    /** Every indexed k-mer has length `kmerSize`. */
    ghost predicate Valid()
      reads this
    {
      AllOfLength(kmerCounts, kmerSize)
    }

    constructor (kmerSize: nat := DefaultKmerSize)
      ensures Valid()
      ensures this.kmerSize == kmerSize && kmerCounts == multiset{}
    {
      this.kmerSize := kmerSize;
      kmerCounts := multiset{};
    }

    /** Adds one count for every length-k window of `s`. */
    method Index(s: string)
      requires Valid()
      modifies this
      ensures Valid()
      ensures kmerCounts == old(kmerCounts) + multiset(Windows(s, kmerSize))
    {
      var n := |s|;
      var k := kmerSize;
      ghost var ws := Windows(s, k);
      ghost var before := kmerCounts;
      var counts := kmerCounts;
      var i := 0;
      while i < n - k + 1
        invariant 0 <= i <= |ws|
        invariant counts == before + multiset(ws[..i])
      {
        var kmer := s[i..i + k];
        assert kmer == ws[i];
        PrefixStep(ws, i);
        counts := counts + multiset{kmer};
        i := i + 1;
      }
      assert ws[..i] == ws;
      WindowLengths(before, s, k);
      kmerCounts := counts;
    }

    /**
     * Scans `s` at the given stride (default kmer_size // 2) and returns the
     * number of windows that are keys of the index and the number examined.
     */
    method CountHits(s: string, stride: Option<int> := None) returns (r: Result<Hits, KmerError>)
      ensures var step := StrideOf(stride, kmerSize);
        && (step == 0 ==> r == Failure(ZeroStride))
        && (step < 0 ==> r == if |s| < kmerSize - 1 then Failure(WindowTooShort) else Success(Hits(0, 0)))
        && (step > 0 ==> r == Success(Hits(CountIn(Sampled(s, kmerSize, step, 0), kmerCounts),
                                           |Sampled(s, kmerSize, step, 0)|)))
    {
      var step := if stride.None? then kmerSize / 2 else stride.value;
      var n := |s|;
      var k := kmerSize;
      if step == 0 {
        return Failure(ZeroStride);
      }
      if step < 0 {
        // A negative step yields 0 first exactly when 0 > n - k + 1, and the
        // window s[0:k] is then shorter than k.
        if 0 > n - k + 1 {
          return Failure(WindowTooShort);
        }
        return Success(Hits(0, 0));
      }
      var nKmers := 0;
      var nHits := 0;
      var i := 0;
      ghost var seen: seq<string> := [];
      while i < n - k + 1
        invariant Sampled(s, k, step, 0) == seen + Sampled(s, k, step, i)
        invariant nKmers == |seen| && nHits == CountIn(seen, kmerCounts)
        decreases n + 1 - i
      {
        var kmer := s[i..i + k];
        ScanStep(s, k, step, i, seen, kmerCounts);
        nKmers := nKmers + 1;
        if kmer in kmerCounts {
          nHits := nHits + 1;
        }
        seen := seen + [kmer];
        i := i + step;
      }
      assert seen + [] == seen;
      return Success(Hits(nHits, nKmers));
    }

    /**
     * `count_hits` at the default stride followed by the division
     * hits / kmers; the pair is returned in place of the quotient.
     */
    method FracHits(s: string) returns (r: Result<Hits, KmerError>)
      ensures r.Success? <==> kmerSize >= 2 && |s| >= kmerSize
      ensures kmerSize < 2 ==> r == Failure(ZeroStride)
      ensures kmerSize >= 2 && |s| < kmerSize ==> r == Failure(DivisionByZero)
      ensures r.Success? ==> 1 <= r.value.kmers && r.value.hits <= r.value.kmers
      ensures r.Success? ==> r.value.kmers == (|s| - kmerSize + kmerSize / 2) / (kmerSize / 2)
      ensures r.Success? ==> r.value.hits == CountIn(Sampled(s, kmerSize, kmerSize / 2, 0), kmerCounts)
    {
      var counted := CountHits(s);
      if counted.Failure? {
        return Failure(counted.error);
      }
      if kmerSize >= 2 {
        SampledCount(s, kmerSize, kmerSize / 2);
      }
      if counted.value.kmers == 0 {
        return Failure(DivisionByZero);
      }
      return Success(counted.value);
    }
  }

  /**
   * An index built from `s` finds every window of `s`: scanning `s` with
   * stride 1 gives hits == kmers == |s| - k + 1.
   */
  lemma SelfHits(s: string, k: nat, before: multiset<string>)
    requires |s| >= k
    ensures var ws := Sampled(s, k, 1, 0);
      CountIn(ws, before + multiset(Windows(s, k))) == |ws| == |s| - k + 1
  {
    SampledStrideOne(s, k, 0);
    var ws := Windows(s, k);
    assert ws[0..] == ws;
    forall i | 0 <= i < |ws| ensures ws[i] in before + multiset(ws) {
      assert ws[i] in multiset(ws);
    }
  }

  /** Indexing the same sequences in either order gives the same counts. */
  method IndexingCommutes(k: nat, a: string, b: string) returns (same: bool)
    ensures same
  {
    var x := new KmerIndex(k);
    x.Index(a);
    x.Index(b);
    var y := new KmerIndex(k);
    y.Index(b);
    y.Index(a);
    same := x.kmerCounts == y.kmerCounts;
  }

  /**
   * `index(s)` raises the count of `w` by the number of positions where `w`
   * occurs as a window of `s`, and leaves every other count alone.
   */
  lemma IndexAddsOccurrences(before: multiset<string>, s: string, k: nat, w: string)
    ensures (before + multiset(Windows(s, k)))[w] == before[w] + |Occurrences(s, k, w)|
  {
    WindowCount(s, k, w);
  }
}
