/**
 * Homopolymer run-length collapse (klamp/repeats.py).
 *
 * `count_repeats` walks a nucleotide string once and reports run heads and
 * run lengths, but it only flushes a run when a different character arrives
 * and never after the loop, so the final run of the input is always lost.
 * `CountRepeats` models that loop as written; `CountRuns` is the collapse
 * the docstring describes, with the missing final flush.
 */
module Repeats {
  import opened Wrappers

  /** A run of `len` copies of `ch`. */
  datatype Run = Run(ch: char, len: nat)

  function Repeat(c: char, n: nat): (r: string)
    ensures |r| == n
    ensures forall i :: 0 <= i < n ==> r[i] == c
  {
    if n == 0 then [] else Repeat(c, n - 1) + [c]
  }

  /** The string a run list stands for: each head repeated its length times. */
  function Expand(runs: seq<Run>): string
  {
    if runs == [] then [] else Expand(runs[..|runs| - 1]) + Repeat(runs[|runs| - 1].ch, runs[|runs| - 1].len)
  }

  function Heads(runs: seq<Run>): (r: string)
    ensures |r| == |runs|
    ensures forall i :: 0 <= i < |runs| ==> r[i] == runs[i].ch
  {
    seq(|runs|, i requires 0 <= i < |runs| => runs[i].ch)
  }

  function Lengths(runs: seq<Run>): (r: seq<int>)
    ensures |r| == |runs|
    ensures forall i :: 0 <= i < |runs| ==> r[i] == runs[i].len
  {
    seq(|runs|, i requires 0 <= i < |runs| => runs[i].len as int)
  }

  /** Every run is non-empty and no two neighbouring runs share a character. */
  ghost predicate Maximal(runs: seq<Run>)
  {
    && (forall i :: 0 <= i < |runs| ==> runs[i].len >= 1)
    && (forall i :: 0 < i < |runs| ==> HeadsDiffer(runs, i))
  }

  /** Run `i` and the run before it have different characters. */
  ghost predicate HeadsDiffer(runs: seq<Run>, i: int)
    requires 0 < i < |runs|
  {
    runs[i - 1].ch != runs[i].ch
  }

  /** `runs` is the run-length encoding of `s`. */
  ghost predicate Encodes(runs: seq<Run>, s: string)
  {
    Maximal(runs) && Expand(runs) == s
  }

  /** A non-empty sequence is its front followed by its last element. */
  lemma InitLast<T>(q: seq<T>)
    requires |q| > 0
    ensures q == q[..|q| - 1] + [q[|q| - 1]]
  {
  }

  lemma ExpandSnoc(runs: seq<Run>, r: Run)
    ensures Expand(runs + [r]) == Expand(runs) + Repeat(r.ch, r.len)
  {
    assert (runs + [r])[..|runs|] == runs;
  }

  /** Appending a non-empty run with a fresh character keeps a run list maximal. */
  lemma MaximalSnoc(runs: seq<Run>, r: Run)
    requires Maximal(runs) && r.len >= 1
    requires runs == [] || runs[|runs| - 1].ch != r.ch
    ensures Maximal(runs + [r])
  {
    var t := runs + [r];
    forall i | 0 < i < |t| ensures HeadsDiffer(t, i) {
      if i < |runs| {
        assert HeadsDiffer(runs, i);
        assert t[i - 1] == runs[i - 1] && t[i] == runs[i];
      }
    }
  }

  /** Lengthening the last run of a maximal list by one character. */
  lemma ExtendLast(prev: seq<Run>, c: char)
    requires Maximal(prev) && |prev| > 0 && prev[|prev| - 1].ch == c
    ensures var init := prev[..|prev| - 1];
      && Maximal(init + [Run(c, prev[|prev| - 1].len + 1)])
      && Expand(init + [Run(c, prev[|prev| - 1].len + 1)]) == Expand(prev) + [c]
  {
    var last := prev[|prev| - 1];
    var init := prev[..|prev| - 1];
    var r := Run(c, last.len + 1);
    InitLast(prev);
    MaximalInit(prev);
    assert init == [] || init[|init| - 1].ch != c by {
      if init != [] {
        assert init[|init| - 1] == prev[|prev| - 2];
      }
    }
    MaximalSnoc(init, r);
    ExpandExtend(init, last);
  }

  /** One more copy of the last run's character spells one more character. */
  lemma ExpandExtend(init: seq<Run>, last: Run)
    ensures Expand(init + [Run(last.ch, last.len + 1)]) == Expand(init + [last]) + [last.ch]
  {
    var c := last.ch;
    calc {
      Expand(init + [Run(c, last.len + 1)]);
      { ExpandSnoc(init, Run(c, last.len + 1)); }
      Expand(init) + Repeat(c, last.len + 1);
      { assert Repeat(c, last.len + 1) == Repeat(c, last.len) + [c]; }
      Expand(init) + Repeat(c, last.len) + [c];
      { ExpandSnoc(init, last); }
      Expand(init + [last]) + [c];
    }
  }

  /** Adds one character to a run list: it lengthens the last run or opens a run of length 1. */
  function Push(runs: seq<Run>, c: char): (r: seq<Run>)
    ensures |r| > 0 && r[|r| - 1].ch == c
  {
    if |runs| > 0 && runs[|runs| - 1].ch == c
    then runs[..|runs| - 1] + [Run(c, runs[|runs| - 1].len + 1)]
    else runs + [Run(c, 1)]
  }

  /** The run-length encoding of `s`, built one character at a time. */
  function Runs(s: string): (runs: seq<Run>)
    ensures |runs| == 0 <==> |s| == 0
    ensures |s| > 0 ==> runs[|runs| - 1].ch == s[|s| - 1]
  {
    if |s| == 0 then [] else Push(Runs(s[..|s| - 1]), s[|s| - 1])
  }

  /** `Runs(s)` is a run-length encoding of `s`: maximal runs that spell `s` again. */
  lemma {:induction false} RunsEncodes(s: string)
    ensures Encodes(Runs(s), s)
    decreases |s|
  {
    if |s| > 0 {
      var s' := s[..|s| - 1];
      var c := s[|s| - 1];
      assert s == s' + [c];
      RunsEncodes(s');
      var prev := Runs(s');
      assert Runs(s) == Push(prev, c);
      if |prev| > 0 && prev[|prev| - 1].ch == c {
        ExtendLast(prev, c);
        assert Push(prev, c) == prev[..|prev| - 1] + [Run(c, prev[|prev| - 1].len + 1)];
      } else {
        assert Push(prev, c) == prev + [Run(c, 1)];
        MaximalSnoc(prev, Run(c, 1));
        ExpandSnoc(prev, Run(c, 1));
        assert Repeat(c, 1) == [c];
      }
    }
  }

  /** One more character either lengthens the last run or opens a new one. */
  lemma RunsSnoc(s: string, c: char)
    ensures Runs(s + [c]) == Push(Runs(s), c)
  {
    assert (s + [c])[..|s|] == s;
  }

  /** Dropping the last run of a maximal list keeps it maximal, and its new last head differs. */
  lemma MaximalInit(runs: seq<Run>)
    requires Maximal(runs) && |runs| > 0
    ensures Maximal(runs[..|runs| - 1])
    ensures |runs| > 1 ==> runs[|runs| - 2].ch != runs[|runs| - 1].ch
  {
    var init := runs[..|runs| - 1];
    forall i | 0 < i < |init| ensures HeadsDiffer(init, i) {
      assert HeadsDiffer(runs, i);
      assert init[i - 1] == runs[i - 1] && init[i] == runs[i];
    }
    if |runs| > 1 {
      assert HeadsDiffer(runs, |runs| - 1);
    }
  }

  /** The run-length encoding is unique: any maximal run list spelling `s` is `Runs(s)`. */
  lemma {:induction false} RunsUnique(runs: seq<Run>, s: string)
    requires Encodes(runs, s)
    ensures runs == Runs(s)
    decreases |s|
  {
    if runs != [] {
      var last := runs[|runs| - 1];
      var init := runs[..|runs| - 1];
      var c := last.ch;
      InitLast(runs);
      var s' := DropLastChar(init, last);
      assert Runs(s) == Push(Runs(s'), c) by {
        assert s == s' + [c];
        RunsSnoc(s', c);
      }
      if last.len == 1 {
        RunsUnique(init, s');
        PushFresh(init, c);
      } else {
        RunsUnique(init + [Run(c, last.len - 1)], s');
        PushExtend(init, c, last.len - 1);
      }
    }
  }

  /** A character different from the last head opens a run of length 1. */
  lemma PushFresh(init: seq<Run>, c: char)
    requires init == [] || init[|init| - 1].ch != c
    ensures Push(init, c) == init + [Run(c, 1)]
  {
  }

  /** The character of the last run lengthens that run by one. */
  lemma PushExtend(init: seq<Run>, c: char, n: nat)
    ensures Push(init + [Run(c, n)], c) == init + [Run(c, n + 1)]
  {
    assert (init + [Run(c, n)])[..|init|] == init;
  }

  /**
   * Splitting the last character off a maximal run list: what is left is
   * spelt by `init` followed by the shortened last run.
   */
  lemma DropLastChar(init: seq<Run>, last: Run) returns (s': string)
    requires Maximal(init + [last])
    ensures Expand(init + [last]) == s' + [last.ch]
    ensures last.len >= 1
    ensures init == [] || init[|init| - 1].ch != last.ch
    ensures last.len == 1 ==> Encodes(init, s')
    ensures last.len > 1 ==> Encodes(init + [Run(last.ch, last.len - 1)], s')
  {
    var runs := init + [last];
    var c := last.ch;
    assert runs[..|runs| - 1] == init;
    MaximalInit(runs);
    assert last.len >= 1 by {
      assert runs[|runs| - 1] == last;
    }
    s' := Expand(init) + Repeat(c, last.len - 1);
    assert Expand(runs) == s' + [c] by {
      ExpandSnoc(init, last);
      assert Repeat(c, last.len) == Repeat(c, last.len - 1) + [c];
    }
    assert init == [] || init[|init| - 1].ch != c by {
      if init != [] {
        assert runs[|runs| - 2] == init[|init| - 1];
      }
    }
    if last.len == 1 {
      assert Expand(init) == s';
    } else {
      MaximalSnoc(init, Run(c, last.len - 1));
      ExpandSnoc(init, Run(c, last.len - 1));
    }
  }

  /** What `count_repeats` returns: every run of `s` but the last one. */
  function Collapsed(s: string): seq<Run>
  {
    var runs := Runs(s);
    if runs == [] then [] else runs[..|runs| - 1]
  }

  /**
   * `count_repeats` as written: a run is emitted only when a different
   * character arrives, and nothing is emitted after the loop.
   */
  method CountRepeats(s: string) returns (chars: string, counts: seq<int>)
    ensures chars == Heads(Collapsed(s))
    ensures counts == Lengths(Collapsed(s))
  {
    chars, counts := [], [];
    var lastChar: Option<char> := None;
    var count := 0;
    ghost var done: seq<Run> := [];
    for i := 0 to |s|
      invariant i == 0 ==> lastChar == None && count == 0 && done == []
      invariant i > 0 ==> lastChar.Some? && count >= 1 && Runs(s[..i]) == done + [Run(lastChar.value, count)]
      invariant chars == Heads(done) && counts == Lengths(done)
    {
      var c := s[i];
      assert s[..i + 1][..i] == s[..i];
      if lastChar == Some(c) {
        count := count + 1;
      } else {
        if lastChar.Some? && count > 0 {
          chars := chars + [lastChar.value];
          counts := counts + [count];
          done := done + [Run(lastChar.value, count)];
        }
        lastChar := Some(c);
        count := 1;
      }
    }
    if |s| > 0 {
      assert s[..|s|] == s;
      var runs := Runs(s);
      assert runs[..|runs| - 1] == done;
    }
  }

  /**
   * The docstring's collapse: `count_repeats` with a flush of the pending
   * run after the loop, so that every character is paired with a count.
   */
  method CountRuns(s: string) returns (chars: string, counts: seq<int>)
    ensures chars == Heads(Runs(s))
    ensures counts == Lengths(Runs(s))
  {
    chars, counts := [], [];
    var lastChar: Option<char> := None;
    var count := 0;
    ghost var done: seq<Run> := [];
    for i := 0 to |s|
      invariant i == 0 ==> lastChar == None && count == 0 && done == []
      invariant i > 0 ==> lastChar.Some? && count >= 1 && Runs(s[..i]) == done + [Run(lastChar.value, count)]
      invariant chars == Heads(done) && counts == Lengths(done)
    {
      var c := s[i];
      assert s[..i + 1][..i] == s[..i];
      if lastChar == Some(c) {
        count := count + 1;
      } else {
        if lastChar.Some? && count > 0 {
          chars := chars + [lastChar.value];
          counts := counts + [count];
          done := done + [Run(lastChar.value, count)];
        }
        lastChar := Some(c);
        count := 1;
      }
    }
    if lastChar.Some? && count > 0 {
      chars := chars + [lastChar.value];
      counts := counts + [count];
      done := done + [Run(lastChar.value, count)];
      assert s[..|s|] == s;
    }
  }

  /**
   * The length of the longest suffix of `s` made of one repeated character:
   * the final maximal run.
   */
  function TrailingRun(s: string): (t: nat)
    ensures |s| > 0 ==> 1 <= t <= |s|
    ensures |s| == 0 ==> t == 0
    ensures forall i :: |s| - t <= i < |s| ==> s[i] == s[|s| - 1]
    ensures t < |s| ==> s[|s| - t - 1] != s[|s| - 1]
  {
    if |s| == 0 then 0
    else if |s| >= 2 && s[|s| - 2] == s[|s| - 1] then TrailingRun(s[..|s| - 1]) + 1
    else 1
  }

  /** The last run of the encoding is the trailing run of the string. */
  lemma {:induction false} LastRunIsTrailingRun(s: string)
    requires |s| > 0
    ensures Runs(s)[|Runs(s)| - 1] == Run(s[|s| - 1], TrailingRun(s))
    decreases |s|
  {
    var s' := s[..|s| - 1];
    var c := s[|s| - 1];
    assert s == s' + [c];
    RunsSnoc(s', c);
    if |s| >= 2 {
      LastRunIsTrailingRun(s');
    }
  }

  /**
   * What `count_repeats` loses: the runs it returns spell a prefix of `s`,
   * and what remains is exactly the final maximal run, which is non-empty
   * and headed by a character different from the last one returned.
   */
  lemma CountRepeatsDropsFinalRun(s: string)
    requires |s| > 0
    ensures var t := TrailingRun(s);
      && Maximal(Collapsed(s))
      && s == Expand(Collapsed(s)) + s[|s| - t..]
      && (Collapsed(s) == [] || Collapsed(s)[|Collapsed(s)| - 1].ch != s[|s| - 1])
  {
    var runs := Runs(s);
    var t := TrailingRun(s);
    var init := runs[..|runs| - 1];
    RunsEncodes(s);
    LastRunIsTrailingRun(s);
    MaximalInit(runs);
    InitLast(runs);
    ExpandSnoc(init, Run(s[|s| - 1], t));
    assert s[|s| - t..] == Repeat(s[|s| - 1], t);
    if init != [] {
      assert init[|init| - 1] == runs[|runs| - 2];
    }
  }

  /**
   * `count_repeats` returns nothing exactly when `s` is empty or a single
   * run such as "A" or "TTTT".
   */
  lemma CountRepeatsEmptyIffOneRun(s: string)
    ensures Collapsed(s) == [] <==> forall i :: 0 <= i < |s| ==> s[i] == s[0]
  {
    if |s| > 0 {
      LastRunIsTrailingRun(s);
      RunsEncodes(s);
      var runs := Runs(s);
      var t := TrailingRun(s);
      if |runs| == 1 {
        assert runs == [] + [runs[0]];
        ExpandSnoc([], runs[0]);
        assert t == |s|;
      } else {
        assert t < |s| by {
          var init := runs[..|runs| - 1];
          InitLast(runs);
          ExpandSnoc(init, runs[|runs| - 1]);
          MaximalInit(runs);
          assert init[0].len >= 1;
          assert |Expand(init)| > 0 by { ExpandNonEmpty(init); }
        }
        assert s[|s| - t - 1] != s[0] || s[|s| - 1] != s[0];
      }
    }
  }

  lemma {:induction false} ExpandNonEmpty(runs: seq<Run>)
    requires |runs| > 0 && runs[0].len >= 1
    ensures |Expand(runs)| >= 1
    decreases |runs|
  {
    var init := runs[..|runs| - 1];
    if |init| > 0 {
      assert init[0] == runs[0];
      ExpandNonEmpty(init);
    }
  }

  /** Positions where the character changes: one fewer than the number of maximal runs. */
  function Changes(s: string): set<nat>
  {
    set i: nat | i < |s| && ChangesAt(s, i)
  }

  predicate ChangesAt(s: string, i: nat)
  {
    0 < i < |s| && s[i - 1] != s[i]
  }

  lemma {:induction false} RunCount(s: string)
    requires |s| > 0
    ensures |Runs(s)| == |Changes(s)| + 1
    decreases |s|
  {
    if |s| > 1 {
      var s' := s[..|s| - 1];
      var c := s[|s| - 1];
      assert s == s' + [c];
      RunsSnoc(s', c);
      RunCount(s');
      if s[|s| - 2] != c {
        assert Changes(s) == Changes(s') + {|s| - 1};
      } else {
        assert Changes(s) == Changes(s');
      }
    } else {
      assert Changes(s) == {};
    }
  }

  /**
   * For non-empty input `count_repeats` emits one run per change of
   * character, that is, one fewer than the number of maximal runs.
   */
  lemma CountRepeatsRunCount(s: string)
    requires |s| > 0
    ensures |Collapsed(s)| == |Changes(s)| == |Runs(s)| - 1
  {
    RunCount(s);
  }

  /** Appending a run of two fresh characters appends one run of length 2. */
  lemma RunsPushPair(p: string, c: char)
    requires p == [] || p[|p| - 1] != c
    ensures Runs(p + [c, c]) == Runs(p) + [Run(c, 2)]
  {
    var p1 := p + [c];
    assert p1 + [c] == p + [c, c];
    RunsFresh(p, c);
    RunsSnoc(p1, c);
    PushExtend(Runs(p), c, 1);
  }

  /** A character different from the last one opens a run of length 1. */
  lemma RunsFresh(p: string, c: char)
    requires p == [] || p[|p| - 1] != c
    ensures Runs(p + [c]) == Runs(p) + [Run(c, 1)]
  {
    RunsSnoc(p, c);
    PushFresh(Runs(p), c);
  }

  /**
   * On a string shaped like "AAGGTT" `count_repeats` returns ("AG", [2, 2])
   * and loses the final run.
   */
  lemma CountRepeatsExample(a: char, g: char, t: char)
    requires a != g && g != t
    ensures Heads(Collapsed([a, a, g, g, t, t])) == [a, g]
    ensures Lengths(Collapsed([a, a, g, g, t, t])) == [2, 2]
    ensures Expand(Collapsed([a, a, g, g, t, t])) == [a, a, g, g]
  {
    var s2 := [a, a];
    var s4 := [a, a, g, g];
    var s6 := [a, a, g, g, t, t];
    RunsPushPair([], a);
    assert [] + [a, a] == s2;
    assert Runs(s2) == [Run(a, 2)];
    RunsPushPair(s2, g);
    assert s2 + [g, g] == s4;
    assert Runs(s4) == [Run(a, 2), Run(g, 2)];
    RunsPushPair(s4, t);
    assert s4 + [t, t] == s6;
    assert Runs(s6) == [Run(a, 2), Run(g, 2), Run(t, 2)];
    assert Collapsed(s6) == Runs(s4);
    RunsEncodes(s4);
  }

  /** Every head paired with a count of one. */
  function Singletons(h: string): (runs: seq<Run>)
    ensures |runs| == |h|
    ensures forall i :: 0 <= i < |h| ==> runs[i] == Run(h[i], 1)
  {
    seq(|h|, i requires 0 <= i < |h| => Run(h[i], 1))
  }

  lemma {:induction false} ExpandSingletons(h: string)
    ensures Expand(Singletons(h)) == h
    decreases |h|
  {
    if |h| > 0 {
      var h' := h[..|h| - 1];
      assert Singletons(h) == Singletons(h') + [Run(h[|h| - 1], 1)];
      ExpandSnoc(Singletons(h'), Run(h[|h| - 1], 1));
      ExpandSingletons(h');
      assert h == h' + [h[|h| - 1]];
    }
  }

  /**
   * Collapsing is idempotent: the heads of a collapsed sequence collapse
   * again to themselves, each with count 1.
   */
  lemma CollapseIdempotent(s: string)
    ensures Runs(Heads(Runs(s))) == Singletons(Heads(Runs(s)))
  {
    var h := Heads(Runs(s));
    RunsEncodes(s);
    ExpandSingletons(h);
    forall i | 0 < i < |h| ensures HeadsDiffer(Singletons(h), i) {
      assert HeadsDiffer(Runs(s), i);
    }
    RunsUnique(Singletons(h), h);
  }
}
