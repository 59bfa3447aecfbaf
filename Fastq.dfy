/**
 * The FASTQ reader (klamp/fastq.py): a per-line automaton that collects a
 * header, a sequence, an optional `+` separator and a quality line, and
 * commits each complete record to three dictionaries keyed by read name.
 *
 * `Run` is the automaton as a function over the lines read so far;
 * `FastQ.Read` is the imperative loop and is proved to compute it.
 */
module Fastq {
  import opened Wrappers
  import opened PyStr
  import opened Dicts
  import opened FastqHelpers

  datatype ParseError =
    | BadHeader(header: HeaderError)  // raised by the header decoder
    | LengthMismatch                  // "read and quality lengths don't match"
    | Malformed                       // the final `else` of the automaton

  /** The reader's pending record fields and the three dictionaries filled so far. */
  datatype Reader = Reader(
    name: Option<string>,
    metadata: Option<Metadata>,
    sequence: Option<string>,
    quals: Option<seq<int>>,
    seqs: Dict<string, string>,
    qualDict: Dict<string, seq<int>>,
    metas: Dict<string, Metadata>)
  {
    predicate Valid()
    {
      seqs.Valid() && qualDict.Valid() && metas.Valid() && (name.Some? ==> metadata.Some?)
    }

    /** No record is pending. */
    predicate Idle()
    {
      name.None? && metadata.None? && sequence.None? && quals.None?
    }
  }

  function Start(): (st: Reader)
    ensures st.Valid() && st.Idle()
  {
    Reader(None, None, None, None, Empty(), Empty(), Empty())
  }

  /** `np.zeros(n, dtype="int")` */
  function Zeros(n: nat): (z: seq<int>)
    ensures |z| == n && forall i :: 0 <= i < n ==> z[i] == 0
  {
    seq(n, _ => 0)
  }

  /** The quality array stored for a record: zeros when qualities are skipped. */
  function QualsFor(line: string, sequence: string, skipQuals: bool): seq<int>
  {
    if skipQuals then Zeros(|sequence|) else DecodeQuals(line)
  }

  /** One line of input, stripped, fed to the automaton. */
  function Step(st: Reader, raw: string, skipQuals: bool, normalize: string -> string): (r: Result<Reader, ParseError>)
    requires st.Valid()
    ensures r.Success? ==> r.value.Valid()
  {
    var line := Strip(raw);
    if line == [] then Success(st)
    else if st.name.None? then
      match HeaderOf(line, true)
      case Failure(e) => Failure(BadHeader(e))
      case Success(h) => Success(st.(name := Some(h.name), metadata := Some(h.metadata)))
    else if st.sequence.None? then Success(st.(sequence := Some(normalize(line))))
    else if line == "+" then Success(st)
    else if st.quals.None? then
      var q := QualsFor(line, st.sequence.value, skipQuals);
      if |q| != |st.sequence.value| then Failure(LengthMismatch)
      else
        var name := st.name.value;
        Success(Reader(None, None, None, None,
          st.seqs.Put(name, st.sequence.value),
          st.qualDict.Put(name, q),
          st.metas.Put(name, st.metadata.value)))
    else Failure(Malformed)
  }

  /** The automaton after the given lines; the first error stops it. */
  function Run(lines: seq<string>, skipQuals: bool, normalize: string -> string): (r: Result<Reader, ParseError>)
    ensures r.Success? ==> r.value.Valid()
  {
    if lines == [] then Success(Start())
    else
      match Run(lines[..|lines| - 1], skipQuals, normalize)
      case Failure(e) => Failure(e)
      case Success(st) => Step(st, lines[|lines| - 1], skipQuals, normalize)
  }

  lemma RunSnoc(lines: seq<string>, line: string, skipQuals: bool, normalize: string -> string)
    ensures Run(lines, skipQuals, normalize).Failure? ==> Run(lines + [line], skipQuals, normalize) == Run(lines, skipQuals, normalize)
    ensures Run(lines, skipQuals, normalize).Success? ==>
      Run(lines + [line], skipQuals, normalize) == Step(Run(lines, skipQuals, normalize).value, line, skipQuals, normalize)
  {
    assert (lines + [line])[..|lines|] == lines;
  }

  lemma RunNext(lines: seq<string>, i: nat, skipQuals: bool, normalize: string -> string)
    requires i < |lines| && Run(lines[..i], skipQuals, normalize).Success?
    ensures Run(lines[..i + 1], skipQuals, normalize) == Step(Run(lines[..i], skipQuals, normalize).value, lines[i], skipQuals, normalize)
  {
    PrefixNext(lines, i);
    RunSnoc(lines[..i], lines[i], skipQuals, normalize);
  }

  /** The first `i + 1` elements are the first `i` followed by element `i`. */
  lemma PrefixNext<T>(q: seq<T>, i: nat)
    requires i < |q|
    ensures q[..i + 1] == q[..i] + [q[i]]
  {
  }

  /** Once a line raises, the lines after it are never read. */
  lemma {:induction false} RunStops(lines: seq<string>, i: nat, skipQuals: bool, normalize: string -> string)
    requires i <= |lines| && Run(lines[..i], skipQuals, normalize).Failure?
    ensures Run(lines, skipQuals, normalize) == Run(lines[..i], skipQuals, normalize)
    decreases |lines| - i
  {
    if i < |lines| {
      RunSnoc(lines[..i], lines[i], skipQuals, normalize);
      assert lines[..i] + [lines[i]] == lines[..i + 1];
      RunStops(lines, i + 1, skipQuals, normalize);
    } else {
      assert lines[..i] == lines;
    }
  }

  /**
   * What every state reached from the start satisfies: the quality slot is
   * always empty, a sequence only follows a name, and the three dictionaries
   * hold the same keys in the same order, each quality array as long as its
   * sequence (all zeros when qualities are skipped).
   */
  predicate Consistent(st: Reader, skipQuals: bool)
  {
    && st.Valid()
    && st.quals.None?
    && (st.sequence.Some? ==> st.name.Some?)
    && st.seqs.keys == st.qualDict.keys == st.metas.keys
    && (forall k :: k in st.seqs.entries ==> |st.qualDict.entries[k]| == |st.seqs.entries[k]|)
    && (skipQuals ==> forall k :: k in st.seqs.entries ==> st.qualDict.entries[k] == Zeros(|st.seqs.entries[k]|))
  }

  lemma StepConsistent(st: Reader, raw: string, skipQuals: bool, normalize: string -> string)
    requires Consistent(st, skipQuals)
    ensures Step(st, raw, skipQuals, normalize).Success? ==> Consistent(Step(st, raw, skipQuals, normalize).value, skipQuals)
    ensures Step(st, raw, skipQuals, normalize) != Failure(Malformed)
    ensures skipQuals ==> Step(st, raw, skipQuals, normalize) != Failure(LengthMismatch)
  {
    var line := Strip(raw);
    var r := Step(st, raw, skipQuals, normalize);
    if line == [] {
      assert r == Success(st);
    } else if st.name.None? {
      var hr := HeaderOf(line, true);
      if hr.Success? {
        assert r == Success(st.(name := Some(hr.value.name), metadata := Some(hr.value.metadata)));
      } else {
        assert r == Failure(BadHeader(hr.error));
      }
    } else if st.sequence.None? {
      assert r == Success(st.(sequence := Some(normalize(line))));
    } else if line == "+" {
      assert r == Success(st);
    } else {
      var q := QualsFor(line, st.sequence.value, skipQuals);
      if |q| != |st.sequence.value| {
        assert r == Failure(LengthMismatch);
      } else {
        CommitConsistent(st, q, skipQuals);
      }
    }
  }

  /** Committing a record stores one name in all three dictionaries. */
  lemma CommitConsistent(st: Reader, q: seq<int>, skipQuals: bool)
    requires Consistent(st, skipQuals) && st.name.Some? && st.sequence.Some?
    requires |q| == |st.sequence.value|
    requires skipQuals ==> q == Zeros(|st.sequence.value|)
    ensures var name := st.name.value;
      Consistent(Reader(None, None, None, None,
        st.seqs.Put(name, st.sequence.value),
        st.qualDict.Put(name, q),
        st.metas.Put(name, st.metadata.value)), skipQuals)
  {
    var name := st.name.value;
    KeysPut(st.seqs, st.qualDict, name, st.sequence.value, q);
    KeysPut(st.seqs, st.metas, name, st.sequence.value, st.metadata.value);
  }

  /**
   * The automaton never reaches its final `else`, stores the same names in
   * all three dictionaries with qualities as long as sequences, and with
   * skipped qualities stores zeros and never reports a length mismatch.
   */
  lemma {:induction false} RunConsistent(lines: seq<string>, skipQuals: bool, normalize: string -> string)
    ensures Run(lines, skipQuals, normalize).Success? ==> Consistent(Run(lines, skipQuals, normalize).value, skipQuals)
    ensures Run(lines, skipQuals, normalize) != Failure(Malformed)
    ensures skipQuals ==> Run(lines, skipQuals, normalize) != Failure(LengthMismatch)
    decreases |lines|
  {
    if lines != [] {
      var init := lines[..|lines| - 1];
      RunConsistent(init, skipQuals, normalize);
      if Run(init, skipQuals, normalize).Success? {
        StepConsistent(Run(init, skipQuals, normalize).value, lines[|lines| - 1], skipQuals, normalize);
      }
    }
  }

  /** The lines that are not blank once stripped. */
  function NonBlank(lines: seq<string>): (r: seq<string>)
    ensures |r| <= |lines|
    ensures forall i :: 0 <= i < |r| ==> Strip(r[i]) != []
  {
    if lines == [] then []
    else if Strip(lines[|lines| - 1]) == [] then NonBlank(lines[..|lines| - 1])
    else NonBlank(lines[..|lines| - 1]) + [lines[|lines| - 1]]
  }

  /** Blank lines are ignored wherever they appear. */
  lemma {:induction false} RunIgnoresBlank(lines: seq<string>, skipQuals: bool, normalize: string -> string)
    ensures Run(lines, skipQuals, normalize) == Run(NonBlank(lines), skipQuals, normalize)
    decreases |lines|
  {
    if lines != [] {
      var init := lines[..|lines| - 1];
      var last := lines[|lines| - 1];
      RunIgnoresBlank(init, skipQuals, normalize);
      if Strip(last) != [] {
        RunSnoc(NonBlank(init), last, skipQuals, normalize);
      }
    }
  }

  /**
   * A complete record appended to input that has no pending record is
   * stored under its name in all three dictionaries, replacing any earlier
   * record of that name; after its header and sequence alone, nothing is
   * stored yet.
   */
  lemma AppendRecord(lines: seq<string>, header: string, sq: string, sep: string, ql: string, skipQuals: bool, normalize: string -> string)
    requires Run(lines, skipQuals, normalize).Success? && Run(lines, skipQuals, normalize).value.Idle()
    requires HeaderOf(Strip(header), true).Success? && Strip(sq) != []
    requires Strip(sep) == "+" && Strip(ql) != [] && Strip(ql) != "+"
    requires skipQuals || |Strip(ql)| == |normalize(Strip(sq))|
    ensures var st := Run(lines, skipQuals, normalize).value;
      && Run(lines + [header, sq], skipQuals, normalize).Success?
      && Run(lines + [header, sq], skipQuals, normalize).value.seqs == st.seqs
      && Run(lines + [header, sq], skipQuals, normalize).value.qualDict == st.qualDict
      && Run(lines + [header, sq], skipQuals, normalize).value.metas == st.metas
    ensures var st := Run(lines, skipQuals, normalize).value;
      var h := HeaderOf(Strip(header), true).value;
      var s := normalize(Strip(sq));
      Run(lines + [header, sq, sep, ql], skipQuals, normalize) ==
        Success(Reader(None, None, None, None,
          st.seqs.Put(h.name, s),
          st.qualDict.Put(h.name, QualsFor(Strip(ql), s, skipQuals)),
          st.metas.Put(h.name, h.metadata)))
  {
    var st0 := Run(lines, skipQuals, normalize).value;
    var h := HeaderOf(Strip(header), true).value;
    var s := normalize(Strip(sq));
    var st1 := st0.(name := Some(h.name), metadata := Some(h.metadata));
    var st2 := st1.(sequence := Some(s));
    var l1 := lines + [header];
    var l2 := l1 + [sq];
    var l3 := l2 + [sep];
    var l4 := l3 + [ql];
    RunSnoc(lines, header, skipQuals, normalize);
    assert Run(l1, skipQuals, normalize) == Success(st1);
    RunSnoc(l1, sq, skipQuals, normalize);
    assert Run(l2, skipQuals, normalize) == Success(st2);
    AppendFour(lines, header, sq, sep, ql);
    PlusQualityLineSkipped(st2, sep, skipQuals, normalize);
    RunSnoc(l2, sep, skipQuals, normalize);
    RunSnoc(l3, ql, skipQuals, normalize);
  }

  lemma AppendFour<T>(p: seq<T>, a: T, b: T, c: T, d: T)
    ensures p + [a] + [b] == p + [a, b]
    ensures p + [a] + [b] + [c] + [d] == p + [a, b, c, d]
  {
  }

  /** A quality line that reads `+` is taken for the separator and skipped. */
  lemma PlusQualityLineSkipped(st: Reader, line: string, skipQuals: bool, normalize: string -> string)
    requires st.Valid() && st.name.Some? && st.sequence.Some? && Strip(line) == "+"
    ensures Step(st, line, skipQuals, normalize) == Success(st)
  {
  }

  /** With qualities decoded, a quality line of the wrong length is an error. */
  lemma QualityLengthChecked(st: Reader, ql: string, normalize: string -> string)
    requires st.Valid() && st.name.Some? && st.sequence.Some? && st.quals.None?
    requires Strip(ql) != [] && Strip(ql) != "+" && |Strip(ql)| != |st.sequence.value|
    ensures Step(st, ql, false, normalize) == Failure(LengthMismatch)
  {
  }

  /** A parsed FASTQ file: sequences, quality arrays and metadata keyed by read name. */
  class FastQ {
    var seqDict: Dict<string, string>
    var qualDict: Dict<string, seq<int>>
    var metadataDict: Dict<string, Metadata>

    ghost predicate Valid()
      reads this
    {
      seqDict.Valid() && qualDict.Valid() && metadataDict.Valid()
    }

    constructor (seqDict: Dict<string, string>, qualDict: Dict<string, seq<int>>, metadataDict: Dict<string, Metadata>)
      requires seqDict.Valid() && qualDict.Valid() && metadataDict.Valid()
      ensures Valid()
      ensures this.seqDict == seqDict && this.qualDict == qualDict && this.metadataDict == metadataDict
    {
      this.seqDict := seqDict;
      this.qualDict := qualDict;
      this.metadataDict := metadataDict;
    }

    /** `qualities()`: the quality arrays in the order their names were first read. */
    function Qualities(): (qs: seq<seq<int>>)
      reads this
      requires Valid()
      ensures |qs| == qualDict.Size()
      ensures forall i :: 0 <= i < |qs| ==> qs[i] == qualDict.entries[qualDict.keys[i]]
    {
      qualDict.Values()
    }

    /** `keys()`: the read names, each once, in the order they were first read. */
    function Keys(): (ks: seq<string>)
      reads this
      requires Valid()
      ensures forall k :: k in ks <==> k in seqDict.entries
      ensures forall i, j :: 0 <= i < j < |ks| ==> ks[i] != ks[j]
    {
      seqDict.keys
    }

    /** `sequences()`: the stored sequence of each name of `keys()`, in that order. */
    function Sequences(): (ss: seq<string>)
      reads this
      requires Valid()
      ensures |ss| == |Keys()|
      ensures forall i :: 0 <= i < |ss| ==> ss[i] == seqDict.entries[Keys()[i]]
    {
      seqDict.Values()
    }

    /** `key_set()` */
    function KeySet(): (ks: set<string>)
      reads this
      requires Valid()
      ensures ks == seqDict.entries.Keys
    {
      seqDict.KeySet()
    }

    /** `num_lines()`: the number of distinct read names stored. */
    function NumLines(): (n: nat)
      reads this
      requires Valid()
      ensures n == |KeySet()| == |seqDict.entries|
    {
      SizeIsCardinality(seqDict);
      seqDict.Size()
    }

    /** `num_bases()`: the total length of all stored sequences. */
    method NumBases() returns (total: nat)
      requires Valid()
      ensures total == |Join(Sequences())|
    {
      var ss := Sequences();
      total := 0;
      for i := 0 to |ss|
        invariant total == |Join(ss[..i])|
      {
        assert ss[..i + 1][..i] == ss[..i];
        total := total + |ss[i]|;
      }
      assert ss[..|ss|] == ss;
    }

    /**
     * `FastQ.read`: the lines of a file fed one by one to the automaton; the
     * first error is reported, otherwise a FastQ holding the three
     * dictionaries. An unfinished record at the end is dropped.
     */
    static method Read(lines: seq<string>, skipQuals: bool := true, normalize: string -> string)
      returns (r: Result<FastQ, ParseError>)
      ensures Run(lines, skipQuals, normalize).Failure? ==> r == Failure(Run(lines, skipQuals, normalize).error)
      ensures Run(lines, skipQuals, normalize).Success? ==>
        var st := Run(lines, skipQuals, normalize).value;
        && r.Success? && fresh(r.value)
        && r.value.seqDict == st.seqs && r.value.qualDict == st.qualDict && r.value.metadataDict == st.metas
    {
      var st := Start();
      for i := 0 to |lines|
        invariant Run(lines[..i], skipQuals, normalize) == Success(st)
      {
        RunNext(lines, i, skipQuals, normalize);
        var next := ReadLine(st, lines[i], skipQuals, normalize);
        if next.Failure? {
          RunStops(lines, i + 1, skipQuals, normalize);
          return Failure(next.error);
        }
        st := next.value;
      }
      assert lines[..|lines|] == lines;
      var fq := new FastQ(st.seqs, st.qualDict, st.metas);
      return Success(fq);
    }

    /**
     * The body of the loop of `read`: one stripped line moves the pending
     * name, metadata, sequence and qualities along, and a quality line
     * commits the record to the three dictionaries.
     *
     * It takes the same branches as `Step`, but runs the decoders as the
     * source does, through the loops of `ReadIdAndMetadataLine` and
     * `ReadQuals`; its postcondition ties it to `Step`, about which the
     * properties of the reader are proved.
     */
    static method ReadLine(st: Reader, raw: string, skipQuals: bool, normalize: string -> string)
      returns (r: Result<Reader, ParseError>)
      requires st.Valid()
      ensures r == Step(st, raw, skipQuals, normalize)
    {
      var line := Strip(raw);
      if line == [] {
        return Success(st);
      }
      if st.name.None? {
        var h := ReadIdAndMetadataLine(line);
        if h.Failure? {
          return Failure(BadHeader(h.error));
        }
        return Success(st.(name := Some(h.value.name), metadata := Some(h.value.metadata)));
      } else if st.sequence.None? {
        return Success(st.(sequence := Some(normalize(line))));
      } else if line == "+" {
        return Success(st);
      } else if st.quals.None? {
        var q;
        if skipQuals {
          q := Zeros(|st.sequence.value|);
        } else {
          q := ReadQuals(line);
        }
        if |q| != |st.sequence.value| {
          return Failure(LengthMismatch);
        }
        var name := st.name.value;
        var seqDict := st.seqs.Put(name, st.sequence.value);
        var qualDict := st.qualDict.Put(name, q);
        var metadataDict := st.metas.Put(name, st.metadata.value);
        return Success(Reader(None, None, None, None, seqDict, qualDict, metadataDict));
      } else {
        return Failure(Malformed);
      }
    }
  }

  /** `read` with qualities skipped never fails on the quality line and stores zeros. */
  lemma SkippedQualitiesAreZeros(lines: seq<string>, normalize: string -> string, k: string)
    requires Run(lines, true, normalize).Success?
    requires k in Run(lines, true, normalize).value.seqs.entries
    ensures var st := Run(lines, true, normalize).value;
      k in st.qualDict.entries && st.qualDict.entries[k] == Zeros(|st.seqs.entries[k]|)
  {
    RunConsistent(lines, true, normalize);
  }
}
