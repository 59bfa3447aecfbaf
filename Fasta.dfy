/**
 * The FASTA reader and reference lookup (klamp/fasta.py).
 *
 * A `Buffer` holds the name of the record being read and its pending
 * lines; a header line finalises the pending record (even when no header
 * was seen yet, which stores it under `None`) and opens a new one.
 * `Scan` is the reader as a function over the lines read so far, and
 * `ReadFasta` is the loop over a `Buffer`, proved to compute it.
 */
module Fasta {
  import opened Wrappers
  import opened PyStr
  import opened Dicts

  type SeqDict = Dict<Option<string>, string>

  datatype FastaError = EmptyHeader  // `line[1:].split()[0]` on a header with no name: IndexError

  /** The three fields of a buffer, as a value. */
  datatype BufferState = BufferState(seqDict: SeqDict, currName: Option<string>, lines: seq<string>)

  /** `finalize_current_record`: store the pending lines under the pending name, then reset. */
  function Finalize(st: BufferState): (r: BufferState)
    requires st.seqDict.Valid()
    ensures r.seqDict.Valid() && r.currName == None && r.lines == []
    ensures r.seqDict.entries == st.seqDict.entries[st.currName := Join(st.lines)]
  {
    BufferState(st.seqDict.Put(st.currName, Join(st.lines)), None, [])
  }

  class Buffer {
    var seqDict: SeqDict
    var currName: Option<string>
    var lines: seq<string>

    ghost function State(): BufferState
      reads this
    {
      BufferState(seqDict, currName, lines)
    }

    ghost predicate Valid()
      reads this
    {
      seqDict.Valid()
    }

    /** An empty dictionary and no pending record. */
    constructor ()
      ensures Valid() && seqDict == Empty() && currName == None && lines == []
    {
      seqDict := Empty();
      new;
      Reset();
    }

    /** `reset`: forget the pending name and lines; the dictionary is kept. */
    method Reset()
      modifies this
      ensures currName == None && lines == [] && seqDict == old(seqDict)
    {
      currName := None;
      lines := [];
    }

    /** `finalize_current_record`: the pending lines, joined, are stored under the pending name. */
    method FinalizeCurrentRecord()
      requires Valid()
      modifies this
      ensures Valid()
      ensures seqDict == old(seqDict).Put(old(currName), Join(old(lines)))
      ensures currName == None && lines == []
      ensures State() == Finalize(old(State()))
    {
      seqDict := seqDict.Put(currName, Join(lines));
      Reset();
    }

    /** `start_new_record`: finalise whatever is pending, then open a record called `name`. */
    method StartNewRecord(name: string)
      requires Valid()
      modifies this
      ensures Valid()
      ensures seqDict == old(seqDict).Put(old(currName), Join(old(lines)))
      ensures currName == Some(name) && lines == []
      ensures State() == Finalize(old(State())).(currName := Some(name))
    {
      FinalizeCurrentRecord();
      currName := Some(name);
    }

    /** `add_line`: one more pending line. */
    method AddLine(line: string)
      modifies this
      ensures seqDict == old(seqDict) && currName == old(currName)
      ensures lines == old(lines) + [line]
    {
      lines := lines + [line];
    }
  }

  predicate IsHeader(line: string)
  {
    |line| > 0 && line[0] == '>'
  }

  /** One line of the file fed to the buffer. */
  function Feed(st: BufferState, line: string, normalize: string -> string): (r: Result<BufferState, FastaError>)
    requires st.seqDict.Valid()
    ensures r.Success? ==> r.value.seqDict.Valid()
  {
    if IsHeader(line) then
      var tokens := Split(line[1..]);
      if tokens == [] then Failure(EmptyHeader) else Success(Finalize(st).(currName := Some(tokens[0])))
    else Success(st.(lines := st.lines + [normalize(line)]))
  }

  /** The buffer after the given lines; the first error stops the reader. */
  function Scan(lines: seq<string>, normalize: string -> string): (r: Result<BufferState, FastaError>)
    ensures r.Success? ==> r.value.seqDict.Valid()
  {
    if lines == [] then Success(BufferState(Empty(), None, []))
    else
      match Scan(lines[..|lines| - 1], normalize)
      case Failure(e) => Failure(e)
      case Success(st) => Feed(st, lines[|lines| - 1], normalize)
  }

  /** What `read_fasta` returns: the dictionary once the last record is finalised. */
  function FastaOf(lines: seq<string>, normalize: string -> string): Result<SeqDict, FastaError>
  {
    match Scan(lines, normalize)
    case Failure(e) => Failure(e)
    case Success(st) => Success(Finalize(st).seqDict)
  }

  lemma ScanSnoc(lines: seq<string>, line: string, normalize: string -> string)
    ensures Scan(lines, normalize).Failure? ==> Scan(lines + [line], normalize) == Scan(lines, normalize)
    ensures Scan(lines, normalize).Success? ==>
      Scan(lines + [line], normalize) == Feed(Scan(lines, normalize).value, line, normalize)
  {
    assert (lines + [line])[..|lines|] == lines;
  }

  lemma ScanNext(lines: seq<string>, i: nat, normalize: string -> string)
    requires i < |lines| && Scan(lines[..i], normalize).Success?
    ensures Scan(lines[..i + 1], normalize) == Feed(Scan(lines[..i], normalize).value, lines[i], normalize)
  {
    var q := lines[..i + 1];
    assert q[..|q| - 1] == lines[..i];
  }

  /** A header line with no word after its `>` raises. */
  lemma EmptyHeaderRaises(prefix: seq<string>, line: string, normalize: string -> string)
    requires Scan(prefix, normalize).Success?
    requires IsHeader(line) && Split(line[1..]) == []
    ensures Scan(prefix + [line], normalize) == Failure(EmptyHeader)
  {
    ScanSnoc(prefix, line, normalize);
  }

  /** Once a header without a name raises, the lines after it are never read. */
  lemma {:induction false} ScanStops(lines: seq<string>, i: nat, normalize: string -> string)
    requires i <= |lines| && Scan(lines[..i], normalize).Failure?
    ensures Scan(lines, normalize) == Scan(lines[..i], normalize)
    decreases |lines| - i
  {
    if i < |lines| {
      var q := lines[..i + 1];
      assert q[..|q| - 1] == lines[..i];
      ScanStops(lines, i + 1, normalize);
    } else {
      assert lines[..i] == lines;
    }
  }

  /**
   * `read_fasta`: every header line starts a record named by the first
   * word after `>`, every other line is normalised and kept for the current
   * record, and the last record is finalised at the end.
   */
  method ReadFasta(lines: seq<string>, normalize: string -> string) returns (r: Result<SeqDict, FastaError>)
    ensures r == FastaOf(lines, normalize)
  {
    var buffer := new Buffer();
    for i := 0 to |lines|
      invariant buffer.Valid() && Scan(lines[..i], normalize) == Success(buffer.State())
    {
      ScanNext(lines, i, normalize);
      var line := lines[i];
      if |line| > 0 && line[0] == '>' {
        var tokens := Split(line[1..]);
        if |tokens| == 0 {
          ScanStops(lines, i + 1, normalize);
          return Failure(EmptyHeader);
        }
        buffer.StartNewRecord(tokens[0]);
      } else {
        buffer.AddLine(normalize(line));
      }
    }
    assert lines[..|lines|] == lines;
    buffer.FinalizeCurrentRecord();
    return Success(buffer.seqDict);
  }

  /** Each line of a list, normalised. */
  function NormalizeAll(body: seq<string>, normalize: string -> string): (r: seq<string>)
    ensures |r| == |body| && forall i :: 0 <= i < |body| ==> r[i] == normalize(body[i])
  {
    seq(|body|, i requires 0 <= i < |body| => normalize(body[i]))
  }

  predicate NoHeaders(body: seq<string>)
  {
    forall i :: 0 <= i < |body| ==> !IsHeader(body[i])
  }

  /** Lines that are not headers only add their normalised text to the pending record. */
  lemma {:induction false} BodyAppends(prefix: seq<string>, body: seq<string>, normalize: string -> string)
    requires Scan(prefix, normalize).Success? && NoHeaders(body)
    ensures var st := Scan(prefix, normalize).value;
      Scan(prefix + body, normalize) == Success(st.(lines := st.lines + NormalizeAll(body, normalize)))
    decreases |body|
  {
    var st := Scan(prefix, normalize).value;
    if body == [] {
      assert prefix + body == prefix;
      assert st.lines + NormalizeAll(body, normalize) == st.lines;
    } else {
      var init := body[..|body| - 1];
      var last := body[|body| - 1];
      assert NoHeaders(init) by {
        forall i | 0 <= i < |init| ensures !IsHeader(init[i]) {
          assert init[i] == body[i];
        }
      }
      BodyAppends(prefix, init, normalize);
      var before := st.lines + NormalizeAll(init, normalize);
      var mid := st.(lines := before);
      assert !IsHeader(last);
      assert Feed(mid, last, normalize) == Success(mid.(lines := before + [normalize(last)]));
      ScanSnoc(prefix + init, last, normalize);
      SplitLast(prefix, body);
      SplitLast(st.lines, NormalizeAll(body, normalize));
      assert NormalizeAll(body, normalize)[..|body| - 1] == NormalizeAll(init, normalize);
    }
  }

  lemma SplitLast<T>(p: seq<T>, q: seq<T>)
    requires |q| > 0
    ensures p + q == p + q[..|q| - 1] + [q[|q| - 1]]
  {
    assert q == q[..|q| - 1] + [q[|q| - 1]];
  }

  /** The first word after the `>` of a header line. */
  function HeaderName(line: string): (name: string)
    requires IsHeader(line) && Split(line[1..]) != []
    ensures |name| > 0 && NoSpace(name)
  {
    Split(line[1..])[0]
  }

  /**
   * The last record of a file is stored under the first word of its header,
   * with its normalised lines joined, after whatever was pending before the
   * header has been finalised.
   */
  lemma LastRecordStored(prefix: seq<string>, header: string, body: seq<string>, normalize: string -> string)
    requires Scan(prefix, normalize).Success?
    requires IsHeader(header) && Split(header[1..]) != [] && NoHeaders(body)
    ensures var before := Finalize(Scan(prefix, normalize).value).seqDict;
      FastaOf(prefix + [header] + body, normalize) ==
        Success(before.Put(Some(HeaderName(header)), Join(NormalizeAll(body, normalize))))
  {
    ScanSnoc(prefix, header, normalize);
    BodyAppends(prefix + [header], body, normalize);
    assert [] + NormalizeAll(body, normalize) == NormalizeAll(body, normalize);
  }

  /**
   * A file made of one header and its sequence lines holds two records: the
   * empty `None` record finalised by the header, then the named record,
   * whose sequence is the normalised lines joined together.
   */
  lemma SingleRecord(header: string, body: seq<string>, normalize: string -> string)
    requires IsHeader(header) && Split(header[1..]) != [] && NoHeaders(body)
    ensures var name := HeaderName(header);
      && FastaOf([header] + body, normalize) ==
         Success(Dict([None, Some(name)], map[None := "", Some(name) := Join(NormalizeAll(body, normalize))]))
      && FastaOf([header] + body, normalize).value.Size() == 2
  {
    var name := HeaderName(header);
    var j := Join(NormalizeAll(body, normalize));
    var d := Dict([None], map[None := ""]);
    OneRecordScan(header, body, normalize);
    assert FastaOf([header] + body, normalize) == Success(d.Put(Some(name), j));
    assert d.Put(Some(name), j) == Dict([None, Some(name)], map[None := "", Some(name) := j]);
  }

  /** After a first header line: the empty `None` record is stored and the named record is open. */
  lemma FirstHeader(header: string, normalize: string -> string)
    requires IsHeader(header) && Split(header[1..]) != []
    ensures Scan([header], normalize) == Success(BufferState(Dict([None], map[None := ""]), Some(HeaderName(header)), []))
  {
    ScanSnoc([], header, normalize);
    assert [] + [header] == [header];
    var start := BufferState(Empty(), None, []);
    assert Scan([], normalize) == Success(start);
    assert Join([]) == "";
    assert Empty<Option<string>, string>().Put(None, "") == Dict([None], map[None := ""]);
  }

  /** The buffer after a header and its sequence lines: the `None` record is stored, the named one pending. */
  lemma OneRecordScan(header: string, body: seq<string>, normalize: string -> string)
    requires IsHeader(header) && Split(header[1..]) != [] && NoHeaders(body)
    ensures Scan([header] + body, normalize) ==
      Success(BufferState(Dict([None], map[None := ""]), Some(HeaderName(header)), NormalizeAll(body, normalize)))
  {
    FirstHeader(header, normalize);
    BodyAppends([header], body, normalize);
    assert [] + NormalizeAll(body, normalize) == NormalizeAll(body, normalize);
  }

  /**
   * A second record with the same name replaces the first one's sequence
   * and keeps its place: the file still holds two records.
   */
  lemma SameNameOverwrites(h1: string, b1: seq<string>, h2: string, b2: seq<string>, normalize: string -> string)
    requires IsHeader(h1) && Split(h1[1..]) != [] && NoHeaders(b1)
    requires IsHeader(h2) && Split(h2[1..]) != [] && NoHeaders(b2)
    requires HeaderName(h1) == HeaderName(h2)
    ensures var name := HeaderName(h2);
      FastaOf([h1] + b1 + [h2] + b2, normalize) ==
        Success(Dict([None, Some(name)], map[None := "", Some(name) := Join(NormalizeAll(b2, normalize))]))
  {
    var name := HeaderName(h1);
    var j1 := Join(NormalizeAll(b1, normalize));
    var j2 := Join(NormalizeAll(b2, normalize));
    OneRecordScan(h1, b1, normalize);
    LastRecordStored([h1] + b1, h2, b2, normalize);
    PutNamedTwice(name, j1, j2);
  }

  /** The dictionary of a header-first file with two records of one name. */
  lemma PutNamedTwice(name: string, j1: string, j2: string)
    ensures Dict([None], map[None := ""]).Put(Some(name), j1).Put(Some(name), j2) ==
      Dict([None, Some(name)], map[None := "", Some(name) := j2])
  {
    var d := Dict([None], map[None := ""]).Put(Some(name), j1);
    assert d == Dict([None, Some(name)], map[None := "", Some(name) := j1]);
  }

  /** Every dictionary a header-first file produces starts with the empty `None` record. */
  predicate NoneFirst(st: BufferState)
  {
    && st.seqDict.Valid()
    && |st.seqDict.keys| > 0 && st.seqDict.keys[0] == None
    && None in st.seqDict.entries && st.seqDict.entries[None] == ""
    && st.currName.Some?
  }

  lemma {:induction false} NoneFirstKept(lines: seq<string>, normalize: string -> string)
    requires |lines| > 0 && IsHeader(lines[0])
    ensures Scan(lines, normalize).Success? ==> NoneFirst(Scan(lines, normalize).value)
    decreases |lines|
  {
    var init := lines[..|lines| - 1];
    var last := lines[|lines| - 1];
    assert lines == init + [last];
    ScanSnoc(init, last, normalize);
    if |init| == 0 {
      assert Scan(init, normalize) == Success(BufferState(Empty(), None, []));
    } else {
      assert init[0] == lines[0];
      NoneFirstKept(init, normalize);
      if Scan(init, normalize).Success? {
        var st := Scan(init, normalize).value;
        assert st.seqDict.keys[0] == None;
      }
    }
  }

  /**
   * A file that starts with a header yields a `None -> ""` entry first:
   * the header finalises the record that was never opened.
   */
  lemma LeadingHeaderAddsNone(lines: seq<string>, normalize: string -> string)
    requires |lines| > 0 && IsHeader(lines[0]) && FastaOf(lines, normalize).Success?
    ensures var d := FastaOf(lines, normalize).value;
      d.keys[0] == None && None in d.entries && d.entries[None] == "" && d.Size() >= 2
  {
    NoneFirstKept(lines, normalize);
    var st := Scan(lines, normalize).value;
    var d := Finalize(st).seqDict;
    assert st.currName in d.entries;
    assert st.currName != None;
    TwoKeys(d, None, st.currName);
  }

  datatype RefError =
    | FastaFailed(fasta: FastaError)
    | NormalizeFailed            // `normalize_string` applied to the `None` key raised
    | NotFound(seqName: string)  // "Unable to find sequence with name similar to ..."

  /** `normalize_string(k)` for a key of the dictionary; `normalizedNone` is its result on `None`. */
  function NormalizeKey(k: Option<string>, normalize: string -> string, normalizedNone: Option<string>): Result<string, RefError>
  {
    if k.Some? then Success(normalize(k.value))
    else if normalizedNone.Some? then Success(normalizedNone.value)
    else Failure(NormalizeFailed)
  }

  /** The third stage: the first key, from position `i` on, whose normalised form matches. */
  function Search(d: SeqDict, i: nat, seqName: string, normalize: string -> string, normalizedNone: Option<string>): Result<string, RefError>
    requires d.Valid() && i <= |d.keys|
    decreases |d.keys| - i
  {
    if i == |d.keys| then Failure(NotFound(seqName))
    else
      var nk := NormalizeKey(d.keys[i], normalize, normalizedNone);
      if nk.Failure? then Failure(nk.error)
      else if nk.value == normalize(seqName) then Success(d.entries[d.keys[i]])
      else Search(d, i + 1, seqName, normalize, normalizedNone)
  }

  /** What `read_virus_reference` returns for a parsed file. */
  function SelectReference(d: SeqDict, seqName: string, normalize: string -> string, normalizedNone: Option<string>): Result<string, RefError>
    requires d.Valid()
  {
    if d.Size() == 1 then Success(d.Values()[0])
    else if Some(seqName) in d.entries then Success(d.entries[Some(seqName)])
    else Search(d, 0, seqName, normalize, normalizedNone)
  }

  /** Key `i` is the first one whose normalised form equals the normalised name. */
  predicate FirstMatch(d: SeqDict, i: nat, seqName: string, normalize: string -> string, normalizedNone: Option<string>)
    requires d.Valid()
  {
    && i < |d.keys|
    && NormalizeKey(d.keys[i], normalize, normalizedNone) == Success(normalize(seqName))
    && forall j :: 0 <= j < i ==> Misses(d, j, seqName, normalize, normalizedNone)
  }

  /** Key `j` normalises without error, to something other than the normalised name. */
  predicate Misses(d: SeqDict, j: nat, seqName: string, normalize: string -> string, normalizedNone: Option<string>)
    requires d.Valid() && j < |d.keys|
  {
    var nk := NormalizeKey(d.keys[j], normalize, normalizedNone);
    nk.Success? && nk.value != normalize(seqName)
  }

  /**
   * The search returns the value of the first matching key; it reports
   * `NotFound` exactly when every key normalises to something else.
   */
  lemma {:induction false} SearchFindsFirst(d: SeqDict, i: nat, seqName: string, normalize: string -> string, normalizedNone: Option<string>)
    requires d.Valid() && i <= |d.keys|
    requires forall j :: 0 <= j < i ==> Misses(d, j, seqName, normalize, normalizedNone)
    ensures forall m :: i <= m && FirstMatch(d, m, seqName, normalize, normalizedNone) ==>
      Search(d, i, seqName, normalize, normalizedNone) == Success(d.entries[d.keys[m]])
    ensures Search(d, i, seqName, normalize, normalizedNone) == Failure(NotFound(seqName)) <==>
      forall j :: i <= j < |d.keys| ==> Misses(d, j, seqName, normalize, normalizedNone)
    decreases |d.keys| - i
  {
    if i < |d.keys| {
      if Misses(d, i, seqName, normalize, normalizedNone) {
        SearchFindsFirst(d, i + 1, seqName, normalize, normalizedNone);
        assert !FirstMatch(d, i, seqName, normalize, normalizedNone);
      }
    }
  }

  /**
   * The three stages in order: a file with one record gives that record
   * whatever its name, then an exact name wins, then the first key whose
   * normalised form matches; `NotFound` only when every key normalises to
   * something else.
   */
  lemma SelectReferenceStages(d: SeqDict, seqName: string, normalize: string -> string, normalizedNone: Option<string>)
    requires d.Valid()
    ensures d.Size() == 1 ==> SelectReference(d, seqName, normalize, normalizedNone) == Success(d.entries[d.keys[0]])
    ensures d.Size() != 1 && Some(seqName) in d.entries ==>
      SelectReference(d, seqName, normalize, normalizedNone) == Success(d.entries[Some(seqName)])
    ensures d.Size() != 1 && Some(seqName) !in d.entries ==>
      forall m: nat :: FirstMatch(d, m, seqName, normalize, normalizedNone) ==>
        SelectReference(d, seqName, normalize, normalizedNone) == Success(d.entries[d.keys[m]])
    ensures SelectReference(d, seqName, normalize, normalizedNone) == Failure(NotFound(seqName)) <==>
      && d.Size() != 1 && Some(seqName) !in d.entries
      && forall j :: 0 <= j < |d.keys| ==> Misses(d, j, seqName, normalize, normalizedNone)
  {
    SearchFindsFirst(d, 0, seqName, normalize, normalizedNone);
  }

  /** `read_virus_reference`'s default sequence name. */
  const DefaultSeqName := "SARSCoV2"

  /**
   * `read_virus_reference`: read the file, then try the only record, the
   * exact name, and finally a scan in key order comparing normalised names.
   */
  method ReadVirusReference(lines: seq<string>, seqName: string := DefaultSeqName, normalize: string -> string, normalizedNone: Option<string>)
    returns (r: Result<string, RefError>)
    ensures FastaOf(lines, normalize).Failure? ==> r == Failure(FastaFailed(FastaOf(lines, normalize).error))
    ensures FastaOf(lines, normalize).Success? ==>
      FastaOf(lines, normalize).value.Valid() &&
      r == SelectReference(FastaOf(lines, normalize).value, seqName, normalize, normalizedNone)
  {
    var parsed := ReadFasta(lines, normalize);
    if parsed.Failure? {
      return Failure(FastaFailed(parsed.error));
    }
    var seqDict := parsed.value;
    if seqDict.Size() == 1 {
      return Success(seqDict.Values()[0]);
    }
    if Some(seqName) in seqDict.entries {
      return Success(seqDict.entries[Some(seqName)]);
    }
    var target := normalize(seqName);
    for i := 0 to |seqDict.keys|
      invariant Search(seqDict, 0, seqName, normalize, normalizedNone) == Search(seqDict, i, seqName, normalize, normalizedNone)
    {
      var k := seqDict.keys[i];
      var nk: string;
      if k.Some? {
        nk := normalize(k.value);
      } else if normalizedNone.Some? {
        nk := normalizedNone.value;
      } else {
        return Failure(NormalizeFailed);
      }
      if nk == target {
        return Success(seqDict.entries[k]);
      }
    }
    return Failure(NotFound(seqName));
  }
}
