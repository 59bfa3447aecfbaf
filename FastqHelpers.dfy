/**
 * Decoding of the two non-sequence lines of a FASTQ record
 * (klamp/fastq_helpers.py): the `@id key=value ...` header line and the
 * Phred+33 quality line.
 */
module FastqHelpers {
  import opened Wrappers
  import opened PyStr

  /** A metadata value: a decimal number converted to an int, or the raw text. */
  datatype MetaValue = IntValue(n: nat) | StrValue(text: string)

  type Metadata = map<string, MetaValue>

  /** A decoded header line: the read name without its `@`, and its metadata. */
  datatype Header = Header(name: string, metadata: Metadata)

  datatype HeaderError =
    | NoTokens         // `parts[0]` on a blank line raises IndexError
    | MalformedHeader  // the first token does not start with `@`: ValueError

  /** A token enters the metadata exactly when it holds one `=`. */
  predicate IsPair(token: string)
  {
    Count(token, '=') == 1
  }

  /** The text before the `=` of a key-value token. */
  function KeyOf(token: string): string
    requires IsPair(token)
  {
    token[..IndexOf(token, '=')]
  }

  /** The text after the `=` of a key-value token. */
  function ValueOf(token: string): string
    requires IsPair(token)
  {
    token[IndexOf(token, '=') + 1..]
  }

  /** `part.split("=")` on a token with one `=` gives two `=`-free halves that rebuild it. */
  lemma KeyValueSplits(token: string)
    requires IsPair(token)
    ensures token == KeyOf(token) + "=" + ValueOf(token)
    ensures '=' !in KeyOf(token) && '=' !in ValueOf(token)
  {
    var i := IndexOf(token, '=');
    assert token == token[..i] + [token[i]] + token[i + 1..];
    assert multiset(token) == multiset(token[..i]) + multiset{'='} + multiset(token[i + 1..]);
  }

  /** `v`, or `int(v)` when conversion is on and `v.isdigit()`. */
  function ConvertValue(v: string, convertInt: bool): (r: MetaValue)
    ensures r.IntValue? <==> convertInt && IsDigits(v)
    ensures r.StrValue? ==> r.text == v
  {
    if convertInt && IsDigits(v) then IntValue(ParseNat(v)) else StrValue(v)
  }

  /** A number written in decimal is read back as that number. */
  lemma ConvertShown(n: nat)
    ensures ConvertValue(ShowNat(n), true) == IntValue(n)
  {
    ParseShow(n);
  }

  /** The metadata stored for a token list, token by token; a repeated key is overwritten. */
  function MetadataOf(tokens: seq<string>, convertInt: bool): Metadata
  {
    if tokens == [] then map[]
    else
      var m := MetadataOf(tokens[..|tokens| - 1], convertInt);
      var t := tokens[|tokens| - 1];
      if IsPair(t) then m[KeyOf(t) := ConvertValue(ValueOf(t), convertInt)] else m
  }

  /** The metadata of tokens 1..j+1: token `j` stored over the metadata of tokens 1..j. */
  lemma MetadataStep(parts: seq<string>, j: nat, convertInt: bool)
    requires 1 <= j < |parts|
    ensures var m := MetadataOf(parts[1..j], convertInt);
      MetadataOf(parts[1..j + 1], convertInt) ==
        if IsPair(parts[j]) then m[KeyOf(parts[j]) := ConvertValue(ValueOf(parts[j]), convertInt)] else m
  {
    var q := parts[1..j + 1];
    assert q[..|q| - 1] == parts[1..j];
  }

  /** Token `t` is a key-value token with key `k`. */
  predicate HasKey(t: string, k: string)
  {
    IsPair(t) && KeyOf(t) == k
  }

  /** A key is present exactly when some key-value token names it. */
  lemma {:induction false} MetadataKeys(tokens: seq<string>, convertInt: bool, k: string)
    ensures k in MetadataOf(tokens, convertInt) <==> exists i :: 0 <= i < |tokens| && HasKey(tokens[i], k)
    decreases |tokens|
  {
    if tokens != [] {
      var init := tokens[..|tokens| - 1];
      MetadataKeys(init, convertInt, k);
      if exists i :: 0 <= i < |tokens| && HasKey(tokens[i], k) {
        var i :| 0 <= i < |tokens| && HasKey(tokens[i], k);
        if i < |init| {
          assert init[i] == tokens[i];
        }
      }
      if exists i :: 0 <= i < |init| && HasKey(init[i], k) {
        var i :| 0 <= i < |init| && HasKey(init[i], k);
        assert tokens[i] == init[i];
      }
    }
  }

  /** The value of a key is taken from the last token that names it. */
  lemma {:induction false} MetadataLastWins(tokens: seq<string>, convertInt: bool, i: nat)
    requires i < |tokens| && IsPair(tokens[i])
    requires forall j :: i < j < |tokens| ==> !HasKey(tokens[j], KeyOf(tokens[i]))
    ensures KeyOf(tokens[i]) in MetadataOf(tokens, convertInt)
    ensures MetadataOf(tokens, convertInt)[KeyOf(tokens[i])] == ConvertValue(ValueOf(tokens[i]), convertInt)
    decreases |tokens|
  {
    var init := tokens[..|tokens| - 1];
    if i < |init| {
      assert init[i] == tokens[i];
      forall j | i < j < |init| ensures !HasKey(init[j], KeyOf(init[i])) {
        assert init[j] == tokens[j];
      }
      MetadataLastWins(init, convertInt, i);
      assert !HasKey(tokens[|tokens| - 1], KeyOf(tokens[i]));
    }
  }

  /** What `read_id_and_metadata_line(line, convert_int)` returns or raises. */
  function HeaderOf(line: string, convertInt: bool): (r: Result<Header, HeaderError>)
    ensures r == Failure(NoTokens) <==> AllSpace(line)
    ensures r == Failure(MalformedHeader) <==> !AllSpace(line) && Split(line)[0][0] != '@'
    ensures r.Success? ==> NoSpace(r.value.name) && Split(line)[0] == "@" + r.value.name
  {
    var parts := Split(line);
    if parts == [] then Failure(NoTokens)
    else if parts[0][0] != '@' then Failure(MalformedHeader)
    else
      assert parts[0] == "@" + parts[0][1..];
      Success(Header(parts[0][1..], MetadataOf(parts[1..], convertInt)))
  }

  /** A header line of one `@`-word and nothing else has that word as name and no metadata. */
  lemma BareHeader(name: string)
    requires NoSpace(name)
    ensures HeaderOf("@" + name, true) == Success(Header(name, map[]))
  {
    var w := "@" + name;
    assert NoSpace(w) by {
      forall i | 0 <= i < |w| ensures !IsSpace(w[i]) {
        if i > 0 {
          assert w[i] == name[i - 1];
        }
      }
    }
    SplitWord(w);
    assert w[1..] == name;
  }

  /**
   * `read_id_and_metadata_line`: the first whitespace token must start with
   * `@` and, without it, is the read name; every later token holding one `=`
   * is stored as `key=value`.
   */
  method ReadIdAndMetadataLine(line: string, convertInt: bool := true) returns (r: Result<Header, HeaderError>)
    ensures r == HeaderOf(line, convertInt)
  {
    var parts := Split(line);
    if |parts| == 0 {
      return Failure(NoTokens);
    }
    var name := parts[0];
    if name[0] == '@' {
      name := name[1..];
    } else {
      return Failure(MalformedHeader);
    }
    var metadata: Metadata := map[];
    for j := 1 to |parts|
      invariant metadata == MetadataOf(parts[1..j], convertInt)
    {
      var part := parts[j];
      MetadataStep(parts, j, convertInt);
      if Count(part, '=') == 1 {
        var k, v := KeyOf(part), ValueOf(part);
        var value := StrValue(v);
        if convertInt && IsDigits(v) {
          value := IntValue(ParseNat(v));
        }
        metadata := metadata[k := value];
      }
    }
    assert parts[1..|parts|] == parts[1..];
    return Success(Header(name, metadata));
  }

  /** The lowest and highest Phred+33 scores: `!` is 0 and `~` is 93. */
  const MaxPhred := 93

  /** `read_quals` as a value: `ord(c) - 33` per character, unchecked. */
  function DecodeQuals(line: string): (quals: seq<int>)
    ensures |quals| == |line|
    ensures forall i :: 0 <= i < |line| ==> quals[i] == line[i] as int - 33
  {
    seq(|line|, i requires 0 <= i < |line| => line[i] as int - 33)
  }

  /** The Phred+33 quality line of a list of scores in 0..93. */
  function EncodeQuals(quals: seq<int>): (line: string)
    requires forall i :: 0 <= i < |quals| ==> 0 <= quals[i] <= MaxPhred
    ensures |line| == |quals|
    ensures forall i :: 0 <= i < |quals| ==> '!' <= line[i] <= '~'
  {
    seq(|quals|, i requires 0 <= i < |quals| => (quals[i] + 33) as char)
  }

  /** Decoding undoes encoding. */
  lemma DecodeEncode(quals: seq<int>)
    requires forall i :: 0 <= i < |quals| ==> 0 <= quals[i] <= MaxPhred
    ensures DecodeQuals(EncodeQuals(quals)) == quals
  {
  }

  /** Encoding undoes decoding on printable quality characters. */
  lemma EncodeDecode(line: string)
    requires forall i :: 0 <= i < |line| ==> '!' <= line[i] <= '~'
    ensures forall i :: 0 <= i < |line| ==> 0 <= DecodeQuals(line)[i] <= MaxPhred
    ensures EncodeQuals(DecodeQuals(line)) == line
  {
  }

  /** A character below `!` decodes to a negative score: nothing is range-checked. */
  lemma DecodeBelowBang(line: string, i: nat)
    requires i < |line| && line[i] < '!'
    ensures DecodeQuals(line)[i] < 0
  {
  }

  /** `read_quals`: fills a zeroed array of the line's length, one score per character. */
  method ReadQuals(line: string) returns (quals: seq<int>)
    ensures |quals| == |line|
    ensures forall i :: 0 <= i < |line| ==> quals[i] == line[i] as int - 33
    ensures quals == DecodeQuals(line)
  {
    var n := |line|;
    var a := new int[n](_ => 0);
    for i := 0 to n
      invariant forall j :: 0 <= j < i ==> a[j] == line[j] as int - 33
    {
      a[i] := line[i] as int - 33;
    }
    quals := a[..];
  }
}
