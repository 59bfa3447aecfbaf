# klamp in Dafny

A model of the sequence-handling core of klamp, a screen for viral reads in
sequencing data. It covers five pieces:

- **Run-length collapse** (`Repeats.dfy`): `count_repeats` turns a
  nucleotide string into run heads and run lengths. It is modelled as
  written, and this version loses the final run. The collapse the docstring
  describes is modelled next to it.
- **k-mer index** (`Kmer.dfy`): `KmerIndex` counts every length-k window of
  the sequences it indexes. `count_hits` scans a query at a stride and
  reports (hits, windows examined). `frac_hits` divides the two.
- **FASTQ line decoders** (`FastqHelpers.dfy`): the `@name key=value ...`
  header line and the Phred+33 quality line.
- **FASTQ reader** (`Fastq.dfy`): a per-line automaton that commits each
  header/sequence/`+`/quality record to three dictionaries keyed by read name,
  plus the accessors of the `FastQ` class.
- **FASTA reader and reference lookup** (`Fasta.dfy`): a `Buffer` that
  collects a record's lines under its header name, the `read_fasta` loop that
  drives it, and the three-stage choice of a reference sequence.

Shared pieces:

- `Wrappers.dfy`: `Option` and `Result`. A raised exception becomes a
  `Failure`.
- `PyStr.dfy`: ASCII models of `str.strip`, `str.split()`, `str.isdigit`,
  `int`, `str.count` and `"".join`.
- `Dicts.dfy`: an insertion-ordered dictionary, as Python's `dict` is.

An input file is a sequence of lines. The package's `normalize_string` is a
parameter `normalize: string -> string`. It is taken to be a total function
that returns a string for every line and never raises; nothing else is
assumed about it.

Where the code and its own docstrings disagree, the model follows the code.
`count_repeats` promises every nucleotide a count but drops the final run, so
`"AAGGTT"` gives `("AG", [2, 2])` and not `("AGT", [2, 2, 2])`. See
"## Findings".

## Model

| member | source | states |
|---|---|---|
| Repeats.CountRepeats | klamp/repeats.py:15-33 | The loop as written returns the heads and the lengths of every maximal run of the input except the last one. |
| Repeats.CountRepeatsDropsFinalRun | klamp/repeats.py:24-33 | The runs returned are maximal (each count at least 1, no two neighbouring heads equal). They spell a prefix of the input, and the rest of the input is exactly its final maximal run, headed by a character other than the last head returned. |
| Repeats.CountRepeatsEmptyIffOneRun | klamp/repeats.py:20-33 | Nothing is returned exactly when the input is empty or one repeated character ("A", "TTTT"). |
| Repeats.CountRepeatsRunCount | klamp/repeats.py:22-32 | For non-empty input the number of runs returned equals the number of positions where the character changes, one fewer than the number of maximal runs. |
| Repeats.CountRepeatsExample | klamp/repeats.py:15-33 | On any string shaped like "AAGGTT" the result is ("AG", [2, 2]), which spells only "AAGG". |
| Repeats.LastRunIsTrailingRun | klamp/repeats.py:24-32 | The last maximal run is the longest suffix made of one repeated character. |
| Repeats.RunCount | klamp/repeats.py:24-32 | The number of maximal runs is one more than the number of character changes. |
| Repeats.CountRuns | klamp/repeats.py:15-33 | The corrected collapse, with a flush of the pending run after the loop, returns the heads and lengths of every maximal run. |
| Repeats.RunsEncodes | klamp/repeats.py:16-19 | The runs built one character at a time are non-empty and maximal, and expanding them gives back the input. |
| Repeats.RunsUnique | klamp/repeats.py:16-19 | Any maximal run list that expands to a string is the one built from it, so the encoding is unique. |
| Repeats.CollapseIdempotent | klamp/repeats.py:16-19 | Collapsing the heads of a collapsed string again gives the same heads, each with count 1. |
| Kmer.KmerIndex.constructor | klamp/kmer.py:16-18 | A new index has the given k (25 by default) and no counts. |
| Kmer.KmerIndex.Index | klamp/kmer.py:20-25 | The counts grow by the multiset of the input's length-k windows, of which there are none when the input is shorter than k. Every counted k-mer has length k. |
| Kmer.IndexAddsOccurrences | klamp/kmer.py:20-25 | Indexing raises the count of each string by the number of positions where it occurs as a length-k window and leaves every other count unchanged. |
| Kmer.WindowCount | klamp/kmer.py:24-25 | The windows of a string hold a k-mer once per position at which it occurs. |
| Kmer.IndexingCommutes | klamp/kmer.py:18-25 | Indexing A then B gives the same counts as indexing B then A. |
| Kmer.KmerIndex.CountHits | klamp/kmer.py:27-47 | The default stride is k // 2. Stride 0 fails as `range` does. A negative stride fails on the length assertion when the input is shorter than k - 1 and otherwise gives (0, 0). A positive stride gives the windows at 0, stride, 2 * stride, ... as the examined count and those present in the index as hits. The index is not modified. |
| Kmer.CountIn | klamp/kmer.py:44-45 | Hits never exceed the windows examined, and equal them exactly when every window is in the index. |
| Kmer.SampledCount | klamp/kmer.py:40-43 | A scan at stride d examines ceil((n - k + 1) / d) windows when n >= k, and none otherwise. |
| Kmer.SampledStrideOne | klamp/kmer.py:40 | At stride 1 the scan examines every length-k window. |
| Kmer.SelfHits | klamp/kmer.py:20-25 | After indexing S with len(S) >= k, a stride-1 scan of S gives hits == examined == len(S) - k + 1. |
| Kmer.KmerIndex.FracHits | klamp/kmer.py:49-54 | Fails with a zero stride when k < 2, and with division by zero exactly when the input is shorter than k. Otherwise 1 <= examined, hits <= examined, and examined is ceil((n - k + 1) / (k // 2)). |
| FastqHelpers.HeaderOf | klamp/fastq_helpers.py:15-29 | A blank line raises. A first token without a leading `@` is malformed. Otherwise the name is the first token without its `@` and has no whitespace. |
| FastqHelpers.ReadIdAndMetadataLine | klamp/fastq_helpers.py:15-29 | The token loop fills the metadata exactly as the header decoding specifies. |
| PyStr.SplitFirst | klamp/fastq_helpers.py:16-17 | The first token of `line.split()` is the leading word of the line once its leading whitespace is dropped. |
| FastqHelpers.KeyValueSplits | klamp/fastq_helpers.py:24-25 | A token with one `=` splits into two `=`-free halves that rebuild it. |
| FastqHelpers.ConvertValue | klamp/fastq_helpers.py:26-27 | A value becomes an integer exactly when conversion is on and it is a non-empty digit string; otherwise it is kept as text. |
| FastqHelpers.ConvertShown | klamp/fastq_helpers.py:26-27 | A number written in decimal converts back to that number. |
| FastqHelpers.MetadataKeys | klamp/fastq_helpers.py:22-28 | A key is in the metadata exactly when some token with exactly one `=` names it. |
| FastqHelpers.MetadataLastWins | klamp/fastq_helpers.py:22-28 | A repeated key takes the value of its last token. |
| FastqHelpers.BareHeader | klamp/fastq_helpers.py:16-19 | `@name` alone decodes to that name with empty metadata. |
| FastqHelpers.ReadQuals | klamp/fastq_helpers.py:31-36 | One score per character of the line, each `ord(c) - 33`, with no range check. |
| FastqHelpers.DecodeEncode | klamp/fastq_helpers.py:35 | Phred+33 decoding undoes encoding for scores 0..93. |
| FastqHelpers.EncodeDecode | klamp/fastq_helpers.py:35 | Encoding undoes decoding on the characters `!`..`~`. |
| FastqHelpers.DecodeBelowBang | klamp/fastq_helpers.py:35 | A character below `!` decodes to a negative score. |
| Fastq.FastQ.Read | klamp/fastq.py:45-84 | Reports the automaton's first error. Otherwise it returns a new FastQ holding its three dictionaries. |
| Fastq.FastQ.ReadLine | klamp/fastq.py:57-80 | One line moves the pending header, sequence and qualities on, or commits the record, exactly as the automaton does. |
| Fastq.RunStops | klamp/fastq.py:56-80 | After the first error, later lines are not read. |
| Fastq.RunConsistent | klamp/fastq.py:60-80 | The final `else` ("Malformed FASTQ") is unreachable. All three dictionaries hold the same names in the same order, and every quality array is as long as its sequence. With skipped qualities they are all zeros and no length mismatch is reported. |
| Fastq.StepConsistent | klamp/fastq.py:60-80 | One line keeps the invariant above and never reaches the final `else`. |
| Fastq.CommitConsistent | klamp/fastq.py:75-78 | Committing stores one name in all three dictionaries at once. |
| Fastq.RunIgnoresBlank | klamp/fastq.py:57-59 | Lines that are blank once stripped are ignored in every state. |
| Fastq.AppendRecord | klamp/fastq.py:60-78 | After a header and a sequence alone nothing is stored. After the `+` and quality line the record's sequence, qualities and metadata are stored under its name, replacing any earlier record of that name. |
| Fastq.PlusQualityLineSkipped | klamp/fastq.py:65-66 | A quality line that reads `+` is skipped as a separator. |
| Fastq.QualityLengthChecked | klamp/fastq.py:71-74 | With qualities decoded, a quality line whose length differs from the sequence's raises. |
| Fastq.SkippedQualitiesAreZeros | klamp/fastq.py:68-69 | With `skip_quals` every stored quality array is zeros, one per base. |
| Fastq.FastQ.constructor | klamp/fastq.py:19-22 | The three dictionaries are stored as given, and well-formed dictionaries make a well-formed FastQ. |
| Fastq.FastQ.Qualities | klamp/fastq.py:24-25 | The quality arrays in key order. |
| Fastq.FastQ.Keys | klamp/fastq.py:27-28 | Every stored name once, and nothing else. |
| Fastq.FastQ.Sequences | klamp/fastq.py:30-31 | The sequence of each name of `keys()`, in that order. |
| Fastq.FastQ.KeySet | klamp/fastq.py:33-34 | The set of stored names. |
| Fastq.FastQ.NumLines | klamp/fastq.py:36-37 | The number of distinct stored names. |
| Fastq.FastQ.NumBases | klamp/fastq.py:39-43 | The total length of all stored sequences. |
| Dicts.Dict.Put | klamp/fastq.py:75-77 | A new key goes to the end of the key order and an existing key keeps its place; the key order stays repetition-free. |
| Dicts.PutPut | klamp/fastq.py:75-77 | Storing a name a second time keeps only the later value, in the place the name first took. |
| Dicts.SizeIsCardinality | klamp/fastq.py:36-37 | `len(d)` is the number of distinct keys. |
| Dicts.KeysPut | klamp/fastq.py:75-77 | Storing one name in dictionaries that share a key order keeps them sharing it. |
| Fasta.Buffer.constructor | klamp/fasta.py:16-18 | A new buffer has an empty dictionary, no name and no lines. |
| Fasta.Buffer.Reset | klamp/fasta.py:20-22 | The name and lines are cleared and the dictionary is kept. |
| Fasta.Buffer.FinalizeCurrentRecord | klamp/fasta.py:24-26 | The joined lines are stored under the pending name, even when that name is `None`, and the buffer is reset. |
| Fasta.Buffer.StartNewRecord | klamp/fasta.py:28-30 | Finalises the pending record first, then opens a record with the given name. |
| Fasta.Buffer.AddLine | klamp/fasta.py:32-33 | One more pending line; nothing else changes. |
| Fasta.Finalize | klamp/fasta.py:24-26 | After finalising, the name is `None`, there are no lines, and the dictionary maps the old name to the joined lines. |
| Fasta.ReadFasta | klamp/fasta.py:36-45 | The loop over the buffer computes the line-by-line reader and finalises the last record. |
| Fasta.EmptyHeaderRaises | klamp/fasta.py:40-41 | A header line with no word after its `>` raises. |
| Fasta.ScanStops | klamp/fasta.py:39-43 | Once reading has failed, later lines change nothing. |
| Fasta.BodyAppends | klamp/fasta.py:42-43 | Non-header lines only add their normalised text to the pending record. |
| Fasta.HeaderName | klamp/fasta.py:41 | A record's name is the first word after `>`: non-empty and without whitespace. |
| Fasta.LastRecordStored | klamp/fasta.py:36-45 | The last record is stored under its header's first word, as its normalised lines joined. |
| Fasta.FirstHeader | klamp/fasta.py:39-41 | A first header line stores `None -> ""` and opens the named record. |
| Fasta.OneRecordScan | klamp/fasta.py:37-43 | After a header and its lines, `None -> ""` is stored and the named record is pending with its normalised lines. |
| Fasta.SingleRecord | klamp/fasta.py:36-45 | A one-record file gives two entries, `None -> ""` first and then the named sequence. |
| Fasta.SameNameOverwrites | klamp/fasta.py:25 | A later record with the same name replaces the earlier sequence and keeps its place. |
| Fasta.LeadingHeaderAddsNone | klamp/fasta.py:24-30 | Any file that starts with `>` yields `None -> ""` as its first entry and has at least two entries. |
| Fasta.NoneFirstKept | klamp/fasta.py:37-43 | Once a header-first file has stored `None -> ""` first, every later line keeps it first. |
| Fasta.SearchFindsFirst | klamp/fasta.py:54-57 | The similarity search returns the value of the first key, in dictionary order, whose normalised form matches. It reports not found exactly when every key normalises to something else. |
| Fasta.SelectReferenceStages | klamp/fasta.py:47-60 | In order: a file with one entry gives that entry whatever its name, an exact name wins, then the first normalised match, and "not found" only when all of these fail. |
| Fasta.ReadVirusReference | klamp/fasta.py:47-60 | Reports a reading error, or else the three-stage choice on the parsed dictionary. |

## Left out

- File access: `open(path)` and line iteration are modelled as a sequence of lines. FASTA lines keep their terminators, as Python's file iteration does.
- The path named in the "Unable to find sequence" message: `Fasta.RefError.NotFound` carries only the sequence name.
- `normalize_string`: its definition lives in klamp/common.py, which is not part of this model. It is a parameter, taken to be total: an exception it might raise on a line is not modelled. Its result on the `None` key of a header-first FASTA file is a second parameter, where `None` means it raises.
- Kmer.KmerIndex.FracHits: returns the (hits, examined) pair in place of the floating-point quotient.
- Kmer.KmerIndex: `kmer_size` is a `nat`; a negative k is not modelled. The `Counter` is a multiset, so a k-mer "in the index" is one counted at least once.
- Kmer.KmerIndex.Index: the loop accumulates into a local multiset that is stored back into `kmerCounts` after the loop. Python updates the shared `Counter` through an alias on every iteration; the final state is the same.
- FastqHelpers.MetadataOf: the metadata of a header is an unordered map; the order in which Python's dict keeps its keys is not modelled, and nothing in the readers depends on it.
- numpy arrays (`np.zeros`, `np.array`) are sequences of unbounded integers; the `int` dtype's width is not modelled.
- `str.split`, `str.strip` and `str.isdigit` are restricted to ASCII whitespace and digits; Unicode spaces and digits are not modelled.
- Fastq.FastQ.Read: the loop body is the static method `ReadLine` over a state value rather than local variables of `read`.
- Fastq.AppendRecord: the separator line is any line that strips to `+`, and the quality line any non-blank line other than `+`.
- klamp/cli.py and setup.py: command-line handling and packaging, with no logic of the modelled parsers.

## Findings

| source | as written | input that shows it | evidently intended | confidence | as-written member | corrected member |
|---|---|---|---|---|---|---|
| klamp/repeats.py:24-33 | A run is emitted only when a different character arrives, and nothing is emitted after the loop, so the final maximal run is lost. | "AAGGTT" gives ("AG", [2, 2]); "TTTT" gives ("", []). | Every nucleotide paired with a count, as the docstring at lines 16-19 says: ("AGT", [2, 2, 2]). | not executed | Repeats.CountRepeats, Repeats.CountRepeatsExample | Repeats.CountRuns, Repeats.RunsEncodes, Repeats.RunsUnique |
