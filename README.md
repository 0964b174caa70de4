# Identifier lookup over a sorted identifiers file

This project models the identifier map of the indexing tools: `IdentMap`
in `tools/src/file_format/identifiers.rs`. The map is a read-only,
memory-mapped file, which may be missing. Each line of the file reads
`<identifier> <symbol>`, and the lines are sorted case-insensitively.
`lookup` answers a query for a needle in four steps:

- it finds two byte offsets with a binary search (`bisect`), once for the
  lower bound and once for the upper bound;
- at each probed offset it reads the line around that offset (`get_line`);
- it compares the ASCII-upper-cased line (`uppercase`) with the upper-cased
  needle, with `~` appended for the upper bound;
- it scans the lines between the two bounds, filters them and stops after
  `max_results` results.

The model is split into five modules:

- `Bytes` (`bytes.dfy`): the byte type, the constants the source compares
  against, ASCII upper-casing (`Upper`) and the lexicographic order Rust's
  `<` gives byte slices (`Less`).
- `LineIndex` (`lines.dfy`): the line around an offset as `get_line` sees
  it (`LineAt`). It also models the lines `BufRead::lines` yields over a
  byte slice: a line ends at `\n`, a `\r` just before the `\n` is dropped,
  and there is no empty piece after a final newline (`Starts`, `Chunks`,
  `Lines`).
- `Search` (`search.dfy`): what the binary search finds (`IsBound`) and
  which lines the final scan reaches (`Candidates`). Its main theorem,
  `SliceIsCandidates`, says that the slice between the two bounds holds
  exactly the lines of the whole file whose upper-cased text lies between
  the two targets.
- `Scan` (`scan.dfy`): how one line is split and filtered (`Id`, `Symbol`,
  `Keeps`, `Entry`). It also defines what the scan returns: `ScanResults`
  stops at the limit and reads no line after it, while the reference
  `LookupResults` filters every line in range and then keeps the first
  results. `LookupAgrees` proves the two equal whenever every line in range
  can be taken apart. The module also holds the soundness and completeness
  lemmas for `lookup`.
- `Identifiers` (`identifiers.dfy`): the code itself, as imperative
  methods. `IdentMap` is a class whose only state is the constant
  `mmap: Option<seq<byte>>`. `GetLine`, `Bisect` and `Lookup` keep the
  source's loops, `continue`s and `break`, and each is proved against
  the specification functions above.

`demangle_name` runs the external `c++filt`. In the model it is a
parameter `demangle: seq<byte> -> seq<byte>` of `Lookup`, and nothing is
assumed about what it returns.

## Model

| member | source | states |
|---|---|---|
| Bytes.UpperByte | tools/src/file_format/identifiers.rs:17-21 | The fold applied to one byte: `a`..`z` move to `A`..`Z`, and every other byte stays. |
| Bytes.Upper | tools/src/file_format/identifiers.rs:14-24 | Upper-casing a whole slice byte by byte. It keeps the length, and `Uppercase` is proved equal to it. |
| Identifiers.Uppercase | tools/src/file_format/identifiers.rs:14-24 | The result has the input's length. Each byte in `a`..`z` becomes the matching `A`..`Z` byte, and every other byte is unchanged; the result equals `Upper(s)`. |
| Bytes.UpperIdempotent | tools/src/file_format/identifiers.rs:17-21 | Upper-casing twice gives the same bytes as upper-casing once. |
| Bytes.UpperPrefix | tools/src/file_format/identifiers.rs:14-24 | Upper-casing a prefix gives the prefix of the upper-cased sequence. |
| Bytes.Less | tools/src/file_format/identifiers.rs:123 | Rust's `<` on byte slices: the first differing byte decides, and a proper prefix is below the longer slice. |
| Bytes.LessIffFirstDifference | tools/src/file_format/identifiers.rs:123 | `Less(a, b)` holds exactly when `a` is a proper prefix of `b` or, at the first position where they differ, `a` holds the smaller byte. |
| Bytes.LessIrreflexive | tools/src/file_format/identifiers.rs:123 | No byte slice is below itself under `<`. |
| Bytes.LessTransitive | tools/src/file_format/identifiers.rs:123 | The order `<` on byte slices is transitive. |
| Bytes.LessTotal | tools/src/file_format/identifiers.rs:123 | Any two distinct byte slices are ordered one way or the other. |
| Bytes.LessAsymmetric | tools/src/file_format/identifiers.rs:123 | If `a < b` then not `b < a`. |
| Bytes.BelowExtension | tools/src/file_format/identifiers.rs:106-109 | A slice is below every proper extension of it, so the upper target `needle~` lies above the lower target `needle`. |
| Bytes.BetweenBounds | tools/src/file_format/identifiers.rs:123 | `n <= k` and (`k < n~` or `k == n~`) holds exactly when `k` starts with `n` and then ends, continues with a byte below `~`, or is `n~`. |
| Identifiers.IdentMap.constructor | tools/src/file_format/identifiers.rs:26-29 | The map holds exactly the given optional buffer. |
| Identifiers.IdentMap.GetLine | tools/src/file_format/identifiers.rs:79-103 | With no buffer the result is empty. Otherwise the result is `LineAt(bytes, pos)`: a newline byte at `pos` is read as the end of the line before it, then the offset is widened backward and forward to the enclosing newlines. |
| LineIndex.LineStart | tools/src/file_format/identifiers.rs:93-95 | The backward walk from an offset, which never passes that offset. `LineStartSpec` states where it stops. |
| LineIndex.LineEnd | tools/src/file_format/identifiers.rs:97-100 | The forward walk from an offset, which stays between that offset and the end of the file. `LineEndSpec` states where it stops. |
| LineIndex.Probe | tools/src/file_format/identifiers.rs:86-88 | The offset `get_line` widens from: `pos`, or `pos-1` when `pos` holds a newline. |
| LineIndex.LineAt | tools/src/file_format/identifiers.rs:79-103 | The line `get_line` reports: the probed offset is `pos`, or `pos-1` when `pos` holds a newline, widened to the enclosing newlines. |
| LineIndex.LineAtSpec | tools/src/file_format/identifiers.rs:86-102 | The reported line is the slice `bytes[start..end]` around the probed offset (`pos`, or `pos-1` at a newline). It holds no `\n`; `start` is 0 or follows a `\n`; `end` is the length or indexes a `\n`. |
| LineIndex.LineStartSpec | tools/src/file_format/identifiers.rs:93-95 | The backward walk stops at 0 or just after a newline, and no newline lies between the stop and the offset. |
| LineIndex.LineEndSpec | tools/src/file_format/identifiers.rs:97-100 | The forward walk stops at the end or on a newline, and no newline lies between the offset and the stop. |
| LineIndex.LineStartUnique | tools/src/file_format/identifiers.rs:93-95 | Any stop that satisfies the backward walk's exit condition with no newline before the offset is the walk's result. |
| LineIndex.LineEndUnique | tools/src/file_format/identifiers.rs:97-100 | Any stop that satisfies the forward walk's exit condition with no newline after the offset is the walk's result. |
| LineIndex.LineStartMonotone | tools/src/file_format/identifiers.rs:93-95 | A later offset never has an earlier line start. |
| LineIndex.LineEndFromStart | tools/src/file_format/identifiers.rs:93-100 | The line around an offset ends where the line from its start ends. |
| LineIndex.SameLine | tools/src/file_format/identifiers.rs:86-102 | Two neighbouring offsets with no newline before the second are reported as the same line. |
| LineIndex.StartsTile | tools/src/file_format/identifiers.rs:153 | The lines `lines()` yields tile the slice. Each starts one past the newline that ends the one before, and the last runs to the end of the slice. |
| LineIndex.StartsAtLineStarts | tools/src/file_format/identifiers.rs:153 | In a slice that opens at a line start, every line begins at a line start of the buffer. |
| LineIndex.LineEndsBefore | tools/src/file_format/identifiers.rs:153 | A newline at `j-1` ends every line that starts before `j` no later than `j-1`. |
| LineIndex.StartsSplit | tools/src/file_format/identifiers.rs:153 | Splitting a stretch at a line boundary splits its lines there. |
| LineIndex.LineText | tools/src/file_format/identifiers.rs:153-154 | One line as `lines()` yields it: its newline dropped, and a carriage return just before that newline dropped too. |
| LineIndex.Lines | tools/src/file_format/identifiers.rs:153 | `lines()` over a byte slice: the texts of its lines, in order, with no empty piece after a final newline. |
| LineIndex.BodyOfChunk | tools/src/file_format/identifiers.rs:97-102 | A line of the buffer without its newline runs from its start to the next newline or the end. |
| LineIndex.LineAtStart | tools/src/file_format/identifiers.rs:79-103 | In a file with no empty lines, probing a line's start reports that line. |
| LineIndex.ChunkIndexMonotone | tools/src/file_format/identifiers.rs:79-103 | A later offset is reported as the same line or a later one of the buffer. |
| LineIndex.LineAtChunk | tools/src/file_format/identifiers.rs:79-103 | The line reported for any offset is one of the buffer's lines: the one holding the probed offset. |
| Identifiers.IdentMap.Bisect | tools/src/file_format/identifiers.rs:105-132 | With no buffer the result is 0. Otherwise it is at most the length. When the lines are sorted it is the bound: every earlier offset reads a line below the target and no later one does. For the upper bound the target gets `~` and equality counts as below. |
| Search.Target | tools/src/file_format/identifiers.rs:106-109 | What `bisect` compares lines against: the upper-cased needle, with `~` appended for the upper bound. |
| Search.KeyBelow | tools/src/file_format/identifiers.rs:123 | The comparison in the loop: the key (an upper-cased line) is below the target, or equal to it when searching for the upper bound. |
| Search.BelowMonotone | tools/src/file_format/identifiers.rs:117-129 | With sorted lines, every offset before one that reads a line below the target also reads a line below it. |
| Search.BelowUpTo | tools/src/file_format/identifiers.rs:123-125 | Moving `first` past a probe that is below the target keeps "everything before `first` is below". |
| Search.NotBelowFrom | tools/src/file_format/identifiers.rs:126-128 | Shrinking `count` to a probe that is not below the target keeps "nothing from `first + count` on is below". |
| Search.SortedLinesSortedOffsets | tools/src/file_format/identifiers.rs:117-131 | If the file's lines are sorted case-insensitively, the lines read at increasing offsets are sorted too. |
| Search.BoundAt | tools/src/file_format/identifiers.rs:117-131 | Given the bound, an offset reads a line below the target exactly when it lies before the bound. |
| Search.BoundUnique | tools/src/file_format/identifiers.rs:105-132 | At most one offset is the bound for a given target. |
| Search.BoundsOrdered | tools/src/file_format/identifiers.rs:146-151 | The lower bound never exceeds the upper bound, so `bytes[start..end]` exists. |
| Search.BoundAtLineStart | tools/src/file_format/identifiers.rs:146-151 | A bound is the buffer's end or a line start, so the slice holds whole lines. |
| Search.InRangeIffPrefix | tools/src/file_format/identifiers.rs:106-109 | A line lies between the targets exactly when its upper-cased text starts with the upper-cased needle and then ends, continues with a byte below `~`, or is the needle plus `~`. |
| Search.Candidates | tools/src/file_format/identifiers.rs:146-153 | The reference for the scan's input: every line of the file whose upper-cased text lies between the two targets, in file order, as `lines()` yields it. |
| Search.StartReadsChunk | tools/src/file_format/identifiers.rs:79-103 | With no empty lines, each line start in a stretch is read by `get_line` as its own line. |
| Search.NoneBelow | tools/src/file_format/identifiers.rs:146 | No line before the lower bound is in range. |
| Search.AllBetween | tools/src/file_format/identifiers.rs:146-151 | Every line between the bounds is in range. |
| Search.NoneAbove | tools/src/file_format/identifiers.rs:147 | No line from the upper bound on is in range. |
| Search.InRangeStartsAreSlice | tools/src/file_format/identifiers.rs:146-151 | The line starts that are in range are exactly the line starts between the bounds. |
| Search.StartsOfSlice | tools/src/file_format/identifiers.rs:151-153 | The lines of `bytes[d..e]` start where the buffer's lines between `d` and `e` start, shifted by `d`. |
| Search.ChunkOfSlice | tools/src/file_format/identifiers.rs:151-153 | When the slice ends at a line boundary, each of its lines equals the buffer's line at the same place. |
| Search.SliceLines | tools/src/file_format/identifiers.rs:151-153 | `lines()` over a slice that ends at a line boundary yields the buffer's lines at the starts it spans. |
| Search.SliceIsCandidates | tools/src/file_format/identifiers.rs:146-153 | For a well-formed file, the lower bound is at most the upper bound, and `lines()` over `bytes[start..end]` is exactly the list of the file's lines in range, in file order. |
| Scan.IndexOf | tools/src/file_format/identifiers.rs:155 | The result is the index of the first occurrence of the byte, or the length when there is none. |
| Scan.Id | tools/src/file_format/identifiers.rs:155-156 | The first space-separated piece is a space-free prefix of the line, ending at the line's end or at a space. |
| Scan.Symbol | tools/src/file_format/identifiers.rs:157 | The second piece is space-free, follows the identifier and one space, and ends at the line's end or at a space. |
| Scan.Parsable | tools/src/file_format/identifiers.rs:155-160 | The line has a space, so the `unwrap` at line 157 succeeds, and its identifier is at least as long as the needle, so the slice at line 160 succeeds. |
| Scan.Accepts | tools/src/file_format/identifiers.rs:159-167 | The filter on one identifier: past the needle's length it holds no `:` and no `.`, nothing follows the needle for an exact match, and unless case is ignored it starts with the needle byte for byte. |
| Scan.Keeps | tools/src/file_format/identifiers.rs:155-167 | A line is kept when the filter accepts its first space-separated piece. |
| Scan.Entry | tools/src/file_format/identifiers.rs:169-177 | The symbol is the line's second piece. When demangling the symbol changes it, the id is the demangled name; otherwise the id is the identifier. |
| Scan.Matching | tools/src/file_format/identifiers.rs:153-177 | The reference scan with no limit: the entries of the kept lines, in line order. |
| Scan.Truncate | tools/src/file_format/identifiers.rs:178-180 | The result is a prefix of all results. With a limit of 0 it is all of them; otherwise it has the limit's length, or fewer when fewer were found. |
| Scan.MatchingPrefix | tools/src/file_format/identifiers.rs:153-181 | Scanning more lines only appends results after the ones found so far. |
| Scan.MatchingSound | tools/src/file_format/identifiers.rs:159-177 | Every result is the entry of a line of the scan that the filter keeps. |
| Scan.MatchingComplete | tools/src/file_format/identifiers.rs:159-177 | Every line of the scan that the filter keeps gives its entry. |
| Scan.ScanStep | tools/src/file_format/identifiers.rs:153-177 | One more line appends that line's entry to the unlimited scan exactly when the filter keeps the line. |
| Scan.ScanStops | tools/src/file_format/identifiers.rs:178-180 | Once the results of the first lines reach the limit, they are the first `max_results` results of the whole scan. |
| Scan.FitsFrom | tools/src/file_format/identifiers.rs:153-180 | The scan from a given line on, with some results already found, can take apart every line it reads. It stops reading right after the line whose result reaches the limit. |
| Scan.ScanFrom | tools/src/file_format/identifiers.rs:153-180 | The scan as the loop runs it, stopping as soon as a new result reaches the limit (never, when the limit is 0). The results found so far are a prefix of what it returns, and below a positive limit it never returns more than the limit. |
| Scan.ScanFromStep | tools/src/file_format/identifiers.rs:153-180 | One iteration of the scan, read forwards: the line is taken apart, and then its entry is appended and the scan stops, or the entry is appended and the scan goes on, or the line is skipped. |
| Scan.ScanFromBack | tools/src/file_format/identifiers.rs:153-180 | The same step read backwards: a line that can be taken apart, followed by a scan that fits, fits. |
| Scan.ScanFits | tools/src/file_format/identifiers.rs:153-180 | The precondition `lookup` places on the file: every line in range that the scan reads before the cut can be taken apart. |
| Scan.ScanResults | tools/src/file_format/identifiers.rs:146-183 | What `lookup` returns for a file: the limited scan over the lines in range, never more than a positive `max_results` entries. |
| Scan.NeedleFits | tools/src/file_format/identifiers.rs:153-160 | Every line in range, including lines past the cut, can be taken apart. |
| Scan.LookupResults | tools/src/file_format/identifiers.rs:146-183 | The reference result: every line in range filtered with no limit, then the first `max_results` entries kept (all of them when the limit is 0). |
| Scan.ScanAgreesFrom | tools/src/file_format/identifiers.rs:153-183 | When every line can be taken apart, the limited scan resumed at any line returns the first `max_results` entries of the unlimited scan. |
| Scan.LookupAgrees | tools/src/file_format/identifiers.rs:146-183 | When every line in range can be taken apart, the limited scan fits for every limit and returns exactly `LookupResults`. |
| Scan.ScanIsMatchingPrefix | tools/src/file_format/identifiers.rs:153-183 | What the limited scan returns is the unlimited scan over some prefix of the lines, all of which can be taken apart. |
| Scan.ScanResultSource | tools/src/file_format/identifiers.rs:153-177 | Every result of the limited scan is the entry of a line the filter keeps. |
| Scan.LineTextPrefix | tools/src/file_format/identifiers.rs:153 | The text `lines()` yields is the line's body, minus at most a final `\r`. |
| Scan.CandidateLine | tools/src/file_format/identifiers.rs:153 | Each line the scan reaches is a line of the file, in range, and its upper-cased text starts with the upper-cased needle. |
| Scan.UpperSpace | tools/src/file_format/identifiers.rs:14-24 | Only a space upper-cases to a space. |
| Scan.NeedleWithoutSpaceFits | tools/src/file_format/identifiers.rs:155-160 | If every line of the file has a space and the needle has none, then every line in range can be taken apart: no `unwrap` at line 157 and no `&id[needle.len()..]` at line 160 fails on it. |
| Scan.CandidateFits | tools/src/file_format/identifiers.rs:155-160 | Under those assumptions, the identifier of each line in range is at least as long as the needle. |
| Scan.SpacedNeedleUnfit | tools/src/file_format/identifiers.rs:155-160 | For a needle holding a space, no line in range can be taken apart: its identifier stops at the space, before the needle's end, so `&id[needle.len()..]` fails. |
| Scan.SpacedNeedleFails | tools/src/file_format/identifiers.rs:155-160 | So a needle holding a space fails the scan's precondition whenever any line is in range. |
| Scan.SpacedNeedleWitness | tools/src/file_format/identifiers.rs:155-160 | The well-formed file `foo bar` with the needle `foo b` has one line in range, and the scan cannot take it apart. |
| Scan.CutSparesLaterLines | tools/src/file_format/identifiers.rs:153-180 | The well-formed file `a x` / `ab` with the needle `a` and a limit of 1 meets the scan's precondition, although its second line in range has no symbol; the scan stops before reading it. |
| Scan.IdKeepsPrefix | tools/src/file_format/identifiers.rs:155-156 | If a line starts case-insensitively with the needle, so does its identifier. |
| Scan.LookupSound | tools/src/file_format/identifiers.rs:153-177 | Every result `lookup` can return, for any limit, comes from a line of the file that has a symbol, as follows. Its id starts case-insensitively with the needle. Past the needle's length the id holds no `:` or `.`. For an exact match the id has the needle's length. Unless case is ignored, the id starts with the needle byte for byte. The result's symbol is the line's second piece. |
| Scan.ExactLookupSound | tools/src/file_format/identifiers.rs:159-167 | For any limit, an exact lookup returns only identifiers equal to the needle: case-insensitively, and byte for byte when case matters. |
| Scan.LookupComplete | tools/src/file_format/identifiers.rs:146-181 | With no limit, every line of the file the filter keeps is returned, provided its upper-cased identifier ends at the needle or continues with a byte below `~`. |
| Scan.IdInRange | tools/src/file_format/identifiers.rs:106-109 | A line whose upper-cased identifier starts with the upper-cased needle, and then ends or continues with a byte below `~`, is in range. |
| Scan.InRangeCandidate | tools/src/file_format/identifiers.rs:146-153 | Every line of the file that is in range is one of the lines the scan reaches. |
| Scan.ExactLookupComplete | tools/src/file_format/identifiers.rs:146-181 | With no limit, an exact lookup returns every line whose identifier equals the needle (case-insensitively when case is ignored). |
| Scan.PastTildeNotInRange | tools/src/file_format/identifiers.rs:106-109 | A line that continues past the needle with `~` or a byte above it, and is not just the needle plus `~`, is never in range. |
| Scan.TildeGap | tools/src/file_format/identifiers.rs:106-109 | The concrete line `A::~A a` passes the filter for the needle `A::`, yet it is not in range, so `lookup` never returns it. |
| Identifiers.IdentMap.Lookup | tools/src/file_format/identifiers.rs:134-184 | With no buffer the result is empty. Otherwise it is `ScanResults`: the lines in range, filtered, turned into entries, with the scan stopping once it has `max_results` of them (0 means no limit). When every line in range can be taken apart, it also equals the reference `LookupResults`. |

## Left out

- `IdentMap::new` and `IdentMap::load` (lines 57-77) open the file with `mmap` and walk the configuration. This is I/O. The model's constructor takes the outcome, an optional byte buffer.
- `lookup_json` (lines 186-195) only serialises `lookup`'s results to JSON with serde. It is not modelled.
- `demangle_name` (lines 37-54) runs the external `c++filt`. It is an uninterpreted parameter of `Lookup`, and nothing is stated about its output.
- UTF-8: the model treats lines as bytes. It does not model the failures of `lines()` on invalid UTF-8 (`line.unwrap()`, line 154) or of `&id[needle.len()..]` off a character boundary.
- Identifiers.IdentMap.GetLine: it returns the line's bytes, not a slice that remembers its place in the buffer. `LineAtSpec` states where those bytes lie.
- Identifiers.IdentMap.GetLine: it requires an offset inside the file that is not a newline at offset 0. The source indexes out of range or steps below offset 0 there (lines 86-88) and panics.
- Identifiers.IdentMap.Bisect: it requires a file that does not open with a newline. The source panics on such a file only if the search probes offset 0 (lines 86-88). The requirement therefore also excludes some calls that the source completes without a panic; for example, the file `\nb\n` with the needle `c` probes only offsets 1 and 2. Its bound is only promised for files whose lines are sorted; on other files it states only that the result is at most the length.
- Identifiers.IdentMap.Lookup: it requires a well-formed file, meaning sorted case-insensitively with no empty lines. On other files the two bounds can cross and `bytes[start..end]` (line 151) panics, or the lines between them are not the lines in range; the model does not describe that behaviour.
- Identifiers.IdentMap.Lookup: it also requires that every line in range which the scan reads before the `max_results` cut has a symbol and an identifier at least as long as the needle (`ScanFits`). The source panics at lines 157 and 160 otherwise. Lines past the cut are never read and may be malformed (`CutSparesLaterLines`). `NeedleWithoutSpaceFits` gives a simple sufficient condition.
- A needle that holds a space makes `lookup` panic at line 160 whenever any line is in range, because every such line's identifier stops at the space, before the needle ends. `SpacedNeedleFails` proves this, and `SpacedNeedleWitness` shows it on the file `foo bar` with the needle `foo b`. The model gives no result for such calls.
- Scan.LookupComplete and Scan.ExactLookupComplete: they are stated with no limit. There every line in range is read, so they require `NeedleFits`.
- Scan.LookupComplete: it covers only identifiers whose upper-cased form, past the needle, ends or continues with a byte below `~`. The upper bound `needle~` excludes the others (for example the destructor `A::~A` for the needle `A::`), and `TildeGap` shows one.
- Machine integers: offsets and counts are unbounded naturals. `first + step` and `count - (step + 1)` stay within the buffer's length, so `usize` never wraps.
