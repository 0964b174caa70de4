/**
 * The identifier map: a read-only, memory-mapped file of lines
 * `<identifier> <symbol>`, sorted case-insensitively, that `lookup` answers
 * prefix queries from with two binary searches over byte offsets and one
 * scan over the lines between them.
 */
module Identifiers {
  import opened Bytes
  import opened LineIndex
  import opened Search
  import opened Scan

  datatype Option<T> = None | Some(value: T)

  /** Upper-cases the ASCII letters of s byte by byte, leaving every other byte alone. */
  method Uppercase(s: seq<byte>) returns (result: seq<byte>)
    ensures |result| == |s|
    ensures forall i :: 0 <= i < |s| ==>
      result[i] == if LOWER_A <= s[i] <= LOWER_Z then s[i] - (LOWER_A - UPPER_A) else s[i]
    ensures result == Upper(s)
  {
    result := [];
    for i := 0 to |s|
      invariant |result| == i
      invariant forall k :: 0 <= k < i ==> result[k] == UpperByte(s[k])
    {
      result := result + [if s[i] >= LOWER_A && s[i] <= LOWER_Z then s[i] - LOWER_A + UPPER_A else s[i]];
    }
  }

  /** A map over the identifiers file, or over nothing when the file could not be mapped. */
  class IdentMap {
    const mmap: Option<seq<byte>>

    constructor (mmap: Option<seq<byte>>)
      ensures this.mmap == mmap
    {
      this.mmap := mmap;
    }

    /**
     * The line around offset pos, without its newline; a newline byte is
     * read as the end of the line before it. Without a file, the empty line.
     */
    method GetLine(pos: nat) returns (line: seq<byte>)
      requires mmap.Some? ==> Probeable(mmap.value, pos)
      ensures mmap.None? ==> line == []
      ensures mmap.Some? ==> line == LineAt(mmap.value, pos)
    {
      if mmap.None? {
        return [];
      }
      var bytes := mmap.value;
      var p: nat := pos;
      if bytes[p] == NEWLINE {
        p := p - 1;
      }
      var start: nat, end: nat := p, p;
      while start > 0 && bytes[start - 1] != NEWLINE
        invariant start <= p && LineStart(bytes, start) == LineStart(bytes, p)
      {
        start := start - 1;
      }
      var size := |bytes|;
      while end < size && bytes[end] != NEWLINE
        invariant p <= end <= size && LineEnd(bytes, end) == LineEnd(bytes, p)
      {
        end := end + 1;
      }
      line := bytes[start..end];
    }

    /**
     * Binary search for the first offset whose line, upper-cased, is not
     * below the upper-cased needle (with `~` appended, and equality counting
     * as below, for the upper bound). Without a file, 0. A file that opens
     * with a newline would make `get_line` step below offset 0.
     */
    method Bisect(needle: seq<byte>, upperBound: bool) returns (first: nat)
      requires mmap.Some? ==> NoLeadingNewline(mmap.value)
      ensures mmap.None? ==> first == 0
      ensures mmap.Some? ==> first <= |mmap.value|
      ensures mmap.Some? && SortedByUpper(mmap.value) ==>
        IsBound(mmap.value, Target(needle, upperBound), upperBound, first)
    {
      var target := Uppercase(needle);
      if upperBound {
        target := target + [TILDE];
      }
      first := 0;
      if mmap.None? {
        return 0;
      }
      var s := mmap.value;
      assert target == Target(needle, upperBound);
      ghost var sorted := SortedByUpper(s);
      var count: nat := |s|;
      while count > 0
        invariant first + count <= |s|
        invariant sorted ==> forall p: nat :: p < first ==> Below(s, p, target, upperBound)
        invariant sorted ==> forall p: nat :: first + count <= p < |s| ==> !Below(s, p, target, upperBound)
      {
        var step := count / 2;
        var pos := first + step;
        var line := GetLine(pos);
        var lineUpper := Uppercase(line);
        if Less(lineUpper, target) || (upperBound && lineUpper == target) {
          if sorted {
            BelowUpTo(s, target, upperBound, pos);
          }
          first := pos + 1;
          count := count - (step + 1);
        } else {
          if sorted {
            NotBelowFrom(s, target, upperBound, pos);
          }
          count := step;
        }
      }
    }

    /**
     * The identifiers that start with the needle: the lines between the two
     * bounds, filtered and turned into results, at most maxResults of them
     * (0 meaning no limit). Without a file, none. Only the lines read before
     * the limit is reached need to be well-formed.
     */
    method Lookup(needle: seq<byte>, exactMatch: bool, ignoreCase: bool, maxResults: nat,
                  demangle: seq<byte> -> seq<byte>) returns (result: seq<IdentResult>)
      requires mmap.Some? ==>
        WellFormed(mmap.value) && ScanFits(mmap.value, needle, exactMatch, ignoreCase, maxResults)
      ensures mmap.None? ==> result == []
      ensures mmap.Some? ==>
        result == ScanResults(mmap.value, needle, exactMatch, ignoreCase, maxResults, demangle)
      ensures mmap.Some? && NeedleFits(mmap.value, needle) ==>
        result == LookupResults(mmap.value, needle, exactMatch, ignoreCase, maxResults, demangle)
    {
      if mmap.None? {
        return [];
      }
      var bytes := mmap.value;
      SortedLinesSortedOffsets(bytes);
      var start := Bisect(needle, false);
      var end := Bisect(needle, true);
      SliceIsCandidates(bytes, needle, start, end);
      var lines := Lines(bytes[start..end]);
      assert lines == Candidates(bytes, needle);
      ghost var total := ScanResults(bytes, needle, exactMatch, ignoreCase, maxResults, demangle);
      result := [];
      for i := 0 to |lines|
        invariant FitsFrom(lines, i, |result|, needle, exactMatch, ignoreCase, maxResults)
        invariant ScanFrom(lines, i, result, needle, exactMatch, ignoreCase, maxResults, demangle) == total
      {
        ScanFromStep(lines, i, result, needle, exactMatch, ignoreCase, maxResults, demangle);
        var line := lines[i];
        var id := Id(line);
        var symbol := Symbol(line);
        var suffix := id[|needle|..];
        if COLON in suffix || DOT in suffix || (exactMatch && |suffix| > 0) {
          continue;
        }
        if !ignoreCase && !(needle <= id) {
          continue;
        }
        var demangled := demangle(symbol);
        if demangled != symbol {
          id := demangled;
        }
        result := result + [IdentResult(id, symbol)];
        if |result| == maxResults {
          break;
        }
      }
      ghost var fits := NeedleFits(bytes, needle);
      if fits {
        LookupAgrees(bytes, needle, exactMatch, ignoreCase, maxResults, demangle);
      }
    }
  }
}
