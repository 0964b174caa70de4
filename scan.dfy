/**
 * The scan `lookup` runs over the lines between the two bounds: each line
 * is split at spaces into an identifier and a symbol, filtered against the
 * needle and turned into a result, and the scan stops once it holds the
 * requested number of results.
 */
module Scan {
  import opened Bytes
  import opened LineIndex
  import opened Search

  /** Index of the first x in s, or |s| when there is none. */
  function IndexOf(s: seq<byte>, x: byte): (i: nat)
    ensures i <= |s|
    ensures i < |s| ==> s[i] == x
    ensures forall j :: 0 <= j < i ==> s[j] != x
  {
    if s == [] then 0
    else if s[0] == x then 0
    else 1 + IndexOf(s[1..], x)
  }

  /** The first space-separated piece of a line: the identifier. */
  function Id(line: seq<byte>): (r: seq<byte>)
    ensures SPACE !in r && r <= line
    ensures |r| == |line| || line[|r|] == SPACE
  {
    line[..IndexOf(line, SPACE)]
  }

  /** The second space-separated piece of a line: the symbol. */
  function Symbol(line: seq<byte>): (r: seq<byte>)
    requires SPACE in line
    ensures SPACE !in r
    ensures Id(line) + [SPACE] + r <= line
    ensures var n := |Id(line)| + 1 + |r|; n == |line| || line[n] == SPACE
  {
    var i := IndexOf(line, SPACE);
    var rest := line[i + 1..];
    assert forall j :: 0 <= j < |rest| ==> rest[j] == line[i + 1 + j];
    rest[..IndexOf(rest, SPACE)]
  }

  /**
   * A line the scan can take apart without failing: it has a second piece,
   * and its identifier is at least as long as the needle.
   */
  predicate Parsable(line: seq<byte>, needle: seq<byte>) {
    SPACE in line && |needle| <= |Id(line)|
  }

  /**
   * The filter on one identifier: past the needle's length it holds no `:`
   * and no `.`, an exact match allows nothing past it, and unless case is
   * ignored the identifier starts with the needle byte for byte.
   */
  predicate Accepts(id: seq<byte>, needle: seq<byte>, exactMatch: bool, ignoreCase: bool)
    requires |needle| <= |id|
  {
    var suffix := id[|needle|..];
    COLON !in suffix && DOT !in suffix && !(exactMatch && |suffix| > 0)
      && (ignoreCase || needle <= id)
  }

  predicate Keeps(line: seq<byte>, needle: seq<byte>, exactMatch: bool, ignoreCase: bool)
    requires Parsable(line, needle)
  {
    Accepts(Id(line), needle, exactMatch, ignoreCase)
  }

  /**
   * The result for a kept line: the demangled symbol when demangling changes
   * it, the identifier otherwise, paired with the symbol.
   */
  function Entry(line: seq<byte>, demangle: seq<byte> -> seq<byte>): (r: IdentResult)
    requires SPACE in line
    ensures r.symbol == Symbol(line)
    ensures demangle(Symbol(line)) != Symbol(line) ==> r.id == demangle(Symbol(line))
    ensures demangle(Symbol(line)) == Symbol(line) ==> r.id == Id(line)
  {
    var symbol := Symbol(line);
    var demangled := demangle(symbol);
    IdentResult(if demangled != symbol then demangled else Id(line), symbol)
  }

  predicate AllParsable(lines: seq<seq<byte>>, needle: seq<byte>) {
    forall i :: 0 <= i < |lines| ==> Parsable(lines[i], needle)
  }

  /** The results of the whole scan, with no limit on their number, in line order. */
  function Matching(lines: seq<seq<byte>>, needle: seq<byte>, exactMatch: bool, ignoreCase: bool,
                    demangle: seq<byte> -> seq<byte>): seq<IdentResult>
    requires AllParsable(lines, needle)
  {
    if lines == [] then []
    else
      var last := lines[|lines| - 1];
      Matching(lines[..|lines| - 1], needle, exactMatch, ignoreCase, demangle)
        + (if Keeps(last, needle, exactMatch, ignoreCase) then [Entry(last, demangle)] else [])
  }

  /** The first max results, or all of them when max is 0 (the scan never stops at 0). */
  function Truncate(rs: seq<IdentResult>, max: nat): (r: seq<IdentResult>)
    ensures r <= rs
    ensures max == 0 ==> r == rs
    ensures max > 0 ==> |r| == if |rs| < max then |rs| else max
  {
    if max == 0 || |rs| <= max then rs else rs[..max]
  }

  /** Scanning more lines only adds results after the ones found so far. */
  lemma {:induction false} MatchingPrefix(lines: seq<seq<byte>>, k: nat, needle: seq<byte>,
                                          exactMatch: bool, ignoreCase: bool,
                                          demangle: seq<byte> -> seq<byte>)
    requires AllParsable(lines, needle) && k <= |lines|
    ensures AllParsable(lines[..k], needle)
    ensures Matching(lines[..k], needle, exactMatch, ignoreCase, demangle)
         <= Matching(lines, needle, exactMatch, ignoreCase, demangle)
    decreases |lines|
  {
    if k < |lines| {
      assert lines[..|lines| - 1][..k] == lines[..k];
      MatchingPrefix(lines[..|lines| - 1], k, needle, exactMatch, ignoreCase, demangle);
    } else {
      assert lines[..k] == lines;
    }
  }

  /** Every result comes from a kept line of the scan. */
  lemma {:induction false} MatchingSound(lines: seq<seq<byte>>, needle: seq<byte>,
                                         exactMatch: bool, ignoreCase: bool,
                                         demangle: seq<byte> -> seq<byte>, r: IdentResult)
    requires AllParsable(lines, needle)
    requires r in Matching(lines, needle, exactMatch, ignoreCase, demangle)
    ensures exists i :: 0 <= i < |lines| && Keeps(lines[i], needle, exactMatch, ignoreCase)
                        && r == Entry(lines[i], demangle)
  {
    var n := |lines| - 1;
    var init := lines[..n];
    assert AllParsable(init, needle);
    if r in Matching(init, needle, exactMatch, ignoreCase, demangle) {
      MatchingSound(init, needle, exactMatch, ignoreCase, demangle, r);
      var i :| 0 <= i < |init| && Keeps(init[i], needle, exactMatch, ignoreCase)
                && r == Entry(init[i], demangle);
      assert init[i] == lines[i];
    } else {
      assert Keeps(lines[n], needle, exactMatch, ignoreCase) && r == Entry(lines[n], demangle);
    }
  }

  /** Every kept line of the scan gives a result. */
  lemma MatchingComplete(lines: seq<seq<byte>>, needle: seq<byte>,
                         exactMatch: bool, ignoreCase: bool,
                         demangle: seq<byte> -> seq<byte>, i: nat)
    requires AllParsable(lines, needle) && i < |lines|
    requires Keeps(lines[i], needle, exactMatch, ignoreCase)
    ensures Entry(lines[i], demangle) in Matching(lines, needle, exactMatch, ignoreCase, demangle)
  {
    MatchingPrefix(lines, i + 1, needle, exactMatch, ignoreCase, demangle);
    MatchingPrefix(lines, i, needle, exactMatch, ignoreCase, demangle);
    ScanStep(lines, i, needle, exactMatch, ignoreCase, demangle);
    var m := Matching(lines[..i + 1], needle, exactMatch, ignoreCase, demangle);
    assert m[|m| - 1] == Entry(lines[i], demangle);
  }

  /** Every line the scan reaches can be taken apart. */
  predicate NeedleFits(s: seq<byte>, needle: seq<byte>) {
    AllParsable(Candidates(s, needle), needle)
  }

  /** What `lookup` returns for a buffer: the first results of the scan over the lines in range. */
  function LookupResults(s: seq<byte>, needle: seq<byte>, exactMatch: bool, ignoreCase: bool,
                         maxResults: nat, demangle: seq<byte> -> seq<byte>): seq<IdentResult>
    requires NeedleFits(s, needle)
  {
    Truncate(Matching(Candidates(s, needle), needle, exactMatch, ignoreCase, demangle),
             maxResults)
  }

  /** One step of the scan: the results so far grow by the entry of line i exactly when the filter keeps it. */
  lemma ScanStep(lines: seq<seq<byte>>, i: nat, needle: seq<byte>, exactMatch: bool, ignoreCase: bool,
                 demangle: seq<byte> -> seq<byte>)
    requires i < |lines| && AllParsable(lines[..i], needle) && Parsable(lines[i], needle)
    ensures AllParsable(lines[..i + 1], needle)
    ensures Matching(lines[..i + 1], needle, exactMatch, ignoreCase, demangle)
         == Matching(lines[..i], needle, exactMatch, ignoreCase, demangle)
            + (if Keeps(lines[i], needle, exactMatch, ignoreCase) then [Entry(lines[i], demangle)] else [])
  {
    assert lines[..i + 1][..i] == lines[..i];
    assert lines[..i + 1][i] == lines[i];
  }

  /** Once the results of the first i + 1 lines reach the limit, they are all the limited scan returns. */
  lemma ScanStops(lines: seq<seq<byte>>, i: nat, needle: seq<byte>, exactMatch: bool, ignoreCase: bool,
                  maxResults: nat, demangle: seq<byte> -> seq<byte>)
    requires AllParsable(lines, needle) && i < |lines|
    requires AllParsable(lines[..i + 1], needle)
    requires |Matching(lines[..i + 1], needle, exactMatch, ignoreCase, demangle)| == maxResults > 0
    ensures Matching(lines[..i + 1], needle, exactMatch, ignoreCase, demangle)
         == Truncate(Matching(lines, needle, exactMatch, ignoreCase, demangle), maxResults)
  {
    MatchingPrefix(lines, i + 1, needle, exactMatch, ignoreCase, demangle);
  }

  /**
   * The lines from i on that the scan reads can be taken apart, n results
   * having been found before line i. The scan stops right after the line
   * whose result brings the count to max, and never reads the lines after it.
   */
  predicate FitsFrom(lines: seq<seq<byte>>, i: nat, n: nat, needle: seq<byte>,
                     exactMatch: bool, ignoreCase: bool, max: nat)
    decreases |lines| - i
  {
    i >= |lines| ||
    (Parsable(lines[i], needle) &&
     if Keeps(lines[i], needle, exactMatch, ignoreCase) then
       n + 1 == max || FitsFrom(lines, i + 1, n + 1, needle, exactMatch, ignoreCase, max)
     else
       FitsFrom(lines, i + 1, n, needle, exactMatch, ignoreCase, max))
  }

  /**
   * The scan from line i on, appending to the results acc found so far: each
   * kept line adds its entry, and the scan stops as soon as a new entry brings
   * the count to max (never, when max is 0).
   */
  function ScanFrom(lines: seq<seq<byte>>, i: nat, acc: seq<IdentResult>, needle: seq<byte>,
                    exactMatch: bool, ignoreCase: bool, max: nat,
                    demangle: seq<byte> -> seq<byte>): (r: seq<IdentResult>)
    requires FitsFrom(lines, i, |acc|, needle, exactMatch, ignoreCase, max)
    ensures acc <= r
    ensures 0 < max && |acc| < max ==> |r| <= max
    decreases |lines| - i
  {
    if i >= |lines| then acc
    else if Keeps(lines[i], needle, exactMatch, ignoreCase) then
      var more := acc + [Entry(lines[i], demangle)];
      if |more| == max then more
      else ScanFrom(lines, i + 1, more, needle, exactMatch, ignoreCase, max, demangle)
    else ScanFrom(lines, i + 1, acc, needle, exactMatch, ignoreCase, max, demangle)
  }

  /** One line of the limited scan: it is taken apart, and then kept, stopped at or skipped. */
  lemma ScanFromStep(lines: seq<seq<byte>>, i: nat, acc: seq<IdentResult>, needle: seq<byte>,
                     exactMatch: bool, ignoreCase: bool, max: nat, demangle: seq<byte> -> seq<byte>)
    requires i < |lines| && FitsFrom(lines, i, |acc|, needle, exactMatch, ignoreCase, max)
    ensures Parsable(lines[i], needle)
    ensures var more := acc + [Entry(lines[i], demangle)];
      Keeps(lines[i], needle, exactMatch, ignoreCase) && |more| == max ==>
        ScanFrom(lines, i, acc, needle, exactMatch, ignoreCase, max, demangle) == more
    ensures var more := acc + [Entry(lines[i], demangle)];
      Keeps(lines[i], needle, exactMatch, ignoreCase) && |more| != max ==>
        FitsFrom(lines, i + 1, |more|, needle, exactMatch, ignoreCase, max)
        && ScanFrom(lines, i, acc, needle, exactMatch, ignoreCase, max, demangle)
           == ScanFrom(lines, i + 1, more, needle, exactMatch, ignoreCase, max, demangle)
    ensures !Keeps(lines[i], needle, exactMatch, ignoreCase) ==>
      FitsFrom(lines, i + 1, |acc|, needle, exactMatch, ignoreCase, max)
      && ScanFrom(lines, i, acc, needle, exactMatch, ignoreCase, max, demangle)
         == ScanFrom(lines, i + 1, acc, needle, exactMatch, ignoreCase, max, demangle)
  {
  }

  /** One line of the limited scan, read backwards: a line that can be taken apart, followed by a scan that fits, fits. */
  lemma ScanFromBack(lines: seq<seq<byte>>, i: nat, acc: seq<IdentResult>, needle: seq<byte>,
                     exactMatch: bool, ignoreCase: bool, max: nat, demangle: seq<byte> -> seq<byte>)
    requires i < |lines| && Parsable(lines[i], needle)
    requires var keep := Keeps(lines[i], needle, exactMatch, ignoreCase);
      var more := acc + (if keep then [Entry(lines[i], demangle)] else []);
      (keep && |more| == max) || FitsFrom(lines, i + 1, |more|, needle, exactMatch, ignoreCase, max)
    ensures FitsFrom(lines, i, |acc|, needle, exactMatch, ignoreCase, max)
    ensures var keep := Keeps(lines[i], needle, exactMatch, ignoreCase);
      var more := acc + (if keep then [Entry(lines[i], demangle)] else []);
      ScanFrom(lines, i, acc, needle, exactMatch, ignoreCase, max, demangle)
      == if keep && |more| == max then more
         else ScanFrom(lines, i + 1, more, needle, exactMatch, ignoreCase, max, demangle)
  {
    if Keeps(lines[i], needle, exactMatch, ignoreCase) {
      var more := acc + [Entry(lines[i], demangle)];
      assert FitsFrom(lines, i, |acc|, needle, exactMatch, ignoreCase, max);
      if |more| != max {
        assert ScanFrom(lines, i, acc, needle, exactMatch, ignoreCase, max, demangle)
            == ScanFrom(lines, i + 1, more, needle, exactMatch, ignoreCase, max, demangle);
      }
    } else {
      assert acc + [] == acc;
      assert FitsFrom(lines, i, |acc|, needle, exactMatch, ignoreCase, max);
    }
  }

  /** Every line in range that the scan of `lookup` reads can be taken apart. */
  predicate ScanFits(s: seq<byte>, needle: seq<byte>, exactMatch: bool, ignoreCase: bool, max: nat) {
    FitsFrom(Candidates(s, needle), 0, 0, needle, exactMatch, ignoreCase, max)
  }

  /** What the scan of `lookup` returns for a buffer, stopping at the limit. */
  function ScanResults(s: seq<byte>, needle: seq<byte>, exactMatch: bool, ignoreCase: bool,
                       max: nat, demangle: seq<byte> -> seq<byte>): (r: seq<IdentResult>)
    requires ScanFits(s, needle, exactMatch, ignoreCase, max)
    ensures max > 0 ==> |r| <= max
  {
    ScanFrom(Candidates(s, needle), 0, [], needle, exactMatch, ignoreCase, max, demangle)
  }

  /**
   * When every line can be taken apart, the scan that stops at the limit,
   * resumed after line i with the results of the lines before it, returns
   * the first max results of the whole scan.
   */
  lemma {:induction false} ScanAgreesFrom(lines: seq<seq<byte>>, i: nat, acc: seq<IdentResult>,
                                          needle: seq<byte>, exactMatch: bool, ignoreCase: bool,
                                          max: nat, demangle: seq<byte> -> seq<byte>)
    requires AllParsable(lines, needle) && i <= |lines| && AllParsable(lines[..i], needle)
    requires acc == Matching(lines[..i], needle, exactMatch, ignoreCase, demangle)
    requires max == 0 || |acc| < max
    ensures FitsFrom(lines, i, |acc|, needle, exactMatch, ignoreCase, max)
    ensures ScanFrom(lines, i, acc, needle, exactMatch, ignoreCase, max, demangle)
         == Truncate(Matching(lines, needle, exactMatch, ignoreCase, demangle), max)
    decreases |lines| - i
  {
    if i == |lines| {
      assert lines[..i] == lines;
    } else {
      ScanStep(lines, i, needle, exactMatch, ignoreCase, demangle);
      var keep := Keeps(lines[i], needle, exactMatch, ignoreCase);
      var more := acc + (if keep then [Entry(lines[i], demangle)] else []);
      if keep && |more| == max {
        ScanStops(lines, i, needle, exactMatch, ignoreCase, max, demangle);
      } else {
        ScanAgreesFrom(lines, i + 1, more, needle, exactMatch, ignoreCase, max, demangle);
      }
      ScanFromBack(lines, i, acc, needle, exactMatch, ignoreCase, max, demangle);
    }
  }

  /**
   * When every line in range can be taken apart, the scan fits whatever the
   * limit, and what it returns is the first max results of the whole scan.
   */
  lemma LookupAgrees(s: seq<byte>, needle: seq<byte>, exactMatch: bool, ignoreCase: bool,
                     max: nat, demangle: seq<byte> -> seq<byte>)
    requires NeedleFits(s, needle)
    ensures ScanFits(s, needle, exactMatch, ignoreCase, max)
    ensures ScanResults(s, needle, exactMatch, ignoreCase, max, demangle)
         == LookupResults(s, needle, exactMatch, ignoreCase, max, demangle)
  {
    var cs := Candidates(s, needle);
    assert cs[..0] == [];
    ScanAgreesFrom(cs, 0, [], needle, exactMatch, ignoreCase, max, demangle);
  }

  /**
   * What the scan that stops at the limit returns is the whole scan over
   * the first m lines, for some m, all of which can be taken apart.
   */
  lemma {:induction false} ScanIsMatchingPrefix(lines: seq<seq<byte>>, i: nat, acc: seq<IdentResult>,
                                                needle: seq<byte>, exactMatch: bool, ignoreCase: bool,
                                                max: nat, demangle: seq<byte> -> seq<byte>)
    returns (m: nat)
    requires i <= |lines| && FitsFrom(lines, i, |acc|, needle, exactMatch, ignoreCase, max)
    requires AllParsable(lines[..i], needle)
    requires acc == Matching(lines[..i], needle, exactMatch, ignoreCase, demangle)
    ensures i <= m <= |lines| && AllParsable(lines[..m], needle)
    ensures ScanFrom(lines, i, acc, needle, exactMatch, ignoreCase, max, demangle)
         == Matching(lines[..m], needle, exactMatch, ignoreCase, demangle)
    decreases |lines| - i
  {
    if i == |lines| {
      m := i;
    } else {
      ScanFromStep(lines, i, acc, needle, exactMatch, ignoreCase, max, demangle);
      ScanStep(lines, i, needle, exactMatch, ignoreCase, demangle);
      if Keeps(lines[i], needle, exactMatch, ignoreCase) {
        var more := acc + [Entry(lines[i], demangle)];
        if |more| == max {
          m := i + 1;
        } else {
          m := ScanIsMatchingPrefix(lines, i + 1, more, needle, exactMatch, ignoreCase, max, demangle);
        }
      } else {
        m := ScanIsMatchingPrefix(lines, i + 1, acc, needle, exactMatch, ignoreCase, max, demangle);
      }
    }
  }

  /** The text `BufRead::lines` yields is a prefix of the chunk's body. */
  lemma LineTextPrefix(c: seq<byte>)
    ensures LineText(c) <= Body(c)
    ensures |Body(c)| <= |LineText(c)| + 1
    ensures |LineText(c)| < |Body(c)| ==> Body(c)[|LineText(c)|] == CARRIAGE_RETURN
  {
  }

  /**
   * The k-th candidate is a line of the buffer, at some index i, whose chunk
   * is in range and so starts, once upper-cased, with the upper-cased needle.
   */
  lemma CandidateLine(s: seq<byte>, needle: seq<byte>, k: nat) returns (i: nat)
    requires k < |Candidates(s, needle)|
    ensures i < |Lines(s)| && Lines(s)[i] == Candidates(s, needle)[k]
    ensures InRange(Chunks(s)[i], needle) && Upper(needle) <= Upper(Body(Chunks(s)[i]))
  {
    var st := Starts(s, 0, |s|);
    var f := Filter(st, InRangeAt(s, needle));
    i := FilterFrom(st, InRangeAt(s, needle), k);
    assert InRangeAt(s, needle)(f[k]);
    assert Chunks(s)[i] == ChunkAt(s, st[i]);
    InRangeIffPrefix(Chunks(s)[i], needle);
  }

  /** Only a space upper-cases to a space. */
  lemma UpperSpace(b: byte)
    requires UpperByte(b) == SPACE
    ensures b == SPACE
  {
  }

  /**
   * When every line of the buffer has a symbol and the needle holds no
   * space, every line the scan reaches can be taken apart.
   */
  lemma NeedleWithoutSpaceFits(s: seq<byte>, needle: seq<byte>)
    requires forall line :: line in Lines(s) ==> SPACE in line
    requires SPACE !in needle
    ensures NeedleFits(s, needle)
  {
    var cs := Candidates(s, needle);
    forall k | 0 <= k < |cs|
      ensures Parsable(cs[k], needle)
    {
      CandidateFits(s, needle, k);
    }
  }

  /** A candidate with a space, for a needle without one, has an identifier at least as long as the needle. */
  lemma CandidateFits(s: seq<byte>, needle: seq<byte>, k: nat)
    requires forall line :: line in Lines(s) ==> SPACE in line
    requires SPACE !in needle
    requires k < |Candidates(s, needle)|
    ensures Parsable(Candidates(s, needle)[k], needle)
  {
    var line := Candidates(s, needle)[k];
    var li := CandidateLine(s, needle, k);
    assert line in Lines(s);
    var c := Chunks(s)[li];
    LineTextPrefix(c);
    var i := |Id(line)|;
    if i < |needle| {
      assert Body(c)[i] == SPACE;
      assert Upper(Body(c))[i] == Upper(needle)[i];
      UpperSpace(needle[i]);
      assert false;
    }
  }

  /**
   * A needle holding a space leaves no line in range that can be taken
   * apart: the identifier of such a line stops at the space, before the
   * needle's end.
   */
  lemma SpacedNeedleUnfit(s: seq<byte>, needle: seq<byte>, k: nat)
    requires SPACE in needle && k < |Candidates(s, needle)|
    ensures !Parsable(Candidates(s, needle)[k], needle)
  {
    var line := Candidates(s, needle)[k];
    var li := CandidateLine(s, needle, k);
    var c := Chunks(s)[li];
    assert line == LineText(c);
    LineTextPrefix(c);
    var j := IndexOf(needle, SPACE);
    if Parsable(line, needle) {
      var id := Id(line);
      assert line[j] == id[j] && id[j] != SPACE;
      assert Upper(Body(c))[j] == Upper(needle)[j] == SPACE;
      UpperSpace(Body(c)[j]);
      assert false;
    }
  }

  /**
   * So `lookup` with a needle holding a space cannot get through its scan
   * whenever any line is in range: the first line it reads is too short.
   */
  lemma SpacedNeedleFails(s: seq<byte>, needle: seq<byte>, exactMatch: bool, ignoreCase: bool, max: nat)
    requires SPACE in needle && |Candidates(s, needle)| > 0
    ensures !ScanFits(s, needle, exactMatch, ignoreCase, max)
  {
    SpacedNeedleUnfit(s, needle, 0);
  }

  /** The file `foo bar` with the needle `foo b`: its only line is in range, and the scan cannot take it apart. */
  lemma SpacedNeedleWitness()
    ensures var s: seq<byte> := [102, 111, 111, 32, 98, 97, 114, 10];
            var needle: seq<byte> := [102, 111, 111, 32, 98];
            WellFormed(s) && |Candidates(s, needle)| == 1 && !ScanFits(s, needle, false, false, 0)
  {
    var s: seq<byte> := [102, 111, 111, 32, 98, 97, 114, 10];
    var needle: seq<byte> := [102, 111, 111, 32, 98];
    LineEndUnique(s, 0, 7);
    assert Starts(s, 0, |s|) == [0];
    var c := ChunkAt(s, 0);
    assert c == s && Body(c) == s[..7];
    InRangeIffPrefix(c, needle);
    assert Upper(needle) <= Upper(Body(c));
    assert Filter([0], InRangeAt(s, needle)) == [0];
    assert !EmptyLineAt(s, 7);
    SpacedNeedleFails(s, needle, false, false, 0);
  }

  /**
   * The file `a x` / `ab` with the needle `a` and a limit of 1: the scan
   * stops after the first line, so the second, which has no symbol, is
   * never taken apart, although both lines are in range.
   */
  lemma CutSparesLaterLines()
    ensures var s: seq<byte> := [97, 32, 120, 10, 97, 98, 10];
            var needle: seq<byte> := [97];
            WellFormed(s) && ScanFits(s, needle, false, false, 1) && !NeedleFits(s, needle)
  {
    var s: seq<byte> := [97, 32, 120, 10, 97, 98, 10];
    var needle: seq<byte> := [97];
    var cs := TwoLineCandidates();
    assert IndexOf(cs[0], SPACE) == 1;
    assert Keeps(cs[0], needle, false, false);
    assert !Parsable(cs[1], needle);
  }

  /** The file `a x` / `ab` is well-formed, and both its lines are in range for the needle `a`. */
  lemma TwoLineCandidates() returns (cs: seq<seq<byte>>)
    ensures var s: seq<byte> := [97, 32, 120, 10, 97, 98, 10];
            WellFormed(s) && cs == Candidates(s, [97]) && cs == [[97, 32, 120], [97, 98]]
  {
    var s: seq<byte> := [97, 32, 120, 10, 97, 98, 10];
    var needle: seq<byte> := [97];
    var c0, c1 := TwoLineChunks();
    InRangeIffPrefix(c0, needle);
    InRangeIffPrefix(c1, needle);
    assert Filter([0, 4], InRangeAt(s, needle)) == [0, 4] by {
      assert [0, 4][1..] == [4];
    }
    cs := Candidates(s, needle);
    assert cs == [LineText(c0), LineText(c1)];
    assert !Less(Upper(Body(c1)), Upper(Body(c0)));
  }

  /** The two lines of the file `a x` / `ab`, as `lines()` splits it. */
  lemma TwoLineChunks() returns (c0: seq<byte>, c1: seq<byte>)
    ensures var s: seq<byte> := [97, 32, 120, 10, 97, 98, 10];
            NoEmptyLines(s) && Starts(s, 0, |s|) == [0, 4] && Chunks(s) == [c0, c1]
            && c0 == ChunkAt(s, 0) && c1 == ChunkAt(s, 4)
            && Body(c0) == LineText(c0) == [97, 32, 120] && Upper(Body(c0)) == [65, 32, 88]
            && Body(c1) == LineText(c1) == [97, 98] && Upper(Body(c1)) == [65, 66]
  {
    var s: seq<byte> := [97, 32, 120, 10, 97, 98, 10];
    LineEndUnique(s, 0, 3);
    LineEndUnique(s, 4, 6);
    assert Starts(s, 4, |s|) == [4];
    assert Starts(s, 0, |s|) == [0, 4];
    c0, c1 := ChunkAt(s, 0), ChunkAt(s, 4);
    assert c0 == s[..4] && Body(c0) == [97, 32, 120];
    assert c1 == s[4..] && Body(c1) == [97, 98];
    assert forall p :: 0 <= p < |s| ==> !EmptyLineAt(s, p);
  }

  /**
   * Every result of `lookup` comes from a line of the buffer with a symbol,
   * whose identifier starts, ignoring case, with the needle and passes the
   * filter: no `:` or `.` past the needle, nothing past it for an exact
   * match, and the needle byte for byte unless case is ignored. The result
   * carries that line's symbol.
   */
  lemma LookupSound(s: seq<byte>, needle: seq<byte>, exactMatch: bool, ignoreCase: bool,
                    maxResults: nat, demangle: seq<byte> -> seq<byte>, r: IdentResult)
    requires ScanFits(s, needle, exactMatch, ignoreCase, maxResults)
    requires r in ScanResults(s, needle, exactMatch, ignoreCase, maxResults, demangle)
    ensures exists line :: line in Lines(s) && SPACE in line && |needle| <= |Id(line)|
                           && COLON !in Id(line)[|needle|..] && DOT !in Id(line)[|needle|..]
                           && (exactMatch ==> |Id(line)| == |needle|)
                           && (!ignoreCase ==> needle <= Id(line))
                           && Upper(needle) <= Upper(Id(line))
                           && r.symbol == Symbol(line) && r == Entry(line, demangle)
  {
    var cs := Candidates(s, needle);
    var k := ScanResultSource(cs, needle, exactMatch, ignoreCase, maxResults, demangle, r);
    var i := CandidateLine(s, needle, k);
    IdKeepsPrefix(Chunks(s)[i], needle);
    assert cs[k] in Lines(s);
  }

  /** Every result of the scan that stops at the limit is the entry of a line it keeps. */
  lemma ScanResultSource(lines: seq<seq<byte>>, needle: seq<byte>, exactMatch: bool, ignoreCase: bool,
                         max: nat, demangle: seq<byte> -> seq<byte>, r: IdentResult) returns (k: nat)
    requires FitsFrom(lines, 0, 0, needle, exactMatch, ignoreCase, max)
    requires r in ScanFrom(lines, 0, [], needle, exactMatch, ignoreCase, max, demangle)
    ensures k < |lines| && Parsable(lines[k], needle) && Keeps(lines[k], needle, exactMatch, ignoreCase)
    ensures r == Entry(lines[k], demangle)
  {
    assert lines[..0] == [];
    var m := ScanIsMatchingPrefix(lines, 0, [], needle, exactMatch, ignoreCase, max, demangle);
    MatchingSound(lines[..m], needle, exactMatch, ignoreCase, demangle, r);
    var j :| 0 <= j < m && Keeps(lines[..m][j], needle, exactMatch, ignoreCase)
             && r == Entry(lines[..m][j], demangle);
    assert lines[..m][j] == lines[j];
    k := j;
  }

  /** A line whose upper-cased body starts with the upper-cased needle has such an identifier too. */
  lemma IdKeepsPrefix(c: seq<byte>, needle: seq<byte>)
    requires Parsable(LineText(c), needle) && Upper(needle) <= Upper(Body(c))
    ensures Upper(needle) <= Upper(Id(LineText(c)))
  {
    var id := Id(LineText(c));
    LineTextPrefix(c);
    assert id[..|needle|] == Body(c)[..|needle|];
    UpperPrefix(Body(c), |needle|);
    UpperPrefix(id, |needle|);
  }

  /**
   * An exact lookup returns only identifiers equal to the needle: byte for
   * byte when case matters, after upper-casing when it is ignored.
   */
  lemma ExactLookupSound(s: seq<byte>, needle: seq<byte>, ignoreCase: bool,
                         maxResults: nat, demangle: seq<byte> -> seq<byte>, r: IdentResult)
    requires ScanFits(s, needle, true, ignoreCase, maxResults)
    requires r in ScanResults(s, needle, true, ignoreCase, maxResults, demangle)
    ensures exists line :: line in Lines(s) && SPACE in line && r == Entry(line, demangle)
                           && Upper(Id(line)) == Upper(needle)
                           && (!ignoreCase ==> Id(line) == needle)
  {
    LookupSound(s, needle, true, ignoreCase, maxResults, demangle, r);
    var line :| line in Lines(s) && SPACE in line && |needle| <= |Id(line)|
                && |Id(line)| == |needle|
                && (!ignoreCase ==> needle <= Id(line))
                && Upper(needle) <= Upper(Id(line))
                && r == Entry(line, demangle);
  }

  /**
   * Without a limit on the number of results, `lookup` finds every line of
   * the buffer the filter keeps, provided the upper-cased identifier either
   * ends with the needle or goes on with a byte below `~`.
   */
  lemma LookupComplete(s: seq<byte>, needle: seq<byte>, exactMatch: bool, ignoreCase: bool,
                       demangle: seq<byte> -> seq<byte>, line: seq<byte>)
    requires NeedleFits(s, needle)
    requires line in Lines(s) && Parsable(line, needle)
    requires Upper(needle) <= Upper(Id(line))
    requires |Id(line)| == |needle| || UpperByte(Id(line)[|needle|]) < TILDE
    requires Keeps(line, needle, exactMatch, ignoreCase)
    ensures Entry(line, demangle) in LookupResults(s, needle, exactMatch, ignoreCase, 0, demangle)
  {
    var i :| 0 <= i < |Lines(s)| && Lines(s)[i] == line;
    IdInRange(Chunks(s)[i], needle);
    var j := InRangeCandidate(s, needle, i);
    MatchingComplete(Candidates(s, needle), needle, exactMatch, ignoreCase, demangle, j);
  }

  /**
   * A line is in range when its upper-cased identifier starts with the
   * upper-cased needle and then ends or goes on with a byte below `~`.
   */
  lemma IdInRange(c: seq<byte>, needle: seq<byte>)
    requires Parsable(LineText(c), needle)
    requires var id := Id(LineText(c));
      Upper(needle) <= Upper(id) && (|id| == |needle| || UpperByte(id[|needle|]) < TILDE)
    ensures InRange(c, needle)
  {
    LineTextPrefix(c);
    var id, k := Id(LineText(c)), Upper(Body(c));
    UpperPrefix(Body(c), |id|);
    assert id == Body(c)[..|id|];
    UpperPrefix(id, |needle|);
    assert Upper(needle) <= k;
    if |id| == |needle| {
      assert |k| == |needle| || k[|needle|] == UpperByte(Body(c)[|needle|]);
    } else {
      assert k[|needle|] == UpperByte(id[|needle|]);
    }
    InRangeIffPrefix(c, needle);
  }

  /** A line of the buffer that is in range is one of the lines the scan reaches. */
  lemma InRangeCandidate(s: seq<byte>, needle: seq<byte>, i: nat) returns (j: nat)
    requires i < |Lines(s)| && InRange(Chunks(s)[i], needle)
    ensures j < |Candidates(s, needle)| && Candidates(s, needle)[j] == Lines(s)[i]
  {
    var st := Starts(s, 0, |s|);
    assert Chunks(s)[i] == ChunkAt(s, st[i]);
    assert InRangeAt(s, needle)(st[i]);
    j := FilterKeeps(st, InRangeAt(s, needle), i);
  }

  /**
   * An exact lookup without a limit finds every line whose identifier equals
   * the needle: byte for byte, or after upper-casing when case is ignored.
   */
  lemma ExactLookupComplete(s: seq<byte>, needle: seq<byte>, ignoreCase: bool,
                            demangle: seq<byte> -> seq<byte>, line: seq<byte>)
    requires NeedleFits(s, needle)
    requires line in Lines(s) && SPACE in line
    requires if ignoreCase then Upper(Id(line)) == Upper(needle) else Id(line) == needle
    ensures Entry(line, demangle) in LookupResults(s, needle, true, ignoreCase, 0, demangle)
  {
    assert |Id(line)| == |needle|;
    assert Id(line)[|needle|..] == [];
    LookupComplete(s, needle, true, ignoreCase, demangle, line);
  }

  /**
   * The upper bound misses every line that, once upper-cased, goes on past
   * the needle with `~` or a byte above it, unless the line is exactly the
   * needle followed by `~`.
   */
  lemma PastTildeNotInRange(c: seq<byte>, needle: seq<byte>)
    requires |needle| < |Body(c)| && TILDE <= UpperByte(Body(c)[|needle|])
    requires Upper(Body(c)) != Upper(needle) + [TILDE]
    ensures !InRange(c, needle)
  {
    InRangeIffPrefix(c, needle);
    assert Upper(Body(c))[|needle|] == UpperByte(Body(c)[|needle|]);
  }

  /**
   * So the destructor `A::~A` passes the filter for the needle `A::`, yet
   * its line is never in range and `lookup` does not return it.
   */
  lemma TildeGap()
    ensures var line: seq<byte> := [65, 58, 58, 126, 65, 32, 97];
            var needle: seq<byte> := [65, 58, 58];
            Parsable(line, needle) && Keeps(line, needle, false, false)
            && !InRange(line + [NEWLINE], needle)
  {
    var line: seq<byte> := [65, 58, 58, 126, 65, 32, 97];
    var needle: seq<byte> := [65, 58, 58];
    assert IndexOf(line, SPACE) == 5;
    assert Body(line + [NEWLINE]) == line;
    PastTildeNotInRange(line + [NEWLINE], needle);
  }
}
