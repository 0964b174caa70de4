/**
 * What the identifier search computes, stated over the buffer: the bound
 * the binary search finds among byte offsets, the lines the final scan
 * reaches, and the entries that scan keeps.
 */
module Search {
  import opened Bytes
  import opened LineIndex

  /** One search hit: the identifier shown and the symbol it stands for. */
  datatype IdentResult = IdentResult(id: seq<byte>, symbol: seq<byte>)

  /** What lines are compared against: the upper-cased needle, with `~` appended for the upper bound. */
  function Target(needle: seq<byte>, upperBound: bool): seq<byte> {
    Upper(needle) + (if upperBound then [TILDE] else [])
  }

  /** Key k lies before the bound: below the target, or equal to it when the bound is the upper one. */
  predicate KeyBelow(k: seq<byte>, target: seq<byte>, upperBound: bool) {
    Less(k, target) || (upperBound && k == target)
  }

  /** The line read at offset pos lies before the bound. */
  predicate Below(s: seq<byte>, pos: nat, target: seq<byte>, upperBound: bool)
    requires Probeable(s, pos)
  {
    KeyBelow(Upper(LineAt(s, pos)), target, upperBound)
  }

  /** Offsets, taken in order, read lines in non-decreasing upper-cased order. */
  predicate SortedByUpper(s: seq<byte>) {
    NoLeadingNewline(s) &&
    forall p, q :: 0 <= p < q < |s| ==> !Less(Upper(LineAt(s, q)), Upper(LineAt(s, p)))
  }

  /** The lines of the buffer, as listed, are in non-decreasing upper-cased order. */
  predicate LinesSorted(cs: seq<seq<byte>>) {
    forall i, j :: 0 <= i < j < |cs| ==> !Less(Upper(Body(cs[j])), Upper(Body(cs[i])))
  }

  /** An identifiers file: no empty lines, and lines sorted case-insensitively. */
  predicate WellFormed(s: seq<byte>) {
    NoEmptyLines(s) && LinesSorted(Chunks(s))
  }

  /** r splits the offsets: every offset before r reads a line below the target, none from r on does. */
  predicate IsBound(s: seq<byte>, target: seq<byte>, upperBound: bool, r: nat)
    requires NoLeadingNewline(s)
  {
    r <= |s| &&
    (forall p :: 0 <= p < r ==> Below(s, p, target, upperBound)) &&
    (forall p :: r <= p < |s| ==> !Below(s, p, target, upperBound))
  }

  /** With sorted lines, an offset below the target has only offsets below the target before it. */
  lemma BelowMonotone(s: seq<byte>, target: seq<byte>, upperBound: bool, p: nat, q: nat)
    requires SortedByUpper(s) && p <= q < |s|
    requires Below(s, q, target, upperBound)
    ensures Below(s, p, target, upperBound)
  {
    if p < q {
      var kp, kq := Upper(LineAt(s, p)), Upper(LineAt(s, q));
      assert !Less(kq, kp);
      LessTotal(kp, kq);
      if kp != kq && Less(kq, target) {
        LessTransitive(kp, kq, target);
      }
    }
  }

  /** With sorted lines, every offset up to one below the target is below it too. */
  lemma BelowUpTo(s: seq<byte>, target: seq<byte>, upperBound: bool, q: nat)
    requires SortedByUpper(s) && q < |s| && Below(s, q, target, upperBound)
    ensures forall p: nat :: p <= q ==> Below(s, p, target, upperBound)
  {
    forall p: nat | p <= q
      ensures Below(s, p, target, upperBound)
    {
      BelowMonotone(s, target, upperBound, p, q);
    }
  }

  /** With sorted lines, no offset from one not below the target on is below it. */
  lemma NotBelowFrom(s: seq<byte>, target: seq<byte>, upperBound: bool, p: nat)
    requires SortedByUpper(s) && p < |s| && !Below(s, p, target, upperBound)
    ensures forall q: nat :: p <= q < |s| ==> !Below(s, q, target, upperBound)
  {
    forall q: nat | p <= q < |s|
      ensures !Below(s, q, target, upperBound)
    {
      if Below(s, q, target, upperBound) {
        BelowMonotone(s, target, upperBound, p, q);
      }
    }
  }

  /** Sorted lines, as listed, make offsets read lines in sorted order. */
  lemma SortedLinesSortedOffsets(s: seq<byte>)
    requires WellFormed(s)
    ensures SortedByUpper(s)
  {
    forall p, q | 0 <= p < q < |s|
      ensures !Less(Upper(LineAt(s, q)), Upper(LineAt(s, p)))
    {
      LineAtChunk(s, p);
      LineAtChunk(s, q);
      ChunkIndexMonotone(s, p, q);
      if ChunkIndex(s, p) == ChunkIndex(s, q) {
        LessIrreflexive(Upper(LineAt(s, p)));
      }
    }
  }

  /** Whether an offset reads a line below the target is whether it lies before the bound. */
  lemma BoundAt(s: seq<byte>, target: seq<byte>, upperBound: bool, r: nat, p: nat)
    requires NoLeadingNewline(s) && IsBound(s, target, upperBound, r) && p < |s|
    ensures Probeable(s, p)
    ensures Below(s, p, target, upperBound) <==> p < r
  {
  }

  /** Only one offset splits the buffer for a given target. */
  lemma BoundUnique(s: seq<byte>, target: seq<byte>, upperBound: bool, r1: nat, r2: nat)
    requires NoLeadingNewline(s)
    requires IsBound(s, target, upperBound, r1) && IsBound(s, target, upperBound, r2)
    ensures r1 == r2
  {
    if r1 != r2 {
      var m := if r1 < r2 then r1 else r2;
      BoundAt(s, target, upperBound, r1, m);
      BoundAt(s, target, upperBound, r2, m);
      assert false;
    }
  }

  /** The lower bound for a needle never lies past its upper bound, so the slice between them exists. */
  lemma BoundsOrdered(s: seq<byte>, needle: seq<byte>, lo: nat, hi: nat)
    requires NoLeadingNewline(s)
    requires IsBound(s, Target(needle, false), false, lo)
    requires IsBound(s, Target(needle, true), true, hi)
    ensures lo <= hi
  {
    if hi < lo {
      var k := Upper(LineAt(s, hi));
      BoundAt(s, Target(needle, false), false, lo, hi);
      assert Target(needle, false) == Upper(needle);
      BelowExtension(Upper(needle), [TILDE]);
      LessTransitive(k, Upper(needle), Upper(needle) + [TILDE]);
      BoundAt(s, Target(needle, true), true, hi, hi);
      assert false;
    }
  }

  /** A bound never falls inside a line. */
  lemma BoundAtLineStart(s: seq<byte>, target: seq<byte>, upperBound: bool, r: nat)
    requires NoLeadingNewline(s) && IsBound(s, target, upperBound, r)
    ensures r == |s| || AtLineStart(s, r)
  {
    if 0 < r < |s| && s[r - 1] != NEWLINE {
      SameLine(s, r);
      BoundAt(s, target, upperBound, r, r - 1);
      BoundAt(s, target, upperBound, r, r);
      assert false;
    }
  }

  /** A chunk the final scan reaches: its upper-cased text lies between the two targets. */
  predicate InRange(c: seq<byte>, needle: seq<byte>) {
    var k := Upper(Body(c));
    !KeyBelow(k, Target(needle, false), false) && KeyBelow(k, Target(needle, true), true)
  }

  /**
   * The lines in range are exactly those that start, case-insensitively,
   * with the needle and then end, go on with a byte below `~`, or are the
   * needle followed by a single `~`.
   */
  lemma InRangeIffPrefix(c: seq<byte>, needle: seq<byte>)
    ensures var k, n := Upper(Body(c)), Upper(needle);
      InRange(c, needle) <==> (n <= k && (|k| == |n| || k[|n|] < TILDE || k == n + [TILDE]))
  {
    assert Target(needle, false) == Upper(needle);
    BetweenBounds(Upper(Body(c)), Upper(needle), TILDE);
  }

  /** The chunk of the whole buffer that starts at a. */
  function ChunkAt(s: seq<byte>, a: nat): seq<byte>
    requires a < |s|
  {
    Chunk(s, a, |s|)
  }

  predicate AllBelow(st: seq<nat>, n: nat) {
    forall k :: 0 <= k < |st| ==> st[k] < n
  }

  /** The offsets of st that keep accepts, in order. */
  function Filter(st: seq<nat>, keep: nat -> bool): (r: seq<nat>)
    ensures |r| <= |st|
    ensures forall k :: 0 <= k < |r| ==> keep(r[k])
  {
    if st == [] then [] else (if keep(st[0]) then [st[0]] else []) + Filter(st[1..], keep)
  }

  lemma {:induction false} FilterAppend(a: seq<nat>, b: seq<nat>, keep: nat -> bool)
    ensures Filter(a + b, keep) == Filter(a, keep) + Filter(b, keep)
  {
    if a == [] {
      assert a + b == b;
    } else {
      assert (a + b)[0] == a[0];
      assert (a + b)[1..] == a[1..] + b;
      FilterAppend(a[1..], b, keep);
    }
  }

  lemma {:induction false} FilterNone(st: seq<nat>, keep: nat -> bool)
    requires forall k :: 0 <= k < |st| ==> !keep(st[k])
    ensures Filter(st, keep) == []
  {
    if st != [] {
      FilterNone(st[1..], keep);
    }
  }

  lemma {:induction false} FilterAll(st: seq<nat>, keep: nat -> bool)
    requires forall k :: 0 <= k < |st| ==> keep(st[k])
    ensures Filter(st, keep) == st
  {
    if st != [] {
      FilterAll(st[1..], keep);
    }
  }

  /** An accepted offset is kept, at some position of the result. */
  lemma {:induction false} FilterKeeps(st: seq<nat>, keep: nat -> bool, i: nat) returns (j: nat)
    requires i < |st| && keep(st[i])
    ensures j < |Filter(st, keep)| && Filter(st, keep)[j] == st[i]
  {
    var head := if keep(st[0]) then [st[0]] else [];
    if i == 0 {
      j := 0;
    } else {
      assert st[1..][i - 1] == st[i];
      var j' := FilterKeeps(st[1..], keep, i - 1);
      j := j' + |head|;
    }
  }

  /** Every offset kept comes from st. */
  lemma {:induction false} FilterFrom(st: seq<nat>, keep: nat -> bool, j: nat) returns (i: nat)
    requires j < |Filter(st, keep)|
    ensures i < |st| && st[i] == Filter(st, keep)[j]
  {
    var head := if keep(st[0]) then [st[0]] else [];
    if j < |head| {
      i := 0;
    } else {
      var i' := FilterFrom(st[1..], keep, j - |head|);
      i := i' + 1;
    }
  }

  /** Whether the line that starts at offset x of s is in range. */
  function InRangeAt(s: seq<byte>, needle: seq<byte>): nat -> bool {
    (x: nat) => x < |s| && InRange(ChunkAt(s, x), needle)
  }

  /** The lines in range, in buffer order, as `BufRead::lines` yields them. */
  function Candidates(s: seq<byte>, needle: seq<byte>): seq<seq<byte>>
  {
    LinesAt(s, Filter(Starts(s, 0, |s|), InRangeAt(s, needle)))
  }

  /** In a buffer without empty lines, each line start of s[x..y] reads, through `get_line`, its own chunk. */
  lemma StartReadsChunk(s: seq<byte>, x: nat, y: nat, k: nat)
    requires NoEmptyLines(s) && x <= y <= |s| && AtLineStart(s, x) && k < |Starts(s, x, y)|
    ensures var a := Starts(s, x, y)[k];
      x <= a < y && Probeable(s, a) && LineAt(s, a) == Body(ChunkAt(s, a))
  {
    StartsAtLineStarts(s, x, y);
    LineAtStart(s, Starts(s, x, y)[k]);
  }

  /** No line before the lower bound is in range. */
  lemma NoneBelow(s: seq<byte>, needle: seq<byte>, lo: nat)
    requires NoEmptyLines(s) && IsBound(s, Target(needle, false), false, lo)
    ensures Filter(Starts(s, 0, lo), InRangeAt(s, needle)) == []
  {
    var st := Starts(s, 0, lo);
    forall k | 0 <= k < |st|
      ensures !InRangeAt(s, needle)(st[k])
    {
      StartReadsChunk(s, 0, lo, k);
      BoundAt(s, Target(needle, false), false, lo, st[k]);
    }
    FilterNone(st, InRangeAt(s, needle));
  }

  /** Every line between the bounds is in range. */
  lemma AllBetween(s: seq<byte>, needle: seq<byte>, lo: nat, hi: nat)
    requires NoEmptyLines(s) && lo <= hi
    requires IsBound(s, Target(needle, false), false, lo)
    requires IsBound(s, Target(needle, true), true, hi)
    requires AtLineStart(s, lo)
    ensures Filter(Starts(s, lo, hi), InRangeAt(s, needle)) == Starts(s, lo, hi)
  {
    var st := Starts(s, lo, hi);
    forall k | 0 <= k < |st|
      ensures InRangeAt(s, needle)(st[k])
    {
      StartReadsChunk(s, lo, hi, k);
      BoundAt(s, Target(needle, false), false, lo, st[k]);
      BoundAt(s, Target(needle, true), true, hi, st[k]);
    }
    FilterAll(st, InRangeAt(s, needle));
  }

  /** No line from the upper bound on is in range. */
  lemma NoneAbove(s: seq<byte>, needle: seq<byte>, hi: nat)
    requires NoEmptyLines(s) && IsBound(s, Target(needle, true), true, hi)
    requires hi == |s| || AtLineStart(s, hi)
    ensures Filter(Starts(s, hi, |s|), InRangeAt(s, needle)) == []
  {
    var st := Starts(s, hi, |s|);
    forall k | 0 <= k < |st|
      ensures !InRangeAt(s, needle)(st[k])
    {
      StartReadsChunk(s, hi, |s|, k);
      BoundAt(s, Target(needle, true), true, hi, st[k]);
    }
    FilterNone(st, InRangeAt(s, needle));
  }

  /** The lines in range start exactly where the lines between the two bounds start. */
  lemma InRangeStartsAreSlice(s: seq<byte>, needle: seq<byte>, lo: nat, hi: nat)
    requires NoEmptyLines(s)
    requires IsBound(s, Target(needle, false), false, lo)
    requires IsBound(s, Target(needle, true), true, hi)
    ensures lo <= hi && (hi == |s| || AtLineStart(s, hi))
    ensures Filter(Starts(s, 0, |s|), InRangeAt(s, needle)) == Starts(s, lo, hi)
  {
    BoundsOrdered(s, needle, lo, hi);
    BoundAtLineStart(s, Target(needle, false), false, lo);
    BoundAtLineStart(s, Target(needle, true), true, hi);
    StartsSplit(s, 0, lo, |s|);
    StartsSplit(s, lo, hi, |s|);
    var a, m, z := Starts(s, 0, lo), Starts(s, lo, hi), Starts(s, hi, |s|);
    FilterAppend(a, m + z, InRangeAt(s, needle));
    FilterAppend(m, z, InRangeAt(s, needle));
    NoneBelow(s, needle, lo);
    NoneAbove(s, needle, hi);
    if lo < |s| {
      AllBetween(s, needle, lo, hi);
    } else {
      assert m == [];
    }
  }

  /** t is the stretch of s that starts at offset d. */
  predicate Shifted(t: seq<byte>, s: seq<byte>, d: nat) {
    d + |t| <= |s| && forall i :: 0 <= i < |t| ==> t[i] == s[d + i]
  }

  /** Past offset d, a line of t ends where it ends in s, unless t cuts it. */
  lemma LineEndInSlice(t: seq<byte>, s: seq<byte>, d: nat, a: nat)
    requires Shifted(t, s, d) && a < |t|
    ensures var r := LineEnd(t, a);
      (r < |t| ==> LineEnd(s, d + a) == d + r) && (r == |t| ==> LineEnd(s, d + a) >= d + |t|)
  {
    var r := LineEnd(t, a);
    LineEndSpec(t, a);
    assert NEWLINE !in s[d + a..d + r] by {
      forall i | d + a <= i < d + r ensures s[i] != NEWLINE {
        assert s[i] == t[a..r][i - d - a];
      }
    }
    if r < |t| {
      LineEndUnique(s, d + a, d + r);
    } else {
      LineEndSpec(s, d + a);
    }
  }

  /** v holds the offsets of u, each moved up by d. */
  predicate OffsetBy(u: seq<nat>, v: seq<nat>, d: nat) {
    |u| == |v| && forall k :: 0 <= k < |u| ==> u[k] + d == v[k]
  }

  lemma OffsetByCons(a: nat, u: seq<nat>, v: seq<nat>, d: nat)
    requires OffsetBy(u, v, d)
    ensures OffsetBy([a] + u, [a + d] + v, d)
  {
    forall k | 0 <= k < |u| + 1 ensures ([a] + u)[k] + d == ([a + d] + v)[k] {
      if k > 0 {
        assert ([a] + u)[k] == u[k - 1];
      }
    }
  }

  /** The lines of t start where the lines of s between d and e = d + |t| start, shifted by d. */
  lemma {:induction false} StartsOfSlice(t: seq<byte>, s: seq<byte>, d: nat, e: nat, a: nat)
    requires Shifted(t, s, d) && e == d + |t| && a <= |t|
    ensures OffsetBy(Starts(t, a, |t|), Starts(s, d + a, e), d)
    decreases |t| - a
  {
    if a < |t| {
      LineEndInSlice(t, s, d, a);
      var r := LineEnd(t, a);
      if r + 1 < |t| {
        StartsOfSlice(t, s, d, e, r + 1);
        OffsetByCons(a, Starts(t, r + 1, |t|), Starts(s, d + r + 1, e), d);
      }
    }
  }

  /** A line of t, when t ends where a line of s ends, is the chunk of s at the same place. */
  lemma ChunkOfSlice(t: seq<byte>, s: seq<byte>, d: nat, a: nat)
    requires Shifted(t, s, d) && a < |t|
    requires d + |t| == |s| || s[d + |t| - 1] == NEWLINE
    ensures Chunk(t, a, |t|) == ChunkAt(s, d + a)
  {
    LineEndInSlice(t, s, d, a);
    var r := LineEnd(t, a);
    if r == |t| && d + |t| < |s| {
      LineEndsBefore(s, d + a, d + |t|);
    }
    var c := ChunkEnd(t, a, |t|);
    assert d + c == ChunkEnd(s, d + a, |s|);
    forall i | 0 <= i < c - a ensures t[a..c][i] == s[d + a..d + c][i] { }
  }

  /**
   * The slice between the two bounds holds exactly the lines in range: the
   * scan over it sees what a scan over every line of the buffer, keeping
   * the lines in range, would see.
   */
  lemma SliceIsCandidates(s: seq<byte>, needle: seq<byte>, lo: nat, hi: nat)
    requires NoEmptyLines(s)
    requires IsBound(s, Target(needle, false), false, lo)
    requires IsBound(s, Target(needle, true), true, hi)
    ensures lo <= hi
    ensures Lines(s[lo..hi]) == Candidates(s, needle)
  {
    InRangeStartsAreSlice(s, needle, lo, hi);
    SliceLines(s, lo, hi);
  }

  /** The lines of the whole buffer read at the given line starts. */
  function LinesAt(s: seq<byte>, st: seq<nat>): (r: seq<seq<byte>>)
    requires AllBelow(st, |s|)
    ensures |r| == |st|
  {
    seq(|st|, k requires 0 <= k < |st| => LineText(ChunkAt(s, st[k])))
  }

  /** The lines of a slice that ends at a line boundary are the lines of s at the starts it spans. */
  lemma SliceLines(s: seq<byte>, lo: nat, hi: nat)
    requires lo <= hi <= |s| && (hi == |s| || AtLineStart(s, hi))
    ensures AllBelow(Starts(s, lo, hi), |s|)
    ensures Lines(s[lo..hi]) == LinesAt(s, Starts(s, lo, hi))
  {
    assert Shifted(s[lo..hi], s, lo);
    ShiftedLines(s[lo..hi], s, lo, hi);
  }

  /** The lines of t, a stretch of s that ends at a line boundary, are the lines of s at the starts it spans. */
  lemma ShiftedLines(t: seq<byte>, s: seq<byte>, d: nat, e: nat)
    requires Shifted(t, s, d) && e == d + |t| && (e == |s| || AtLineStart(s, e))
    ensures AllBelow(Starts(s, d, e), |s|)
    ensures Lines(t) == LinesAt(s, Starts(s, d, e))
  {
    if t == [] {
      return;
    }
    StartsOfSlice(t, s, d, e, 0);
    var u, v := Starts(t, 0, |t|), Starts(s, d, e);
    forall k | 0 <= k < |v|
      ensures Lines(t)[k] == LinesAt(s, v)[k]
    {
      ShiftedLine(t, s, d, e, u, v, k);
    }
  }

  /** The k-th line of t, a stretch of s ending at a line boundary, is the line of s at the k-th start. */
  lemma ShiftedLine(t: seq<byte>, s: seq<byte>, d: nat, e: nat, u: seq<nat>, v: seq<nat>, k: nat)
    requires Shifted(t, s, d) && e == d + |t| && (e == |s| || (0 < e && s[e - 1] == NEWLINE))
    requires u == Starts(t, 0, |t|) && v == Starts(s, d, e) && OffsetBy(u, v, d)
    requires k < |u|
    ensures AllBelow(v, |s|) && k < |Lines(t)| && Lines(t)[k] == LinesAt(s, v)[k]
  {
    ChunkOfSlice(t, s, d, u[k]);
    assert Chunks(t)[k] == Chunk(t, u[k], |t|);
    assert Lines(t)[k] == LineText(Chunks(t)[k]);
    assert LinesAt(s, v)[k] == LineText(ChunkAt(s, v[k]));
  }
}
