/**
 * The line structure of a newline-delimited byte buffer: where the line
 * around an offset starts and ends, the line `get_line` reports for an
 * offset, and the lines Rust's `BufRead::lines` yields.
 */
module LineIndex {
  import opened Bytes

  /**
   * Index just after the last newline strictly before p, or 0. Its
   * properties are stated by LineStartSpec, so that they enter a proof only
   * where it asks for them.
   */
  function LineStart(s: seq<byte>, p: nat): (r: nat)
    requires p <= |s|
    ensures r <= p
    decreases p
  {
    if p == 0 || s[p - 1] == NEWLINE then p else LineStart(s, p - 1)
  }

  /** Index of the first newline at or after p, or |s|; LineEndSpec states its properties. */
  function LineEnd(s: seq<byte>, p: nat): (r: nat)
    requires p <= |s|
    ensures p <= r <= |s|
    decreases |s| - p
  {
    if p == |s| || s[p] == NEWLINE then p else LineEnd(s, p + 1)
  }

  /** The line around p starts just after a newline, or at 0, and holds no newline before p. */
  lemma {:induction false} LineStartSpec(s: seq<byte>, p: nat)
    requires p <= |s|
    ensures var r := LineStart(s, p); (r == 0 || s[r - 1] == NEWLINE) && NEWLINE !in s[r..p]
    decreases p
  {
    if !(p == 0 || s[p - 1] == NEWLINE) {
      LineStartSpec(s, p - 1);
      var r := LineStart(s, p - 1);
      assert s[r..p] == s[r..p - 1] + [s[p - 1]];
    }
  }

  /** The line around p ends at a newline, or at the end, and holds no newline from p on. */
  lemma {:induction false} LineEndSpec(s: seq<byte>, p: nat)
    requires p <= |s|
    ensures var r := LineEnd(s, p); (r == |s| || s[r] == NEWLINE) && NEWLINE !in s[p..r]
    decreases |s| - p
  {
    if !(p == |s| || s[p] == NEWLINE) {
      LineEndSpec(s, p + 1);
      var r := LineEnd(s, p + 1);
      assert s[p..r] == [s[p]] + s[p + 1..r];
    }
  }

  /** The properties in LineStartSpec pin LineStart's result down. */
  lemma {:induction false} LineStartUnique(s: seq<byte>, p: nat, r: nat)
    requires r <= p <= |s|
    requires r == 0 || s[r - 1] == NEWLINE
    requires NEWLINE !in s[r..p]
    ensures LineStart(s, p) == r
    decreases p
  {
    if r < p {
      assert s[r..p][p - 1 - r] == s[p - 1];
      assert s[r..p - 1] <= s[r..p];
      LineStartUnique(s, p - 1, r);
    }
  }

  /** The properties in LineEndSpec pin LineEnd's result down. */
  lemma {:induction false} LineEndUnique(s: seq<byte>, p: nat, r: nat)
    requires p <= r <= |s|
    requires r == |s| || s[r] == NEWLINE
    requires NEWLINE !in s[p..r]
    ensures LineEnd(s, p) == r
    decreases |s| - p
  {
    if p < r {
      assert s[p..r][0] == s[p];
      assert s[p + 1..r] == s[p..r][1..];
      LineEndUnique(s, p + 1, r);
    }
  }

  predicate NoLeadingNewline(s: seq<byte>) {
    |s| > 0 ==> s[0] != NEWLINE
  }

  /** The newline at p ends an empty line: it opens the buffer or follows another newline. */
  predicate EmptyLineAt(s: seq<byte>, p: nat)
    requires p < |s|
  {
    s[p] == NEWLINE && (p == 0 || s[p - 1] == NEWLINE)
  }

  /** The buffer holds no empty line: it does not open with a newline and no two newlines are adjacent. */
  predicate NoEmptyLines(s: seq<byte>) {
    NoLeadingNewline(s) && forall p :: 0 <= p < |s| ==> !EmptyLineAt(s, p)
  }

  /** An offset that `get_line` can read without indexing out of range or stepping below 0. */
  predicate Probeable(s: seq<byte>, pos: nat) {
    pos < |s| && (s[pos] == NEWLINE ==> pos > 0)
  }

  /** The offset `get_line` widens from: a newline byte is read as the line it ends. */
  function Probe(s: seq<byte>, pos: nat): nat
    requires Probeable(s, pos)
  {
    if s[pos] == NEWLINE then pos - 1 else pos
  }

  /** The line `get_line` reports for the offset pos. */
  function LineAt(s: seq<byte>, pos: nat): seq<byte>
    requires Probeable(s, pos)
  {
    var p := Probe(s, pos);
    s[LineStart(s, p)..LineEnd(s, p)]
  }

  /**
   * The line `get_line` reports holds no newline and reaches, both ways from
   * the probed offset, up to a newline or an end of the buffer.
   */
  lemma LineAtSpec(s: seq<byte>, pos: nat)
    requires Probeable(s, pos)
    ensures var p := Probe(s, pos); var a, b := LineStart(s, p), LineEnd(s, p);
      a <= p <= b && LineAt(s, pos) == s[a..b] && NEWLINE !in LineAt(s, pos)
      && (a == 0 || s[a - 1] == NEWLINE) && (b == |s| || s[b] == NEWLINE)
  {
    var p := Probe(s, pos);
    LineStartSpec(s, p);
    LineEndSpec(s, p);
    var a, b := LineStart(s, p), LineEnd(s, p);
    var line := s[a..b];
    forall i | 0 <= i < |line|
      ensures line[i] != NEWLINE
    {
      if a + i < p {
        assert line[i] == s[a..p][i];
      } else {
        assert line[i] == s[p..b][a + i - p];
      }
    }
  }

  /** Offset x is the start of a line (or the end of a buffer whose last line is terminated). */
  predicate AtLineStart(s: seq<byte>, x: nat) {
    x <= |s| && (x == 0 || s[x - 1] == NEWLINE)
  }

  /**
   * Two neighbouring offsets with no newline before the second one are
   * reported as the same line.
   */
  lemma SameLine(s: seq<byte>, p: nat)
    requires NoLeadingNewline(s)
    requires 0 < p < |s| && s[p - 1] != NEWLINE
    ensures Probeable(s, p - 1) && Probeable(s, p)
    ensures LineAt(s, p - 1) == LineAt(s, p)
  {
    if s[p] != NEWLINE {
      assert LineStart(s, p) == LineStart(s, p - 1);
      assert LineEnd(s, p - 1) == LineEnd(s, p);
    }
  }

  /**
   * Where the lines of s[i..j] begin: at i, then one past each newline
   * that is not the last byte of the stretch.
   */
  function Starts(s: seq<byte>, i: nat, j: nat): (r: seq<nat>)
    requires i <= j <= |s|
    ensures |r| == 0 <==> i == j
    ensures |r| > 0 ==> r[0] == i
    ensures forall k :: 0 <= k < |r| ==> i <= r[k] < j
    decreases j - i
  {
    if i == j then []
    else
      var e := LineEnd(s, i);
      if e + 1 >= j then [i] else [i] + Starts(s, e + 1, j)
  }

  /**
   * Offsets r tile s[..j]: each begins one past the newline that ends the
   * one before, and the last one runs to j.
   */
  predicate Tiles(s: seq<byte>, r: seq<nat>, j: nat)
    requires j <= |s|
  {
    (forall k :: 0 <= k < |r| ==> r[k] < j)
    && (forall k :: 0 <= k < |r| - 1 ==> r[k + 1] == LineEnd(s, r[k]) + 1)
    && (|r| > 0 ==> LineEnd(s, r[|r| - 1]) + 1 >= j)
  }

  lemma TilesCons(s: seq<byte>, i: nat, r: seq<nat>, j: nat)
    requires i < j <= |s| && Tiles(s, r, j) && |r| > 0 && r[0] == LineEnd(s, i) + 1
    ensures Tiles(s, [i] + r, j)
  {
    var r' := [i] + r;
    forall k | 0 <= k < |r'| - 1
      ensures r'[k + 1] == LineEnd(s, r'[k]) + 1
    {
      if k > 0 {
        assert r'[k] == r[k - 1];
      }
    }
  }

  /** The lines of a stretch tile it. */
  lemma {:induction false} StartsTile(s: seq<byte>, i: nat, j: nat)
    requires i <= j <= |s|
    ensures Tiles(s, Starts(s, i, j), j)
    decreases j - i
  {
    if i < j {
      var e := LineEnd(s, i);
      if e + 1 < j {
        var rest := Starts(s, e + 1, j);
        assert Starts(s, i, j) == [i] + rest;
        StartsTile(s, e + 1, j);
        TilesCons(s, i, rest, j);
      } else {
        assert Starts(s, i, j) == [i];
      }
    } else {
      assert Starts(s, i, j) == [];
    }
  }

  /** Every line of a stretch that opens at a line start begins at a line start. */
  lemma {:induction false} StartsAtLineStarts(s: seq<byte>, i: nat, j: nat)
    requires i <= j <= |s| && AtLineStart(s, i)
    ensures forall k :: 0 <= k < |Starts(s, i, j)| ==> AtLineStart(s, Starts(s, i, j)[k])
    decreases j - i
  {
    if i < j {
      var e := LineEnd(s, i);
      if e + 1 < j {
        LineEndSpec(s, i);
        StartsAtLineStarts(s, e + 1, j);
      }
    }
  }

  /** A newline at j - 1 ends the line from i at j - 1 or earlier. */
  lemma LineEndsBefore(s: seq<byte>, i: nat, j: nat)
    requires i < j <= |s| && s[j - 1] == NEWLINE
    ensures LineEnd(s, i) < j
  {
    LineEndSpec(s, i);
    var e := LineEnd(s, i);
    if e >= j {
      assert false;
    }
  }

  /** Splitting a stretch at a line start splits its lines there. */
  lemma {:induction false} StartsSplit(s: seq<byte>, i: nat, j: nat, k: nat)
    requires i <= j <= k <= |s|
    requires j == i || j == k || s[j - 1] == NEWLINE
    ensures Starts(s, i, k) == Starts(s, i, j) + Starts(s, j, k)
    decreases j - i
  {
    if i == j {
      assert Starts(s, i, j) == [];
    } else if j == k {
      assert Starts(s, j, k) == [];
    } else {
      LineEndsBefore(s, i, j);
      var e := LineEnd(s, i);
      if e + 1 < j {
        StartsSplit(s, e + 1, j, k);
      }
    }
  }

  /** Where the line starting at a ends within s[..j]: one past its newline, or j. */
  function ChunkEnd(s: seq<byte>, a: nat, j: nat): (r: nat)
    requires a < j <= |s|
    ensures a < r <= j
  {
    var e := LineEnd(s, a);
    if e + 1 >= j then j else e + 1
  }

  /** The line starting at a within s[..j], with its terminating newline when it has one. */
  function Chunk(s: seq<byte>, a: nat, j: nat): seq<byte>
    requires a < j <= |s|
  {
    s[a..ChunkEnd(s, a, j)]
  }

  /**
   * The lines of a buffer, each with its terminating newline when it has
   * one; the last may lack one, and a final newline adds no empty line.
   */
  function Chunks(s: seq<byte>): (r: seq<seq<byte>>)
    ensures |r| == |Starts(s, 0, |s|)|
  {
    var st := Starts(s, 0, |s|);
    seq(|st|, k requires 0 <= k < |st| => Chunk(s, st[k], |s|))
  }

  /** A chunk without its terminating newline: the text `get_line` compares. */
  function Body(c: seq<byte>): seq<byte> {
    if |c| > 0 && c[|c| - 1] == NEWLINE then c[..|c| - 1] else c
  }

  /**
   * A chunk as `BufRead::lines` yields it: the newline goes, and a carriage
   * return just before that newline goes too.
   */
  function LineText(c: seq<byte>): seq<byte> {
    if |c| > 0 && c[|c| - 1] == NEWLINE then
      var b := c[..|c| - 1];
      if |b| > 0 && b[|b| - 1] == CARRIAGE_RETURN then b[..|b| - 1] else b
    else c
  }

  function Texts(cs: seq<seq<byte>>): seq<seq<byte>> {
    seq(|cs|, i requires 0 <= i < |cs| => LineText(cs[i]))
  }

  /** `BufRead::lines` over a byte slice. */
  function Lines(s: seq<byte>): seq<seq<byte>> {
    Texts(Chunks(s))
  }

  /** The body of the chunk that starts at a is the line from a up to its newline or the end. */
  lemma BodyOfChunk(s: seq<byte>, a: nat)
    requires a < |s|
    ensures Body(Chunk(s, a, |s|)) == s[a..LineEnd(s, a)]
  {
    LineEndSpec(s, a);
    var e := LineEnd(s, a);
    if e < |s| {
      assert s[a..e + 1][..e - a] == s[a..e];
    } else {
      assert s[a..e][e - 1 - a] == s[|s| - 1];
    }
  }

  /** At a line start that is not an empty line, `get_line` reports the body of the chunk there. */
  lemma LineAtStart(s: seq<byte>, a: nat)
    requires NoEmptyLines(s) && a < |s| && AtLineStart(s, a)
    ensures Probeable(s, a) && LineAt(s, a) == Body(Chunk(s, a, |s|))
  {
    assert !EmptyLineAt(s, a);
    LineStartUnique(s, a, a);
    BodyOfChunk(s, a);
  }

  /** Index of the chunk holding the line `get_line` reports for pos: the number of lines before it. */
  function ChunkIndex(s: seq<byte>, pos: nat): nat
    requires Probeable(s, pos)
  {
    |Starts(s, 0, LineStart(s, Probe(s, pos)))|
  }

  /** A later offset lies on the same line or a later one. */
  lemma LineStartMonotone(s: seq<byte>, p: nat, q: nat)
    requires p <= q <= |s|
    ensures LineStart(s, p) <= LineStart(s, q)
  {
    LineStartSpec(s, p);
    LineStartSpec(s, q);
    var a, b := LineStart(s, p), LineStart(s, q);
    if b < a {
      assert false;
    }
  }

  /** A later offset is reported as the same line of the buffer or a later one. */
  lemma ChunkIndexMonotone(s: seq<byte>, p: nat, q: nat)
    requires p <= q && Probeable(s, p) && Probeable(s, q)
    ensures ChunkIndex(s, p) <= ChunkIndex(s, q)
  {
    var a, b := LineStart(s, Probe(s, p)), LineStart(s, Probe(s, q));
    LineStartMonotone(s, Probe(s, p), Probe(s, q));
    LineStartSpec(s, Probe(s, p));
    StartsSplit(s, 0, a, b);
  }

  /** The line around offset q ends where the line from its start ends. */
  lemma LineEndFromStart(s: seq<byte>, q: nat)
    requires q < |s|
    ensures LineEnd(s, LineStart(s, q)) == LineEnd(s, q)
  {
    var a, b := LineStart(s, q), LineEnd(s, q);
    LineStartSpec(s, q);
    LineEndSpec(s, q);
    assert s[a..b] == s[a..q] + s[q..b];
    LineEndUnique(s, a, b);
  }

  /**
   * The line `get_line` reports for an offset is the body of the chunk
   * holding that offset.
   */
  lemma LineAtChunk(s: seq<byte>, p: nat)
    requires Probeable(s, p)
    ensures ChunkIndex(s, p) < |Chunks(s)|
    ensures LineAt(s, p) == Body(Chunks(s)[ChunkIndex(s, p)])
  {
    var q := Probe(s, p);
    var a := LineStart(s, q);
    LineStartSpec(s, q);
    StartsSplit(s, 0, a, |s|);
    var n := |Starts(s, 0, a)|;
    assert Starts(s, 0, |s|)[n] == a;
    LineEndFromStart(s, q);
    BodyOfChunk(s, a);
  }
}
