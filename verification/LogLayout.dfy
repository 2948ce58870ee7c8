/** What a call-session log keeps of the stream written to it, as a function of the stream alone. */
module LogLayout {
  import opened ByteOrder
  import opened Sequences

  const DEFAULT_SIZE: nat := 1024 * 1024

  // The contents of the files, newest first.
  type Files = seq<seq<byte>>

  function GetNumRotatingLogFiles(maxTotal: nat): (n: nat)
    ensures n >= 2
  {
    var n := maxTotal / 2 / DEFAULT_SIZE;
    if n > 2 then n else 2
  }

  function GetRotatingLogSize(maxTotal: nat): nat {
    if GetNumRotatingLogFiles(maxTotal) > 2 then DEFAULT_SIZE else maxTotal / 4
  }

  /** n times size, without a product of two unknowns. */
  function Times(n: nat, size: nat): nat {
    if n == 0 then 0 else Times(n - 1, size) + size
  }

  lemma {:induction false} TimesIsProduct(n: nat, size: nat)
    ensures Times(n, size) == n * size
  {
    if n > 0 {
      TimesIsProduct(n - 1, size);
    }
  }

  lemma {:induction false} TimesMono(m: nat, n: nat, size: nat)
    requires m <= n
    ensures Times(m, size) <= Times(n, size)
    decreases n
  {
    if m < n {
      TimesMono(m, n - 1, size);
    }
  }

  /** The sizes that follow from the budget: of the first file, of the others, and how many others. */
  datatype Sizes = Sizes(first: nat, later: nat, rotating: nat) {
    predicate Valid() { later > 0 && rotating >= 2 }

    /** For a log that is opened again after a rotation: its first file is no larger than the others,
        and it is not kept.  The layout is that of a log whose first file is empty. */
    function Reopened(): Sizes { this.(first := 0) }
  }

  function SizesFor(maxTotal: nat): (c: Sizes)
    requires maxTotal >= 4
    ensures c.Valid() && c.first > 0
  {
    Sizes(maxTotal / 2, GetRotatingLogSize(maxTotal), GetNumRotatingLogFiles(maxTotal))
  }

  /** All rotating files and the first one fit in the budget. */
  lemma WithinBudget(maxTotal: nat)
    requires maxTotal >= 4
    ensures var c := SizesFor(maxTotal); c.first + Times(c.rotating, c.later) <= maxTotal
  {
    var c := SizesFor(maxTotal);
    if c.rotating == 2 {
      assert Times(2, c.later) == c.later + Times(1, c.later);
    }
    TimesIsProduct(c.rotating, c.later);
  }

  lemma {:induction false} TimesSum(m: nat, n: nat, size: nat)
    ensures Times(m + n, size) == Times(m, size) + Times(n, size)
  {
    if n > 0 {
      TimesSum(m, n - 1, size);
    }
  }

  // ---------------------------------------------------------------- the layout

  /** The first file and so many of the later ones are complete, or more. */
  ghost predicate Reached(stream: seq<byte>, c: Sizes, blocks: nat) {
    c.Valid() && c.first + Times(blocks, c.later) <= |stream|
  }

  /** The b-th completed later file, and what comes after the completed ones. */
  function Block(stream: seq<byte>, c: Sizes, b: nat): seq<byte>
    requires Reached(stream, c, b + 1)
  {
    stream[c.first + Times(b, c.later)..c.first + Times(b + 1, c.later)]
  }

  function After(stream: seq<byte>, c: Sizes, blocks: nat): seq<byte>
    requires Reached(stream, c, blocks)
  {
    stream[c.first + Times(blocks, c.later)..]
  }

  /** The index of the first file once so many later ones are complete. */
  function Oldest(c: Sizes, blocks: nat): nat {
    if blocks + 1 < c.rotating then blocks + 1 else c.rotating
  }

  /** The current file, as many of the latest completed ones as are kept, and the first one. */
  ghost predicate Laid(files: Files, stream: seq<byte>, c: Sizes, blocks: nat)
    requires Reached(stream, c, blocks)
  {
    var oldest := Oldest(c, blocks);
    && |files| == oldest + 1
    && files[oldest] == stream[..c.first]
    && files[0] == After(stream, c, blocks)
    && forall i | 0 < i < oldest :: IsBlock(files[i], stream, c, blocks - i)
  }

  ghost predicate IsBlock(file: seq<byte>, stream: seq<byte>, c: Sizes, b: int) {
    b >= 0 && Reached(stream, c, b + 1) && file == Block(stream, c, b)
  }

  /** The whole layout: the stream alone determines every file.  Before the first file is full, it
      is the only one. */
  ghost predicate Layout(files: Files, stream: seq<byte>, c: Sizes) {
    if |stream| < c.first then files == [stream]
    else exists blocks: nat ::
           Reached(stream, c, blocks) && !Reached(stream, c, blocks + 1) && Laid(files, stream, c, blocks)
  }

  lemma {:induction false} ReachedMono(stream: seq<byte>, c: Sizes, m: nat, n: nat)
    requires Reached(stream, c, n) && m <= n
    ensures Reached(stream, c, m)
  {
    TimesMono(m, n, c.later);
  }

  /** No two layouts of one stream. */
  lemma LayoutUnique(files: Files, others: Files, stream: seq<byte>, c: Sizes)
    requires Layout(files, stream, c) && Layout(others, stream, c)
    ensures files == others
  {
    if |stream| >= c.first {
      hide Reached, Laid;
      var m: nat :| Reached(stream, c, m) && !Reached(stream, c, m + 1) && Laid(files, stream, c, m);
      var n: nat :| Reached(stream, c, n) && !Reached(stream, c, n + 1) && Laid(others, stream, c, n);
      if m < n {
        ReachedMono(stream, c, m + 1, n);
      } else if n < m {
        ReachedMono(stream, c, n + 1, m);
      }
      LaidUnique(files, others, stream, c, m);
    }
  }

  lemma LaidUnique(files: Files, others: Files, stream: seq<byte>, c: Sizes, blocks: nat)
    requires Reached(stream, c, blocks) && Laid(files, stream, c, blocks) && Laid(others, stream, c, blocks)
    ensures files == others
  {
    hide Reached, Block, After;
    forall i | 0 <= i < |files| ensures files[i] == others[i] {
      if 0 < i < Oldest(c, blocks) {
        assert IsBlock(files[i], stream, c, blocks - i) && IsBlock(others[i], stream, c, blocks - i);
      }
    }
  }

  // ---------------------------------------------------------------- steps

  /** The files up to the index r moved to the next index, the one at r deleted, and an empty one
      created at 0. */
  function Rotated(files: Files, r: nat): (next: Files) {
    [[]] + if |files| <= r then files else files[..r] + files[r + 1..]
  }

  /** Which files are moved after so many rotations: in the end the first one stays. */
  function RotationIndex(c: Sizes, rotations: nat): nat
    requires c.Valid()
  {
    if rotations < c.rotating then c.rotating else c.rotating - 1
  }

  lemma FirstRotation(stream: seq<byte>, c: Sizes)
    requires c.Valid() && |stream| == c.first
    ensures Reached(stream, c, 0) && Laid(Rotated([stream], RotationIndex(c, 0)), stream, c, 0)
  {
    assert stream[..c.first] == stream;
    assert After(stream, c, 0) == [];
  }

  lemma LaterRotation(files: Files, stream: seq<byte>, c: Sizes, blocks: nat)
    requires Reached(stream, c, blocks + 1) && |stream| == c.first + Times(blocks + 1, c.later)
    requires Reached(stream, c, blocks) && Laid(files, stream, c, blocks)
    ensures Laid(Rotated(files, RotationIndex(c, blocks + 1)), stream, c, blocks + 1)
  {
    var next := Rotated(files, RotationIndex(c, blocks + 1));
    assert next[Oldest(c, blocks + 1)] == files[Oldest(c, blocks)];
    assert After(stream, c, blocks + 1) == [];
    assert After(stream, c, blocks) == Block(stream, c, blocks);
    forall i | 0 < i < Oldest(c, blocks + 1) ensures IsBlock(next[i], stream, c, blocks + 1 - i) {
      assert next[i] == files[i - 1];
      assert i > 1 ==> IsBlock(files[i - 1], stream, c, blocks - (i - 1));
    }
  }

  /** Rotating after a second opening, seen as rotating with an empty first file at the end. */
  lemma LaterRotationReopened(files: Files, stream: seq<byte>, c: Sizes, blocks: nat, rotations: nat)
    requires Reached(stream, c, blocks + 1) && |stream| == c.first + Times(blocks + 1, c.later)
    requires Reached(stream, c, blocks) && Laid(files + [[]], stream, c, blocks) && blocks < rotations
    ensures Laid(Rotated(files, RotationIndex(c, rotations)) + [[]], stream, c, blocks + 1)
  {
    LaterRotation(files + [[]], stream, c, blocks);
    assert Rotated(files, RotationIndex(c, rotations)) + [[]] == Rotated(files + [[]], RotationIndex(c, blocks + 1));
  }

  lemma Appended(files: Files, stream: seq<byte>, c: Sizes, blocks: nat, data: seq<byte>)
    requires Reached(stream, c, blocks) && Laid(files, stream, c, blocks)
    ensures Reached(stream + data, c, blocks)
    ensures Laid(files[0 := files[0] + data], stream + data, c, blocks)
  {
    forall i | 0 < i < Oldest(c, blocks) ensures IsBlock(files[i], stream + data, c, blocks - i) {
      assert IsBlock(files[i], stream, c, blocks - i);
      TimesMono(blocks - i, blocks - i + 1, c.later);
    }
  }

  // ---------------------------------------------------------------- sessions

  function MaxFileSize(c: Sizes, rotations: nat): nat {
    if rotations == 0 then c.first else c.later
  }

  /** The sizes of the layout, and the files that it is about, when the log was last opened after so
      many rotations. */
  function SessionSizes(c: Sizes, base: nat): Sizes {
    if base == 0 then c else c.Reopened()
  }

  function LaidFiles(files: Files, base: nat): Files {
    if base == 0 then files else files + [[]]
  }

  /** How many files have been completed after the first one. */
  function Blocks(base: nat, rotations: nat): int {
    if base == 0 then rotations - 1 else rotations - base
  }

  /** After n rotations the first file and n - 1 later ones are complete; a log that was opened
      again after a rotation has later files alone. */
  ghost predicate Written(files: Files, stream: seq<byte>, c: Sizes, base: nat, rotations: nat) {
    && c.Valid() && |files| > 0 && base <= rotations
    && if rotations == 0 then files == [stream]
       else
         && Reached(stream, SessionSizes(c, base), Blocks(base, rotations))
         && Laid(LaidFiles(files, base), stream, SessionSizes(c, base), Blocks(base, rotations))
  }

  lemma WrittenAtOpen(c: Sizes, base: nat)
    requires c.Valid()
    ensures Written([[]], [], c, base, base)
  {
    assert base > 0 ==> Laid([[], []], [], c.Reopened(), 0);
  }

  lemma WrittenAppended(files: Files, stream: seq<byte>, c: Sizes, base: nat, rotations: nat, piece: seq<byte>)
    requires Written(files, stream, c, base, rotations)
    ensures Written(files[0 := files[0] + piece], stream + piece, c, base, rotations)
  {
    if rotations > 0 {
      Appended(LaidFiles(files, base), stream, SessionSizes(c, base), Blocks(base, rotations), piece);
      var next := files[0 := files[0] + piece];
      assert LaidFiles(next, base) == LaidFiles(files, base)[0 := files[0] + piece];
    }
  }

  lemma WrittenRotated(files: Files, stream: seq<byte>, c: Sizes, base: nat, rotations: nat)
    requires Written(files, stream, c, base, rotations) && |files[0]| == MaxFileSize(c, rotations)
    ensures Written(Rotated(files, RotationIndex(c, rotations)), stream, c, base, rotations + 1)
  {
    var sizes, blocks := SessionSizes(c, base), Blocks(base, rotations);
    if rotations == 0 {
      FirstRotation(stream, c);
    } else {
      hide Rotated, RotationIndex;
      assert files[0] == LaidFiles(files, base)[0] == After(stream, sizes, blocks);
      if base == 0 {
        LaterRotation(files, stream, c, blocks);
      } else {
        RotationIndexReopened(c, rotations);
        LaterRotationReopened(files, stream, sizes, blocks, rotations);
      }
    }
  }

  /** Rotating a file that is not full leaves the layout. */
  lemma WrittenTooShort(files: Files, stream: seq<byte>, c: Sizes, base: nat, rotations: nat, next: Files)
    requires Written(files, stream, c, base, rotations) && |files[0]| < MaxFileSize(c, rotations)
    ensures !Written(next, stream, c, base, rotations + 1)
  {
    var sizes, blocks := SessionSizes(c, base), Blocks(base, rotations);
    if rotations > 0 {
      assert files[0] == LaidFiles(files, base)[0] == After(stream, sizes, blocks);
      assert !Reached(stream, sizes, blocks + 1);
    } else {
      assert !Reached(stream, c, 0);
    }
  }

  lemma RotationIndexReopened(c: Sizes, rotations: nat)
    requires c.Valid()
    ensures RotationIndex(c.Reopened(), rotations) == RotationIndex(c, rotations)
  {
  }

  lemma WrittenLayout(files: Files, stream: seq<byte>, c: Sizes, base: nat, rotations: nat)
    requires Written(files, stream, c, base, rotations) && |files[0]| < MaxFileSize(c, rotations)
    ensures Layout(LaidFiles(files, base), stream, SessionSizes(c, base))
  {
    if rotations > 0 {
      var sizes, blocks := SessionSizes(c, base), Blocks(base, rotations);
      assert files[0] == LaidFiles(files, base)[0] == After(stream, sizes, blocks);
      assert !Reached(stream, sizes, blocks + 1);
    }
  }

  // ---------------------------------------------------------------- what is kept

  /** The n newest files, oldest first, as a reader sees them. */
  function ReadDown(files: Files, n: nat): seq<byte>
    requires n <= |files|
  {
    if n == 0 then [] else files[n - 1] + ReadDown(files, n - 1)
  }

  lemma {:induction false} LaterFiles(files: Files, stream: seq<byte>, c: Sizes, blocks: nat, k: nat)
    requires Reached(stream, c, blocks) && Laid(files, stream, c, blocks) && k < Oldest(c, blocks)
    ensures Reached(stream, c, blocks - k)
    ensures ReadDown(files, k + 1) == After(stream, c, blocks - k)
  {
    hide Reached, After, Block;
    ReachedMono(stream, c, blocks - k, blocks);
    if k == 0 {
      assert ReadDown(files, 1) == files[0] + [];
    } else {
      LaterFiles(files, stream, c, blocks, k - 1);
      assert IsBlock(files[k], stream, c, blocks - k);
      BlockThenAfter(stream, c, blocks - k);
    }
  }

  lemma BlockThenAfter(stream: seq<byte>, c: Sizes, b: nat)
    requires Reached(stream, c, b) && Reached(stream, c, b + 1)
    ensures Block(stream, c, b) + After(stream, c, b + 1) == After(stream, c, b)
  {
    TimesMono(b, b + 1, c.later);
  }

  /** How many later files have been deleted. */
  function Deleted(c: Sizes, blocks: nat): nat { blocks + 1 - Oldest(c, blocks) }

  lemma KeptFiles(files: Files, stream: seq<byte>, c: Sizes, blocks: nat)
    requires Reached(stream, c, blocks) && Laid(files, stream, c, blocks)
    ensures var from := c.first + Times(Deleted(c, blocks), c.later);
            && from <= |stream|
            && ReadDown(files, |files|) == stream[..c.first] + stream[from..]
  {
    hide ReadDown, Laid, Times, Reached;
    var oldest := Oldest(c, blocks);
    LaidEnds(files, stream, c, blocks);
    LaterFiles(files, stream, c, blocks, oldest - 1);
    ReachedLength(stream, c, blocks - (oldest - 1));
    ReadDownLast(files);
  }

  lemma LaidEnds(files: Files, stream: seq<byte>, c: Sizes, blocks: nat)
    requires Reached(stream, c, blocks) && Laid(files, stream, c, blocks)
    ensures |files| == Oldest(c, blocks) + 1 && Oldest(c, blocks) > 0
    ensures c.first <= |stream| && files[Oldest(c, blocks)] == stream[..c.first]
  {
  }

  lemma ReachedLength(stream: seq<byte>, c: Sizes, blocks: nat)
    requires Reached(stream, c, blocks)
    ensures c.first + Times(blocks, c.later) <= |stream|
    ensures After(stream, c, blocks) == stream[c.first + Times(blocks, c.later)..]
  {
  }

  lemma ReadDownLast(files: Files)
    requires |files| > 0
    ensures ReadDown(files, |files|) == files[|files| - 1] + ReadDown(files, |files| - 1)
  {
  }

  /** How much of the end is kept once something has been deleted. */
  lemma SuffixLength(stream: seq<byte>, c: Sizes, blocks: nat)
    requires Reached(stream, c, blocks) && !Reached(stream, c, blocks + 1)
    ensures blocks < c.rotating <==> |stream| < c.first + Times(c.rotating, c.later)
    ensures blocks < c.rotating ==> Deleted(c, blocks) == 0
    ensures blocks >= c.rotating ==>
              var kept := |stream| - c.first - Times(Deleted(c, blocks), c.later);
              && Times(c.rotating - 1, c.later) <= kept < Times(c.rotating, c.later)
              && kept < |stream| - c.first
  {
    var d := Deleted(c, blocks);
    if blocks < c.rotating {
      TimesMono(blocks + 1, c.rotating, c.later);
    } else {
      TimesMono(c.rotating, blocks, c.later);
      TimesSum(d, c.rotating - 1, c.later);
      TimesSum(d, c.rotating, c.later);
      TimesMono(1, d, c.later);
    }
  }

  lemma Spliced(s: seq<byte>, a: nat, b: nat)
    requires a <= b <= |s|
    ensures |s[..a] + s[b..]| == a + |s| - b
    ensures s[..a] + s[b..] == s <==> a == b
  {
  }

  lemma KeptSoFar(files: Files, stream: seq<byte>, c: Sizes) returns (kept: nat)
    requires c.Valid() && Layout(files, stream, c)
    ensures kept <= |stream| && |ReadDown(files, |files|)| <= c.first + Times(c.rotating, c.later)
    ensures |stream| < c.first + Times(c.rotating, c.later) <==> ReadDown(files, |files|) == stream
    ensures |stream| >= c.first + Times(c.rotating, c.later) ==>
              && ReadDown(files, |files|) == stream[..c.first] + stream[|stream| - kept..]
              && Times(c.rotating - 1, c.later) <= kept < Times(c.rotating, c.later)
  {
    if |stream| < c.first {
      kept := 0;
      assert ReadDown(files, 1) == stream + [];
    } else {
      hide ReadDown, Laid, Times, Oldest, Deleted, Reached;
      var blocks: nat :|
        Reached(stream, c, blocks) && !Reached(stream, c, blocks + 1) && Laid(files, stream, c, blocks);
      KeptFiles(files, stream, c, blocks);
      SuffixLength(stream, c, blocks);
      var from := c.first + Times(Deleted(c, blocks), c.later);
      kept := |stream| - from;
      Spliced(stream, c.first, from);
      if blocks < c.rotating {
        assert Times(0, c.later) == 0 by { TimesIsProduct(0, c.later); }
      }
    }
  }

  /** The promise of a call-session log: a reader sees the whole stream exactly as long as it fits,
      and after that its first part followed by a suffix of the rest, no shorter than all rotating
      files but one; the budget is never exceeded. */
  ghost predicate KeepsBothEnds(seen: seq<byte>, stream: seq<byte>, maxTotal: nat, kept: nat)
    requires maxTotal >= 4
  {
    var c := SizesFor(maxTotal);
    && kept <= |stream| && |seen| <= maxTotal
    && (|stream| < c.first + Times(c.rotating, c.later) <==> seen == stream)
    && (|stream| >= c.first + Times(c.rotating, c.later) ==>
          && seen == stream[..c.first] + stream[|stream| - kept..]
          && Times(c.rotating - 1, c.later) <= kept < Times(c.rotating, c.later))
  }

  lemma Kept(files: Files, stream: seq<byte>, maxTotal: nat) returns (kept: nat)
    requires maxTotal >= 4 && Layout(files, stream, SizesFor(maxTotal))
    ensures KeepsBothEnds(ReadDown(files, |files|), stream, maxTotal, kept)
  {
    kept := KeptSoFar(files, stream, SizesFor(maxTotal));
    WithinBudget(maxTotal);
  }

  /** The promise in numbers: the first half of the budget is kept, the whole stream as long as it is
      shorter than the budget by a little more than a megabyte, and afterwards a suffix of at least a
      quarter of the budget, or of half of it less two megabytes when that is divided into three files
      or more. */
  ghost predicate KeepsInNumbers(seen: seq<byte>, stream: seq<byte>, maxTotal: nat, kept: nat) {
    && kept <= |stream| && |seen| <= maxTotal
    && (|stream| >= maxTotal / 2 ==> |seen| >= maxTotal / 2 && seen[..maxTotal / 2] == stream[..maxTotal / 2])
    && (|stream| < maxTotal - 1048576 - 3 ==> seen == stream)
    && (seen != stream ==>
          && maxTotal / 2 <= |stream| && seen == stream[..maxTotal / 2] + stream[|stream| - kept..]
          && (maxTotal / 2 / 1048576 <= 2 ==> maxTotal / 4 <= kept < 2 * (maxTotal / 4))
          && (maxTotal / 2 / 1048576 > 2 ==> maxTotal / 2 - 2097152 <= kept < maxTotal / 2))
  }

  lemma SizesInNumbers(maxTotal: nat)
    requires maxTotal >= 4
    ensures var c := SizesFor(maxTotal);
            && c.first == maxTotal / 2
            && maxTotal - 1048576 - 3 <= c.first + Times(c.rotating, c.later)
            && (maxTotal / 2 / 1048576 <= 2 ==>
                  Times(c.rotating - 1, c.later) == maxTotal / 4 && Times(c.rotating, c.later) == 2 * (maxTotal / 4))
            && (maxTotal / 2 / 1048576 > 2 ==>
                  && maxTotal / 2 - 2097152 <= Times(c.rotating - 1, c.later)
                  && Times(c.rotating, c.later) <= maxTotal / 2)
  {
    var c := SizesFor(maxTotal);
    TimesIsProduct(c.rotating, c.later);
    TimesIsProduct(c.rotating - 1, c.later);
  }

  lemma KeptInNumbers(seen: seq<byte>, stream: seq<byte>, maxTotal: nat, kept: nat)
    requires maxTotal >= 4 && KeepsBothEnds(seen, stream, maxTotal, kept)
    ensures KeepsInNumbers(seen, stream, maxTotal, kept)
  {
    SizesInNumbers(maxTotal);
    hide SizesFor, Times;
  }

  /** The same for a log that was opened again after a rotation. */
  ghost predicate EndKeptInNumbers(seen: seq<byte>, stream: seq<byte>, maxTotal: nat) {
    && |seen| <= |stream| && seen == stream[|stream| - |seen|..]
    && (|stream| < maxTotal - maxTotal / 2 - 1048576 - 3 ==> seen == stream)
    && (seen != stream && maxTotal / 2 / 1048576 <= 2 ==> maxTotal / 4 <= |seen| <= 2 * (maxTotal / 4))
    && (seen != stream && maxTotal / 2 / 1048576 > 2 ==> maxTotal / 2 - 2097152 <= |seen| <= maxTotal / 2)
  }

  lemma EndInNumbers(seen: seq<byte>, stream: seq<byte>, maxTotal: nat)
    requires maxTotal >= 4 && KeepsTheEnd(seen, stream, maxTotal)
    ensures EndKeptInNumbers(seen, stream, maxTotal)
  {
    SizesInNumbers(maxTotal);
    hide SizesFor, Times;
  }

  /** The promise that is left when a log is opened again after a rotation: a suffix of what has been
      written since, and the whole of that exactly as long as it fits. */
  ghost predicate KeepsTheEnd(seen: seq<byte>, stream: seq<byte>, maxTotal: nat)
    requires maxTotal >= 4
  {
    var c := SizesFor(maxTotal);
    && |seen| <= Times(c.rotating, c.later) <= maxTotal
    && |seen| <= |stream| && seen == stream[|stream| - |seen|..]
    && (|stream| < Times(c.rotating, c.later) <==> seen == stream)
    && (|stream| >= Times(c.rotating, c.later) ==> Times(c.rotating - 1, c.later) <= |seen|)
  }

  lemma KeptReopened(files: Files, stream: seq<byte>, maxTotal: nat)
    requires maxTotal >= 4 && Layout(files + [[]], stream, SizesFor(maxTotal).Reopened())
    ensures KeepsTheEnd(ReadDown(files, |files|), stream, maxTotal)
  {
    hide Layout, SizesFor, ReadDown, Times;
    var kept := KeptSoFar(files + [[]], stream, SizesFor(maxTotal).Reopened());
    WithinBudget(maxTotal);
    ReadDownLast(files + [[]]);
    ReadDownAppend(files, [], |files|);
    assert stream[..0] + stream[|stream| - kept..] == stream[|stream| - kept..];
    assert [] + ReadDown(files, |files|) == ReadDown(files, |files|);
    assert stream[0..] == stream;
  }

  /** Both ends are then kept exactly as long as nothing is lost at all. */
  lemma BothEndsReopened(seen: seq<byte>, stream: seq<byte>, maxTotal: nat)
    requires maxTotal >= 4 && KeepsTheEnd(seen, stream, maxTotal)
    ensures var c := SizesFor(maxTotal);
            && (|stream| < Times(c.rotating, c.later) ==> KeepsBothEnds(seen, stream, maxTotal, 0))
            && (|stream| >= Times(c.rotating, c.later) ==>
                  forall kept: nat :: !KeepsBothEnds(seen, stream, maxTotal, kept))
  {
    var c := SizesFor(maxTotal);
    FirstIsLarger(maxTotal);
    hide SizesFor, Times;
  }

  lemma FirstIsLarger(maxTotal: nat)
    requires maxTotal >= 4
    ensures var c := SizesFor(maxTotal); Times(c.rotating, c.later) <= c.first + Times(c.rotating - 1, c.later)
  {
  }

  lemma {:induction false} ReadDownAppend(files: Files, last: seq<byte>, n: nat)
    requires n <= |files|
    ensures ReadDown(files + [last], n) == ReadDown(files, n)
  {
    if n > 0 {
      ReadDownAppend(files, last, n - 1);
    }
  }
}
