/** Finding the NAL units in an encoded frame (Annex B of ITU-T H.264): the search that skips ahead,
    the table of fragments, and what it recovers of the units that were joined. */
module NalUnits {
  import opened ByteOrder
  import opened Sequences

  const SC_LENGTH: nat := 4
  const MAX_NALUS: nat := 32
  const START_CODE: seq<byte> := [0, 0, 0, 1]

  // ---------------------------------------------------------------- start codes

  predicate CodeAt(data: seq<byte>, p: nat) {
    p + SC_LENGTH <= |data| && data[p] == 0 && data[p + 1] == 0 && data[p + 2] == 0 && data[p + 3] == 1
  }

  /** A start code with something after it. */
  predicate StartAt(data: seq<byte>, p: nat) { p + SC_LENGTH < |data| && CodeAt(data, p) }

  /** The first start code from a position on, or the length of the data. */
  function NextStart(data: seq<byte>, from: nat): (p: nat)
    ensures p == |data| || (from <= p && StartAt(data, p))
    ensures forall q | from <= q < p :: !StartAt(data, q)
    decreases |data| - from
  {
    if from + SC_LENGTH >= |data| then |data|
    else if CodeAt(data, from) then from
    else NextStart(data, from + 1)
  }

  /** The positions of the first n start codes. */
  function Starts(data: seq<byte>, from: nat, n: nat): seq<nat>
    decreases n
  {
    var p := NextStart(data, from);
    if n == 0 || p == |data| then [] else [p] + Starts(data, p + SC_LENGTH, n - 1)
  }

  /** Two start codes never overlap. */
  lemma NoOverlap(data: seq<byte>, p: nat, q: nat)
    requires CodeAt(data, p) && CodeAt(data, q) && p < q
    ensures p + SC_LENGTH <= q
  {
  }

  ghost predicate InOrder(data: seq<byte>, starts: seq<nat>) {
    && (forall i | 0 <= i < |starts| :: StartAt(data, starts[i]))
    && (forall i, j | 0 <= i < j < |starts| :: starts[i] + SC_LENGTH <= starts[j])
  }

  /** No start code from a position on is left out, unless there are n before it. */
  ghost predicate Complete(data: seq<byte>, from: nat, n: nat, starts: seq<nat>) {
    forall q | from <= q && StartAt(data, q) && q !in starts :: |starts| == n && (n > 0 ==> starts[n - 1] < q)
  }

  /** The list is in order, and complete: a start code is missing only if the list is full and it
      comes after all of them. */
  lemma {:induction false} StartsComplete(data: seq<byte>, from: nat, n: nat)
    ensures var starts := Starts(data, from, n);
            && |starts| <= n && InOrder(data, starts) && Complete(data, from, n, starts)
            && forall i | 0 <= i < |starts| :: from <= starts[i]
    decreases n
  {
    hide CodeAt, InOrder, Complete;
    var p := NextStart(data, from);
    if n == 0 || p == |data| {
      NoStarts(data, from, n);
    } else {
      StartsComplete(data, p + SC_LENGTH, n - 1);
      MoreStarts(data, from, p, n, Starts(data, p + SC_LENGTH, n - 1));
    }
  }

  lemma NoStarts(data: seq<byte>, from: nat, n: nat)
    requires n == 0 || NextStart(data, from) == |data|
    ensures InOrder(data, []) && Complete(data, from, n, [])
  {
  }

  lemma MoreStarts(data: seq<byte>, from: nat, p: nat, n: nat, rest: seq<nat>)
    requires n > 0 && from <= p && StartAt(data, p) && forall q | from <= q < p :: !StartAt(data, q)
    requires InOrder(data, rest) && Complete(data, p + SC_LENGTH, n - 1, rest)
    requires forall i | 0 <= i < |rest| :: p + SC_LENGTH <= rest[i]
    ensures InOrder(data, [p] + rest) && Complete(data, from, n, [p] + rest)
  {
    var starts := [p] + rest;
    assert starts[0] == p && forall i | 0 < i < |starts| :: starts[i] == rest[i - 1];
    forall q | from <= q && StartAt(data, q) && q !in starts ensures |starts| == n && starts[n - 1] < q {
      assert q != p && q !in rest;
      NoOverlap(data, p, q);
    }
  }

  // ---------------------------------------------------------------- fragments

  datatype Fragment = Fragment(offset: nat, length: int) {
    function End(): int { offset + length }

    predicate Within(size: nat) { length >= 0 && End() <= size }
  }

  /** What lies between a start code and the next one, or the end. */
  function Between(start: nat, next: nat): Fragment {
    Fragment(start + SC_LENGTH, next - (start + SC_LENGTH))
  }

  function Fragments(starts: seq<nat>, size: nat): (table: seq<Fragment>)
    ensures |table| == |starts|
  {
    if starts == [] then []
    else [Between(starts[0], EndOfFirst(starts, size))] + Fragments(starts[1..], size)
  }

  function EndOfFirst(starts: seq<nat>, size: nat): nat { if |starts| > 1 then starts[1] else size }

  function Table(data: seq<byte>): seq<Fragment> { Fragments(Starts(data, 0, MAX_NALUS), |data|) }

  function Slice(data: seq<byte>, f: Fragment): seq<byte>
    requires f.Within(|data|)
  {
    data[f.offset..f.End()]
  }

  ghost predicate AllWithin(table: seq<Fragment>, size: nat) {
    forall i | 0 <= i < |table| :: table[i].Within(size)
  }

  /** The units that a table cuts out of the data. */
  function Units(data: seq<byte>, table: seq<Fragment>): (units: seq<seq<byte>>)
    requires AllWithin(table, |data|)
    ensures |units| == |table|
  {
    if table == [] then [] else [Slice(data, table[0])] + Units(data, table[1..])
  }

  /** Fragments with a start code before each one: there is no gap, no overlap and nothing left. */
  ghost predicate Contiguous(table: seq<Fragment>, size: nat) {
    && (forall i | 0 <= i < |table| - 1 :: table[i].End() + SC_LENGTH == table[i + 1].offset)
    && (table != [] ==> table[|table| - 1].End() == size)
  }

  lemma TailInOrder(data: seq<byte>, starts: seq<nat>)
    requires InOrder(data, starts) && starts != []
    ensures InOrder(data, starts[1..]) && starts[0] + SC_LENGTH < |data|
    ensures |starts| > 1 ==> starts[0] + SC_LENGTH <= starts[1] <= |data|
  {
    assert StartAt(data, starts[0]);
    assert |starts| > 1 ==> StartAt(data, starts[1]);
  }

  lemma {:induction false} FragmentsFit(data: seq<byte>, starts: seq<nat>)
    requires InOrder(data, starts)
    ensures AllWithin(Fragments(starts, |data|), |data|) && Contiguous(Fragments(starts, |data|), |data|)
  {
    hide InOrder;
    if starts != [] {
      TailInOrder(data, starts);
      FragmentsFit(data, starts[1..]);
      var table, rest := Fragments(starts, |data|), Fragments(starts[1..], |data|);
      assert forall i | 0 < i < |table| :: table[i] == rest[i - 1];
    }
  }

  lemma {:induction false} JoinUnits(data: seq<byte>, starts: seq<nat>)
    requires InOrder(data, starts) && AllWithin(Fragments(starts, |data|), |data|)
    ensures Join(Units(data, Fragments(starts, |data|))) == if starts == [] then [] else data[starts[0]..]
  {
    hide InOrder, StartAt, Join, Units, Fragments, AllWithin;
    if starts == [] {
      NoUnits(data);
    } else {
      TailInOrder(data, starts);
      FragmentsFit(data, starts[1..]);
      JoinUnits(data, starts[1..]);
      var next, rest := EndOfFirst(starts, |data|), Fragments(starts[1..], |data|);
      FragmentsCons(starts, |data|);
      UnitsCons(data, Between(starts[0], next), rest);
      JoinCons(data[starts[0] + SC_LENGTH..next], Units(data, rest));
      TileAt(data, starts[0], next) by { StartOf(data, starts); }
    }
  }

  lemma NoUnits(data: seq<byte>)
    ensures Join(Units(data, Fragments([], |data|))) == []
  {
  }

  lemma FragmentsCons(starts: seq<nat>, size: nat)
    requires starts != []
    ensures Fragments(starts, size) == [Between(starts[0], EndOfFirst(starts, size))] + Fragments(starts[1..], size)
  {
  }

  lemma UnitsCons(data: seq<byte>, f: Fragment, rest: seq<Fragment>)
    requires f.Within(|data|) && AllWithin(rest, |data|)
    ensures AllWithin([f] + rest, |data|)
    ensures Units(data, [f] + rest) == [Slice(data, f)] + Units(data, rest)
  {
    assert ([f] + rest)[1..] == rest;
  }

  lemma StartOf(data: seq<byte>, starts: seq<nat>)
    requires InOrder(data, starts) && starts != []
    ensures StartAt(data, starts[0])
  {
  }

  lemma JoinCons(unit: seq<byte>, units: seq<seq<byte>>)
    ensures Join([unit] + units) == START_CODE + unit + Join(units)
  {
    assert ([unit] + units)[1..] == units;
  }

  lemma TileAt(data: seq<byte>, s: nat, next: nat)
    requires StartAt(data, s) && s + SC_LENGTH <= next <= |data|
    ensures START_CODE + data[s + SC_LENGTH..next] + data[next..] == data[s..]
  {
    assert data[s..s + SC_LENGTH] == START_CODE;
  }

  /** The units found in a frame. */
  ghost function Split(data: seq<byte>): seq<seq<byte>> {
    TableIsSound(data);
    Units(data, Table(data))
  }

  /** The fragments of a frame follow each other up to its end, separated by the start codes. */
  lemma TableIsSound(data: seq<byte>)
    ensures |Table(data)| <= MAX_NALUS
    ensures AllWithin(Table(data), |data|) && Contiguous(Table(data), |data|)
  {
    StartsComplete(data, 0, MAX_NALUS);
    FragmentsFit(data, Starts(data, 0, MAX_NALUS));
  }

  /** Joining the units found gives back the frame from its first start code on. */
  lemma JoinSplit(data: seq<byte>)
    ensures var first := NextStart(data, 0); Join(Split(data)) == data[first..]
  {
    StartsComplete(data, 0, MAX_NALUS);
    TableIsSound(data);
    JoinUnits(data, Starts(data, 0, MAX_NALUS));
  }

  // ---------------------------------------------------------------- joining and splitting

  function Join(units: seq<seq<byte>>): seq<byte> {
    if units == [] then [] else START_CODE + units[0] + Join(units[1..])
  }

  ghost predicate Free(unit: seq<byte>) { forall p: nat :: !CodeAt(unit, p) }

  /** Where the units start that lie after a position. */
  function Offsets(units: seq<seq<byte>>, at: nat): (s: seq<nat>)
    ensures |s| == |units|
  {
    if units == [] then [] else [at] + Offsets(units[1..], at + SC_LENGTH + |units[0]|)
  }

  lemma {:induction false} SkipTo(data: seq<byte>, from: nat, until: nat)
    requires from <= until
    requires forall p | from <= p < until :: !StartAt(data, p)
    ensures NextStart(data, from) == NextStart(data, until)
    decreases until - from
  {
    if from < until {
      SkipTo(data, from + 1, until);
    }
  }

  /** No start code begins inside a unit that is followed by another one or by the end. */
  lemma NoneInside(data: seq<byte>, before: seq<byte>, unit: seq<byte>, after: seq<byte>, p: nat)
    requires Free(unit) && data == before + (START_CODE + unit + after)
    requires after == [] || (|after| >= SC_LENGTH && after[..SC_LENGTH] == START_CODE)
    requires |before| + SC_LENGTH <= p < |before| + SC_LENGTH + |unit|
    ensures !StartAt(data, p)
  {
    var q, start := p - |before| - SC_LENGTH, |before| + SC_LENGTH;
    assert forall i | 0 <= i < |unit| :: data[start + i] == unit[i];
    assert forall i | 0 <= i < |after| :: data[start + |unit| + i] == after[i];
    assert after == [] || forall i | 0 <= i < SC_LENGTH :: after[i] == START_CODE[i];
    assert !CodeAt(unit, q);
  }

  /** The units that the search can find: not an empty one at the end. */
  function Found(units: seq<seq<byte>>): seq<seq<byte>> {
    if units != [] && units[|units| - 1] == [] then units[..|units| - 1] else units
  }

  lemma JoinStarts(units: seq<seq<byte>>)
    requires units != []
    ensures |Join(units)| >= SC_LENGTH && Join(units)[..SC_LENGTH] == START_CODE
    ensures Found(units) != [] ==> |Join(units)| > SC_LENGTH
  {
    Assoc(START_CODE, units[0], Join(units[1..]));
  }

  lemma FirstOfJoin(data: seq<byte>, before: seq<byte>, units: seq<seq<byte>>)
    requires units != [] && Found(units) != [] && Free(units[0])
    requires data == before + Join(units)
    ensures StartAt(data, |before|)
    ensures NextStart(data, |before| + SC_LENGTH)
         == NextStart(data, |before| + SC_LENGTH + |units[0]|)
  {
    var unit, after := units[0], Join(units[1..]);
    JoinStarts(units);
    assert forall i | 0 <= i < SC_LENGTH :: data[|before| + i] == START_CODE[i];
    if |units| > 1 {
      JoinStarts(units[1..]);
    }
    forall p | |before| + SC_LENGTH <= p < |before| + SC_LENGTH + |unit| ensures !StartAt(data, p) {
      NoneInside(data, before, unit, after, p);
    }
    SkipTo(data, |before| + SC_LENGTH, |before| + SC_LENGTH + |unit|);
  }

  lemma StartsStep(data: seq<byte>, at: nat, next: nat, n: nat)
    requires StartAt(data, at) && n > 0 && NextStart(data, at + SC_LENGTH) == NextStart(data, next)
    ensures Starts(data, at, n) == [at] + Starts(data, next, n - 1)
  {
  }

  lemma FoundStep(units: seq<seq<byte>>)
    requires |units| > 1
    ensures Found(units) == [units[0]] + Found(units[1..])
  {
    var rest := units[1..];
    assert units == [units[0]] + rest && units[|units| - 1] == rest[|rest| - 1];
    assert units[..|units| - 1] == [units[0]] + rest[..|rest| - 1];
  }

  lemma NothingAtEnd(data: seq<byte>, at: nat, n: nat)
    requires at + SC_LENGTH >= |data|
    ensures Starts(data, at, n) == []
  {
  }

  lemma {:induction false} StartsOfJoin(data: seq<byte>, before: seq<byte>, units: seq<seq<byte>>, n: nat)
    requires units != [] && (forall i | 0 <= i < |units| :: Free(units[i])) && |Found(units)| <= n
    requires data == before + Join(units)
    ensures Starts(data, |before|, n) == Offsets(Found(units), |before|)
    decreases |units|
  {
    hide Starts, Found, Free, Offsets, StartAt, NextStart;
    var next := before + (START_CODE + units[0]);
    Assoc(before, START_CODE + units[0], Join(units[1..]));
    if Found(units) == [] {
      LastFound(units);
      assert Join(units[1..]) == [];
      NothingAtEnd(data, |before|, n);
      OffsetsCons([], [], |before|);
    } else {
      FirstOfJoin(data, before, units);
      StartsStep(data, |before|, |next|, n);
      if |units| > 1 {
        FoundStep(units);
        OffsetsCons(units[0], Found(units[1..]), |before|);
        StartsOfJoin(data, next, units[1..], n - 1);
      } else {
        LastFound(units);
        assert Join(units[1..]) == [];
        NothingAtEnd(data, |next|, n - 1);
        OffsetsCons(units[0], [], |before|);
        assert [units[0]] + [] == units;
      }
    }
  }

  lemma OffsetsCons(unit: seq<byte>, rest: seq<seq<byte>>, at: nat)
    ensures Offsets([unit] + rest, at) == [at] + Offsets(rest, at + SC_LENGTH + |unit|)
    ensures Offsets([], at) == []
  {
    assert ([unit] + rest)[1..] == rest;
  }

  lemma LastFound(units: seq<seq<byte>>)
    requires |units| == 1 || (units != [] && Found(units) == [])
    ensures |units| == 1 && Found(units) == if units[0] == [] then [] else units
  {
  }

  lemma {:induction false} UnitsOfJoin(data: seq<byte>, before: seq<byte>, units: seq<seq<byte>>)
    requires data == before + Join(units)
    ensures var table := Fragments(Offsets(units, |before|), |data|);
            AllWithin(table, |data|) && Units(data, table) == units
    decreases |units|
  {
    var offsets := Offsets(units, |before|);
    var table := Fragments(offsets, |data|);
    if units != [] {
      var next := before + (START_CODE + units[0]);
      Assoc(before, START_CODE + units[0], Join(units[1..]));
      UnitsOfJoin(data, next, units[1..]);
      var rest := Fragments(offsets[1..], |data|);
      assert offsets[1..] == Offsets(units[1..], |next|);
      if |units| > 1 {
        assert offsets[1] == |next|;
      } else {
        assert Join(units[1..]) == [];
      }
      assert table[0] == Between(|before|, |next|);
      assert Slice(data, table[0]) == units[0];
      assert table[1..] == rest && forall i | 0 < i < |table| :: table[i] == rest[i - 1];
    }
  }

  /** Units without start codes inside are recovered exactly when there are at most 32 of them and
      the last one is not empty. */
  lemma SplitJoin(units: seq<seq<byte>>)
    requires units != [] && forall i | 0 <= i < |units| :: Free(units[i])
    ensures Split(Join(units)) == units <==> |units| <= 32 && units[|units| - 1] != []
  {
    hide Join, Starts, Free, Fragments, Units, StartAt;
    var data := Join(units);
    assert data == [] + data;
    TableIsSound(data);
    if |units| <= MAX_NALUS {
      StartsOfJoin(data, [], units, MAX_NALUS);
      FragmentCount(Found(units), data);
      UnitsOfJoin(data, [], units);
    }
  }

  lemma FragmentCount(units: seq<seq<byte>>, data: seq<byte>)
    requires AllWithin(Fragments(Offsets(units, 0), |data|), |data|)
    ensures |Units(data, Fragments(Offsets(units, 0), |data|))| == |units|
  {
  }

  // ---------------------------------------------------------------- the search

  /** Start codes are the bytes 0, 0, 0 and 1, with something after them. */
  lemma StartsInBytes(data: seq<byte>, q: nat)
    ensures StartAt(data, q) <==> q + 4 < |data| && data[q..q + 4] == [0, 0, 0, 1]
    ensures START_CODE == [0, 0, 0, 1]
  {
    if q + 4 < |data| {
      assert data[q..q + 4] == [data[q], data[q + 1], data[q + 2], data[q + 3]];
    }
  }

  /** Looks for a start code in a part of the payload, skipping bytes that cannot begin one. */
  method NextNaluPosition(buffer: seq<byte>) returns (position: int)
    ensures position == if NextStart(buffer, 0) == |buffer| then -1 else NextStart(buffer, 0)
    ensures position < 0 || position + SC_LENGTH < |buffer|
    ensures forall q: nat | StartAt(buffer, q) :: 0 <= position <= q
  {
    if |buffer| < SC_LENGTH {
      return -1;
    }
    var head, end := 0, |buffer| - SC_LENGTH;
    while head < end
      invariant forall p | 0 <= p < head :: !StartAt(buffer, p)
      decreases end - head
    {
      if buffer[head] != 0 {
        head := head + 1;
      } else if buffer[head + 1] != 0 {
        head := head + 2;
      } else if buffer[head + 2] != 0 {
        head := head + 3;
      } else if buffer[head + 3] != 1 {
        head := head + 1;
      } else {
        SkipTo(buffer, 0, head);
        return head;
      }
    }
    SkipTo(buffer, 0, head);
    return -1;
  }

  /** The positions of the first start codes, in an array with one place more for the end. */
  method FindStarts(payload: seq<byte>, positions: array<nat>) returns (length: nat)
    requires positions.Length == MAX_NALUS + 1
    modifies positions
    ensures length <= MAX_NALUS && positions[..length] == Starts(payload, 0, MAX_NALUS)
  {
    hide CodeAt, NextStart, Starts;
    length := 0;
    var position: nat, more := 0, true;
    while length < MAX_NALUS && more
      invariant length <= MAX_NALUS && position <= |payload|
      invariant more ==> positions[..length] + Starts(payload, position, MAX_NALUS - length)
                         == Starts(payload, 0, MAX_NALUS)
      invariant !more ==> positions[..length] == Starts(payload, 0, MAX_NALUS)
      decreases more, MAX_NALUS - length
    {
      var found := NextNaluPosition(payload[position..]);
      StartAfter(payload, position, 0);
      if found < 0 {
        NoMoreStarts(payload, position, MAX_NALUS - length, positions[..length]);
        more := false;
      } else {
        ghost var before := positions[..length];
        position := position + found;
        positions[length] := position;
        NextOfStarts(payload, position - found, position, MAX_NALUS - length, before);
        assert positions[..length + 1] == before + [position];
        length := length + 1;
        position := position + SC_LENGTH;
      }
    }
    NoMoreStarts(payload, position, 0, positions[..length]);
  }

  lemma NoMoreStarts(data: seq<byte>, from: nat, n: nat, before: seq<nat>)
    requires n == 0 || NextStart(data, from) == |data|
    ensures before + Starts(data, from, n) == before
  {
  }

  lemma NextOfStarts(data: seq<byte>, from: nat, p: nat, n: nat, before: seq<nat>)
    requires NextStart(data, from) == p != |data| && n > 0
    ensures before + Starts(data, from, n) == before + [p] + Starts(data, p + SC_LENGTH, n - 1)
  {
    Assoc(before, [p], Starts(data, p + SC_LENGTH, n - 1));
  }

  /** The table of fragments of one frame; no table when there is no start code. */
  method FragmentTable(payload: seq<byte>) returns (ok: bool, table: seq<Fragment>)
    ensures table == Table(payload)
    ensures ok <==> table != []
    ensures |table| <= 32
  {
    hide Starts;
    TableIsSound(payload);
    var positions := new nat[MAX_NALUS + 1](_ => 0);
    var length := FindStarts(payload, positions);
    ghost var starts := positions[..length];
    table := [];
    if length == 0 {
      return false, [];
    }
    positions[length] := |payload|;
    for i := 0 to length
      invariant forall k | 0 <= k < length :: positions[k] == starts[k]
      invariant positions[length] == |payload|
      invariant table + Fragments(starts[i..], |payload|) == Fragments(starts, |payload|)
    {
      var offset := positions[i] + SC_LENGTH;
      var fragment := Fragment(offset, positions[i + 1] - offset);
      assert starts[i..][0] == starts[i] && starts[i..][1..] == starts[i + 1..];
      assert fragment == Between(starts[i], if i + 1 < length then starts[i + 1] else |payload|);
      Assoc(table, [fragment], Fragments(starts[i + 1..], |payload|));
      table := table + [fragment];
    }
    ok := true;
  }

  lemma {:induction false} StartAfter(data: seq<byte>, from: nat, k: nat)
    requires from + k <= |data|
    ensures NextStart(data[from..], k) + from == NextStart(data, from + k)
    decreases |data| - from - k
  {
    var rest := data[from..];
    assert CodeAt(rest, k) == CodeAt(data, from + k);
    if from + k + SC_LENGTH < |data| && !CodeAt(rest, k) {
      StartAfter(data, from, k + 1);
    }
  }
}
