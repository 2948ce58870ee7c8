/** Base64 (section 4 of RFC 4648): what the encoder produces, what the decoder accepts under each
    combination of flags, and how the two fit together. */
module Base64 {
  import opened ByteOrder
  import opened Sequences

  type sextet = v: int | 0 <= v < 64

  // ---------------------------------------------------------------- the alphabet

  const PAD: byte := 61
  // Marks in the decode table.
  const PD: int := 0xFD
  const SP: int := 0xFE
  const IL: int := 0xFF

  /** Base64Table: A-Z, a-z, 0-9, + and /. */
  function Symbol(v: sextet): byte {
    if v < 26 then 65 + v
    else if v < 52 then 97 + (v - 26)
    else if v < 62 then 48 + (v - 52)
    else if v == 62 then 43 else 47
  }

  /** DecodeTable. */
  function Code(c: byte): int {
    if 65 <= c <= 90 then c - 65
    else if 97 <= c <= 122 then c - 97 + 26
    else if 48 <= c <= 57 then c - 48 + 52
    else if c == 43 then 62
    else if c == 47 then 63
    else if c == 61 then PD
    else if c == 32 || 9 <= c <= 13 then SP
    else IL
  }

  predicate IsSymbol(c: byte) { Code(c) < 64 }

  /** The two tables are inverse to each other. */
  lemma TablesAgree(v: sextet, c: byte)
    ensures Code(Symbol(v)) == v
    ensures IsSymbol(c) ==> Code(c) >= 0 && Symbol(Code(c)) == c
  {
  }

  const UPPER: string := "ABCDEFGHIJKLMNOPQRSTUVWXYZ"
  const LOWER: string := "abcdefghijklmnopqrstuvwxyz"
  const ALPHABET: string := UPPER + LOWER + "0123456789" + "+/"

  /** The alphabet of the standard (table 1 of RFC 4648). */
  lemma SymbolsAreAlphabet(v: sextet, c: byte)
    ensures |ALPHABET| == 64 && Symbol(v) == ALPHABET[v] as int
    ensures IsSymbol(c) <==> c as char in ALPHABET
  {
    if IsSymbol(c) {
      TablesAgree(0, c);
      SymbolIs(Code(c));
      assert c as char == ALPHABET[Code(c)];
    }
    SymbolIs(v);
    forall k: int | 0 <= k < 64 && ALPHABET[k] == c as char ensures IsSymbol(c) {
      SymbolIs(k);
      TablesAgree(k, 0);
    }
  }

  lemma SymbolIs(v: sextet)
    ensures |ALPHABET| == 64 && Symbol(v) == ALPHABET[v] as int
  {
    Letters(if v < 26 then v else if v < 52 then v - 26 else 0);
  }

  lemma Letters(k: nat)
    ensures |UPPER| == |LOWER| == 26
    ensures k < 26 ==> UPPER[k] as int == 65 + k && LOWER[k] as int == 97 + k
  {
  }

  function Symbols(values: seq<sextet>): (text: seq<byte>)
    ensures |text| == |values|
  {
    seq(|values|, i requires 0 <= i < |values| => Symbol(values[i]))
  }

  function Pads(n: nat): seq<byte> { seq(n, _ => PAD) }

  // ---------------------------------------------------------------- encoding

  /** The six-bit groups of up to three bytes, the last one filled up with zero bits. */
  function Groups(bytes: seq<byte>): seq<sextet>
    requires 1 <= |bytes| <= 3
  {
    if |bytes| == 1 then [bytes[0] / 4, bytes[0] % 4 * 16]
    else if |bytes| == 2 then [bytes[0] / 4, bytes[0] % 4 * 16 + bytes[1] / 16, bytes[1] % 16 * 4]
    else [bytes[0] / 4, bytes[0] % 4 * 16 + bytes[1] / 16, bytes[1] % 16 * 4 + bytes[2] / 64, bytes[2] % 64]
  }

  /** The text of up to three bytes: always four characters. */
  function Block(bytes: seq<byte>): (text: seq<byte>)
    requires 1 <= |bytes| <= 3
    ensures |text| == 4
  {
    Symbols(Groups(bytes)) + Pads(3 - |bytes|)
  }

  function Encode(data: seq<byte>): (text: seq<byte>)
    ensures |text| == (|data| + 2) / 3 * 4
  {
    if data == [] then [] else if |data| <= 3 then Block(data) else Block(data[..3]) + Encode(data[3..])
  }

  // ---------------------------------------------------------------- decoding

  datatype Parse = Strict | White | Anything
  datatype Padding = Required | Optional | Forbidden
  datatype Term = AtEnd | AtChar | Anywhere

  datatype Flags = Flags(parse: Parse, pad: Padding, term: Term)

  const STRICT: Flags := Flags(Strict, Required, AtEnd)

  datatype Act = Stop | Skip | Pad | Take

  /** What happens to a character with this code when so many values and pads have been seen. */
  function React(f: Flags, code: int, values: nat, pads: nat): Act {
    var lax := if f.parse == Anything then Skip else Stop;
    if code == IL || (f.pad == Forbidden && code == PD) then lax
    else if code == SP then if f.parse == Strict then Stop else Skip
    else if code == PD then if values < 2 || values + pads >= 4 then lax else Pad
    else if pads > 0 && f.parse != Anything then Stop
    else Take
  }

  /** The state of the search for four values: those found, the pads after them, and the text from
      the first of these pads and from here. */
  datatype Scan = Scan(values: seq<sextet>, pads: nat, padRest: seq<byte>, rest: seq<byte>)

  function Next(f: Flags, s: Scan): (n: Scan)
    requires s.rest != []
    ensures n.rest == s.rest || n.rest == s.rest[1..]
  {
    var code := Code(s.rest[0]);
    match React(f, code, |s.values|, s.pads)
    case Stop => s
    case Skip => s.(rest := s.rest[1..])
    case Pad => Scan(s.values, s.pads + 1, if s.pads == 0 then s.rest else s.padRest, s.rest[1..])
    case Take => Scan(s.values + [code], 0, s.padRest, s.rest[1..])
  }

  predicate Stops(f: Flags, s: Scan) {
    |s.values| >= 4 || s.rest == [] || React(f, Code(s.rest[0]), |s.values|, s.pads) == Stop
  }

  function Finish(f: Flags, s: Scan): (e: Scan)
    requires |s.values| <= 4
    ensures Stops(f, e) && |s.values| <= |e.values| <= 4 && |e.rest| <= |s.rest|
    ensures |e.values| - |s.values| <= |s.rest| - |e.rest|
    decreases |s.rest|
  {
    if Stops(f, s) then s else Finish(f, Next(f, s))
  }

  /** One quantum: the values, whether it is complete with its pads, and the text after it, which
      starts at the first pad when there are too few of them. */
  datatype Quantum = Quantum(values: seq<sextet>, padded: bool, rest: seq<byte>)

  function NextQuantum(f: Flags, text: seq<byte>): (q: Quantum)
    ensures |q.values| <= 4 && (|q.values| == 4 ==> |q.rest| < |text|)
  {
    var s := Finish(f, Scan([], 0, text, text));
    var padded := |s.values| + s.pads == 4;
    FullHasNoPads(f, Scan([], 0, text, text));
    Quantum(s.values, padded, if padded || s.pads == 0 then s.rest else s.padRest)
  }

  lemma {:induction false} FullHasNoPads(f: Flags, s: Scan)
    requires |s.values| <= 4 && (|s.values| == 4 ==> s.pads == 0)
    ensures |Finish(f, s).values| == 4 ==> Finish(f, s).pads == 0
    decreases |s.rest|
  {
    if !Stops(f, s) {
      FullHasNoPads(f, Next(f, s));
    }
  }

  /** The bytes in so many values, and the bits left over. */
  function Bytes(values: seq<sextet>): seq<byte>
    requires |values| <= 4
  {
    var v: seq<int> := values;
    (if |v| < 2 then [] else [v[0] * 4 + v[1] / 16])
    + (if |v| < 3 then [] else [v[1] % 16 * 16 + v[2] / 4])
    + (if |v| < 4 then [] else [v[2] % 4 * 64 + v[3]])
  }

  function Unused(values: seq<sextet>): int
    requires |values| <= 4
  {
    var v: seq<int> := values;
    if |v| == 1 then v[0] * 4
    else if |v| == 2 then v[1] % 16 * 16
    else if |v| == 3 then v[2] % 4 * 64
    else 0
  }

  datatype Decoded = Decoded(bytes: seq<byte>, success: bool, rest: seq<byte>)

  function Decode(f: Flags, text: seq<byte>): Decoded
    decreases |text|
  {
    if text == [] then Decoded([], true, [])
    else
      var q := NextQuantum(f, text);
      if |q.values| < 4 then
        Decoded(Bytes(q.values),
                && (f.term == Anywhere || Unused(q.values) == 0)
                && (f.pad == Required ==> q.padded)
                && (f.term == AtEnd ==> q.rest == []), q.rest)
      else
        var d := Decode(f, q.rest);
        d.(bytes := Bytes(q.values) + d.bytes)
  }

  // ---------------------------------------------------------------- decoding what was encoded

  /** Taking one symbol, and one pad. */
  lemma TakesSymbol(f: Flags, s: Scan, v: sextet, after: seq<byte>)
    requires |s.values| < 4 && s.pads == 0 && s.rest == [Symbol(v)] + after
    ensures Finish(f, s) == Finish(f, Scan(s.values + [v], 0, s.padRest, after))
  {
    TablesAgree(v, 0);
    assert s.rest[1..] == after;
  }

  lemma TakesPad(f: Flags, s: Scan, after: seq<byte>)
    requires 2 <= |s.values| && |s.values| + s.pads < 4 && f.pad != Forbidden && s.rest == [PAD] + after
    ensures Finish(f, s) == Finish(f, Scan(s.values, s.pads + 1, if s.pads == 0 then s.rest else s.padRest, after))
  {
    assert s.rest[1..] == after;
  }

  lemma {:induction false} TakesSymbols(f: Flags, s: Scan, values: seq<sextet>, after: seq<byte>)
    requires |s.values| + |values| <= 4 && s.pads == 0 && s.rest == Symbols(values) + after
    ensures Finish(f, s) == Finish(f, Scan(s.values + values, 0, s.padRest, after))
    decreases |values|
  {
    hide Finish, Symbol;
    if values == [] {
      assert s.rest == after && s.values + values == s.values;
    } else {
      var v, more := values[0], Symbols(values[1..]) + after;
      assert s.rest == [Symbol(v)] + more;
      TakesSymbol(f, s, v, more);
      TakesSymbols(f, Scan(s.values + [v], 0, s.padRest, more), values[1..], after);
      assert s.values + [v] + values[1..] == s.values + values;
    }
  }

  lemma {:induction false} TakesPads(f: Flags, s: Scan, n: nat)
    requires 2 <= |s.values| && |s.values| + s.pads + n == 4 && f.pad != Forbidden && s.rest == Pads(n)
    ensures var e := Finish(f, s); e.values == s.values && e.pads == s.pads + n && e.rest == []
    decreases n
  {
    if n > 0 {
      assert s.rest == [PAD] + Pads(n - 1);
      TakesPad(f, s, Pads(n - 1));
      TakesPads(f, Scan(s.values, s.pads + 1, if s.pads == 0 then s.rest else s.padRest, Pads(n - 1)), n - 1);
    }
  }

  lemma FullQuantum(f: Flags, values: seq<sextet>, after: seq<byte>)
    requires |values| == 4
    ensures NextQuantum(f, Symbols(values) + after) == Quantum(values, true, after)
  {
    var text := Symbols(values) + after;
    TakesSymbols(f, Scan([], 0, text, text), values, after);
    assert [] + values == values;
  }

  lemma LastQuantum(f: Flags, values: seq<sextet>, n: nat)
    requires |values| + n == 4 && n <= 2 && f.pad != Forbidden
    ensures NextQuantum(f, Symbols(values) + Pads(n)) == Quantum(values, true, [])
  {
    var text := Symbols(values) + Pads(n);
    TakesSymbols(f, Scan([], 0, text, text), values, Pads(n));
    assert [] + values == values;
    TakesPads(f, Scan(values, 0, text, Pads(n)), n);
  }

  /** The groups are the bits of the bytes, in their order. */
  lemma GroupsAreBits(bytes: seq<byte>)
    requires 1 <= |bytes| <= 3
    ensures var g: seq<int>, b: seq<int> := Groups(bytes), bytes;
            && (|bytes| == 1 ==> g[0] * 64 + g[1] == b[0] * 16)
            && (|bytes| == 2 ==> (g[0] * 64 + g[1]) * 64 + g[2] == (b[0] * 256 + b[1]) * 4)
            && (|bytes| == 3 ==>
                  ((g[0] * 64 + g[1]) * 64 + g[2]) * 64 + g[3] == (b[0] * 256 + b[1]) * 256 + b[2])
  {
  }

  /** Some of the test vectors of section 10 of RFC 4648: f, fo and foobar. */
  lemma Vectors()
    ensures Encode([102]) == [90, 103, 61, 61] && Encode([102, 111]) == [90, 109, 56, 61]
    ensures Encode([102, 111, 111, 98, 97, 114]) == [90, 109, 57, 118, 89, 109, 70, 121]
  {
    var data: seq<byte> := [102, 111, 111, 98, 97, 114];
    assert data[..3] == [102, 111, 111] && data[3..] == [98, 97, 114];
    assert Groups([102]) == [25, 32] && Groups([102, 111]) == [25, 38, 60];
    assert Groups(data[..3]) == [25, 38, 61, 47] && Groups(data[3..]) == [24, 38, 5, 50];
    VectorBlock([102], [25, 32]);
    VectorBlock([102, 111], [25, 38, 60]);
    VectorBlock(data[..3], [25, 38, 61, 47]);
    VectorBlock(data[3..], [24, 38, 5, 50]);
  }

  lemma VectorBlock(bytes: seq<byte>, g: seq<sextet>)
    requires 1 <= |bytes| <= 3 && Groups(bytes) == g && |g| == |bytes| + 1
    ensures Block(bytes) == [Symbol(g[0]), Symbol(g[1]), if |g| > 2 then Symbol(g[2]) else 61,
                             if |g| > 3 then Symbol(g[3]) else 61]
  {
  }

  lemma GroupsAndBytes(bytes: seq<byte>)
    requires 1 <= |bytes| <= 3
    ensures |Groups(bytes)| == |bytes| + 1
    ensures Bytes(Groups(bytes)) == bytes && Unused(Groups(bytes)) == 0
  {
  }

  /** Where padding is forbidden, pads are passed over if all characters are, and otherwise stop
      the search. */
  lemma {:induction false} SkipsPads(f: Flags, s: Scan, n: nat)
    requires |s.values| < 4 && f.pad == Forbidden && s.rest == Pads(n)
    ensures Finish(f, s) == s.(rest := if f.parse == Anything then [] else Pads(n))
    decreases n
  {
    if n > 0 && f.parse == Anything {
      assert s.rest[0] == PAD && s.rest[1..] == Pads(n - 1);
      SkipsPads(f, s.(rest := Pads(n - 1)), n - 1);
    }
  }

  lemma UnpaddedQuantum(f: Flags, values: seq<sextet>, n: nat)
    requires |values| + n == 4 && 1 <= n <= 2 && f.pad == Forbidden
    ensures NextQuantum(f, Symbols(values) + Pads(n))
         == Quantum(values, false, if f.parse == Anything then [] else Pads(n))
  {
    var text := Symbols(values) + Pads(n);
    TakesSymbols(f, Scan([], 0, text, text), values, Pads(n));
    assert [] + values == values;
    SkipsPads(f, Scan(values, 0, text, Pads(n)), n);
  }

  /** The text of a byte string can be used up to its end. */
  predicate ReadsAll(f: Flags, data: seq<byte>) {
    f.pad != Forbidden || f.parse == Anything || |data| % 3 == 0
  }

  lemma EncodeLast(data: seq<byte>)
    requires 1 <= |data| <= 3
    ensures Encode(data) == Block(data) == Symbols(Groups(data)) + Pads(3 - |data|)
  {
  }

  lemma DecodeShort(f: Flags, text: seq<byte>, q: Quantum)
    requires text != [] && q == NextQuantum(f, text) && |q.values| < 4
    ensures Decode(f, text)
         == Decoded(Bytes(q.values),
                    && (f.term == Anywhere || Unused(q.values) == 0)
                    && (f.pad == Required ==> q.padded)
                    && (f.term == AtEnd ==> q.rest == []), q.rest)
  {
  }

  lemma DecodeLast(f: Flags, data: seq<byte>)
    requires 1 <= |data| <= 3
    ensures Decode(f, Encode(data))
         == Decoded(data, ReadsAll(f, data) || f.term != AtEnd, if ReadsAll(f, data) then [] else Pads(3 - |data| % 3))
  {
    hide Decode, Encode, Block, NextQuantum, Groups, Bytes, Unused, Symbols, Pads;
    var text := Encode(data);
    EncodeLast(data);
    if |data| == 3 {
      DecodeBlock(f, data, []);
      DecodeNothing(f);
      assert Block(data) + [] == text && data + [] == data;
    } else {
      GroupsAndBytes(data);
      PadCount(3 - |data|);
      if f.pad != Forbidden {
        LastQuantum(f, Groups(data), 3 - |data|);
      } else {
        UnpaddedQuantum(f, Groups(data), 3 - |data|);
      }
      DecodeShort(f, text, NextQuantum(f, text));
    }
  }

  lemma DecodeNothing(f: Flags)
    ensures Encode([]) == [] && Decode(f, []) == Decoded([], true, []) && ReadsAll(f, [])
  {
  }

  lemma PadCount(n: nat)
    ensures |Pads(n)| == n
  {
  }

  /** Decoding the text of a byte string always gives it back.  The text is used up, with success
      under all flags, exactly if pads are allowed, passed over or not there; otherwise it is used
      up to the first pad. */
  lemma {:induction false} DecodeEncode(f: Flags, data: seq<byte>)
    ensures Decode(f, Encode(data))
         == Decoded(data, ReadsAll(f, data) || f.term != AtEnd, if ReadsAll(f, data) then [] else Pads(3 - |data| % 3))
    decreases |data|
  {
    hide Decode, Encode, ReadsAll, Pads;
    if data == [] {
      DecodeNothing(f);
    } else if |data| <= 3 {
      DecodeLast(f, data);
    } else {
      var head, more := data[..3], data[3..];
      assert head + more == data;
      DecodeEncode(f, more);
      SameRemainder(f, head, more);
      EncodeBlock(head, more);
      DecodeBlock(f, head, Encode(more));
    }
  }

  lemma DecodeBlock(f: Flags, head: seq<byte>, text: seq<byte>)
    requires |head| == 3
    ensures var d := Decode(f, text); Decode(f, Block(head) + text) == d.(bytes := head + d.bytes)
  {
    hide NextQuantum, Groups, Bytes, Unused, Symbols;
    FullBlock(head);
    GroupsAndBytes(head);
    FullQuantum(f, Groups(head), text);
  }

  lemma SameRemainder(f: Flags, head: seq<byte>, more: seq<byte>)
    requires |head| == 3
    ensures |head + more| % 3 == |more| % 3 && ReadsAll(f, head + more) == ReadsAll(f, more)
  {
  }

  lemma FullBlock(bytes: seq<byte>)
    requires |bytes| == 3
    ensures Block(bytes) == Symbols(Groups(bytes))
  {
  }

  /** The text of a byte string without its pads. */
  function Unpadded(data: seq<byte>): seq<byte> {
    if data == [] then []
    else if |data| <= 3 then Symbols(Groups(data))
    else Symbols(Groups(data[..3])) + Unpadded(data[3..])
  }

  lemma LastUnpadded(f: Flags, values: seq<sextet>)
    requires |values| < 4
    ensures NextQuantum(f, Symbols(values)) == Quantum(values, false, [])
  {
    hide Symbols;
    var text := Symbols(values);
    assert text + [] == text && [] + values == values;
    TakesSymbols(f, Scan([], 0, text, text), values, []);
  }

  /** Without its pads it is decoded as well, with success unless pads are required and missing. */
  lemma {:induction false} DecodeUnpadded(f: Flags, data: seq<byte>)
    ensures Decode(f, Unpadded(data)) == Decoded(data, f.pad != Required || |data| % 3 == 0, [])
    decreases |data|
  {
    hide Decode, NextQuantum, Groups, Bytes, Unused, Symbols, Block;
    if data == [] {
      DecodeNothing(f);
    } else if |data| < 3 {
      GroupsAndBytes(data);
      LastUnpadded(f, Groups(data));
      DecodeShort(f, Unpadded(data), NextQuantum(f, Unpadded(data)));
    } else {
      var head, more := data[..3], data[3..];
      assert head + more == data;
      FullBlock(head);
      DecodeUnpadded(f, more);
      DecodeBlock(f, head, Unpadded(more));
      SameRemainder(f, head, more);
      if more == [] {
        assert data == head && Symbols(Groups(head)) + [] == Symbols(Groups(head));
      }
    }
  }

  // ---------------------------------------------------------------- what the flags change

  lemma SameNext(f: Flags, g: Flags, s: Scan)
    requires f.parse == g.parse && (f.pad == Forbidden <==> g.pad == Forbidden)
    ensures Stops(f, s) == Stops(g, s) && (!Stops(f, s) ==> Next(f, s) == Next(g, s))
  {
    hide Code;
  }

  lemma NextShrinks(f: Flags, s: Scan)
    requires !Stops(f, s)
    ensures |Next(f, s).rest| < |s.rest| && |Next(f, s).values| <= 4
  {
  }

  lemma {:induction false} SameScan(f: Flags, g: Flags, s: Scan)
    requires |s.values| <= 4 && f.parse == g.parse && (f.pad == Forbidden <==> g.pad == Forbidden)
    ensures Finish(f, s) == Finish(g, s)
    decreases |s.rest|
  {
    hide Finish, Next, Stops, React, Code;
    FinishStep(f, s);
    FinishStep(g, s);
    SameNext(f, g, s);
    if !Stops(f, s) {
      NextShrinks(f, s);
      SameScan(f, g, Next(f, s));
    }
  }

  lemma SameQuantum(f: Flags, g: Flags, text: seq<byte>)
    requires f.parse == g.parse && (f.pad == Forbidden <==> g.pad == Forbidden)
    ensures NextQuantum(f, text) == NextQuantum(g, text)
  {
    SameScan(f, g, Scan([], 0, text, text));
  }

  /** Whether padding is required and where the text may end decides about success alone.  At the end
      of the buffer means at a character and with nothing left; anywhere means always, unless pads are
      missing; and required pads only add failures. */
  lemma {:induction false} FlagsDecideSuccess(f: Flags, text: seq<byte>)
    ensures var atEnd, atChar := Decode(f.(term := AtEnd), text), Decode(f.(term := AtChar), text);
            var anywhere := Decode(f.(term := Anywhere), text);
            && atEnd.bytes == atChar.bytes == anywhere.bytes && atEnd.rest == atChar.rest == anywhere.rest
            && (atEnd.success <==> atChar.success && atChar.rest == [])
            && (atChar.success ==> anywhere.success) && (f.pad != Required ==> anywhere.success)
    ensures f.pad == Optional ==>
              var d, e := Decode(f, text), Decode(f.(pad := Required), text);
              d.bytes == e.bytes && d.rest == e.rest && (e.success ==> d.success)
    decreases |text|
  {
    hide NextQuantum, Bytes, Unused;
    if text != [] {
      SameQuantum(f, f.(term := AtEnd), text);
      SameQuantum(f, f.(term := AtChar), text);
      SameQuantum(f, f.(term := Anywhere), text);
      if f.pad == Optional {
        SameQuantum(f, f.(pad := Required), text);
      }
      var q := NextQuantum(f, text);
      QuantumShrinks(f, text);
      if |q.values| == 4 {
        FlagsDecideSuccess(f, q.rest);
      }
    }
  }

  // ---------------------------------------------------------------- strict decoding

  lemma StrictStep(s: Scan)
    requires !Stops(STRICT, s)
    ensures var c, next := s.rest[0], Next(STRICT, s);
            && next.rest == s.rest[1..]
            && if c == PAD then next.values == s.values && next.pads == s.pads + 1 && |s.values| >= 2
               else IsSymbol(c) && s.pads == 0 == next.pads && next.values == s.values + [Code(c)]
  {
  }

  lemma JoinSymbol(v: sextet, values: seq<sextet>, pads: seq<byte>, rest: seq<byte>)
    ensures [Symbol(v)] + (Symbols(values) + pads + rest) == Symbols([v] + values) + pads + rest
  {
    assert Symbols([v] + values) == [Symbol(v)] + Symbols(values);
  }

  lemma JoinNothing(values: seq<sextet>, rest: seq<byte>)
    ensures values + [] == values && Symbols([]) + Pads(0) + rest == rest
  {
  }

  lemma JoinPad(n: nat, rest: seq<byte>)
    ensures [PAD] + (Symbols([]) + Pads(n) + rest) == Symbols([]) + Pads(n + 1) + rest
  {
  }

  lemma FinishStep(f: Flags, s: Scan)
    requires |s.values| <= 4
    ensures Stops(f, s) ==> Finish(f, s) == s
    ensures !Stops(f, s) ==> s.rest != [] && |s.values| < 4 && Finish(f, s) == Finish(f, Next(f, s))
  {
  }

  /** A strict scan reads symbols, then pads, and nothing else. */
  lemma {:induction false} StrictScan(s: Scan) returns (values: seq<sextet>, n: nat)
    requires |s.values| <= 4
    ensures var e := Finish(STRICT, s);
            && e.values == s.values + values && e.pads == s.pads + n
            && (s.pads > 0 ==> values == [])
            && (n > 0 ==> |e.values| >= 2)
            && s.rest == Symbols(values) + Pads(n) + e.rest
    decreases |s.rest|
  {
    hide React, Code, Symbols, Pads, Finish, Next, Stops;
    FinishStep(STRICT, s);
    if Stops(STRICT, s) {
      values, n := [], 0;
      JoinNothing(s.values, s.rest);
    } else {
      var next, c := Next(STRICT, s), s.rest[0];
      StrictStep(s);
      values, n := StrictScan(next);
      var e := Finish(STRICT, s);
      assert s.rest == [c] + next.rest;
      if c == PAD {
        JoinPad(n, e.rest);
        n := n + 1;
      } else {
        TablesAgree(0, c);
        JoinSymbol(Code(c), values, Pads(n), e.rest);
        Assoc(s.values, [Code(c)], values);
        values := [Code(c)] + values;
      }
    }
  }

  /** What strict decoding accepts as one quantum. */
  lemma StrictQuantum(text: seq<byte>)
    ensures var q := NextQuantum(STRICT, text);
            && (|q.values| == 4 ==> text == Symbols(q.values) + q.rest)
            && (|q.values| < 4 && q.padded && q.rest == [] ==>
                  2 <= |q.values| && text == Symbols(q.values) + Pads(4 - |q.values|))
  {
    hide Finish, Symbol;
    var s := Scan([], 0, text, text);
    var values, n := StrictScan(s);
    FullHasNoPads(STRICT, s);
    var e := Finish(STRICT, s);
    assert [] + values == values;
    assert Symbols(values) + Pads(0) + e.rest == Symbols(values) + e.rest;
    assert Symbols(values) + Pads(n) + [] == Symbols(values) + Pads(n);
  }

  lemma BytesAndGroups(values: seq<sextet>)
    requires 2 <= |values| <= 4 && (|values| < 4 ==> Unused(values) == 0)
    ensures |Bytes(values)| == |values| - 1 && Groups(Bytes(values)) == values
  {
    var v: seq<int> := values;
    Repack(v[0], v[1]);
    if |v| > 2 {
      Repack(v[1], v[2]);
    }
    if |v| > 3 {
      Repack(v[2], v[3]);
    }
  }

  /** Two neighbouring values share a byte, and come back from it. */
  lemma Repack(a: int, b: int)
    requires 0 <= a < 64 && 0 <= b < 64
    ensures (a * 4 + b / 16) / 4 == a && (a * 4 + b / 16) % 4 * 16 + b % 16 == b
    ensures (a % 16 * 16 + b / 4) / 16 == a % 16 && (a % 16 * 16 + b / 4) % 16 * 4 + b % 4 == b
    ensures (a % 4 * 64 + b) / 64 == a % 4 && (a % 4 * 64 + b) % 64 == b
  {
  }

  /** Whatever strict decoding accepts is exactly the text of the bytes that it yields. */
  lemma {:induction false} EncodeDecode(text: seq<byte>)
    requires Decode(STRICT, text).success
    ensures Encode(Decode(STRICT, text).bytes) == text
    decreases |text|
  {
    hide NextQuantum, Groups, Bytes, Unused, Symbols;
    if text != [] {
      StrictQuantum(text);
      var q := NextQuantum(STRICT, text);
      BytesAndGroups(q.values);
      var block := Bytes(q.values);
      if |q.values| == 4 {
        EncodeDecode(q.rest);
        EncodeBlock(block, Decode(STRICT, q.rest).bytes);
        assert Symbols(q.values) + Pads(0) == Symbols(q.values);
      }
    }
  }

  lemma EncodeBlock(block: seq<byte>, more: seq<byte>)
    requires |block| == 3
    ensures Encode(block + more) == Block(block) + Encode(more)
  {
    if more == [] {
      assert block + more == block;
    } else {
      assert (block + more)[..3] == block && (block + more)[3..] == more;
    }
  }

  // ---------------------------------------------------------------- characters that are passed over

  /** What a decoder passes over wherever it stands: whitespace unless it is strict, and under
      Anything also characters that are not of the alphabet, pads among them where they are
      forbidden. */
  predicate Passed(f: Flags, c: byte) {
    || (f.parse != Strict && Code(c) == SP)
    || (f.parse == Anything && (Code(c) == IL || (f.pad == Forbidden && Code(c) == PD)))
  }

  /** The same in numbers: 9 to 13 are tab, line feed, vertical tab, form feed and carriage return, 32 is
      the blank and 61 the pad. */
  lemma PassedByNumber(f: Flags, c: byte)
    ensures Passed(f, c)
       <==> || (f.parse != Strict && (c in {9, 10, 11, 12, 13, 32}))
            || (f.parse == Anything && c as char !in ALPHABET && (c == 61 ==> f.pad == Forbidden))
  {
    SymbolsAreAlphabet(0, c);
  }

  function Clean(f: Flags, text: seq<byte>): (r: seq<byte>)
    ensures |r| <= |text|
  {
    if text == [] then [] else (if Passed(f, text[0]) then [] else [text[0]]) + Clean(f, text[1..])
  }

  function CleanScan(f: Flags, s: Scan): Scan {
    s.(padRest := Clean(f, s.padRest), rest := Clean(f, s.rest))
  }

  lemma CleanFirst(f: Flags, text: seq<byte>)
    requires text != [] && !Passed(f, text[0])
    ensures Clean(f, text) != [] && Clean(f, text)[0] == text[0] && Clean(f, text)[1..] == Clean(f, text[1..])
  {
  }

  lemma CleanPassed(f: Flags, text: seq<byte>)
    requires text != [] && Passed(f, text[0])
    ensures Clean(f, text) == Clean(f, text[1..])
  {
  }

  lemma CleanNext(f: Flags, s: Scan)
    requires s.rest != [] && !Passed(f, s.rest[0])
    ensures Clean(f, s.rest) != [] && Clean(f, s.rest)[0] == s.rest[0]
    ensures Next(f, CleanScan(f, s)) == CleanScan(f, Next(f, s))
    ensures !Stops(f, s) ==> |Next(f, s).rest| < |s.rest| && |Next(f, s).values| <= 4
  {
    CleanFirst(f, s.rest);
  }

  /** Scanning ignores such characters. */
  lemma {:induction false} ScanClean(f: Flags, s: Scan)
    requires |s.values| <= 4
    ensures Finish(f, CleanScan(f, s)) == CleanScan(f, Finish(f, s))
    decreases |s.rest|
  {
    hide Clean, Next, Passed;
    if |s.values| < 4 && s.rest != [] {
      if Passed(f, s.rest[0]) {
        PassesOver(f, s);
        CleanPassed(f, s.rest);
        ScanClean(f, Next(f, s));
      } else {
        CleanNext(f, s);
        if !Stops(f, s) {
          ScanClean(f, Next(f, s));
        }
      }
    } else {
      CleanNothing(f);
    }
  }

  lemma CleanNothing(f: Flags)
    ensures Clean(f, []) == []
  {
  }

  lemma PassesOver(f: Flags, s: Scan)
    requires |s.values| < 4 && s.rest != [] && Passed(f, s.rest[0])
    ensures Next(f, s) == s.(rest := s.rest[1..]) && !Stops(f, s)
  {
  }

  /** A quantum that is not full ends at the end of the text or at a character not passed over. */
  predicate Solid(f: Flags, text: seq<byte>) { text == [] || !Passed(f, text[0]) }

  lemma {:induction false} StopsSolid(f: Flags, s: Scan)
    requires |s.values| <= 4 && (s.pads > 0 ==> s.padRest != [] && Solid(f, s.padRest))
    ensures var e := Finish(f, s);
            && (e.pads > 0 ==> e.padRest != [] && Solid(f, e.padRest))
            && (|e.values| < 4 ==> Solid(f, e.rest))
    decreases |s.rest|
  {
    if !Stops(f, s) {
      StopsSolid(f, Next(f, s));
    }
  }

  lemma CleanSolid(f: Flags, text: seq<byte>)
    requires Solid(f, text)
    ensures Clean(f, text) == [] <==> text == []
  {
  }

  lemma QuantumClean(f: Flags, text: seq<byte>)
    ensures var q := NextQuantum(f, text);
            && NextQuantum(f, Clean(f, text)) == q.(rest := Clean(f, q.rest))
            && (|q.values| < 4 ==> (Clean(f, q.rest) == [] <==> q.rest == []))
  {
    hide Finish, Clean, Passed;
    var s := Scan([], 0, text, text);
    ScanClean(f, s);
    StopsSolid(f, s);
    if |Finish(f, s).values| < 4 {
      CleanSolid(f, Finish(f, s).rest);
    }
    if Finish(f, s).pads > 0 {
      CleanSolid(f, Finish(f, s).padRest);
    }
  }

  lemma NothingThere(f: Flags)
    ensures NextQuantum(f, []) == Quantum([], false, [])
  {
  }

  /** Where padding is not required, removing what is passed over makes no difference to what is
      decoded and whether that succeeds. */
  lemma {:induction false} DecodeClean(f: Flags, text: seq<byte>)
    requires f.pad != Required
    ensures var d := Decode(f, text); Decode(f, Clean(f, text)) == d.(rest := Clean(f, d.rest))
    decreases |text|
  {
    hide NextQuantum, Bytes, Unused, Passed;
    if text == [] {
    } else {
      QuantumClean(f, text);
      QuantumShrinks(f, text);
      var q := NextQuantum(f, text);
      if Clean(f, text) == [] {
        NothingThere(f);
        assert Bytes([]) == [] && Unused([]) == 0 by { NoBytes(); }
      } else if |q.values| == 4 {
        DecodeClean(f, q.rest);
      }
    }
  }

  lemma NoBytes()
    ensures Bytes([]) == [] && Unused([]) == 0
  {
  }

  // ---------------------------------------------------------------- where padding is required

  function SymbolCount(text: seq<byte>): nat {
    if text == [] then 0 else (if IsSymbol(text[0]) then 1 else 0) + SymbolCount(text[1..])
  }

  predicate AllSymbols(text: seq<byte>) { forall c | c in text :: IsSymbol(c) }

  /** After whole quanta that need no pads something follows that is passed over.  A decoder that
      takes anything passes over pads as well, as long as symbols follow. */
  predicate TrailsOff(f: Flags, text: seq<byte>) {
    && text != [] && Passed(f, text[|text| - 1])
    && WholeQuanta(f, Clean(f, text))
  }

  predicate WholeQuanta(f: Flags, text: seq<byte>) {
    && SymbolCount(text) % 4 == 0
    && (text == [] || IsSymbol(text[|text| - 1]))
    && (f.parse == Anything || AllSymbols(text))
  }

  lemma {:induction false} CountAppend(a: seq<byte>, b: seq<byte>)
    ensures SymbolCount(a + b) == SymbolCount(a) + SymbolCount(b)
  {
    if a == [] {
      assert a + b == b;
    } else {
      assert (a + b)[1..] == a[1..] + b;
      CountAppend(a[1..], b);
    }
  }

  lemma {:induction false} CleanAppend(f: Flags, a: seq<byte>, b: seq<byte>)
    ensures Clean(f, a + b) == Clean(f, a) + Clean(f, b)
  {
    hide Passed;
    if a == [] {
      assert a + b == b;
    } else {
      assert (a + b)[1..] == a[1..] + b;
      CleanAppend(f, a[1..], b);
    }
  }

  /** What has been scanned holds as many symbols as values were found, and ends with one of them when
      the quantum is full.  Without pads it holds nothing else that is not passed over. */
  lemma {:induction false} ScanTakes(f: Flags, s: Scan)
    requires |s.values| <= 4 && f.pad == Required
    ensures var e := Finish(f, s);
            && e.rest == s.rest[|s.rest| - |e.rest|..]
            && var taken := s.rest[..|s.rest| - |e.rest|];
            && SymbolCount(taken) == |e.values| - |s.values|
            && (|s.values| < 4 && |e.values| == 4 ==> taken != [] && IsSymbol(taken[|taken| - 1]))
            && (f.parse != Anything && s.pads > 0 ==> e.pads > 0)
            && (f.parse != Anything && e.pads == 0 ==> AllSymbols(Clean(f, taken)))
    decreases |s.rest|
  {
    hide Finish, Stops, Next, IsSymbol, Passed;
    FinishStep(f, s);
    if !Stops(f, s) {
      var next, e := Next(f, s), Finish(f, s);
      NextTakes(f, s);
      ScanTakes(f, next);
      var n := |s.rest| - |e.rest|;
      var taken, more := s.rest[..n], next.rest[..n - 1];
      assert taken == [s.rest[0]] + more && taken[1..] == more;
      if |next.values| == 4 {
        FinishStep(f, next);
        assert more == [];
      }
    } else {
      assert s.rest[..0] == [];
    }
  }

  lemma NextTakes(f: Flags, s: Scan)
    requires !Stops(f, s) && f.pad == Required
    ensures var next := Next(f, s);
            && next.rest == s.rest[1..]
            && |next.values| == |s.values| + (if IsSymbol(s.rest[0]) then 1 else 0)
            && (f.parse != Anything && s.pads > 0 ==> next.pads > 0)
            && (f.parse != Anything ==> Passed(f, s.rest[0]) || IsSymbol(s.rest[0]) || next.pads > 0)
  {
  }

  lemma {:induction false} CleanCount(f: Flags, text: seq<byte>)
    ensures SymbolCount(Clean(f, text)) == SymbolCount(text)
    ensures text != [] && !Passed(f, text[|text| - 1]) ==>
              Clean(f, text) != [] && Clean(f, text)[|Clean(f, text)| - 1] == text[|text| - 1]
  {
    if text != [] {
      var first := if Passed(f, text[0]) then [] else [text[0]];
      CleanCount(f, text[1..]);
      CountAppend(first, Clean(f, text[1..]));
      assert first != [] ==> first[1..] == [];
      if |text| > 1 {
        assert text[1..][|text| - 2] == text[|text| - 1];
      }
    }
  }

  lemma SymbolStays(f: Flags, c: byte)
    requires IsSymbol(c)
    ensures !Passed(f, c)
  {
  }

  /** What a full quantum takes from the text. */
  lemma FullTakes(f: Flags, text: seq<byte>) returns (taken: seq<byte>)
    requires f.pad == Required && |NextQuantum(f, text).values| == 4
    ensures text == taken + NextQuantum(f, text).rest
    ensures SymbolCount(taken) == 4 && taken != [] && IsSymbol(taken[|taken| - 1])
    ensures f.parse != Anything ==> AllSymbols(Clean(f, taken))
  {
    hide Clean, SymbolCount, Finish, AllSymbols;
    var s := Scan([], 0, text, text);
    FullHasNoPads(f, s);
    ScanTakes(f, s);
    taken := text[..|text| - |Finish(f, s).rest|];
  }

  lemma TrailsOffLater(f: Flags, taken: seq<byte>, rest: seq<byte>)
    requires SymbolCount(taken) == 4 && taken != [] && IsSymbol(taken[|taken| - 1])
    requires f.parse != Anything ==> AllSymbols(Clean(f, taken))
    ensures TrailsOff(f, taken + rest) <==> TrailsOff(f, rest)
    ensures Clean(f, taken + rest) != []
  {
    hide Clean, Passed, SymbolCount, IsSymbol;
    var text := taken + rest;
    SymbolStays(f, taken[|taken| - 1]);
    CleanCount(f, taken);
    CleanAppend(f, taken, rest);
    CountAppend(Clean(f, taken), Clean(f, rest));
    if rest == [] {
      CleanNothing(f);
      assert text == taken;
    } else {
      assert text[|text| - 1] == rest[|rest| - 1];
      AllInBoth(Clean(f, taken), Clean(f, rest));
    }
  }

  lemma AllInBoth(a: seq<byte>, b: seq<byte>)
    ensures AllSymbols(a + b) <==> AllSymbols(a) && AllSymbols(b)
  {
    assert forall c :: c in a + b <==> c in a || c in b;
  }

  /** Among symbols alone nothing stops the scan. */
  lemma {:induction false} AllTaken(f: Flags, s: Scan)
    requires |s.values| <= 4 && s.pads == 0 && AllSymbols(s.rest)
    ensures Finish(f, s).pads == 0 && (|Finish(f, s).values| == 4 || Finish(f, s).rest == [])
    decreases |s.rest|
  {
    if |s.values| < 4 && s.rest != [] {
      assert s.rest[0] in s.rest;
      TablesAgree(0, s.rest[0]);
      AllTaken(f, Next(f, s));
    }
  }

  lemma ShortOfQuanta(f: Flags, text: seq<byte>)
    requires f.pad == Required && text != [] && |NextQuantum(f, text).values| < 4
    ensures !WholeQuanta(f, text)
  {
    hide SymbolCount, AllSymbols, React;
    var s := Scan([], 0, text, text);
    if WholeQuanta(f, text) {
      ScanTakes(f, s);
      if f.parse == Anything {
        AnythingGoesOn(f, Finish(f, s));
      } else {
        AllTaken(f, s);
      }
      assert text[..|text|] == text;
      LastCounts(text);
    }
  }

  lemma AnythingGoesOn(f: Flags, s: Scan)
    requires f.parse == Anything && Stops(f, s) && |s.values| < 4
    ensures s.rest == []
  {
  }

  lemma LastCounts(text: seq<byte>)
    requires text != [] && IsSymbol(text[|text| - 1])
    ensures SymbolCount(text) > 0
  {
    CountAppend(text[..|text| - 1], [text[|text| - 1]]);
    assert text[..|text| - 1] + [text[|text| - 1]] == text;
  }

  /** Where padding is required, removing what is passed over makes no difference to what is decoded
      and whether that succeeds, except exactly in one case: if it follows whole quanta without pads,
      decoding fails that would succeed. */
  lemma {:induction false} DecodeCleanPadded(f: Flags, text: seq<byte>)
    requires f.pad == Required
    ensures var d := Decode(f, text);
            Decode(f, Clean(f, text)) == d.(rest := Clean(f, d.rest)) <==> !TrailsOff(f, text)
    ensures TrailsOff(f, text) ==> !Decode(f, text).success && Decode(f, Clean(f, text)).success
    decreases |text|
  {
    hide NextQuantum, Bytes, Unused, SymbolCount, AllSymbols, TrailsOff, Passed;
    if text == [] {
      NothingTrails(f);
    } else {
      QuantumClean(f, text);
      QuantumShrinks(f, text);
      var q := NextQuantum(f, text);
      if |q.values| == 4 {
        var taken := FullTakes(f, text);
        TrailsOffLater(f, taken, q.rest);
        DecodeCleanPadded(f, q.rest);
      } else if Clean(f, text) == [] {
        NeedsPadding(f, text);
      } else {
        ShortOfQuanta(f, Clean(f, text));
        TrailsNot(f, text);
      }
    }
  }

  lemma NothingTrails(f: Flags)
    ensures !TrailsOff(f, [])
  {
  }

  lemma TrailsNot(f: Flags, text: seq<byte>)
    requires !WholeQuanta(f, Clean(f, text))
    ensures !TrailsOff(f, text)
  {
  }

  /** The simplest text of that kind: nothing but what is passed over. */
  lemma NeedsPadding(f: Flags, text: seq<byte>)
    requires f.pad == Required && text != [] && Clean(f, text) == []
    ensures TrailsOff(f, text)
    ensures !Decode(f, text).success && Decode(f, Clean(f, text)).success
  {
    hide Clean;
    QuantumClean(f, text);
    NothingThere(f);
    CleanCount(f, text);
  }

  // ---------------------------------------------------------------- the loops

  lemma EncodeStep(data: seq<byte>, i: nat, n: nat)
    requires i < |data| && n == (if |data| - i < 3 then |data| - i else 3)
    ensures Encode(data[i..]) == Block(data[i..i + n]) + Encode(data[i + n..])
  {
    if |data| - i <= 3 {
      assert data[i..i + n] == data[i..] && data[i + n..] == [];
    } else {
      assert data[i..][..3] == data[i..i + 3] && data[i..][3..] == data[i + 3..];
    }
  }

  lemma Remainder64(q: int, r: int)
    requires 0 <= r < 64
    ensures (64 * q + r) % 64 == r
  {
  }

  lemma Remainder256(q: int, r: int)
    requires 0 <= r < 256
    ensures (256 * q + r) % 256 == r
  {
  }

  lemma ByteShifts(b: int)
    requires 0 <= b < 256
    ensures b * 16 % 64 == b % 4 * 16 && b * 4 % 64 == b % 16 * 4
  {
    Remainder64(b / 4, b % 4 * 16);
    Remainder64(b / 16, b % 16 * 4);
  }

  /** Up to three bytes into four characters. */
  method EncodeQuantum(data: seq<byte>, from: nat, result: array<byte>, at: nat) returns (i: nat)
    requires from < |data| && at + 4 <= result.Length
    modifies result
    ensures i == if |data| - from < 3 then |data| else from + 3
    ensures result[at..at + 4] == Block(data[from..i])
    ensures result[..at] == old(result[..at])
  {
    hide Symbol;
    i := from;
    var b: int := data[i];
    ByteShifts(b);
    var c := b / 4;
    result[at] := Symbol(c);
    c := b * 16 % 64;
    i := i + 1;
    if i < |data| {
      b := data[i];
      ByteShifts(b);
      c := c + b / 16;
    }
    result[at + 1] := Symbol(c);
    if i < |data| {
      c := b * 4 % 64;
      i := i + 1;
      if i < |data| {
        b := data[i];
        c := c + b / 64;
      }
      result[at + 2] := Symbol(c);
    } else {
      result[at + 2] := PAD;
    }
    if i < |data| {
      c := b % 64;
      result[at + 3] := Symbol(c);
      i := i + 1;
    } else {
      result[at + 3] := PAD;
    }
    ghost var piece := data[from..i];
    assert forall k | 0 <= k < |piece| :: piece[k] == data[from + k];
  }

  method EncodeFromArray(data: seq<byte>) returns (result: array<byte>)
    ensures fresh(result) && result[..] == Encode(data)
  {
    hide Block, Groups, Symbols;
    result := new byte[(|data| + 2) / 3 * 4];
    var i, at := 0, 0;
    while i < |data|
      invariant i <= |data| && at <= result.Length
      invariant result[..at] + Encode(data[i..]) == Encode(data)
      invariant fresh(result) && result.Length == |Encode(data)|
    {
      ghost var from, done := i, result[..at];
      EncodeStep(data, i, if |data| - i < 3 then |data| - i else 3);
      i := EncodeQuantum(data, i, result, at);
      ghost var block := Block(data[from..i]);
      Assoc(done, block, Encode(data[i..]));
      at := at + 4;
      assert result[..at] == done + block;
    }
  }

  /** The search for four values. */
  method FindValues(f: Flags, data: seq<byte>, start: nat, qbuf: array<int>)
    returns (byteLen: nat, dpos: nat, padLen: nat, padStart: nat, ghost s: Scan)
    requires start <= |data| && qbuf.Length == 4
    modifies qbuf
    ensures s == Finish(f, Scan([], 0, data[start..], data[start..]))
    ensures byteLen <= 4 && s.values == qbuf[..byteLen] && s.pads == padLen
    ensures dpos <= |data| && s.rest == data[dpos..]
    ensures padLen > 0 ==> padStart <= |data| && s.padRest == data[padStart..]
  {
    padLen, padStart, byteLen, dpos := 0, 0, 0, start;
    s := Scan([], 0, data[start..], data[start..]);
    ghost var end := Finish(f, s);
    while byteLen < 4 && dpos < |data|
      invariant byteLen <= 4 && s.values == qbuf[..byteLen] && s.pads == padLen
      invariant dpos <= |data| && s.rest == data[dpos..]
      invariant padLen > 0 ==> padStart <= |data| && s.padRest == data[padStart..]
      invariant Finish(f, s) == end
    {
      assert s.rest[0] == data[dpos] && s.rest[1..] == data[dpos + 1..];
      qbuf[byteLen] := Code(data[dpos]);
      var act := React(f, qbuf[byteLen], byteLen, padLen);
      if act == Stop {
        break;
      } else if act == Pad {
        padLen := padLen + 1;
        if padLen == 1 {
          padStart := dpos;
        }
      } else if act == Take {
        padLen := 0;
        byteLen := byteLen + 1;
      }
      s := Next(f, s);
      dpos := dpos + 1;
    }
  }

  /** One quantum into qbuf, filled up with zeros; too few pads are given back. */
  method GetNextQuantum(f: Flags, data: seq<byte>, start: nat, qbuf: array<int>)
    returns (byteLen: nat, dpos: nat, padded: bool)
    requires start <= |data| && qbuf.Length == 4
    modifies qbuf
    ensures byteLen <= 4 && dpos <= |data|
    ensures var q := NextQuantum(f, data[start..]);
            qbuf[..byteLen] == q.values && padded == q.padded && data[dpos..] == q.rest
    ensures forall i | byteLen <= i < 4 :: qbuf[i] == 0
  {
    var padLen, padStart;
    ghost var s;
    byteLen, dpos, padLen, padStart, s := FindValues(f, data, start, qbuf);
    for i := byteLen to 4
      invariant s.values == qbuf[..byteLen]
      invariant forall k | byteLen <= k < i :: qbuf[k] == 0
    {
      qbuf[i] := 0;
    }
    padded := byteLen + padLen == 4;
    if !padded && padLen > 0 {
      dpos := padStart;
    }
  }

  /** Shifts and masks of bytes on values below 64. */
  lemma Shifts(a: int, b: int)
    requires 0 <= a < 64 && 0 <= b < 64
    ensures a * 4 % 256 == a * 4 && b / 16 % 4 == b / 16
    ensures a * 16 % 256 == a % 16 * 16 && b / 4 % 16 == b / 4
    ensures a * 64 % 256 == a % 4 * 64
  {
    Remainder256(a / 16, a % 16 * 16);
    Remainder256(a / 4, a % 4 * 64);
  }

  /** The bytes of a quantum, and what is left of its last value. */
  method Unpack(qbuf: array<int>, qlen: nat, ghost values: seq<sextet>) returns (bytes: seq<byte>, c: int)
    requires qbuf.Length == 4 && qlen <= 4 && qbuf[..qlen] == values
    requires forall i | qlen <= i < 4 :: qbuf[i] == 0
    ensures bytes == Bytes(values) && c == Unused(values)
  {
    ghost var v: seq<int> := values;
    assert forall i | 0 <= i < qlen :: qbuf[i] == v[i] && 0 <= v[i] < 64;
    var q0, q1, q2, q3 := qbuf[0], qbuf[1], qbuf[2], qbuf[3];
    Shifts(q0, q1);
    Shifts(q1, q2);
    Shifts(q2, q3);
    bytes := [];
    c := q0 * 4 % 256 + q1 / 16 % 4;
    if qlen >= 2 {
      bytes := bytes + [c];
      c := q1 * 16 % 256 + q2 / 4 % 16;
      if qlen >= 3 {
        bytes := bytes + [c];
        c := q2 * 64 % 256 + q3;
        if qlen >= 4 {
          bytes := bytes + [c];
          c := 0;
        }
      }
    }
  }

  function DecodedAfter(bytes: seq<byte>, d: Decoded): Decoded { d.(bytes := bytes + d.bytes) }

  /** Decodes quantum by quantum and tells how much of the text was used. */
  method DecodeFromArray(data: seq<byte>, f: Flags)
    returns (success: bool, result: seq<byte>, dataUsed: nat)
    ensures dataUsed <= |data|
    ensures Decode(f, data) == Decoded(result, success, data[dataUsed..])
  {
    hide NextQuantum, Bytes, Unused;
    result, success := [], true;
    var dpos := 0;
    var qbuf := new int[4];
    var more := true;
    while more && dpos < |data|
      invariant dpos <= |data| && qbuf.Length == 4 && fresh(qbuf)
      invariant more ==> success && Decode(f, data) == DecodedAfter(result, Decode(f, data[dpos..]))
      invariant !more ==>
                  Decode(f, data) == Decoded(result, success && (f.term == AtEnd ==> dpos == |data|), data[dpos..])
      decreases more, |data| - dpos
    {
      ghost var before, q := data[dpos..], NextQuantum(f, data[dpos..]);
      QuantumShrinks(f, before);
      var qlen, padded;
      qlen, dpos, padded := GetNextQuantum(f, data, dpos, qbuf);
      var bytes, c := Unpack(qbuf, qlen, q.values);
      Assoc(result, bytes, Decode(f, data[dpos..]).bytes);
      result := result + bytes;
      if qlen < 4 {
        if f.term != Anywhere && c != 0 {
          success := false;
        }
        if f.pad == Required && !padded {
          success := false;
        }
        more := false;
      }
    }
    if f.term == AtEnd && dpos != |data| {
      success := false;
    }
    dataUsed := dpos;
  }

  lemma QuantumShrinks(f: Flags, text: seq<byte>)
    ensures var q := NextQuantum(f, text); |q.values| <= 4 && (|q.values| == 4 ==> |q.rest| < |text|)
  {
  }
}
