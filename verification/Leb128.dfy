/** LEB128 numbers (DWARF version 5, section 7.6), read into 64-bit words. */
module Leb128 {
  import opened Bits

  type Byte = b: nat | b < 256 witness 0

  /** 2^64. */
  const WORD: nat := 0x1_0000_0000_0000_0000

  /** One number: every byte but the last has its top bit set. */
  predicate Encoding(bs: seq<Byte>) {
    bs != [] && bs[|bs| - 1] < 128 && forall i :: 0 <= i < |bs| - 1 ==> bs[i] >= 128
  }

  /** The value of seven-bit groups, least significant group first. */
  function Groups(bs: seq<Byte>): nat {
    if bs == [] then 0 else bs[0] % 128 + 128 * Groups(bs[1..])
  }

  /** The number encoded: a signed one is negative if the second highest bit of its last byte is set. */
  function Meaning(bs: seq<Byte>, signed: bool): int
    requires bs != []
  {
    var group: int := bs[0] % 128;
    if |bs| > 1 then group + 128 * Meaning(bs[1..], signed)
    else if signed && group >= 64 then group - 128
    else group
  }

  /** The number that a 64-bit word of the right kind holds. */
  function Fit(v: int, signed: bool): int {
    var word := v % WORD;
    if signed && word >= WORD / 2 then word - WORD else word
  }

  /** How many bytes the number at p takes, or 0 if it has no last byte. */
  function LengthAt(mem: seq<Byte>, p: nat): (n: nat)
    ensures n > 0 ==> p + n <= |mem|
    decreases |mem| - p
  {
    if p >= |mem| then 0
    else if mem[p] < 128 then 1
    else
      var n := LengthAt(mem, p + 1);
      if n == 0 then 0 else n + 1
  }

  lemma {:induction false} EncodingAt(mem: seq<Byte>, p: nat)
    requires LengthAt(mem, p) > 0
    ensures Encoding(mem[p..p + LengthAt(mem, p)])
    decreases |mem| - p
  {
    if mem[p] >= 128 {
      EncodingAt(mem, p + 1);
      var n := LengthAt(mem, p + 1);
      var rest := mem[p + 1..p + 1 + n];
      assert mem[p..p + 1 + n] == [mem[p]] + rest;
    }
  }

  /** The bytes from p on are bs. */
  predicate At(mem: seq<Byte>, p: nat, bs: seq<Byte>) {
    p + |bs| <= |mem| && mem[p..p + |bs|] == bs
  }

  /** Where an encoding starts, its own length is found. */
  lemma {:induction false} LengthOf(mem: seq<Byte>, p: nat, bs: seq<Byte>)
    requires Encoding(bs) && At(mem, p, bs)
    ensures LengthAt(mem, p) == |bs|
    decreases |bs|
  {
    assert mem[p] == bs[0];
    if |bs| > 1 {
      assert mem[p + 1..p + |bs|] == bs[1..];
      LengthOf(mem, p + 1, bs[1..]);
    }
  }

  lemma {:induction false} GroupsAppend(bs: seq<Byte>, b: Byte)
    ensures Groups(bs + [b]) == Groups(bs) + b % 128 * Pow2(7 * |bs|)
    ensures Groups(bs) < Pow2(7 * |bs|)
  {
    if bs == [] {
      assert bs + [b] == [b] && [b][1..] == [];
    } else {
      var rest := bs[1..];
      assert (bs + [b])[1..] == rest + [b];
      GroupsAppend(rest, b);
      var p, x := Pow2(7 * |rest|), b % 128;
      assert Pow2(7 * |bs|) == 128 * p by {
        Pow2Add(7, 7 * |rest|);
        assert Pow2(7) == 128;
      }
      assert 128 * (x * p) == x * (128 * p);
    }
  }

  /** A signed number whose sign bit is set is the value of its groups minus the first power they do not reach. */
  lemma {:induction false} MeaningIs(bs: seq<Byte>, signed: bool)
    requires bs != []
    ensures Meaning(bs, signed) ==
      Groups(bs) - (if signed && bs[|bs| - 1] % 128 >= 64 then Pow2(7 * |bs|) else 0)
  {
    if |bs| > 1 {
      MeaningIs(bs[1..], signed);
      Pow2Add(7, 7 * |bs[1..]|);
    } else {
      assert bs[1..] == [];
    }
    assert Pow2(7) == 128;
  }

  lemma WordPower()
    ensures Pow2(64) == WORD && Pow2(63) == WORD / 2
  {
    Powers();
    Pow2Add(32, 32);
  }

  /** One round of the loop: or-ing in seven bits shifted left, with the bits above the word lost. */
  lemma OrGroup(result: nat, x: nat, shift: nat)
    requires shift < 64 && result < Pow2(shift)
    ensures BitOr(result, Shl(x, shift) % WORD) == (result + x * Pow2(shift)) % WORD
    ensures Pow2(shift) <= WORD
  {
    WordPower();
    ShlIsProduct(x, shift);
    Pow2Add(shift, 64 - shift);
    Pow2Monotone(shift, 64);
    var d, m := Pow2(shift), Pow2(64 - shift);
    var high := x * d % WORD;
    HighBits(x, d, m);
    OrDisjoint(result, high, shift);
    var q := x * d / WORD;
    assert result + x * d == WORD * q + (result + high);
    DivUnique(result + x * d, WORD, q, result + high);
  }

  lemma HighBits(x: nat, d: nat, m: nat)
    requires d > 0 && m > 0
    ensures d * m > 0 && x * d % (d * m) % d == 0 && x * d % (d * m) + d <= d * m
  {
    DivDiv(x * d, d, m);
    MulDiv(x, d);
    MulDiv(x % m, d);
    MulBound(x % m, m, d);
    assert x * d % (d * m) == (x % m) * d;
  }

  /** read_uleb128: the number at p, and the place after it. */
  method ReadUleb128(mem: seq<Byte>, p: nat) returns (next: nat, val: nat)
    requires 1 <= LengthAt(mem, p) <= 10
    ensures next == p + LengthAt(mem, p)
    ensures val == Fit(Meaning(mem[p..next], false), false)
  {
    var result, shift, more := 0, 0, true;
    next := p;
    while more
      invariant p <= next <= p + LengthAt(mem, p) && shift == 7 * (next - p)
      invariant result == Groups(mem[p..next]) % WORD
      invariant more <==> next < p + LengthAt(mem, p)
      invariant more ==> LengthAt(mem, next) == p + LengthAt(mem, p) - next
      decreases p + LengthAt(mem, p) - next
    {
      var byte := mem[next];
      ReadGroup(mem, p, next);
      result := BitOr(result, Shl(byte % 128, shift) % WORD);
      next := next + 1;
      shift := shift + 7;
      more := byte >= 128;
    }
    MeaningIs(mem[p..next], false);
    val := result;
  }

  lemma ReadGroup(mem: seq<Byte>, p: nat, q: nat)
    requires p <= q < |mem| && q - p < 10
    ensures Groups(mem[p..q + 1]) % WORD
      == BitOr(Groups(mem[p..q]) % WORD, Shl(mem[q] % 128, 7 * (q - p)) % WORD)
  {
    var bs := mem[p..q];
    assert mem[p..q + 1] == bs + [mem[q]];
    GroupsAppend(bs, mem[q]);
    OrGroup(Groups(bs), mem[q] % 128, 7 * (q - p));
    SmallWord(Groups(bs), Pow2(7 * (q - p)));
  }

  lemma SmallWord(v: nat, bound: nat)
    requires v < bound <= WORD
    ensures v % WORD == v
  {
  }

  /** read_sleb128. */
  method ReadSleb128(mem: seq<Byte>, p: nat) returns (next: nat, val: int)
    requires 1 <= LengthAt(mem, p) <= 10
    ensures next == p + LengthAt(mem, p)
    ensures val == Fit(Meaning(mem[p..next], true), true)
  {
    var result, shift, byte, more := 0, 0, 0, true;
    next := p;
    while more
      invariant p <= next <= p + LengthAt(mem, p) && shift == 7 * (next - p)
      invariant result == Groups(mem[p..next]) % WORD
      invariant more <==> next < p + LengthAt(mem, p)
      invariant more ==> LengthAt(mem, next) == p + LengthAt(mem, p) - next
      invariant !more ==> byte == mem[next - 1]
      decreases p + LengthAt(mem, p) - next
    {
      byte := mem[next];
      ReadGroup(mem, p, next);
      result := BitOr(result, Shl(byte % 128, shift) % WORD);
      next := next + 1;
      shift := shift + 7;
      more := byte >= 128;
    }
    SignExtension(mem[p..next]);
    if shift < 64 && byte % 128 >= 64 {
      result := BitOr(result, (-Shl(1, shift)) % WORD);
    }
    val := if result >= WORD / 2 then result - WORD else result;
  }

  /** Or-ing in the sign bits, if there is room for any. */
  lemma SignExtension(bs: seq<Byte>)
    requires 1 <= |bs| <= 10
    ensures var shift, result := 7 * |bs|, Groups(bs) % WORD;
      Meaning(bs, true) % WORD ==
        if shift < 64 && bs[|bs| - 1] % 128 >= 64 then BitOr(result, (-Shl(1, shift)) % WORD) else result
  {
    var shift := 7 * |bs|;
    MeaningIs(bs, true);
    GroupsAppend(bs, 0);
    if shift < 64 {
      SignBits(Groups(bs), shift);
    } else {
      WordPower();
      assert shift == 70 && Pow2(70) == WORD * 64 by { Pow2Add(64, 6); }
      NoRoom(Groups(bs));
    }
  }

  lemma NoRoom(v: nat)
    ensures (v - WORD * 64) % WORD == v % WORD
  {
  }

  lemma SignBits(v: nat, shift: nat)
    requires shift < 64 && v < Pow2(shift)
    ensures BitOr(v % WORD, (-Shl(1, shift)) % WORD) == (v - Pow2(shift)) % WORD
  {
    WordPower();
    Pow2Add(shift, 64 - shift);
    ShlIsProduct(1, shift);
    SignWord(v, Pow2(shift));
    SignMultiple(Pow2(shift), Pow2(64 - shift));
    OrDisjoint(v, WORD - Pow2(shift), shift);
  }

  lemma SignMultiple(d: nat, m: nat)
    requires d > 0 && d * m == WORD
    ensures (WORD - d) % d == 0
  {
    assert WORD - d == (m - 1) * d;
    MulDiv(m - 1, d);
  }

  lemma SignWord(v: nat, d: nat)
    requires v < d < WORD
    ensures v % WORD == v && (0 - d) % WORD == WORD - d && (v - d) % WORD == v + (WORD - d)
  {
  }

  /** The encoding that DWARF gives, without padding. */
  function Encode(v: int, signed: bool): (bs: seq<Byte>)
    ensures bs != []
    decreases if v < 0 then -v else v
  {
    if (if signed then -64 <= v < 64 else v < 128) then [v % 128] else [v % 128 + 128] + Encode(v / 128, signed)
  }

  /** Every number is what its encoding means. */
  lemma {:induction false} EncodeMeans(v: int, signed: bool)
    requires signed || v >= 0
    ensures Encoding(Encode(v, signed)) && Meaning(Encode(v, signed), signed) == v
    decreases if v < 0 then -v else v
  {
    if !(if signed then -64 <= v < 64 else v < 128) {
      EncodeMeans(v / 128, signed);
      LongerEncoding(v % 128, Encode(v / 128, signed), signed);
    }
  }

  lemma LongerEncoding(group: nat, rest: seq<Byte>, signed: bool)
    requires group < 128 && Encoding(rest)
    ensures Encoding([group + 128] + rest)
    ensures Meaning([group + 128] + rest, signed) == group + 128 * Meaning(rest, signed)
  {
    assert ([group + 128] + rest)[1..] == rest;
  }

  /** Numbers below 2^(7n), or between -2^(7n-1) and 2^(7n-1), take at most n bytes. */
  lemma {:induction false} EncodeLength(v: int, signed: bool, n: nat)
    requires n > 0 && (if signed then 0 - Pow2(7 * n - 1) <= v < Pow2(7 * n - 1) else 0 <= v < Pow2(7 * n))
    ensures |Encode(v, signed)| <= n
    decreases n
  {
    if n == 1 {
      assert Pow2(6) == 64 && Pow2(7) == 128;
    } else {
      Pow2Add(7, 7 * (n - 1));
      Pow2Add(7, 7 * (n - 1) - 1);
      assert Pow2(7) == 128;
      EncodeLength(v / 128, signed, n - 1);
    }
  }

  /** The numbers a word of the kind can hold. */
  predicate Holds(v: int, signed: bool) {
    if signed then -(WORD / 2) <= v < WORD / 2 else 0 <= v < WORD
  }

  /** Padding: one more byte that adds nothing. */
  function Pad(bs: seq<Byte>, signed: bool): seq<Byte>
    requires Encoding(bs)
  {
    var last := bs[|bs| - 1];
    bs[..|bs| - 1] + [last + 128, if signed && last >= 64 then 0x7f else 0]
  }

  lemma {:induction false} PadMeansTheSame(bs: seq<Byte>, signed: bool)
    requires Encoding(bs)
    ensures Encoding(Pad(bs, signed)) && Meaning(Pad(bs, signed), signed) == Meaning(bs, signed)
    decreases |bs|
  {
    if |bs| == 1 {
      assert Pad(bs, signed)[1..] == [if signed && bs[0] >= 64 then 0x7f else 0];
    } else {
      PadMeansTheSame(bs[1..], signed);
      PadRest(bs, signed);
      LongerEncoding(bs[0] - 128, Pad(bs[1..], signed), signed);
    }
  }

  lemma {:induction false} PadRest(bs: seq<Byte>, signed: bool)
    requires Encoding(bs) && |bs| > 1
    ensures Pad(bs, signed) == [bs[0]] + Pad(bs[1..], signed)
    ensures Meaning(bs, signed) == bs[0] - 128 + 128 * Meaning(bs[1..], signed)
  {
    assert bs == [bs[0]] + bs[1..];
  }

  /** What reading n numbers one after the other gives. */
  function DecodeAll(mem: seq<Byte>, p: nat, n: nat, signed: bool): seq<int>
    requires Readable(mem, p, n)
    decreases n
  {
    if n == 0 then []
    else
      var next := p + LengthAt(mem, p);
      [Fit(Meaning(mem[p..next], signed), signed)] + DecodeAll(mem, next, n - 1, signed)
  }

  /** There are n numbers from p on, of at most ten bytes each. */
  predicate Readable(mem: seq<Byte>, p: nat, n: nat)
    decreases n
  {
    n == 0 || (1 <= LengthAt(mem, p) <= 10 && Readable(mem, p + LengthAt(mem, p), n - 1))
  }

  /** The place after n numbers. */
  function EndAt(mem: seq<Byte>, p: nat, n: nat): nat
    requires Readable(mem, p, n)
    decreases n
  {
    if n == 0 then p else EndAt(mem, p + LengthAt(mem, p), n - 1)
  }

  /** The bytes of each of the n numbers. */
  function PiecesAt(mem: seq<Byte>, p: nat, n: nat): seq<seq<Byte>>
    requires Readable(mem, p, n)
    decreases n
  {
    if n == 0 then []
    else [mem[p..p + LengthAt(mem, p)]] + PiecesAt(mem, p + LengthAt(mem, p), n - 1)
  }

  function Concat(es: seq<seq<Byte>>): seq<Byte> {
    if es == [] then [] else es[0] + Concat(es[1..])
  }

  /** Each encoding means its number, padded or not. */
  predicate EncodesAll(es: seq<seq<Byte>>, vs: seq<int>, signed: bool) {
    |es| == |vs| && forall i :: 0 <= i < |vs| ==>
      Encoding(es[i]) && |es[i]| <= 10 && Meaning(es[i], signed) == vs[i] && Holds(vs[i], signed)
  }

  lemma AtSplit(mem: seq<Byte>, p: nat, a: seq<Byte>, b: seq<Byte>)
    requires At(mem, p, a + b)
    ensures At(mem, p, a) && At(mem, p + |a|, b)
  {
    var all := mem[p..p + |a + b|];
    assert mem[p..p + |a|] == all[..|a|] && mem[p + |a|..p + |a| + |b|] == all[|a|..];
  }

  lemma FitHolds(v: int, signed: bool)
    requires Holds(v, signed)
    ensures Fit(v, signed) == v
  {
  }

  /** Reading one number. */
  lemma ReadOne(mem: seq<Byte>, p: nat, bs: seq<Byte>, v: int, signed: bool)
    requires Encoding(bs) && |bs| <= 10 && At(mem, p, bs) && Meaning(bs, signed) == v && Holds(v, signed)
    ensures LengthAt(mem, p) == |bs| && Fit(Meaning(mem[p..p + |bs|], signed), signed) == v
  {
    LengthOf(mem, p, bs);
    FitHolds(v, signed);
  }

  lemma EncodesRest(es: seq<seq<Byte>>, vs: seq<int>, signed: bool)
    requires EncodesAll(es, vs, signed) && es != []
    ensures EncodesAll(es[1..], vs[1..], signed) && vs == [vs[0]] + vs[1..]
  {
  }

  lemma DecodeMore(mem: seq<Byte>, p: nat, len: nat, n: nat, signed: bool, v: int, rest: seq<int>)
    requires 1 <= len <= 10 && LengthAt(mem, p) == len && Fit(Meaning(mem[p..p + len], signed), signed) == v
    requires Readable(mem, p + len, n) && DecodeAll(mem, p + len, n, signed) == rest
    ensures Readable(mem, p, n + 1) && DecodeAll(mem, p, n + 1, signed) == [v] + rest
    ensures EndAt(mem, p, n + 1) == EndAt(mem, p + len, n)
  {
  }

  /** Encodings of numbers, one after the other, are read back as these numbers, up to their end. */
  lemma {:induction false} ConcatReadBack(mem: seq<Byte>, p: nat, es: seq<seq<Byte>>, vs: seq<int>, signed: bool)
    requires EncodesAll(es, vs, signed) && At(mem, p, Concat(es))
    ensures Readable(mem, p, |vs|) && DecodeAll(mem, p, |vs|, signed) == vs
    ensures EndAt(mem, p, |vs|) == p + |Concat(es)|
    decreases |es|
  {
    if es != [] {
      var len, rest := |es[0]|, vs[1..];
      AtSplit(mem, p, es[0], Concat(es[1..]));
      ReadOne(mem, p, es[0], vs[0], signed);
      EncodesRest(es, vs, signed);
      ConcatReadBack(mem, p + len, es[1..], rest, signed);
      DecodeMore(mem, p, len, |rest|, signed, vs[0], rest);
    }
  }

  /** Conversely, n numbers that can be read are n encodings one after the other. */
  lemma {:induction false} ReadPieces(mem: seq<Byte>, p: nat, n: nat)
    requires Readable(mem, p, n) && p <= |mem|
    ensures |PiecesAt(mem, p, n)| == n && forall e :: e in PiecesAt(mem, p, n) ==> Encoding(e) && |e| <= 10
    ensures p <= EndAt(mem, p, n) <= |mem| && mem[p..EndAt(mem, p, n)] == Concat(PiecesAt(mem, p, n))
    decreases n
  {
    if n > 0 {
      var next := p + LengthAt(mem, p);
      EncodingAt(mem, p);
      ReadPieces(mem, next, n - 1);
      assert mem[p..EndAt(mem, p, n)] == mem[p..next] + mem[next..EndAt(mem, p, n)];
      assert PiecesAt(mem, p, n)[1..] == PiecesAt(mem, next, n - 1);
    }
  }

  /** Reading a number of the given kind. */
  method ReadNumber(mem: seq<Byte>, p: nat, signed: bool) returns (next: nat, val: int)
    requires 1 <= LengthAt(mem, p) <= 10
    ensures next == p + LengthAt(mem, p) && val == Fit(Meaning(mem[p..next], signed), signed)
  {
    if signed {
      next, val := ReadSleb128(mem, p);
    } else {
      next, val := ReadUleb128(mem, p);
    }
  }

  /** Reading n numbers one after the other. */
  method ReadAll(mem: seq<Byte>, p: nat, n: nat, signed: bool) returns (next: nat, vals: seq<int>)
    requires Readable(mem, p, n)
    ensures vals == DecodeAll(mem, p, n, signed) && next == EndAt(mem, p, n)
    ensures forall es, vs :: EncodesAll(es, vs, signed) && |vs| == n && At(mem, p, Concat(es)) ==>
      vals == vs && next == p + |Concat(es)|
  {
    vals := [];
    next := p;
    ghost var rest := DecodeAll(mem, p, n, signed);
    var left := n;
    while left > 0
      invariant Readable(mem, next, left)
      invariant rest == DecodeAll(mem, next, left, signed) && vals + rest == DecodeAll(mem, p, n, signed)
      invariant EndAt(mem, next, left) == EndAt(mem, p, n)
    {
      DecodeStep(mem, next, left, signed);
      var val;
      next, val := ReadNumber(mem, next, signed);
      MoveFirst(vals, val, rest, DecodeAll(mem, next, left - 1, signed));
      vals, rest, left := vals + [val], DecodeAll(mem, next, left - 1, signed), left - 1;
    }
    AnyEncodings(mem, p, n, signed);
  }

  lemma MoveFirst(done: seq<int>, v: int, rest: seq<int>, tail: seq<int>)
    requires rest == [v] + tail
    ensures done + rest == done + [v] + tail
  {
  }

  lemma DecodeStep(mem: seq<Byte>, p: nat, n: nat, signed: bool)
    requires n > 0 && Readable(mem, p, n)
    ensures var next := p + LengthAt(mem, p);
      && 1 <= LengthAt(mem, p) <= 10 && Readable(mem, next, n - 1) && EndAt(mem, p, n) == EndAt(mem, next, n - 1)
      && DecodeAll(mem, p, n, signed) ==
         [Fit(Meaning(mem[p..next], signed), signed)] + DecodeAll(mem, next, n - 1, signed)
  {
  }

  lemma AnyEncodings(mem: seq<Byte>, p: nat, n: nat, signed: bool)
    requires Readable(mem, p, n)
    ensures forall es, vs :: EncodesAll(es, vs, signed) && |vs| == n && At(mem, p, Concat(es)) ==>
      DecodeAll(mem, p, n, signed) == vs && EndAt(mem, p, n) == p + |Concat(es)|
  {
    forall es, vs | EncodesAll(es, vs, signed) && |vs| == n && At(mem, p, Concat(es))
      ensures DecodeAll(mem, p, n, signed) == vs && EndAt(mem, p, n) == p + |Concat(es)|
    {
      ConcatReadBack(mem, p, es, vs, signed);
    }
  }

  function EncodeAll(vs: seq<int>, signed: bool): (es: seq<seq<Byte>>)
    ensures |es| == |vs|
    ensures forall i :: 0 <= i < |vs| ==> es[i] == Encode(vs[i], signed)
  {
    if vs == [] then [] else [Encode(vs[0], signed)] + EncodeAll(vs[1..], signed)
  }

  lemma EncodeFits(v: int, signed: bool)
    requires Holds(v, signed)
    ensures Encoding(Encode(v, signed)) && |Encode(v, signed)| <= 10 && Meaning(Encode(v, signed), signed) == v
  {
    WordPower();
    Pow2Monotone(64, 70);
    Pow2Monotone(63, 69);
    EncodeMeans(v, signed);
    EncodeLength(v, signed, 10);
  }

  /** Every list of numbers that the words can hold survives being encoded and read. */
  lemma EncodeReadBack(vs: seq<int>, signed: bool)
    requires forall i :: 0 <= i < |vs| ==> Holds(vs[i], signed)
    ensures var mem := Concat(EncodeAll(vs, signed));
      Readable(mem, 0, |vs|) && DecodeAll(mem, 0, |vs|, signed) == vs && EndAt(mem, 0, |vs|) == |mem|
  {
    var es := EncodeAll(vs, signed);
    forall i | 0 <= i < |vs|
      ensures Encoding(es[i]) && |es[i]| <= 10 && Meaning(es[i], signed) == vs[i]
    {
      EncodeFits(vs[i], signed);
    }
    ConcatReadBack(Concat(es), 0, es, vs, signed);
  }

  /** The same, with the readers themselves. */
  method EncodeAndRead(vs: seq<int>, signed: bool) returns (vals: seq<int>)
    requires forall i :: 0 <= i < |vs| ==> Holds(vs[i], signed)
    ensures vals == vs
  {
    EncodeReadBack(vs, signed);
    var next;
    next, vals := ReadAll(Concat(EncodeAll(vs, signed)), 0, |vs|, signed);
  }
}
