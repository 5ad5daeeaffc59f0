/**
  The streaming MD5 context: buffering of partial blocks, the two-word bit
  counter with carry, and the final padding of sections 3.1 and 3.2 of RFC
  1321. The block function is a parameter, so the results hold for any.
 */
module Md5 {

  type Byte = b: int | 0 <= b < 0x100
  type Word = w: int | 0 <= w < 0x1_0000_0000
  datatype State = State(a: Word, b: Word, c: Word, d: Word)
  type Transform = (State, seq<Byte>) -> State

  const INIT := State(0x67452301, 0xefcdab89, 0x98badcfe, 0x10325476)

  // ---------------------------------------------------------------------
  // The bit counter
  // ---------------------------------------------------------------------

  /** The counter words hold 8 * n once `wraps` multiples of 2^64 are taken away, low word first. */
  predicate Counts(c0: Word, c1: Word, wraps: nat, n: nat) {
    8 * n == wraps * 0x1_0000_0000_0000_0000 + c1 * 0x1_0000_0000 + c0
  }

  /** That is, they hold 8 * n modulo 2^64. */
  lemma CountsModulo(c0: Word, c1: Word, wraps: nat, n: nat)
    requires Counts(c0, c1, wraps, n)
    ensures c1 * 0x1_0000_0000 + c0 == 8 * n % 0x1_0000_0000_0000_0000
  {
    ModuloIs(8 * n, wraps, c1 * 0x1_0000_0000 + c0);
  }

  lemma ModuloIs(x: nat, q: nat, r: nat)
    requires r < 0x1_0000_0000_0000_0000 && x == q * 0x1_0000_0000_0000_0000 + r
    ensures x % 0x1_0000_0000_0000_0000 == r
  {
  }

  /** The counter after `len` more bytes, as the update computes it. */
  function Counted(c0: Word, c1: Word, len: nat): (Word, Word) {
    var bits := len * 8 % 0x1_0000_0000;
    var low := (c0 + bits) % 0x1_0000_0000;
    var high := if low < bits then (c1 + 1) % 0x1_0000_0000 else c1;
    (low, (high + len / 0x2000_0000) % 0x1_0000_0000)
  }

  lemma ModOnce(x: nat)
    requires x < 0x1_0000_0000 + 0x1_0000_0000
    ensures x % 0x1_0000_0000 == if x < 0x1_0000_0000 then x else x - 0x1_0000_0000
  {
  }

  /** Shifting the length left by three loses what shifting it right by 29 keeps. */
  lemma LengthSplit(len: nat)
    ensures 8 * len == len / 0x2000_0000 * 0x1_0000_0000 + len * 8 % 0x1_0000_0000
  {
    var top := len / 0x2000_0000;
    var low := len - top * 0x2000_0000;
    assert 0 <= low < 0x2000_0000;
    assert len * 8 == top * 0x1_0000_0000 + 8 * low;
  }

  lemma CountedIsCarried(c0: Word, c1: Word, len: nat) returns (k: nat)
    requires len < 0x1_0000_0000
    ensures var (d0, d1) := Counted(c0, c1, len);
            c1 * 0x1_0000_0000 + c0 + 8 * len == k * 0x1_0000_0000_0000_0000 + d1 * 0x1_0000_0000 + d0
  {
    LengthSplit(len);
    var bits, top := len * 8 % 0x1_0000_0000, len / 0x2000_0000;
    ModOnce(c0 + bits);
    ModOnce(c1 + 1);
    var high := if (c0 + bits) % 0x1_0000_0000 < bits then (c1 + 1) % 0x1_0000_0000 else c1;
    ModOnce(high + top);
    k := (if c0 + bits >= 0x1_0000_0000 && c1 + 1 == 0x1_0000_0000 then 1 else 0)
      + (if high + top >= 0x1_0000_0000 then 1 else 0);
  }

  /** The byte count modulo 64 can be read off the low word. */
  lemma IndexFromCount(c0: Word, c1: Word, wraps: nat, n: nat)
    requires Counts(c0, c1, wraps, n)
    ensures c0 / 8 % 64 == n % 64
  {
    var r := wraps * 0x80_0000_0000_0000 + c1 * 0x80_0000;
    assert c0 == 8 * (n - 64 * r);
    assert c0 / 8 == n - 64 * r;
    assert (n - 64 * r) % 64 == n % 64;
  }

  // ---------------------------------------------------------------------
  // Blocks
  // ---------------------------------------------------------------------

  /** The block function folded over the full 64-byte blocks of `m`; a partial last block is left over. */
  function Fold(t: Transform, s: State, m: seq<Byte>): State
    decreases |m|
  {
    if |m| < 64 then s else Fold(t, t(s, m[..64]), m[64..])
  }

  /** The bytes after the last full block. */
  function Leftover(m: seq<Byte>): seq<Byte> { m[|m| - |m| % 64..] }

  /** Whole blocks can be folded first. */
  lemma {:induction false} FoldConcat(t: Transform, s: State, a: seq<Byte>, b: seq<Byte>)
    requires |a| % 64 == 0
    ensures Fold(t, s, a + b) == Fold(t, Fold(t, s, a), b)
    decreases |a|
  {
    if a == [] {
      assert a + b == b;
    } else {
      assert |a| >= 64 && (a + b)[..64] == a[..64] && (a + b)[64..] == a[64..] + b;
      FoldConcat(t, t(s, a[..64]), a[64..], b);
    }
  }

  lemma FoldBlock(t: Transform, s: State, b: seq<Byte>)
    requires |b| == 64
    ensures Fold(t, s, b) == t(s, b)
  {
    assert b[..64] == b && b[64..] == [];
  }

  /** The state depends on the whole blocks only. */
  lemma FoldDropsLeftover(t: Transform, s: State, m: seq<Byte>)
    ensures Fold(t, s, m) == Fold(t, s, m[..|m| - |m| % 64])
  {
    var a := m[..|m| - |m| % 64];
    assert m == a + Leftover(m);
    FoldConcat(t, s, a, Leftover(m));
  }

  /** Completing the leftover with `first` and then hashing `more` continues the fold. */
  lemma FoldContinues(t: Transform, s: State, m: seq<Byte>, first: seq<Byte>, more: seq<Byte>)
    requires |m| % 64 + |first| == 64
    ensures Fold(t, s, m + first + more) == Fold(t, t(Fold(t, s, m), Leftover(m) + first), more)
  {
    var a := m[..|m| - |m| % 64];
    var block := Leftover(m) + first;
    FoldDropsLeftover(t, s, m);
    assert m + first + more == a + (block + more);
    FoldConcat(t, s, a, block + more);
    FoldConcat(t, Fold(t, s, a), block, more);
    FoldBlock(t, Fold(t, s, a), block);
  }

  lemma EmptyMessage(t: Transform, s: State, m: seq<Byte>)
    requires m == []
    ensures Fold(t, s, m) == s && |m| % 64 == 0 && Leftover(m) == []
  {
  }

  /** Too little to fill a block: the state stays, the leftover grows. */
  lemma ShortAppend(t: Transform, s: State, m: seq<Byte>, input: seq<Byte>)
    requires |m| % 64 + |input| < 64
    ensures Fold(t, s, m + input) == Fold(t, s, m)
    ensures |m + input| % 64 == |m| % 64 + |input| && Leftover(m + input) == Leftover(m) + input
  {
    var q, r := |m| / 64, |m| % 64;
    assert |m + input| == 64 * q + (r + |input|);
    FoldDropsLeftover(t, s, m);
    FoldDropsLeftover(t, s, m + input);
    assert (m + input)[..64 * q] == m[..64 * q];
  }

  /** Enough to fill blocks: what is left over is the end of the input. */
  lemma LongAppend(m: seq<Byte>, input: seq<Byte>, part: nat, i: nat)
    requires |m| % 64 + part == 64 && part <= i <= |input| && (i - part) % 64 == 0 && |input| - i < 64
    ensures |m + input| % 64 == |input| - i && Leftover(m + input) == input[i..]
  {
    var q, blocks := |m| / 64, (i - part) / 64;
    assert |m + input| == 64 * (q + 1 + blocks) + (|input| - i);
  }

  // ---------------------------------------------------------------------
  // The context
  // ---------------------------------------------------------------------

  /** Copies `src` into `dst` from position `at` on. */
  method CopyInto(dst: array<Byte>, at: nat, src: seq<Byte>)
    requires at + |src| <= dst.Length
    modifies dst
    ensures dst[at..at + |src|] == src
    ensures dst[..at] == old(dst[..at]) && dst[at + |src|..] == old(dst[at + |src|..])
  {
    forall k | 0 <= k < |src| {
      dst[at + k] := src[k];
    }
  }

  method ZeroOut(dst: array<Byte>)
    modifies dst
    ensures forall k :: 0 <= k < dst.Length ==> dst[k] == 0
  {
    forall k | 0 <= k < dst.Length {
      dst[k] := 0;
    }
  }

  class Context {
    const transform: Transform
    const buffer: array<Byte>
    var state: State
    var count0: Word
    var count1: Word
    ghost var start: State          // the state the hash began from
    ghost var message: seq<Byte>    // everything hashed since
    ghost var wraps: nat            // how often the bit counter has wrapped around

    ghost predicate Valid()
      reads this, buffer
    {
      && buffer.Length == 64
      && state == Fold(transform, start, message)
      && buffer[..|message| % 64] == Leftover(message)
      && Counts(count0, count1, wraps, |message|)
    }

    constructor (transform: Transform)
      ensures Valid() && fresh(buffer) && this.transform == transform && start == INIT && message == []
    {
      this.transform := transform;
      buffer := new Byte[64];
      count0, count1 := 0, 0;
      state := INIT;
      start, message, wraps := INIT, [], 0;
      new;
      EmptyMessage(transform, state, message);
    }

    method Init()
      requires buffer.Length == 64
      modifies this
      ensures Valid() && start == INIT && message == []
    {
      count0, count1 := 0, 0;
      state := INIT;
      start, message, wraps := INIT, [], 0;
      EmptyMessage(transform, state, message);
    }

    /** The loop over the whole blocks of `input` from `i` on. */
    method TransformBlocks(input: seq<Byte>, from: nat) returns (i: nat)
      requires from <= |input|
      modifies this`state
      ensures from <= i <= |input| && (i - from) % 64 == 0 && |input| - i < 64
      ensures state == Fold(transform, old(state), input[from..])
    {
      i := from;
      while i + 63 < |input|
        invariant from <= i <= |input| && (i - from) % 64 == 0
        invariant Fold(transform, state, input[i..]) == Fold(transform, old(state), input[from..])
      {
        assert input[i..][..64] == input[i..i + 64] && input[i..][64..] == input[i + 64..];
        state := transform(state, input[i..i + 64]);
        i := i + 64;
      }
    }

    /** Adds `inputLen` bytes to the bit counter. */
    method CountBits(inputLen: nat)
      requires inputLen < 0x1_0000_0000
      modifies this`count0, this`count1
      ensures (count0, count1) == Counted(old(count0), old(count1), inputLen)
    {
      var bits := inputLen * 8 % 0x1_0000_0000;
      count0 := (count0 + bits) % 0x1_0000_0000;
      if count0 < bits {
        count1 := (count1 + 1) % 0x1_0000_0000;
      }
      count1 := (count1 + inputLen / 0x2000_0000) % 0x1_0000_0000;
    }

    /** Fills up the buffered block, hashes the whole blocks, and buffers the rest. */
    method Absorb(input: seq<Byte>, index: nat, ghost m: seq<Byte>)
      requires buffer.Length == 64 && index == |m| % 64
      requires state == Fold(transform, start, m) && buffer[..index] == Leftover(m)
      modifies this`state, buffer
      ensures state == Fold(transform, start, m + input)
      ensures buffer[..|m + input| % 64] == Leftover(m + input)
    {
      var partLen := 64 - index;
      if |input| >= partLen {
        CopyInto(buffer, index, input[..partLen]);
        assert buffer[..] == Leftover(m) + input[..partLen];
        FoldContinues(transform, start, m, input[..partLen], input[partLen..]);
        assert m + input[..partLen] + input[partLen..] == m + input;
        state := transform(state, buffer[..]);
        var i := TransformBlocks(input, partLen);
        LongAppend(m, input, partLen, i);
        CopyInto(buffer, 0, input[i..]);
      } else {
        ShortAppend(transform, start, m, input);
        CopyInto(buffer, index, input);
        assert buffer[..index + |input|] == buffer[..index] + input;
      }
    }

    /**
      Hashes `input` after everything before it. The length is a 32-bit number
      whose last block end must not wrap around.
     */
    method Update(input: seq<Byte>)
      requires Valid() && |input| <= 0xffff_ffc0
      modifies this, buffer
      ensures Valid() && message == old(message) + input && start == old(start)
    {
      IndexFromCount(count0, count1, wraps, |message|);
      ghost var more := CountedIsCarried(count0, count1, |input|);
      var index := count0 / 8 % 64;
      CountBits(|input|);
      Absorb(input, index, message);
      message, wraps := message + input, wraps + more;
    }

    /** Pads to 56 modulo 64 and appends the bit length from before padding. */
    method Pad()
      requires Valid()
      modifies this, buffer
      ensures Valid() && message == Padded(old(message)) && start == old(start)
    {
      PaddingCompletes(message, count0, count1, wraps);
      IndexFromCount(count0, count1, wraps, |message|);
      var bits := EncodeInto([count0, count1]);
      var index := count0 / 8 % 64;
      Update(PADDING[..PadLen(index)]);
      Update(bits);
    }

    /** Pads and writes out the digest; the context is zeroed, not restarted. */
    method Final() returns (digest: seq<Byte>)
      requires Valid()
      modifies this, buffer
      ensures digest == Encode(WordsOf(Fold(transform, old(start), Padded(old(message)))))
      ensures var s := Fold(transform, old(start), Padded(old(message)));
              |digest| == 16 && Decode(digest) == [s.a, s.b, s.c, s.d]
      ensures Valid() && start == State(0, 0, 0, 0) && message == []
    {
      Pad();
      digest := EncodeInto(WordsOf(state));
      DecodeEncode(WordsOf(state));
      Zeroize();
    }

    method Zeroize()
      requires buffer.Length == 64
      modifies this, buffer
      ensures Valid() && start == State(0, 0, 0, 0) && message == []
    {
      ZeroOut(buffer);
      state, count0, count1 := State(0, 0, 0, 0), 0, 0;
      start, message, wraps := state, [], 0;
      EmptyMessage(transform, state, message);
    }
  }

  // ---------------------------------------------------------------------
  // Digests
  // ---------------------------------------------------------------------

  function WordsOf(s: State): seq<Word> { [s.a, s.b, s.c, s.d] }

  function EncodeWord(w: Word): seq<Byte> {
    [w % 0x100, w / 0x100 % 0x100, w / 0x1_0000 % 0x100, w / 0x100_0000 % 0x100]
  }

  /** Words to bytes, low byte first. */
  function Encode(ws: seq<Word>): (bs: seq<Byte>)
    ensures |bs| == 4 * |ws|
  {
    if ws == [] then [] else EncodeWord(ws[0]) + Encode(ws[1..])
  }

  lemma {:induction false} EncodeAppend(ws: seq<Word>, w: Word)
    ensures Encode(ws + [w]) == Encode(ws) + EncodeWord(w)
  {
    if ws == [] {
      assert Encode([w]) == EncodeWord(w) + Encode([]);
    } else {
      EncodeAppend(ws[1..], w);
      assert (ws + [w])[1..] == ws[1..] + [w];
    }
  }

  /** The same, word by word into an output buffer. */
  method EncodeInto(ws: seq<Word>) returns (bs: seq<Byte>)
    ensures bs == Encode(ws)
  {
    var output := new Byte[4 * |ws|];
    for i := 0 to |ws|
      invariant output[..4 * i] == Encode(ws[..i])
    {
      var w, j := ws[i], 4 * i;
      output[j] := w % 0x100;
      output[j + 1] := w / 0x100 % 0x100;
      output[j + 2] := w / 0x1_0000 % 0x100;
      output[j + 3] := w / 0x100_0000 % 0x100;
      assert output[..j + 4] == output[..j] + EncodeWord(w);
      assert ws[..i + 1] == ws[..i] + [w];
      EncodeAppend(ws[..i], w);
    }
    assert ws[..|ws|] == ws && output[..4 * |ws|] == output[..];
    bs := output[..];
  }

  /** Bytes to words, low byte first. */
  function Decode(bs: seq<Byte>): (ws: seq<Word>)
    requires |bs| % 4 == 0
    decreases |bs|
  {
    if bs == [] then []
    else [JoinBytes(bs[0], bs[1], bs[2], bs[3])] + Decode(bs[4..])
  }

  function JoinBytes(b0: int, b1: int, b2: int, b3: int): int {
    b0 + b1 * 0x100 + b2 * 0x1_0000 + b3 * 0x100_0000
  }

  lemma ShiftTwice(w: nat)
    ensures w / 0x100 / 0x100 == w / 0x1_0000
  {
  }

  lemma ShiftThrice(w: nat)
    ensures w / 0x1_0000 / 0x100 == w / 0x100_0000
  {
  }

  lemma WordBytes(w: Word)
    ensures var b := EncodeWord(w); JoinBytes(b[0], b[1], b[2], b[3]) == w
  {
    ShiftTwice(w);
    ShiftThrice(w);
  }

  lemma {:induction false} DecodeEncode(ws: seq<Word>)
    ensures Decode(Encode(ws)) == ws
  {
    if ws != [] {
      WordBytes(ws[0]);
      assert Encode(ws)[4..] == Encode(ws[1..]);
      DecodeEncode(ws[1..]);
    }
  }

  const PADDING: seq<Byte> := [0x80] + Zeros(63)

  function Zeros(n: nat): (z: seq<Byte>)
    ensures |z| == n && forall i :: 0 <= i < n ==> z[i] == 0
  {
    seq(n, _ => 0)
  }

  /** `n` as `k` bytes, low byte first. */
  function LittleEndian(n: nat, k: nat): seq<Byte> {
    if k == 0 then [] else [n % 0x100] + LittleEndian(n / 0x100, k - 1)
  }

  /** How many zero bytes follow the marker: the least number that leaves 8 bytes in the block. */
  function ZeroCount(n: nat): (z: nat)
    ensures z < 64 && (n + 1 + z) % 64 == 56
  {
    (119 - n % 64) % 64
  }

  /** Sections 3.1 and 3.2 of RFC 1321: marker, zeros up to 56 modulo 64, and the 64-bit length. */
  function Padded(m: seq<Byte>): seq<Byte> {
    m + [0x80] + Zeros(ZeroCount(|m|)) + LittleEndian(8 * |m| % 0x1_0000_0000_0000_0000, 8)
  }

  /** The number the bytes stand for, low byte first. */
  function FromBytes(bs: seq<Byte>): nat {
    if bs == [] then 0 else FromBytes(bs[1..]) * 0x100 + bs[0]
  }

  lemma PeelByte(low: Byte, rest: nat, k: nat)
    requires k > 0
    ensures LittleEndian(rest * 0x100 + low, k) == [low] + LittleEndian(rest, k - 1)
  {
  }

  lemma {:induction false} BytesOfNumber(bs: seq<Byte>)
    ensures LittleEndian(FromBytes(bs), |bs|) == bs
  {
    if bs != [] {
      BytesOfNumber(bs[1..]);
      PeelByte(bs[0], FromBytes(bs[1..]), |bs|);
    }
  }

  lemma NumberCons(b: Byte, rest: seq<Byte>)
    ensures FromBytes([b] + rest) == FromBytes(rest) * 0x100 + b
  {
    assert ([b] + rest)[1..] == rest;
  }

  /** A word in front counts as it is, what follows 2^32 times. */
  lemma NumberOfWord(w: Word, rest: seq<Byte>)
    ensures FromBytes(EncodeWord(w) + rest) == FromBytes(rest) * 0x1_0000_0000 + w
  {
    WordBytes(w);
    var b := EncodeWord(w);
    NumberCons(b[3], rest);
    NumberCons(b[2], [b[3]] + rest);
    NumberCons(b[1], [b[2]] + ([b[3]] + rest));
    NumberCons(b[0], [b[1]] + ([b[2]] + ([b[3]] + rest)));
    assert b + rest == [b[0]] + ([b[1]] + ([b[2]] + ([b[3]] + rest)));
  }

  lemma TwoWords(c0: Word, c1: Word)
    ensures LittleEndian(c1 * 0x1_0000_0000 + c0, 8) == EncodeWord(c0) + EncodeWord(c1)
  {
    NumberOfWord(c0, EncodeWord(c1));
    NumberOfWord(c1, []);
    assert EncodeWord(c1) + [] == EncodeWord(c1);
    BytesOfNumber(EncodeWord(c0) + EncodeWord(c1));
  }

  /** The counter words, encoded, are the 64-bit length. */
  lemma LengthBytes(c0: Word, c1: Word, wraps: nat, n: nat)
    requires Counts(c0, c1, wraps, n)
    ensures Encode([c0, c1]) == LittleEndian(8 * n % 0x1_0000_0000_0000_0000, 8)
  {
    CountsModulo(c0, c1, wraps, n);
    TwoWords(c0, c1);
    EncodePair(c0, c1);
  }

  lemma EncodePair(c0: Word, c1: Word)
    ensures Encode([c0, c1]) == EncodeWord(c0) + EncodeWord(c1)
  {
    assert [c0, c1][1..] == [c1];
    assert Encode([c1]) == EncodeWord(c1) + Encode([]);
  }

  /** The pad length the code computes from the fill of the current block. */
  function PadLen(index: nat): int { if index < 56 then 56 - index else 120 - index }

  /** It is between 1 and 64, and covers the marker and exactly the zeros. */
  lemma PadLength(n: nat)
    ensures var padLen := PadLen(n % 64);
            1 <= padLen <= 64 && PADDING[..padLen] == [0x80] + Zeros(ZeroCount(n))
  {
    assert PadLen(n % 64) == 1 + ZeroCount(n);
  }

  lemma PaddingCompletes(m: seq<Byte>, c0: Word, c1: Word, wraps: nat)
    requires Counts(c0, c1, wraps, |m|)
    ensures 1 <= PadLen(|m| % 64) <= 64
    ensures m + PADDING[..PadLen(|m| % 64)] + Encode([c0, c1]) == Padded(m)
  {
    LengthBytes(c0, c1, wraps, |m|);
    PadLength(|m|);
    assert m + ([0x80] + Zeros(ZeroCount(|m|))) == m + [0x80] + Zeros(ZeroCount(|m|));
  }

  /**
    What is hashed is a whole number of blocks: the message, a one bit, fewer
    than 64 bytes of zeros, and eight bytes that hold the bit length.
   */
  lemma PaddedIsWholeBlocks(m: seq<Byte>)
    ensures var p, end := Padded(m), |Padded(m)| - 8;
            && |p| % 64 == 0 && |m| < end <= |m| + 64
            && p[..|m|] == m && p[|m|] == 0x80 && (forall i :: |m| < i < end ==> p[i] == 0)
            && FromBytes(p[end..]) == 8 * |m| % 0x1_0000_0000_0000_0000
  {
    var bits := 8 * |m| % 0x1_0000_0000_0000_0000;
    LittleEndianLength(bits, 8);
    EightMore(|m| + 1 + ZeroCount(|m|));
    assert Padded(m)[|Padded(m)| - 8..] == LittleEndian(bits, 8);
    EightBytes(bits);
  }

  lemma EightBytes(n: nat)
    requires n < 0x1_0000_0000_0000_0000
    ensures FromBytes(LittleEndian(n, 8)) == n
  {
    assert P256(1) == 0x100 && P256(2) == 0x1_0000 && P256(3) == 0x100_0000 && P256(4) == 0x1_0000_0000;
    assert P256(5) == 0x100_0000_0000 && P256(6) == 0x1_0000_0000_0000 && P256(7) == 0x100_0000_0000_0000;
    NumberOfBytes(n, 8);
  }

  /** 256 to the power `k`. */
  function P256(k: nat): nat { if k == 0 then 1 else 0x100 * P256(k - 1) }

  lemma {:induction false} NumberOfBytes(n: nat, k: nat)
    requires n < P256(k)
    ensures FromBytes(LittleEndian(n, k)) == n
    decreases k
  {
    if k > 0 {
      NumberOfBytes(n / 0x100, k - 1);
      NumberCons(n % 0x100, LittleEndian(n / 0x100, k - 1));
    }
  }

  /** The initial words, in the byte order section 3.3 of RFC 1321 lists them. */
  lemma InitialBytes()
    ensures EncodeWord(INIT.a) == [0x01, 0x23, 0x45, 0x67] && EncodeWord(INIT.b) == [0x89, 0xab, 0xcd, 0xef]
    ensures EncodeWord(INIT.c) == [0xfe, 0xdc, 0xba, 0x98] && EncodeWord(INIT.d) == [0x76, 0x54, 0x32, 0x10]
  {
  }

  lemma EightMore(n: nat)
    requires n % 64 == 56
    ensures (n + 8) % 64 == 0
  {
  }

  lemma {:induction false} LittleEndianLength(n: nat, k: nat)
    ensures |LittleEndian(n, k)| == k
    decreases k
  {
    if k > 0 {
      LittleEndianLength(n / 0x100, k - 1);
    }
  }

  /** The digest of a message, in one go. */
  function Digest(t: Transform, m: seq<Byte>): seq<Byte> { Encode(WordsOf(Fold(t, INIT, Padded(m)))) }

  function Flatten(chunks: seq<seq<Byte>>): seq<Byte> {
    if chunks == [] then [] else Flatten(chunks[..|chunks| - 1]) + chunks[|chunks| - 1]
  }

  /** However the message is cut up, the digest is that of the whole. */
  method DigestChunks(c: Context, chunks: seq<seq<Byte>>) returns (digest: seq<Byte>)
    requires c.buffer.Length == 64
    requires forall i :: 0 <= i < |chunks| ==> |chunks[i]| <= 0xffff_ffc0
    modifies c, c.buffer
    ensures digest == Digest(c.transform, Flatten(chunks))
    ensures var s := Fold(c.transform, INIT, Padded(Flatten(chunks)));
            |digest| == 16 && Decode(digest) == [s.a, s.b, s.c, s.d]
  {
    c.Init();
    for i := 0 to |chunks|
      invariant c.Valid() && c.start == INIT && c.message == Flatten(chunks[..i])
    {
      c.Update(chunks[i]);
      assert chunks[..i + 1][..i] == chunks[..i];
    }
    assert chunks[..|chunks|] == chunks;
    digest := c.Final();
  }
}
