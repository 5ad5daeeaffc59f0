/**
  UTF-8 decoding as the segmenter and the string utilities do it: the case
  analysis on one lead byte, the loop that builds the rune array with byte
  offsets, the second decoder that inlines the same case analysis, and the
  encoder. Malformed input is accepted exactly where the code accepts it: a
  lead byte in 0x80..0xBF counts as a two-byte lead, and continuation bytes
  are never checked.
 */
module Unicode {

  type Byte = bv8
  type Code = bv32

  /** A code point as the segmenter stores it: any 32-bit value. */
  datatype Rune = Rune(code: Code)

  datatype RuneStrLite = RuneStrLite(rune: Rune, len: nat)

  /** One decoded rune with its position in bytes and in runes. */
  datatype RuneStr = RuneStr(rune: Rune, offset: nat, len: nat, unicodeOffset: nat, unicodeLength: nat)

  // The bits of a rune, joined from the payload bits of 1, 2, 3 or 4 bytes.
  function Join1(a: Byte): Code { (a & 0x7f) as Code }
  function Join2(a: Byte, b: Byte): Code { ((a & 0x1f) as Code << 6) | (b & 0x3f) as Code }
  function Join3(a: Byte, b: Byte, c: Byte): Code {
    ((((a & 0x0f) as Code << 6) | (b & 0x3f) as Code) << 6) | (c & 0x3f) as Code
  }
  function Join4(a: Byte, b: Byte, c: Byte, d: Byte): Code {
    ((((((a & 0x07) as Code << 6) | (b & 0x3f) as Code) << 6) | (c & 0x3f) as Code) << 6) | (d & 0x3f) as Code
  }

  /** Decodes the rune that starts at byte `i` of `s`; length 0 reports failure. */
  function DecodeRuneInString(s: seq<Byte>, i: nat): (rp: RuneStrLite)
    requires i <= |s|
    ensures rp.len <= 4 && i + rp.len <= |s|
    ensures rp.len == 0 ==> rp.rune == Rune(0)
  {
    if i == |s| then RuneStrLite(Rune(0), 0)
    else if s[i] & 0x80 == 0 then RuneStrLite(Rune(Join1(s[i])), 1)
    else if s[i] <= 0xdf && i + 1 < |s| then RuneStrLite(Rune(Join2(s[i], s[i + 1])), 2)
    else if s[i] <= 0xef && i + 2 < |s| then RuneStrLite(Rune(Join3(s[i], s[i + 1], s[i + 2])), 3)
    else if s[i] <= 0xf7 && i + 3 < |s| then RuneStrLite(Rune(Join4(s[i], s[i + 1], s[i + 2], s[i + 3])), 4)
    else RuneStrLite(Rune(0), 0)
  }

  // ---------------------------------------------------------------------
  // Reference meaning of decoding
  // ---------------------------------------------------------------------

  /** The runes decoded from byte `i` up to the first failure (to the end if there is none). */
  function DecodedFrom(s: seq<Byte>, i: nat): seq<Rune>
    requires i <= |s|
    decreases |s| - i
  {
    var rp := DecodeRuneInString(s, i);
    if rp.len == 0 then [] else [rp.rune] + DecodedFrom(s, i + rp.len)
  }

  /** Whether the bytes from `i` on all decode. */
  predicate DecodesFrom(s: seq<Byte>, i: nat)
    requires i <= |s|
    decreases |s| - i
  {
    i == |s| || (var rp := DecodeRuneInString(s, i); rp.len != 0 && DecodesFrom(s, i + rp.len))
  }

  function Decoded(s: seq<Byte>): seq<Rune> { DecodedFrom(s, 0) }
  predicate Decodes(s: seq<Byte>) { DecodesFrom(s, 0) }

  function RunesOf(rs: seq<RuneStr>): (r: seq<Rune>)
    ensures |r| == |rs| && forall i :: 0 <= i < |rs| ==> r[i] == rs[i].rune
  {
    seq(|rs|, i requires 0 <= i < |rs| => rs[i].rune)
  }

  /** Byte offset at which rune `k` starts; rune `|rs|` starts at `end`. */
  function Offset(rs: seq<RuneStr>, end: nat, k: nat): nat
    requires k <= |rs|
  {
    if k < |rs| then rs[k].offset else end
  }

  /** Rune `k` is not empty and the next one starts where it ends. */
  predicate Abuts(rs: seq<RuneStr>, end: nat, k: nat)
    requires k < |rs|
  {
    && 1 <= rs[k].len
    && Offset(rs, end, k + 1) == rs[k].offset + rs[k].len
    && rs[k].unicodeOffset == k && rs[k].unicodeLength == 1
  }

  /** `rs` lies over the bytes [0, end) without gap, overlap or empty rune. */
  predicate Contiguous(rs: seq<RuneStr>, end: nat) {
    && Offset(rs, end, 0) == 0
    && forall k :: 0 <= k < |rs| ==> Abuts(rs, end, k)
  }

  // ---------------------------------------------------------------------
  // The two decoders
  // ---------------------------------------------------------------------

  lemma Extend(rs: seq<RuneStr>, end: nat, x: RuneStr)
    requires Contiguous(rs, end)
    requires x.offset == end && 1 <= x.len && x.unicodeOffset == |rs| && x.unicodeLength == 1
    ensures Contiguous(rs + [x], end + x.len)
    ensures RunesOf(rs + [x]) == RunesOf(rs) + [x.rune]
  {
    var r, e := rs + [x], end + x.len;
    forall k | 0 <= k < |r| ensures Abuts(r, e, k) {
      assert k < |rs| ==> Abuts(rs, end, k);
    }
  }

  /** The entry is what decoding at its offset gives. */
  predicate Reads(s: seq<Byte>, x: RuneStr) {
    x.offset <= |s| && DecodeRuneInString(s, x.offset) == RuneStrLite(x.rune, x.len)
  }

  predicate ReadsAll(s: seq<Byte>, rs: seq<RuneStr>) {
    forall k {:trigger Reads(s, rs[k])} :: 0 <= k < |rs| ==> Reads(s, rs[k])
  }

  method DecodeRunesInString(s: seq<Byte>) returns (ok: bool, runes: seq<RuneStr>)
    ensures ok == Decodes(s)
    ensures ok ==> RunesOf(runes) == Decoded(s) && Contiguous(runes, |s|) && ReadsAll(s, runes)
    ensures !ok ==> runes == []
  {
    runes := [];
    var i, j := 0, 0;
    while i < |s|
      invariant 0 <= i <= |s| && j == |runes|
      invariant Contiguous(runes, i) && ReadsAll(s, runes)
      invariant Decodes(s) == DecodesFrom(s, i)
      invariant RunesOf(runes) + DecodedFrom(s, i) == Decoded(s)
    {
      var rp := DecodeRuneInString(s, i);
      if rp.len == 0 {
        return false, [];
      }
      var x := RuneStr(rp.rune, i, rp.len, j, 1);
      Extend(runes, i, x);
      DecodeStep(s, i, RunesOf(runes));
      runes := runes + [x];
      i := i + rp.len;
      j := j + 1;
    }
    return true, runes;
  }

  /** One turn of either decoding loop, `vec` being what it has collected. */
  lemma DecodeStep(s: seq<Byte>, i: nat, vec: seq<Rune>)
    requires i < |s|
    ensures var rp := DecodeRuneInString(s, i);
            && (rp.len == 0 ==> !DecodesFrom(s, i) && vec + DecodedFrom(s, i) == vec)
            && (rp.len != 0 ==>
                  && DecodesFrom(s, i) == DecodesFrom(s, i + rp.len)
                  && vec + DecodedFrom(s, i) == (vec + [rp.rune]) + DecodedFrom(s, i + rp.len))
  {
  }

  /** A rune that fits into a slice is decoded there as in the whole. */
  lemma DecodeInSlice(s: seq<Byte>, a: nat, e: nat, i: nat)
    requires a <= i < e <= |s|
    requires var rp := DecodeRuneInString(s, i); rp.len > 0 && i + rp.len <= e
    ensures DecodeRuneInString(s[a..e], i - a) == DecodeRuneInString(s, i)
  {
  }

  /** The string utility's decoder: on failure it keeps what it had decoded. */
  method Utf8ToUnicode32(str: seq<Byte>) returns (ok: bool, vec: seq<Rune>)
    ensures ok == Decodes(str)
    ensures vec == Decoded(str)
  {
    vec := [];
    var i := 0;
    while i < |str|
      invariant 0 <= i <= |str|
      invariant Decodes(str) == DecodesFrom(str, i)
      invariant vec + DecodedFrom(str, i) == Decoded(str)
    {
      DecodeStep(str, i, vec);
      ghost var rp := DecodeRuneInString(str, i);
      var tmp: Code, was := 0, i;
      if str[i] & 0x80 == 0 {
        tmp := Join1(str[i]);
        i := i + 1;
      } else if str[i] <= 0xdf && i + 1 < |str| {
        tmp := Join2(str[i], str[i + 1]);
        i := i + 2;
      } else if str[i] <= 0xef && i + 2 < |str| {
        tmp := Join3(str[i], str[i + 1], str[i + 2]);
        i := i + 3;
      } else if str[i] <= 0xf7 && i + 3 < |str| {
        tmp := Join4(str[i], str[i + 1], str[i + 2], str[i + 3]);
        i := i + 4;
      } else {
        return false, vec;
      }
      assert rp == RuneStrLite(Rune(tmp), i - was);
      vec := vec + [Rune(tmp)];
    }
    return true, vec;
  }

  // ---------------------------------------------------------------------
  // The encoder and the round trip
  // ---------------------------------------------------------------------

  // The lead bytes of the 2-, 3- and 4-byte forms and the continuation byte.
  function Lead2(ui: Code): Byte { (((ui >> 6) & 0x1f) | 0xc0) as Byte }
  function Lead3(ui: Code): Byte { (((ui >> 12) & 0x0f) | 0xe0) as Byte }
  function Lead4(ui: Code): Byte { (((ui >> 18) & 0x03) | 0xf0) as Byte }
  function Cont(ui: Code): Byte { ((ui & 0x3f) | 0x80) as Byte }

  /** The bytes the encoder appends for one rune. */
  function EncodeRune(ui: Code): (bs: seq<Byte>)
    ensures 1 <= |bs| <= 4
  {
    if ui <= 0x7f then [ui as Byte]
    else if ui <= 0x7ff then [Lead2(ui), Cont(ui)]
    else if ui <= 0xffff then [Lead3(ui), Cont(ui >> 6), Cont(ui)]
    else [Lead4(ui), Cont(ui >> 12), Cont(ui >> 6), Cont(ui)]
  }

  function Encoded(rs: seq<Rune>): seq<Byte> {
    if rs == [] then [] else EncodeRune(rs[0].code) + Encoded(rs[1..])
  }

  lemma {:induction false} EncodedAppend(rs: seq<Rune>, ui: Rune)
    ensures Encoded(rs + [ui]) == Encoded(rs) + EncodeRune(ui.code)
  {
    if rs == [] {
      assert Encoded([ui]) == EncodeRune(ui.code) + Encoded([]);
    } else {
      assert (rs + [ui])[1..] == rs[1..] + [ui];
      EncodedAppend(rs[1..], ui);
    }
  }

  method Unicode32ToUtf8(rs: seq<Rune>) returns (res: seq<Byte>)
    ensures res == Encoded(rs)
  {
    res := [];
    var begin := 0;
    while begin != |rs|
      invariant 0 <= begin <= |rs|
      invariant res == Encoded(rs[..begin])
    {
      var ui := rs[begin].code;
      EncodedAppend(rs[..begin], rs[begin]);
      assert rs[..begin] + [rs[begin]] == rs[..begin + 1];
      var bytes: seq<Byte>;
      if ui <= 0x7f {
        bytes := [ui as Byte];
      } else if ui <= 0x7ff {
        bytes := [Lead2(ui), Cont(ui)];
      } else if ui <= 0xffff {
        bytes := [Lead3(ui), Cont(ui >> 6), Cont(ui)];
      } else {
        bytes := [Lead4(ui), Cont(ui >> 12), Cont(ui >> 6), Cont(ui)];
      }
      assert bytes == EncodeRune(ui);
      res := res + bytes;
      begin := begin + 1;
    }
    assert rs[..begin] == rs;
  }

  /** What survives encoding: the lead byte of a four-byte form keeps only two bits. */
  function Kept(ui: Code): Code { if ui <= 0xffff then ui else ui & 0xfffff }

  function AllKept(rs: seq<Rune>): (r: seq<Rune>)
    ensures |r| == |rs| && forall i :: 0 <= i < |rs| ==> r[i].code == Kept(rs[i].code)
  {
    seq(|rs|, i requires 0 <= i < |rs| => Rune(Kept(rs[i].code)))
  }

  lemma JoinOfSplit1(ui: Code)
    requires ui <= 0x7f
    ensures Join1(ui as Byte) == ui && ui as Byte & 0x80 == 0
  {
  }

  lemma JoinOfSplit2(ui: Code)
    requires 0x7f < ui <= 0x7ff
    ensures Join2(Lead2(ui), Cont(ui)) == ui
    ensures Lead2(ui) & 0x80 != 0 && Lead2(ui) <= 0xdf
  {
  }

  lemma JoinOfSplit3(ui: Code)
    requires 0x7ff < ui <= 0xffff
    ensures Join3(Lead3(ui), Cont(ui >> 6), Cont(ui)) == ui
    ensures Lead3(ui) & 0x80 != 0 && 0xdf < Lead3(ui) <= 0xef
  {
  }

  lemma JoinOfSplit4(ui: Code)
    requires 0xffff < ui
    ensures Join4(Lead4(ui), Cont(ui >> 12), Cont(ui >> 6), Cont(ui)) == Kept(ui)
    ensures Lead4(ui) & 0x80 != 0 && 0xef < Lead4(ui) <= 0xf7
  {
  }

  lemma DecodeOfEncode(pre: seq<Byte>, ui: Code, rest: seq<Byte>)
    ensures DecodeRuneInString(pre + EncodeRune(ui) + rest, |pre|) == RuneStrLite(Rune(Kept(ui)), |EncodeRune(ui)|)
  {
    var e := EncodeRune(ui);
    var s := pre + e + rest;
    assert forall k :: 0 <= k < |e| ==> s[|pre| + k] == e[k];
    if ui <= 0x7f {
      JoinOfSplit1(ui);
    } else if ui <= 0x7ff {
      JoinOfSplit2(ui);
    } else if ui <= 0xffff {
      JoinOfSplit3(ui);
    } else {
      JoinOfSplit4(ui);
    }
  }

  lemma {:induction false} DecodeEncodedAfter(pre: seq<Byte>, rs: seq<Rune>)
    ensures DecodesFrom(pre + Encoded(rs), |pre|)
    ensures DecodedFrom(pre + Encoded(rs), |pre|) == AllKept(rs)
    decreases |rs|
  {
    if rs == [] {
      assert pre + Encoded(rs) == pre;
    } else {
      var head, tail := EncodeRune(rs[0].code), Encoded(rs[1..]);
      var s := pre + head + tail;
      assert pre + Encoded(rs) == s;
      DecodeOfEncode(pre, rs[0].code, tail);
      DecodeStep(s, |pre|, []);
      DecodeEncodedAfter(pre + head, rs[1..]);
      assert AllKept(rs) == [Rune(Kept(rs[0].code))] + AllKept(rs[1..]);
    }
  }

  /** Decoding the encoder's output always succeeds and returns the kept bits. */
  lemma DecodeEncoded(rs: seq<Rune>)
    ensures Decodes(Encoded(rs)) && Decoded(Encoded(rs)) == AllKept(rs)
  {
    DecodeEncodedAfter([], rs);
    assert [] + Encoded(rs) == Encoded(rs);
  }

  /** The round trip is lossless exactly for runes below 0x100000. */
  lemma RoundTripExactly(rs: seq<Rune>)
    ensures Decoded(Encoded(rs)) == rs <==> forall i :: 0 <= i < |rs| ==> rs[i].code < 0x100000
  {
    DecodeEncoded(rs);
    assert forall i :: 0 <= i < |rs| ==> (AllKept(rs)[i] == rs[i] <==> rs[i].code < 0x100000);
    if AllKept(rs) != rs {
      assert exists i :: 0 <= i < |rs| && AllKept(rs)[i] != rs[i];
    }
  }

  /** U+10FFFF, a valid scalar value, comes back as U+FFFF. */
  lemma PlaneSixteenIsLost()
    ensures Decoded(Encoded([Rune(0x10ffff)])) == [Rune(0xffff)]
  {
    DecodeEncoded([Rune(0x10ffff)]);
    assert AllKept([Rune(0x10ffff)])[0].code == 0xffff;
  }
}
