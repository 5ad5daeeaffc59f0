/**
  Ranges of runes, the currency of every cutting stage, and the way they are
  finally turned into words of the sentence.
 */
module WordRanges {
  import opened Unicode

  /** The closed interval of runes [left, right]. */
  datatype WordRange = WordRange(left: nat, right: nat)

  /** `rs` cuts the runes [lo, hi) into consecutive non-empty ranges. */
  predicate Tiles(rs: seq<WordRange>, lo: nat, hi: nat) {
    if rs == [] then lo == hi
    else
      && rs[0].left == lo && lo <= rs[0].right < hi
      && Tiles(rs[1..], rs[0].right + 1, hi)
  }

  lemma {:induction false} TilesAppend(a: seq<WordRange>, b: seq<WordRange>, lo: nat, mid: nat, hi: nat)
    requires Tiles(a, lo, mid) && Tiles(b, mid, hi)
    ensures Tiles(a + b, lo, hi) && lo <= mid
  {
    if a == [] {
      assert a + b == b;
    } else {
      TilesOrdered(b, mid, hi);
      TilesAppend(a[1..], b, a[0].right + 1, mid, hi);
      assert (a + b)[1..] == a[1..] + b;
    }
  }

  lemma {:induction false} TilesOrdered(a: seq<WordRange>, lo: nat, hi: nat)
    requires Tiles(a, lo, hi)
    ensures lo <= hi && (a == [] <==> lo == hi)
  {
    if a != [] {
      TilesOrdered(a[1..], a[0].right + 1, hi);
    }
  }

  lemma TilesCons(r: WordRange, rest: seq<WordRange>, hi: nat)
    requires r.left <= r.right < hi && Tiles(rest, r.right + 1, hi)
    ensures Tiles([r] + rest, r.left, hi)
  {
    assert ([r] + rest)[1..] == rest;
  }

  /** Every range of a tiling lies inside the tiled interval. */
  lemma {:induction false} TilesBounds(a: seq<WordRange>, lo: nat, hi: nat, k: nat)
    requires Tiles(a, lo, hi) && k < |a|
    ensures lo <= a[k].left <= a[k].right < hi
    ensures Tiles(a[..k], lo, a[k].left) && Tiles(a[k..], a[k].left, hi)
  {
    if k == 0 {
      assert a[..0] == [] && a[0..] == a;
    } else {
      TilesBounds(a[1..], a[0].right + 1, hi, k - 1);
      assert a[1..][..k - 1] == a[..k][1..];
      assert a[1..][k - 1..] == a[k..];
    }
  }

  // ---------------------------------------------------------------------
  // From ranges to words
  // ---------------------------------------------------------------------

  datatype Word = Word(word: seq<Byte>, offset: nat, unicodeOffset: nat, unicodeLength: nat)

  function GetWordFromRunes(s: seq<Byte>, rs: seq<RuneStr>, left: nat, right: nat): (w: Word)
    requires Contiguous(rs, |s|) && left <= right < |rs|
    ensures w.offset == rs[left].offset && w.offset + |w.word| == Offset(rs, |s|, right + 1)
    ensures w.offset + |w.word| <= |s| && w.word == s[w.offset..w.offset + |w.word|]
    ensures w.word != [] && w.unicodeOffset == left && w.unicodeLength == right - left + 1
  {
    OffsetsOrdered(rs, |s|, left, right);
    OffsetsOrdered(rs, |s|, right + 1, |rs|);
    assert Abuts(rs, |s|, left) && Abuts(rs, |s|, right);
    var len := rs[right].offset - rs[left].offset + rs[right].len;
    var unicodeLength := rs[right].unicodeOffset - rs[left].unicodeOffset + rs[right].unicodeLength;
    Word(s[rs[left].offset..rs[left].offset + len], rs[left].offset, rs[left].unicodeOffset, unicodeLength)
  }

  lemma {:induction false} OffsetsOrdered(rs: seq<RuneStr>, end: nat, i: nat, j: nat)
    requires Contiguous(rs, end) && i <= j <= |rs|
    ensures Offset(rs, end, i) + (j - i) <= Offset(rs, end, j)
    decreases j - i
  {
    if i < j {
      assert Abuts(rs, end, i);
      OffsetsOrdered(rs, end, i + 1, j);
    }
  }

  /** Rune `k` of a slice [a, e) of whole runes. */
  lemma DecodeRuneOfSlice(s: seq<Byte>, rs: seq<RuneStr>, a: nat, e: nat, k: nat)
    requires Contiguous(rs, |s|) && ReadsAll(s, rs) && k < |rs|
    requires a <= rs[k].offset && rs[k].offset + rs[k].len <= e <= |s|
    ensures DecodeRuneInString(s[a..e], rs[k].offset - a) == RuneStrLite(rs[k].rune, rs[k].len)
    ensures 1 <= rs[k].len && Offset(rs, |s|, k + 1) == rs[k].offset + rs[k].len
  {
    assert Abuts(rs, |s|, k) && Reads(s, rs[k]);
    DecodeInSlice(s, a, e, rs[k].offset);
  }

  /** The bytes of whole runes up to `end` decode to exactly these, here from rune `k` on. */
  lemma {:induction false} SliceDecodes(s: seq<Byte>, rs: seq<RuneStr>, a: nat, k: nat, end: nat)
    requires Contiguous(rs, |s|) && ReadsAll(s, rs) && k <= end <= |rs|
    requires a <= Offset(rs, |s|, k)
    ensures var i, e := Offset(rs, |s|, k), Offset(rs, |s|, end);
            i <= e <= |s| && DecodesFrom(s[a..e], i - a) && DecodedFrom(s[a..e], i - a) == RunesOf(rs)[k..end]
    decreases end - k
  {
    OffsetsOrdered(rs, |s|, k, end);
    OffsetsOrdered(rs, |s|, end, |rs|);
    if k < end {
      assert Abuts(rs, |s|, k);
      OffsetsOrdered(rs, |s|, k + 1, end);
      var i, e := Offset(rs, |s|, k), Offset(rs, |s|, end);
      SliceDecodes(s, rs, a, k + 1, end);
      DecodeRuneOfSlice(s, rs, a, e, k);
      DecodeStep(s[a..e], i - a, []);
      RunesFrom(rs, k, end);
    }
  }

  lemma RunesFrom(rs: seq<RuneStr>, k: nat, end: nat)
    requires k < end <= |rs|
    ensures RunesOf(rs)[k..end] == [rs[k].rune] + RunesOf(rs)[k + 1..end]
  {
  }

  /** The word's bytes decode to the runes of its range. */
  predicate SpellsRange(w: Word, runes: seq<Rune>, r: WordRange) {
    && r.left <= r.right < |runes|
    && w.unicodeOffset == r.left && w.unicodeLength == r.right - r.left + 1
    && Decodes(w.word) && Decoded(w.word) == runes[r.left..r.right + 1]
  }

  lemma WordSpellsRange(s: seq<Byte>, rs: seq<RuneStr>, r: WordRange, w: Word)
    requires Contiguous(rs, |s|) && ReadsAll(s, rs) && r.left <= r.right < |rs|
    requires w.unicodeOffset == r.left && w.unicodeLength == r.right - r.left + 1
    requires var a, e := rs[r.left].offset, Offset(rs, |s|, r.right + 1); a <= e <= |s| && w.word == s[a..e]
    ensures SpellsRange(w, RunesOf(rs), r)
  {
    SliceDecodes(s, rs, rs[r.left].offset, r.left, r.right + 1);
  }

  /** The first words spell the first ranges. */
  predicate SpellAll(words: seq<Word>, runes: seq<Rune>, wrs: seq<WordRange>) {
    && |words| <= |wrs|
    && forall k {:trigger SpellsRange(words[k], runes, wrs[k])} ::
         0 <= k < |words| ==> SpellsRange(words[k], runes, wrs[k])
  }

  lemma SpellNext(words: seq<Word>, w: Word, runes: seq<Rune>, wrs: seq<WordRange>)
    requires SpellAll(words, runes, wrs) && |words| < |wrs| && SpellsRange(w, runes, wrs[|words|])
    ensures SpellAll(words + [w], runes, wrs)
  {
  }

  function Concat(ws: seq<Word>): seq<Byte> {
    if ws == [] then [] else Concat(ws[..|ws| - 1]) + ws[|ws| - 1].word
  }

  /** Every word is non-empty and starts where the words before it end. */
  predicate WellPlaced(ws: seq<Word>) {
    forall k :: 0 <= k < |ws| ==> ws[k].word != [] && ws[k].offset == |Concat(ws[..k])|
  }

  /** The words so far spell the sentence up to byte `e`. */
  predicate SpelledUpTo(s: seq<Byte>, e: nat, words: seq<Word>) {
    e <= |s| && Concat(words) == s[..e] && WellPlaced(words)
  }

  lemma SpellOn(s: seq<Byte>, e: nat, words: seq<Word>, w: Word)
    requires SpelledUpTo(s, e, words) && w.offset == e && w.word != []
    requires e + |w.word| <= |s| && w.word == s[e..e + |w.word|]
    ensures SpelledUpTo(s, e + |w.word|, words + [w])
  {
    PlaceNext(words, w);
  }

  /** The words for the ranges before `i`, which cover the runes before `at`. */
  predicate Worded(s: seq<Byte>, rs: seq<RuneStr>, wrs: seq<WordRange>, i: nat, at: nat, words: seq<Word>) {
    && i == |words| <= |wrs| && at <= |rs| && Tiles(wrs[i..], at, |rs|)
    && SpelledUpTo(s, Offset(rs, |s|, at), words) && SpellAll(words, RunesOf(rs), wrs)
  }

  lemma {:induction false} NextRange(wrs: seq<WordRange>, i: nat, at: nat, n: nat)
    requires i < |wrs| && Tiles(wrs[i..], at, n)
    ensures wrs[i].left == at <= wrs[i].right < n && Tiles(wrs[i + 1..], wrs[i].right + 1, n)
  {
    assert wrs[i..][0] == wrs[i] && wrs[i..][1..] == wrs[i + 1..];
  }

  method AddWord(s: seq<Byte>, rs: seq<RuneStr>, wrs: seq<WordRange>, i: nat, ghost at: nat, words: seq<Word>)
    returns (words': seq<Word>)
    requires Contiguous(rs, |s|) && ReadsAll(s, rs) && i < |wrs| && Worded(s, rs, wrs, i, at, words)
    ensures Worded(s, rs, wrs, i + 1, wrs[i].right + 1, words')
  {
    NextRange(wrs, i, at, |rs|);
    var w := WordOfRange(s, rs, wrs[i]);
    SpellOn(s, Offset(rs, |s|, at), words, w);
    SpellNext(words, w, RunesOf(rs), wrs);
    words' := words + [w];
  }

  method GetWordsFromWordRanges(s: seq<Byte>, rs: seq<RuneStr>, wrs: seq<WordRange>)
    returns (words: seq<Word>)
    requires Contiguous(rs, |s|) && ReadsAll(s, rs) && Tiles(wrs, 0, |rs|)
    ensures |words| == |wrs| && Concat(words) == s && WellPlaced(words)
    ensures SpellAll(words, RunesOf(rs), wrs)
  {
    words := [];
    ghost var at: nat := 0;
    var i := 0;
    assert wrs[0..] == wrs;
    while i < |wrs|
      invariant 0 <= i <= |wrs| && Worded(s, rs, wrs, i, at, words)
    {
      words := AddWord(s, rs, wrs, i, at, words);
      at := wrs[i].right + 1;
      i := i + 1;
    }
    assert wrs[i..] == [];
  }

  /** One word, with what the loop needs to know of it. */
  method WordOfRange(s: seq<Byte>, rs: seq<RuneStr>, r: WordRange) returns (w: Word)
    requires Contiguous(rs, |s|) && ReadsAll(s, rs) && r.left <= r.right < |rs|
    ensures w.offset == rs[r.left].offset && w.offset + |w.word| == Offset(rs, |s|, r.right + 1) <= |s|
    ensures w.word == s[w.offset..w.offset + |w.word|] && w.word != [] && SpellsRange(w, RunesOf(rs), r)
  {
    w := GetWordFromRunes(s, rs, r.left, r.right);
    WordSpellsRange(s, rs, r, w);
  }

  lemma PlaceNext(ws: seq<Word>, w: Word)
    requires WellPlaced(ws) && w.word != [] && w.offset == |Concat(ws)|
    ensures WellPlaced(ws + [w]) && Concat(ws + [w]) == Concat(ws) + w.word
  {
    var r := ws + [w];
    assert r[..|r| - 1] == ws;
    forall k | 0 <= k < |r| ensures r[k].word != [] && r[k].offset == |Concat(r[..k])| {
      if k < |ws| {
        assert r[..k] == ws[..k];
      } else {
        assert r[..k] == ws;
      }
    }
  }
}
