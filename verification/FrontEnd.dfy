/**
  From a sentence to what the tone passes are given: cutting, tagging,
  retagging of English words, and merging.
 */
module FrontEnd {
  import opened Options
  import opened Unicode
  import WordRanges
  import Trie
  import MixSegment
  import PosTagger
  import MergePasses
  import ToneSandhi

  type Seg = MergePasses.Seg

  /** How a rune reads as a character. */
  type Glyphs = Rune -> char

  /** Space, tab, newline, and the full-width comma and stop. */
  const SEPARATORS: set<Rune> := {SPACE, Rune(0x09), Rune(0x0a), Rune(0xff0c), Rune(0x3002)}

  const SPACE: Rune := Rune(0x20)

  // ---------------------------------------------------------------------
  // What of a sentence is spoken
  // ---------------------------------------------------------------------

  /** The runes from byte `i` on, except those written as a space byte. */
  function SpokenFrom(s: seq<Byte>, i: nat): seq<Rune>
    requires i <= |s|
    decreases |s| - i
  {
    var rp := DecodeRuneInString(s, i);
    if rp.len == 0 then []
    else (if s[i] == 0x20 then [] else [rp.rune]) + SpokenFrom(s, i + rp.len)
  }

  function Spoken(s: seq<Byte>): seq<Rune> { SpokenFrom(s, 0) }

  /** Decoding is the same whatever follows a string that decodes. */
  lemma DecodeInFront(a: seq<Byte>, b: seq<Byte>, i: nat)
    requires i < |a| && DecodeRuneInString(a, i).len > 0
    ensures DecodeRuneInString(a + b, i) == DecodeRuneInString(a, i)
  {
  }

  lemma {:induction false} SpokenOfConcat(a: seq<Byte>, b: seq<Byte>, c: seq<Byte>, i: nat)
    requires c == a + b && i <= |a| && DecodesFrom(a, i)
    ensures SpokenFrom(c, i) == SpokenFrom(a, i) + SpokenFrom(c, |a|)
    ensures DecodesFrom(c, |a|) ==> DecodesFrom(c, i)
    decreases |a| - i
  {
    if i < |a| {
      DecodeInFront(a, b, i);
      SpokenStep(a, i);
      SpokenStep(c, i);
      SpokenOfConcat(a, b, c, i + DecodeRuneInString(a, i).len);
    }
  }

  lemma {:induction false} SpokenBehind(a: seq<Byte>, b: seq<Byte>, c: seq<Byte>, i: nat)
    requires c == a + b && i <= |b|
    ensures SpokenFrom(c, |a| + i) == SpokenFrom(b, i) && DecodesFrom(c, |a| + i) == DecodesFrom(b, i)
    decreases |b| - i
  {
    var len := DecodeRuneInString(b, i).len;
    DecodeBehind(a, b, i);
    if len > 0 {
      SpokenStep(b, i);
      SpokenStep(c, |a| + i);
      SpokenBehind(a, b, c, i + len);
    }
  }

  lemma SpokenStep(s: seq<Byte>, i: nat)
    requires i < |s| && DecodeRuneInString(s, i).len > 0
    ensures var rp := DecodeRuneInString(s, i);
            SpokenFrom(s, i) == (if s[i] == 0x20 then [] else [rp.rune]) + SpokenFrom(s, i + rp.len)
  {
  }

  lemma DecodeBehind(a: seq<Byte>, b: seq<Byte>, i: nat)
    requires i <= |b|
    ensures DecodeRuneInString(a + b, |a| + i) == DecodeRuneInString(b, i)
  {
  }

  /** A string without spaces inside is spoken in full, or is one space. */
  lemma {:induction false} SpokenWithoutSpaces(w: seq<Byte>, i: nat)
    requires i <= |w| && DecodesFrom(w, i) && SPACE !in DecodedFrom(w, i)
    ensures SpokenFrom(w, i) == DecodedFrom(w, i)
    decreases |w| - i
  {
    if i < |w| {
      var rp := DecodeRuneInString(w, i);
      SpaceByteIsSpace(w, i);
      assert DecodedFrom(w, i) == [rp.rune] + DecodedFrom(w, i + rp.len);
      SpokenWithoutSpaces(w, i + rp.len);
    }
  }

  lemma SpaceByteIsSpace(s: seq<Byte>, i: nat)
    requires i < |s|
    ensures s[i] == 0x20 ==> DecodeRuneInString(s, i) == RuneStrLite(SPACE, 1)
  {
  }

  /** What the segmenter makes: whole runes, and a space only by itself. */
  predicate Clean(w: seq<Byte>) {
    w != [] && Decodes(w) && (SPACE in Decoded(w) ==> |Decoded(w)| == 1)
  }

  /** Of such a word everything is spoken, unless it is the space byte. */
  lemma SpokenOfWord(w: seq<Byte>)
    requires Clean(w)
    ensures Decoded(w) != [] && Spoken(w) == if w == PosTagger.SPACE then [] else Decoded(w)
  {
    var rp := DecodeRuneInString(w, 0);
    SpaceByteIsSpace(w, 0);
    DecodeStep(w, 0, []);
    if SPACE in Decoded(w) {
      OneRuneWord(w);
      SpokenStep(w, 0);
    } else {
      SpokenWithoutSpaces(w, 0);
    }
  }

  lemma OneRuneWord(w: seq<Byte>)
    requires w != [] && Decodes(w) && |Decoded(w)| == 1
    ensures var rp := DecodeRuneInString(w, 0); rp.len == |w| && Decoded(w) == [rp.rune]
  {
    var len := DecodeRuneInString(w, 0).len;
    DecodeStep(w, 0, []);
    if len < |w| {
      DecodeStep(w, len, []);
    }
  }

  function Glyph(glyph: Glyphs, runes: seq<Rune>): (t: string)
    ensures |t| == |runes| && forall i :: 0 <= i < |t| ==> t[i] == glyph(runes[i])
  {
    seq(|runes|, i requires 0 <= i < |runes| => glyph(runes[i]))
  }

  /** The words one after the other, as bytes and as characters. */
  function Flat(ws: seq<seq<Byte>>): seq<Byte> {
    if ws == [] then [] else Flat(ws[..|ws| - 1]) + ws[|ws| - 1]
  }

  function TextOf(glyph: Glyphs, ws: seq<seq<Byte>>): string {
    if ws == [] then "" else TextOf(glyph, ws[..|ws| - 1]) + Glyph(glyph, Decoded(ws[|ws| - 1]))
  }

  lemma SpokenOfNext(glyph: Glyphs, a: seq<Byte>, w: seq<Byte>)
    requires Decodes(a) && Clean(w)
    ensures Decodes(a + w)
    ensures Glyph(glyph, Spoken(a + w)) == Glyph(glyph, Spoken(a)) + Glyph(glyph, Spoken(w))
  {
    SpokenOfConcat(a, w, a + w, 0);
    SpokenBehind(a, w, a + w, 0);
    GlyphConcat(glyph, Spoken(a), Spoken(w));
  }

  lemma GlyphConcat(glyph: Glyphs, a: seq<Rune>, b: seq<Rune>)
    ensures Glyph(glyph, a + b) == Glyph(glyph, a) + Glyph(glyph, b)
  {
  }

  /** The tagged words spell what is spoken of all words together. */
  lemma {:induction false} TaggedIsSpoken(glyph: Glyphs, ws: seq<seq<Byte>>)
    requires forall k :: 0 <= k < |ws| ==> Clean(ws[k])
    ensures Decodes(Flat(ws)) && TextOf(glyph, PosTagger.Tagged(ws)) == Glyph(glyph, Spoken(Flat(ws)))
    decreases |ws|
  {
    if ws != [] {
      var n := |ws| - 1;
      TaggedIsSpoken(glyph, ws[..n]);
      SpokenOfWord(ws[n]);
      SpokenOfNext(glyph, Flat(ws[..n]), ws[n]);
      TaggedNext(glyph, ws);
    }
  }

  lemma TaggedNext(glyph: Glyphs, ws: seq<seq<Byte>>)
    requires ws != [] && ws[|ws| - 1] != []
    ensures var n := |ws| - 1;
            TextOf(glyph, PosTagger.Tagged(ws))
            == TextOf(glyph, PosTagger.Tagged(ws[..n]))
               + (if ws[n] == PosTagger.SPACE then "" else Glyph(glyph, Decoded(ws[n])))
  {
    var n := |ws| - 1;
    var before := PosTagger.Tagged(ws[..n]);
    if ws[n] != PosTagger.SPACE {
      assert (before + [ws[n]])[..|before|] == before;
    }
  }

  // ---------------------------------------------------------------------
  // The steps
  // ---------------------------------------------------------------------

  predicate IsLetter(c: char) { 'a' <= c <= 'z' || 'A' <= c <= 'Z' }

  predicate IsCheckLetter(word: string) { forall i :: 0 <= i < |word| ==> IsLetter(word[i]) }

  function Retagged(s: Seg): Seg { if IsCheckLetter(s.word) then s.(pos := "eng") else s }

  /** Words made of letters only are English, whatever the tagger said. */
  method Retag(segs: seq<Seg>) returns (r: seq<Seg>)
    ensures |r| == |segs| && forall i :: 0 <= i < |r| ==> r[i] == Retagged(segs[i])
    ensures MergePasses.FromTagger(segs) ==> MergePasses.FromTagger(r)
  {
    r := segs;
    for i := 0 to |segs|
      invariant |r| == |segs|
      invariant forall k :: 0 <= k < |r| ==> r[k] == if k < i then Retagged(segs[k]) else segs[k]
    {
      if IsCheckLetter(r[i].word) && r[i].pos != "eng" {
        r := r[i := r[i].(pos := "eng")];
      }
    }
  }

  /** `ws` are the words into which the mixed segmenter cuts the sentence. */
  ghost predicate WordsOfSentence(c: MixSegment.Config, sentence: seq<Byte>, ws: seq<seq<Byte>>)
    requires c.Valid()
  {
    exists words: seq<WordRanges.Word> ::
      && MixSegment.SentenceIsCut(c, SEPARATORS, Decoded(sentence), true, words)
      && |words| == |ws| && forall k :: 0 <= k < |ws| ==> ws[k] == words[k].word
  }

  /** The words of a sentence, as the tagger asks for them. */
  method CutWords(c: MixSegment.Config, trie: Trie.Trie, sentence: seq<Byte>) returns (ws: seq<seq<Byte>>)
    requires c.Valid() && trie.Valid() && trie.dict == c.dict
    ensures forall k :: 0 <= k < |ws| ==> Clean(ws[k])
    ensures Flat(ws) == if Decodes(sentence) then sentence else []
    ensures !Decodes(sentence) ==> ws == []
    ensures Decodes(sentence) ==> WordsOfSentence(c, sentence, ws)
  {
    var words := MixSegment.Cut(c, trie, SEPARATORS, sentence, true);
    ws := seq(|words|, k requires 0 <= k < |words| => words[k].word);
    FlatIsConcat(words, ws);
    if Decodes(sentence) {
      forall k | 0 <= k < |ws| ensures Clean(ws[k]) {
        WordIsClean(c, sentence, words, k);
      }
    }
  }

  lemma {:induction false} FlatIsConcat(words: seq<WordRanges.Word>, ws: seq<seq<Byte>>)
    requires |ws| == |words| && forall k :: 0 <= k < |ws| ==> ws[k] == words[k].word
    ensures Flat(ws) == WordRanges.Concat(words)
    decreases |ws|
  {
    if ws != [] {
      FlatIsConcat(words[..|words| - 1], ws[..|ws| - 1]);
    }
  }

  /** A space is a separator, so it is in no longer word. */
  lemma WordIsClean(c: MixSegment.Config, sentence: seq<Byte>, words: seq<WordRanges.Word>, k: nat)
    requires c.Valid() && k < |words| && WordRanges.WellPlaced(words)
    requires var runes := Decoded(sentence);
             MixSegment.Cover(words, runes, MixSegment.PiecesFrom(c, SEPARATORS, runes, true, 0))
    ensures Clean(words[k].word)
  {
    var runes := Decoded(sentence);
    var wrs := MixSegment.PiecesFrom(c, SEPARATORS, runes, true, 0);
    assert WordRanges.SpellsRange(words[k], runes, wrs[k]);
    if SPACE in Decoded(words[k].word) {
      var j :| 0 <= j < |Decoded(words[k].word)| && Decoded(words[k].word)[j] == SPACE;
      MixSegment.SeparatorsStandAlone(c, SEPARATORS, runes, true, 0, k, wrs[k].left + j);
    }
  }

  lemma {:induction false} WholeIsText(glyph: Glyphs, ws: seq<seq<Byte>>, segs: seq<Seg>)
    requires |segs| == |ws| && forall i :: 0 <= i < |segs| ==> segs[i].word == Glyph(glyph, Decoded(ws[i]))
    ensures MergePasses.Whole(segs) == TextOf(glyph, ws)
    decreases |segs|
  {
    if segs != [] {
      var n := |segs| - 1;
      WholeIsText(glyph, ws[..n], segs[..n]);
      MergePasses.SameText(segs, segs[..n], n);
    }
  }

  predicate HasRunes(w: seq<Byte>) { Decoded(w) != [] }

  lemma {:induction false} TaggedFrom(ws: seq<seq<Byte>>, k: nat)
    requires k < |PosTagger.Tagged(ws)| && forall j :: 0 <= j < |ws| ==> Clean(ws[j])
    ensures HasRunes(PosTagger.Tagged(ws)[k])
    decreases |ws|
  {
    var before, w := PosTagger.Tagged(ws[..|ws| - 1]), ws[|ws| - 1];
    if k < |before| {
      TaggedFrom(ws[..|ws| - 1], k);
    } else {
      SpokenOfWord(w);
    }
  }

  lemma TaggedHaveRunes(ws: seq<seq<Byte>>)
    requires forall j :: 0 <= j < |ws| ==> Clean(ws[j])
    ensures forall k :: 0 <= k < |PosTagger.Tagged(ws)| ==> HasRunes(PosTagger.Tagged(ws)[k])
  {
    forall k | 0 <= k < |PosTagger.Tagged(ws)| ensures HasRunes(PosTagger.Tagged(ws)[k]) {
      TaggedFrom(ws, k);
    }
  }

  /** The tagged words in characters. */
  method ToSegs(glyph: Glyphs, ghost ws: seq<seq<Byte>>, tagged: seq<(seq<Byte>, string)>) returns (segs: seq<Seg>)
    requires forall k :: 0 <= k < |ws| ==> Clean(ws[k])
    requires |tagged| == |PosTagger.Tagged(ws)|
    requires forall i :: 0 <= i < |tagged| ==> tagged[i].0 == PosTagger.Tagged(ws)[i]
    ensures |segs| == |tagged| && MergePasses.NonEmpty(segs)
    ensures forall i :: 0 <= i < |segs| ==>
              segs[i].word == Glyph(glyph, Decoded(PosTagger.Tagged(ws)[i])) && segs[i].pos == tagged[i].1
  {
    segs := seq(|tagged|, i requires 0 <= i < |tagged| =>
      MergePasses.Seg(Glyph(glyph, Decoded(tagged[i].0)), tagged[i].1));
    TaggedHaveRunes(ws);
    assert forall i :: 0 <= i < |tagged| ==> HasRunes(tagged[i].0);
  }

  /** A word in characters, with the tag eng if it is made of letters and the tagger's tag if not. */
  ghost predicate IsSegOf(glyph: Glyphs, w: seq<Byte>, s: Seg) {
    && s.word == Glyph(glyph, Decoded(w))
    && if forall i :: 0 <= i < |s.word| ==> 'a' <= s.word[i] <= 'z' || 'A' <= s.word[i] <= 'Z' then s.pos == "eng"
       else PosTagger.TagOf(w, s.pos)
  }

  /** The words that are tagged, with their tags. */
  ghost predicate AreSegsOf(glyph: Glyphs, ws: seq<seq<Byte>>, segs: seq<Seg>) {
    |segs| == |PosTagger.Tagged(ws)| && forall i :: 0 <= i < |segs| ==> IsSegOf(glyph, PosTagger.Tagged(ws)[i], segs[i])
  }

  /** What merging makes of the tagged words. */
  ghost predicate MergedFrom(lex: MergePasses.Lexicon, glyph: Glyphs, ws: seq<seq<Byte>>, r: seq<Seg>) {
    exists segs :: AreSegsOf(glyph, ws, segs) && MergePasses.MergedInOrder(lex, segs, r)
  }

  /** Tagging, retagging and merging of words that are given. */
  method Merge(lex: MergePasses.Lexicon, glyph: Glyphs, ws: seq<seq<Byte>>) returns (r: Option<seq<Seg>>)
    requires forall k :: 0 <= k < |ws| ==> Clean(ws[k])
    ensures r.None? <==> PosTagger.Tagged(ws) == []
    ensures r.Some? ==>
              && MergePasses.Whole(r.value) == TextOf(glyph, PosTagger.Tagged(ws))
              && MergePasses.NonEmpty(r.value) && MergePasses.FrontTags(r.value)
              && MergedFrom(lex, glyph, ws, r.value)
  {
    var found, tagged := PosTagger.Tag(ws);
    if !found {
      return None;
    }
    var segs := ToSegs(glyph, ws, tagged);
    var retagged := Retag(segs);
    WholeIsText(glyph, PosTagger.Tagged(ws), retagged);
    assert AreSegsOf(glyph, ws, retagged);
    r := MergePasses.MergeForModify(lex, retagged);
    MergePasses.PipelineTags(lex, retagged);
  }

  /**
    For every sentence that decodes, the words that come out are non-empty, have
    tags the tone passes know, and together spell the sentence without its space
    bytes. There is no result exactly if the sentence does not decode or nothing
    of it is spoken: then the code reads before the start of an empty list. Its
    read past the end in the merging of 一 cannot happen.
   */
  method Cut(lex: MergePasses.Lexicon, glyph: Glyphs, c: MixSegment.Config, trie: Trie.Trie, sentence: seq<Byte>)
    returns (r: Option<seq<Seg>>)
    requires c.Valid() && trie.Valid() && trie.dict == c.dict
    ensures r.None? <==> !Decodes(sentence) || Spoken(sentence) == []
    ensures r.Some? ==>
              && MergePasses.Whole(r.value) == Glyph(glyph, Spoken(sentence))
              && MergePasses.NonEmpty(r.value) && MergePasses.FrontTags(r.value)
              && exists ws :: WordsOfSentence(c, sentence, ws) && MergedFrom(lex, glyph, ws, r.value)
  {
    var ws := CutWords(c, trie, sentence);
    r := Merge(lex, glyph, ws);
    TaggedIsSpoken(glyph, ws);
    TaggedHaveRunes(ws);
    NothingTagged(glyph, PosTagger.Tagged(ws));
  }

  lemma NothingTagged(glyph: Glyphs, ts: seq<seq<Byte>>)
    requires forall k :: 0 <= k < |ts| ==> HasRunes(ts[k])
    ensures TextOf(glyph, ts) == "" <==> ts == []
  {
    assert ts != [] ==> HasRunes(ts[|ts| - 1]);
  }

  /** Position `i` of the word is read as it would be under no tag at all. */
  predicate TagIgnored(words: ToneSandhi.Lexicon, s: Seg, i: nat)
    requires i < |s.word| && ToneSandhi.SplitsWell(words, s.word)
  {
    && !ToneSandhi.Doubled(s.word, s.pos, i)
    && ToneSandhi.NeutralAt(words, s.word, s.pos, i) == ToneSandhi.NeutralAt(words, s.word, "", i)
  }

  /** On every word that comes out, the rules of the neutral-tone pass that ask for a tag are dead. */
  lemma TagRulesAreDead(lex: MergePasses.Lexicon, words: ToneSandhi.Lexicon, segs: seq<Seg>)
    requires MergePasses.FromTagger(segs)
    ensures forall s, i: nat ::
              s in MergePasses.Pipeline(lex, segs) && ToneSandhi.SplitsWell(words, s.word) && i < |s.word| ==>
                TagIgnored(words, s, i)
  {
    MergePasses.PipelineTags(lex, segs);
    forall s, i: nat | s in MergePasses.Pipeline(lex, segs) && ToneSandhi.SplitsWell(words, s.word) && i < |s.word|
      ensures TagIgnored(words, s, i)
    {
      ToneSandhi.TagsDecideNothing(words, s.word, s.pos, i);
    }
  }
}
