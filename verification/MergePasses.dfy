/**
  The passes that merge segmented words before pronunciation. Each pass is a
  regrouping of its input into runs of consecutive words: what a pass decides
  is only whether the next word joins the group being built.
 */
module MergePasses {
  import opened Options

  /** A word with its part-of-speech tag. */
  datatype Seg = Seg(word: string, pos: string)

  /** The third-tone passes compare whole words, or only the characters that meet. */
  datatype Pass = Bu | Yi | Reduplication | Tones(whole: bool) | Er

  /** Pronunciation (the finals of a word, one per character) and the punctuation lists. */
  datatype Lexicon = Lexicon(finals: string -> seq<string>, punc: set<string>, puncOmit: set<string>)

  /** The words [a, b) written one after the other. */
  function Text(segs: seq<Seg>, a: nat, b: nat): string
    requires a <= b <= |segs|
    decreases b - a
  {
    if a == b then "" else Text(segs, a, b - 1) + segs[b - 1].word
  }

  function Whole(segs: seq<Seg>): string { Text(segs, 0, |segs|) }

  // ---------------------------------------------------------------------
  // When the next word joins
  // ---------------------------------------------------------------------

  /** Whether the last character of a final is tone three; an empty final has none. */
  predicate ToneThree(final: string) { final != "" && final[|final| - 1] == '3' }

  /** True of the empty list: a word without finals counts as all tone three. */
  predicate AllToneThree(finals: seq<string>) { forall i :: 0 <= i < |finals| ==> ToneThree(finals[i]) }

  predicate IsReduplication(word: string) { |word| == 2 && word[0] == word[1] }

  predicate IsSpoken(s: Seg) { s.pos == "x" && s.word != " " }

  function FinalsOf(lex: Lexicon, s: Seg): seq<string> {
    if IsSpoken(s) && s.word !in lex.puncOmit then lex.finals(s.word) else []
  }

  /** A punctuation mark at the very end is set aside. */
  function WordNum(lex: Lexicon, segs: seq<Seg>): nat
    requires segs != []
  {
    if segs[|segs| - 1].word in lex.punc then |segs| - 1 else |segs|
  }

  /** What both third-tone passes ask of the word and its predecessor besides tones. */
  predicate MayPair(lex: Lexicon, segs: seq<Seg>, i: nat)
    requires 0 < i < |segs|
  {
    && i < WordNum(lex, segs) && IsSpoken(segs[i])
    && !IsReduplication(segs[i - 1].word) && |segs[i - 1].word| + |segs[i].word| <= 3
  }

  predicate TonesMeet(whole: bool, before: seq<string>, after: seq<string>) {
    if whole then AllToneThree(before) && AllToneThree(after)
    else before != [] && ToneThree(before[|before| - 1]) && after != [] && ToneThree(after[0])
  }

  /** Whether word `i` joins the group that began at word `a`. */
  predicate Joins(lex: Lexicon, pass: Pass, segs: seq<Seg>, a: nat, i: nat)
    requires a < i < |segs|
  {
    match pass
    case Bu => Text(segs, a, i) == "不"
    case Yi => Text(segs, a, i) == "一"
    case Reduplication => Text(segs, a, i) == segs[i].word
    case Er => segs[i].word == "儿"
    case Tones(whole) =>
      a + 1 == i && MayPair(lex, segs, i) && TonesMeet(whole, FinalsOf(lex, segs[i - 1]), FinalsOf(lex, segs[i]))
  }

  // ---------------------------------------------------------------------
  // Regrouping
  // ---------------------------------------------------------------------

  /** The words [from, to). */
  datatype Group = Group(from: nat, to: nat)

  /** The groups of the first `n` words; the last one may still grow. */
  function Groups(lex: Lexicon, pass: Pass, segs: seq<Seg>, n: nat): (gs: seq<Group>)
    requires n <= |segs|
    ensures Partition(gs, n) && Within(gs, n)
  {
    if n == 0 then []
    else
      var gs := Groups(lex, pass, segs, n - 1);
      if n > 1 && Joins(lex, pass, segs, gs[|gs| - 1].from, n - 1) then
        Grown(gs, n)
      else
        assert (gs + [Group(n - 1, n)])[..|gs|] == gs;
        gs + [Group(n - 1, n)]
  }

  /** The last group takes in one more word. */
  function Grown(gs: seq<Group>, n: nat): (r: seq<Group>)
    requires gs != [] && n > 0 && Partition(gs, n - 1) && Within(gs, n - 1)
    ensures Partition(r, n) && Within(r, n)
  {
    var k := |gs| - 1;
    var r := gs[..k] + [Group(gs[k].from, n)];
    assert r[..k] == gs[..k];
    r
  }

  /** Consecutive non-empty groups from 0 to n. */
  predicate Partition(gs: seq<Group>, n: nat)
    ensures Partition(gs, n) ==> (gs == [] <==> n == 0)
  {
    if gs == [] then n == 0
    else
      var g := gs[|gs| - 1];
      g.from < g.to == n && Partition(gs[..|gs| - 1], g.from)
  }

  predicate Within(gs: seq<Group>, n: nat) { forall k :: 0 <= k < |gs| ==> gs[k].from < gs[k].to <= n }

  /** One output word. Merging 不 keeps the tag of the word it precedes; other passes keep the first tag. */
  function Merged(pass: Pass, segs: seq<Seg>, g: Group): Seg
    requires g.from < g.to <= |segs|
  {
    var text := Text(segs, g.from, g.to);
    Seg(text, if pass.Bu? then (if text == "不" then "d" else segs[g.to - 1].pos) else segs[g.from].pos)
  }

  function MergedAll(pass: Pass, segs: seq<Seg>, gs: seq<Group>): (r: seq<Seg>)
    requires Within(gs, |segs|)
    ensures |r| == |gs| && forall k :: 0 <= k < |gs| ==> r[k] == Merged(pass, segs, gs[k])
  {
    seq(|gs|, k requires 0 <= k < |gs| => Merged(pass, segs, gs[k]))
  }

  /** What the pass makes of its input. */
  function Apply(lex: Lexicon, pass: Pass, segs: seq<Seg>): (r: seq<Seg>)
    ensures |r| <= |segs|
  {
    GroupsAtMost(lex, pass, segs, |segs|);
    MergedAll(pass, segs, Groups(lex, pass, segs, |segs|))
  }

  lemma {:induction false} GroupsAtMost(lex: Lexicon, pass: Pass, segs: seq<Seg>, n: nat)
    requires n <= |segs|
    ensures |Groups(lex, pass, segs, n)| <= n
  {
    if n > 1 {
      GroupsAtMost(lex, pass, segs, n - 1);
    }
  }

  lemma {:induction false} TextSplit(segs: seq<Seg>, a: nat, b: nat, c: nat)
    requires a <= b <= c <= |segs|
    ensures Text(segs, a, c) == Text(segs, a, b) + Text(segs, b, c)
    decreases c - b
  {
    if b < c {
      TextSplit(segs, a, b, c - 1);
    }
  }

  lemma {:induction false} SameText(r: seq<Seg>, s: seq<Seg>, n: nat)
    requires n <= |r| && n <= |s| && forall k :: 0 <= k < n ==> r[k].word == s[k].word
    ensures Text(r, 0, n) == Text(s, 0, n)
  {
    if n > 0 {
      SameText(r, s, n - 1);
    }
  }

  /** Regrouping never changes the text. */
  lemma {:induction false} PartitionKeepsText(pass: Pass, segs: seq<Seg>, gs: seq<Group>, n: nat)
    requires Partition(gs, n) && Within(gs, |segs|) && n <= |segs|
    ensures Whole(MergedAll(pass, segs, gs)) == Text(segs, 0, n)
    decreases |gs|
  {
    if gs != [] {
      var k := |gs| - 1;
      PartitionKeepsText(pass, segs, gs[..k], gs[k].from);
      SameText(MergedAll(pass, segs, gs), MergedAll(pass, segs, gs[..k]), k);
      TextSplit(segs, 0, gs[k].from, n);
    }
  }

  lemma ApplyKeepsText(lex: Lexicon, pass: Pass, segs: seq<Seg>)
    ensures Whole(Apply(lex, pass, segs)) == Whole(segs)
  {
    PartitionKeepsText(pass, segs, Groups(lex, pass, segs, |segs|), |segs|);
  }

  predicate NonEmpty(segs: seq<Seg>) { forall i :: 0 <= i < |segs| ==> segs[i].word != "" }

  lemma ApplyKeepsNonEmpty(lex: Lexicon, pass: Pass, segs: seq<Seg>)
    requires NonEmpty(segs)
    ensures NonEmpty(Apply(lex, pass, segs))
    ensures segs != [] ==> Apply(lex, pass, segs) != []
  {
    var gs := Groups(lex, pass, segs, |segs|);
    forall k | 0 <= k < |gs| ensures Text(segs, gs[k].from, gs[k].to) != "" {
      assert segs[gs[k].to - 1].word != "";
    }
  }

  // ---------------------------------------------------------------------
  // The loops
  // ---------------------------------------------------------------------

  /** The output for the first `i` words. */
  function Sofar(lex: Lexicon, pass: Pass, segs: seq<Seg>, i: nat): seq<Seg>
    requires i <= |segs|
  {
    MergedAll(pass, segs, Groups(lex, pass, segs, i))
  }

  /** Where the group being built began. */
  function OpenFrom(lex: Lexicon, pass: Pass, segs: seq<Seg>, i: nat): (a: nat)
    requires 0 < i <= |segs|
    ensures a < i
  {
    var gs := Groups(lex, pass, segs, i);
    gs[|gs| - 1].from
  }

  lemma OpenGroup(lex: Lexicon, pass: Pass, segs: seq<Seg>, i: nat)
    requires 0 < i <= |segs|
    ensures var r, a := Sofar(lex, pass, segs, i), OpenFrom(lex, pass, segs, i);
            r != [] && r[|r| - 1] == Merged(pass, segs, Group(a, i))
  {
  }

  lemma GroupsNew(lex: Lexicon, pass: Pass, segs: seq<Seg>, i: nat)
    requires i < |segs|
    requires i > 0 ==> !Joins(lex, pass, segs, OpenFrom(lex, pass, segs, i), i)
    ensures Groups(lex, pass, segs, i + 1) == Groups(lex, pass, segs, i) + [Group(i, i + 1)]
    ensures OpenFrom(lex, pass, segs, i + 1) == i
  {
  }

  lemma MergedPush(pass: Pass, segs: seq<Seg>, gs: seq<Group>, g: Group)
    requires Within(gs, |segs|) && g.from < g.to <= |segs| && Within(gs + [g], |segs|)
    ensures MergedAll(pass, segs, gs + [g]) == MergedAll(pass, segs, gs) + [Merged(pass, segs, g)]
  {
  }

  lemma OneWord(pass: Pass, segs: seq<Seg>, i: nat)
    requires i < |segs|
    ensures Text(segs, i, i + 1) == segs[i].word
    ensures !pass.Bu? ==> Merged(pass, segs, Group(i, i + 1)) == segs[i]
  {
    assert Text(segs, i, i + 1) == Text(segs, i, i) + segs[i].word;
  }

  /** A word that does not join starts an output word of its own. */
  lemma StepNew(lex: Lexicon, pass: Pass, segs: seq<Seg>, i: nat)
    requires i < |segs|
    requires i > 0 ==> !Joins(lex, pass, segs, OpenFrom(lex, pass, segs, i), i)
    ensures Sofar(lex, pass, segs, i + 1) == Sofar(lex, pass, segs, i) + [Merged(pass, segs, Group(i, i + 1))]
    ensures OpenFrom(lex, pass, segs, i + 1) == i
    ensures !pass.Bu? ==> Merged(pass, segs, Group(i, i + 1)) == segs[i]
  {
    GroupsNew(lex, pass, segs, i);
    MergedPush(pass, segs, Groups(lex, pass, segs, i), Group(i, i + 1));
    OneWord(pass, segs, i);
  }

  lemma GroupsJoin(lex: Lexicon, pass: Pass, segs: seq<Seg>, i: nat)
    requires 0 < i < |segs| && Joins(lex, pass, segs, OpenFrom(lex, pass, segs, i), i)
    ensures Groups(lex, pass, segs, i + 1) == Grown(Groups(lex, pass, segs, i), i + 1)
    ensures OpenFrom(lex, pass, segs, i + 1) == OpenFrom(lex, pass, segs, i)
  {
  }

  lemma MergedGrown(pass: Pass, segs: seq<Seg>, gs: seq<Group>, i: nat)
    requires !pass.Bu? && gs != [] && i < |segs| && Partition(gs, i) && Within(gs, i)
    ensures MergedAll(pass, segs, Grown(gs, i + 1)) == AppendToBack(MergedAll(pass, segs, gs), segs[i].word)
  {
  }

  /** A word that joins is appended to the last output word. */
  lemma StepJoin(lex: Lexicon, pass: Pass, segs: seq<Seg>, i: nat)
    requires 0 < i < |segs| && !pass.Bu?
    requires Joins(lex, pass, segs, OpenFrom(lex, pass, segs, i), i)
    ensures Sofar(lex, pass, segs, i) != []
    ensures Sofar(lex, pass, segs, i + 1) == AppendToBack(Sofar(lex, pass, segs, i), segs[i].word)
    ensures OpenFrom(lex, pass, segs, i + 1) == OpenFrom(lex, pass, segs, i)
  {
    GroupsJoin(lex, pass, segs, i);
    MergedGrown(pass, segs, Groups(lex, pass, segs, i), i);
  }

  /** The loops edit the last word of what they have. */
  function AppendToBack(r: seq<Seg>, word: string): seq<Seg>
    requires r != []
  {
    var k := |r| - 1;
    r[k := Seg(r[k].word + word, r[k].pos)]
  }

  /** `r` is the output for the first `i` words, the last of them begun at word `a`. */
  ghost predicate Built(lex: Lexicon, pass: Pass, segs: seq<Seg>, i: nat, a: nat, r: seq<Seg>)
    requires i <= |segs|
  {
    r == Sofar(lex, pass, segs, i) && (i > 0 ==> a == OpenFrom(lex, pass, segs, i))
  }

  lemma BuildNew(lex: Lexicon, pass: Pass, segs: seq<Seg>, i: nat, a: nat, r: seq<Seg>)
    requires i < |segs| && Built(lex, pass, segs, i, a, r) && !pass.Bu?
    requires i > 0 ==> a < i && !Joins(lex, pass, segs, a, i)
    ensures Built(lex, pass, segs, i + 1, i, r + [segs[i]])
  {
    StepNew(lex, pass, segs, i);
  }

  lemma BuildJoin(lex: Lexicon, pass: Pass, segs: seq<Seg>, i: nat, a: nat, r: seq<Seg>)
    requires 0 < i < |segs| && Built(lex, pass, segs, i, a, r) && !pass.Bu?
    requires a < i && Joins(lex, pass, segs, a, i)
    ensures r != [] && Built(lex, pass, segs, i + 1, a, AppendToBack(r, segs[i].word))
  {
    StepJoin(lex, pass, segs, i);
  }

  lemma BackWord(lex: Lexicon, pass: Pass, segs: seq<Seg>, i: nat, a: nat, r: seq<Seg>)
    requires 0 < i <= |segs| && a < i && Built(lex, pass, segs, i, a, r)
    ensures r != [] && r[|r| - 1].word == Text(segs, a, i)
  {
    OpenGroup(lex, pass, segs, i);
  }

  /** The common tail of every loop: append to the last word, or push a new one. */
  method JoinOrPush(lex: Lexicon, pass: Pass, segs: seq<Seg>, i: nat, ghost a: nat, r: seq<Seg>, join: bool)
    returns (result: seq<Seg>)
    requires i < |segs| && Built(lex, pass, segs, i, a, r) && !pass.Bu?
    requires if i == 0 then !join else a < i && (join <==> Joins(lex, pass, segs, a, i))
    ensures Built(lex, pass, segs, i + 1, if join then a else i, result)
  {
    if join {
      BuildJoin(lex, pass, segs, i, a, r);
      result := AppendToBack(r, segs[i].word);
    } else {
      BuildNew(lex, pass, segs, i, a, r);
      result := r + [segs[i]];
    }
  }

  /** One turn: a word that repeats the last output word is appended to it. */
  method RepeatStep(lex: Lexicon, segs: seq<Seg>, i: nat, ghost a: nat, r: seq<Seg>)
    returns (result: seq<Seg>, ghost a': nat)
    requires i < |segs| && Built(lex, Reduplication, segs, i, a, r) && (i > 0 ==> a < i)
    ensures Built(lex, Reduplication, segs, i + 1, a', result) && a' < i + 1
  {
    if i > 0 { BackWord(lex, Reduplication, segs, i, a, r); }
    var join := r != [] && segs[i].word == r[|r| - 1].word;
    result := JoinOrPush(lex, Reduplication, segs, i, a, r, join);
    a' := if join then a else i;
  }

  method MergeReduplication(lex: Lexicon, segs: seq<Seg>) returns (result: seq<Seg>)
    ensures result == Apply(lex, Reduplication, segs) && Merges(lex, Reduplication, segs, result)
  {
    result := [];
    ghost var a: nat := 0;
    for i := 0 to |segs|
      invariant Built(lex, Reduplication, segs, i, a, result) && (i > 0 ==> a < i)
    {
      result, a := RepeatStep(lex, segs, i, a, result);
    }
    ApplyMerges(lex, Reduplication, segs);
  }

  /** The second phase of the 一 pass. */
  method MergeYiForward(lex: Lexicon, segs: seq<Seg>) returns (result: seq<Seg>)
    ensures result == Apply(lex, Yi, segs) && Merges(lex, Yi, segs, result)
  {
    result := [];
    ghost var a := 0;
    for j := 0 to |segs|
      invariant Built(lex, Yi, segs, j, a, result) && (j > 0 ==> a < j)
    {
      if j > 0 { BackWord(lex, Yi, segs, j, a, result); }
      var join := result != [] && result[|result| - 1].word == "一";
      result := JoinOrPush(lex, Yi, segs, j, a, result, join);
      a := if join then a else j;
    }
    ApplyMerges(lex, Yi, segs);
  }

  /** One turn: 儿 is appended to the last output word. */
  method ErStep(lex: Lexicon, segs: seq<Seg>, i: nat, ghost a: nat, r: seq<Seg>)
    returns (result: seq<Seg>, ghost a': nat)
    requires i < |segs| && Built(lex, Er, segs, i, a, r) && (i > 0 ==> a < i)
    ensures Built(lex, Er, segs, i + 1, a', result) && a' < i + 1
  {
    var join := i - 1 >= 0 && segs[i].word == "儿";
    result := JoinOrPush(lex, Er, segs, i, a, r, join);
    a' := if join then a else i;
  }

  method MergeEr(lex: Lexicon, segs: seq<Seg>) returns (result: seq<Seg>)
    ensures result == Apply(lex, Er, segs) && Merges(lex, Er, segs, result)
  {
    result := [];
    ghost var a: nat := 0;
    for i := 0 to |segs|
      invariant Built(lex, Er, segs, i, a, result) && (i > 0 ==> a < i)
    {
      result, a := ErStep(lex, segs, i, a, result);
    }
    ApplyMerges(lex, Er, segs);
  }

  /** One turn of either third-tone loop; `mergedLast` tells whether the previous word was merged. */
  method PairUp(lex: Lexicon, whole: bool, segs: seq<Seg>, i: nat, ghost a: nat, r: seq<Seg>, mergedLast: bool)
    returns (result: seq<Seg>, merge: bool)
    requires segs != [] && i < WordNum(lex, segs) && Built(lex, Tones(whole), segs, i, a, r)
    requires i > 0 ==> a < i && (mergedLast <==> a != i - 1)
    ensures Built(lex, Tones(whole), segs, i + 1, if merge then a else i, result)
    ensures merge ==> i > 0
  {
    merge := i > 0 && !mergedLast && MayPair(lex, segs, i)
             && TonesMeet(whole, FinalsOf(lex, segs[i - 1]), FinalsOf(lex, segs[i]));
    result := JoinOrPush(lex, Tones(whole), segs, i, a, r, merge);
  }

  /** Either third-tone pass over the words before the final punctuation. */
  method MergeThreeTonesUpTo(lex: Lexicon, whole: bool, segs: seq<Seg>, wordNum: nat) returns (result: seq<Seg>)
    requires segs != [] && wordNum == WordNum(lex, segs)
    ensures result == Sofar(lex, Tones(whole), segs, wordNum)
  {
    var mergeLast := false;
    ghost var a := 0;
    result := [];
    for i := 0 to wordNum
      invariant Built(lex, Tones(whole), segs, i, a, result)
      invariant i > 0 ==> a < i && (mergeLast <==> a != i - 1)
    {
      result, mergeLast := PairUp(lex, whole, segs, i, a, result, mergeLast);
      a := if mergeLast then a else i;
    }
  }

  /** Either third-tone pass; the punctuation set aside is put back at the end. */
  method MergeThreeTones(lex: Lexicon, whole: bool, segs: seq<Seg>) returns (result: seq<Seg>)
    requires segs != []
    ensures result == Apply(lex, Tones(whole), segs) && Merges(lex, Tones(whole), segs, result)
  {
    var wordNum := WordNum(lex, segs);
    result := MergeThreeTonesUpTo(lex, whole, segs, wordNum);
    if wordNum < |segs| {
      StepNew(lex, Tones(whole), segs, wordNum);
      result := result + [segs[wordNum]];
    }
    ApplyMerges(lex, Tones(whole), segs);
  }

  // ---------------------------------------------------------------------
  // 不: the pending word is pushed late
  // ---------------------------------------------------------------------

  /** All output words but the open one, and the open one's text. */
  ghost predicate BuiltBut(lex: Lexicon, segs: seq<Seg>, i: nat, a: nat, r: seq<Seg>, last: string)
    requires i <= |segs|
  {
    if i == 0 then r == [] && last == ""
    else
      && a == OpenFrom(lex, Bu, segs, i) && last == Text(segs, a, i)
      && Sofar(lex, Bu, segs, i) == r + [Merged(Bu, segs, Group(a, i))]
  }

  lemma BuNew(lex: Lexicon, segs: seq<Seg>, i: nat, a: nat, r: seq<Seg>, last: string)
    requires i < |segs| && BuiltBut(lex, segs, i, a, r, last)
    requires i > 0 ==> a < i && !Joins(lex, Bu, segs, a, i)
    ensures BuiltBut(lex, segs, i + 1, i, Sofar(lex, Bu, segs, i), segs[i].word)
  {
    StepNew(lex, Bu, segs, i);
    OneWord(Bu, segs, i);
  }

  lemma SwapLast(pass: Pass, segs: seq<Seg>, gs: seq<Group>, g: Group, h: Group, r: seq<Seg>, x: Seg)
    requires Within(gs + [g], |segs|) && Within(gs + [h], |segs|) && Within(gs, |segs|)
    requires h.from < h.to <= |segs| && g.from < g.to <= |segs| && MergedAll(pass, segs, gs + [g]) == r + [x]
    ensures MergedAll(pass, segs, gs + [h]) == r + [Merged(pass, segs, h)]
  {
    MergedPush(pass, segs, gs, g);
    MergedPush(pass, segs, gs, h);
    assert r == (r + [x])[..|r|] == MergedAll(pass, segs, gs);
  }

  lemma LastReplaced(pass: Pass, segs: seq<Seg>, gs: seq<Group>, i: nat, r: seq<Seg>, x: Seg)
    requires gs != [] && i < |segs| && Partition(gs, i) && Within(gs, i) && MergedAll(pass, segs, gs) == r + [x]
    ensures MergedAll(pass, segs, Grown(gs, i + 1)) == r + [Merged(pass, segs, Group(gs[|gs| - 1].from, i + 1))]
  {
    var k := |gs| - 1;
    assert gs == gs[..k] + [gs[k]];
    SwapLast(pass, segs, gs[..k], gs[k], Group(gs[k].from, i + 1), r, x);
  }

  lemma BuJoin(lex: Lexicon, segs: seq<Seg>, i: nat, a: nat, r: seq<Seg>, last: string)
    requires 0 < i < |segs| && BuiltBut(lex, segs, i, a, r, last) && a < i && Joins(lex, Bu, segs, a, i)
    ensures BuiltBut(lex, segs, i + 1, a, r, last + segs[i].word)
  {
    GroupsJoin(lex, Bu, segs, i);
    LastReplaced(Bu, segs, Groups(lex, Bu, segs, i), i, r, Merged(Bu, segs, Group(a, i)));
  }

  /** What the loop has pushed: everything but a pending 不. */
  ghost predicate Pushed(lex: Lexicon, segs: seq<Seg>, i: nat, rest: seq<Seg>, last: string, result: seq<Seg>)
    requires i <= |segs|
  {
    result == if last == "不" then rest else Sofar(lex, Bu, segs, i)
  }

  lemma BuPush(lex: Lexicon, segs: seq<Seg>, i: nat, a: nat, rest: seq<Seg>, word: string)
    requires i < |segs| && BuiltBut(lex, segs, i + 1, a, rest, word)
    ensures Pushed(lex, segs, i + 1, rest, word, if word != "不" then rest + [Seg(word, segs[i].pos)] else rest)
    ensures word == "不" ==> rest + [Seg(word, "d")] == Sofar(lex, Bu, segs, i + 1)
  {
  }

  /** One turn: prepend a pending 不, and push unless the word is 不 itself. */
  method BuStep(lex: Lexicon, segs: seq<Seg>, i: nat, ghost a: nat, ghost rest: seq<Seg>, lastWord: string, r: seq<Seg>)
    returns (word: string, result: seq<Seg>, ghost a': nat, ghost rest': seq<Seg>)
    requires i < |segs| && BuiltBut(lex, segs, i, a, rest, lastWord) && (i > 0 ==> a < i)
    requires Pushed(lex, segs, i, rest, lastWord, r)
    ensures BuiltBut(lex, segs, i + 1, a', rest', word) && a' < i + 1
    ensures Pushed(lex, segs, i + 1, rest', word, result)
  {
    word := segs[i].word;
    if lastWord == "不" {
      BuJoin(lex, segs, i, a, rest, lastWord);
      word := lastWord + word;
      a', rest' := a, rest;
    } else {
      BuNew(lex, segs, i, a, rest, lastWord);
      a', rest' := i, r;
    }
    BuPush(lex, segs, i, a', rest', word);
    result := if word != "不" then r + [Seg(word, segs[i].pos)] else r;
  }

  method MergeBu(lex: Lexicon, segs: seq<Seg>) returns (result: seq<Seg>)
    ensures result == Apply(lex, Bu, segs) && Merges(lex, Bu, segs, result)
  {
    result := [];
    var lastWord := "";
    ghost var a: nat, rest := 0, [];
    for i := 0 to |segs|
      invariant BuiltBut(lex, segs, i, a, rest, lastWord) && (i > 0 ==> a < i)
      invariant Pushed(lex, segs, i, rest, lastWord, result)
    {
      lastWord, result, a, rest := BuStep(lex, segs, i, a, rest, lastWord, result);
    }
    if lastWord == "不" {
      BuPush(lex, segs, |segs| - 1, a, rest, lastWord);
      result := result + [Seg(lastWord, "d")];
    }
    ApplyMerges(lex, Bu, segs);
  }

  // ---------------------------------------------------------------------
  // 一: the first phase, for verbs doubled around it
  // ---------------------------------------------------------------------

  /** 一 between two equal words, the first a verb. */
  predicate DoublesAround(segs: seq<Seg>, i: nat)
    requires i < |segs|
  {
    i >= 1 && i + 1 < |segs| && segs[i].word == "一" && segs[i - 1].word == segs[i + 1].word && segs[i - 1].pos == "v"
  }

  /** The repeated verb after 一. */
  predicate RepeatsBefore(segs: seq<Seg>, i: nat)
    requires i < |segs|
  {
    i >= 2 && segs[i - 1].word == "一" && segs[i - 2].word == segs[i].word && segs[i].pos == "v"
  }

  /** The phase from word `i` on, `temp` being its output so far; None is an access beyond `temp`. */
  function YiPhaseOne(segs: seq<Seg>, i: nat, temp: seq<Seg>): Option<seq<Seg>>
    requires i <= |segs|
    decreases |segs| - i
  {
    if i == |segs| then Some(temp)
    else if DoublesAround(segs, i) then
      if i - 1 < |temp| then
        var w := temp[i - 1].word;
        YiPhaseOne(segs, i + 1, temp[i - 1 := Seg(w + "一" + w, temp[i - 1].pos)])
      else None
    else if RepeatsBefore(segs, i) then YiPhaseOne(segs, i + 1, temp)
    else YiPhaseOne(segs, i + 1, temp + [segs[i]])
  }

  predicate NoVerbs(segs: seq<Seg>) { forall i :: 0 <= i < |segs| ==> segs[i].pos != "v" }

  /** Without verb tags the phase does nothing. */
  lemma {:induction false} YiPhaseOneIsIdentity(segs: seq<Seg>, i: nat)
    requires NoVerbs(segs) && i <= |segs|
    ensures YiPhaseOne(segs, i, segs[..i]) == Some(segs)
    decreases |segs| - i
  {
    if i == |segs| {
      assert segs[..i] == segs;
    } else {
      YiPhaseOneIsIdentity(segs, i + 1);
      assert segs[..i] + [segs[i]] == segs[..i + 1];
    }
  }

  /** With them it can index past its own output: the second doubled verb always does here. */
  lemma DoubledVerbsOverrun()
    ensures var t, y := Seg("听", "v"), Seg("一", "m"); YiPhaseOne([t, y, t, y, t], 0, []) == None
  {
    var t, y := Seg("听", "v"), Seg("一", "m");
    var segs := [t, y, t, y, t];
    var twice := Seg("听一听", "v");
    assert "听" + "一" + "听" == "听一听";
    assert [t][0 := twice] == [twice];
    assert YiPhaseOne(segs, 3, [twice]) == None;
    assert YiPhaseOne(segs, 2, [twice]) == None;
    assert YiPhaseOne(segs, 1, [t]) == None;
    assert [] + [t] == [t];
  }

  /** Words the phase does not push: 一 between doubled verbs, and the repeated verb. */
  predicate Drops(segs: seq<Seg>, i: nat)
    requires i < |segs|
  {
    DoublesAround(segs, i) || RepeatsBefore(segs, i)
  }

  /** Something before word `i` was not pushed. */
  predicate DroppedBefore(segs: seq<Seg>, i: nat)
    requires i <= |segs|
  {
    exists j :: 0 <= j < i && Drops(segs, j)
  }

  /** From word `i` on, the access fails exactly when a doubled verb comes after a dropped word. */
  lemma {:induction false} YiOverrunsFrom(segs: seq<Seg>, i: nat, temp: seq<Seg>)
    requires i <= |segs| && |temp| <= i && (|temp| < i <==> DroppedBefore(segs, i))
    ensures YiPhaseOne(segs, i, temp) == None <==>
            exists k :: i <= k < |segs| && DoublesAround(segs, k) && DroppedBefore(segs, k)
    decreases |segs| - i
  {
    if i < |segs| {
      DroppedNext(segs, i);
      if DoublesAround(segs, i) {
        if i - 1 < |temp| {
          var w := temp[i - 1].word;
          YiOverrunsFrom(segs, i + 1, temp[i - 1 := Seg(w + "一" + w, temp[i - 1].pos)]);
        }
      } else if RepeatsBefore(segs, i) {
        YiOverrunsFrom(segs, i + 1, temp);
      } else {
        YiOverrunsFrom(segs, i + 1, temp + [segs[i]]);
      }
    }
  }

  lemma DroppedNext(segs: seq<Seg>, i: nat)
    requires i < |segs|
    ensures DroppedBefore(segs, i + 1) <==> DroppedBefore(segs, i) || Drops(segs, i)
  {
  }

  /** Exactly when the first phase indexes past its own output. */
  lemma YiOverrunsExactly(segs: seq<Seg>)
    ensures YiPhaseOne(segs, 0, []) == None <==>
            exists k :: 0 <= k < |segs| && DoublesAround(segs, k) && DroppedBefore(segs, k)
  {
    YiOverrunsFrom(segs, 0, []);
  }

  /** The first `n` words without those that are dropped. */
  function Kept(segs: seq<Seg>, n: nat): (r: seq<Seg>)
    requires n <= |segs|
    ensures |r| <= n
  {
    if n == 0 then [] else Kept(segs, n - 1) + if Drops(segs, n - 1) then [] else [segs[n - 1]]
  }

  lemma {:induction false} KeptAll(segs: seq<Seg>, n: nat)
    requires n <= |segs|
    ensures |Kept(segs, n)| == n <==> !DroppedBefore(segs, n)
    ensures |Kept(segs, n)| == n ==> Kept(segs, n) == segs[..n]
  {
    if n > 0 {
      KeptAll(segs, n - 1);
      DroppedNext(segs, n - 1);
    }
  }

  /** What is kept of the first `n` words, the verb before the 一 at `k` doubled around it if `k` is not 0. */
  ghost predicate DoubledOnce(segs: seq<Seg>, n: nat, k: nat, temp: seq<Seg>)
    requires n <= |segs|
  {
    if k == 0 then temp == Kept(segs, n) && forall j :: 0 <= j < n ==> !DoublesAround(segs, j)
    else
      && k < n && DoublesAround(segs, k) && !DroppedBefore(segs, k) && k - 1 < |Kept(segs, n)|
      && temp == Kept(segs, n)[k - 1 := Seg(segs[k - 1].word + "一" + segs[k - 1].word, segs[k - 1].pos)]
  }

  lemma DoubledHere(segs: seq<Seg>, i: nat, k: nat, temp: seq<Seg>)
    requires i < |segs| && DoubledOnce(segs, i, k, temp) && DoublesAround(segs, i) && i - 1 < |temp|
    ensures temp[i - 1] == segs[i - 1]
    ensures var w := segs[i - 1].word;
            DoubledOnce(segs, i + 1, i, temp[i - 1 := Seg(w + "一" + w, segs[i - 1].pos)])
  {
    KeptAll(segs, i);
    assert k != 0 ==> Drops(segs, k);
    assert Drops(segs, i);
  }

  lemma NotDoubledHere(segs: seq<Seg>, i: nat, k: nat, temp: seq<Seg>)
    requires i < |segs| && DoubledOnce(segs, i, k, temp) && !DoublesAround(segs, i)
    ensures DoubledOnce(segs, i + 1, k, if RepeatsBefore(segs, i) then temp else temp + [segs[i]])
  {
  }

  lemma {:induction false} YiPhaseOneFrom(segs: seq<Seg>, i: nat, k: nat, temp: seq<Seg>) returns (j: nat)
    requires i <= |segs| && DoubledOnce(segs, i, k, temp) && YiPhaseOne(segs, i, temp).Some?
    ensures DoubledOnce(segs, |segs|, j, YiPhaseOne(segs, i, temp).value)
    decreases |segs| - i, 1
  {
    if i == |segs| {
      j := k;
    } else if DoublesAround(segs, i) {
      DoubledHere(segs, i, k, temp);
      var w := temp[i - 1].word;
      j := YiPhaseOneThen(segs, i, i, temp, temp[i - 1 := Seg(w + "一" + w, temp[i - 1].pos)]);
    } else {
      NotDoubledHere(segs, i, k, temp);
      j := YiPhaseOneThen(segs, i, k, temp, if RepeatsBefore(segs, i) then temp else temp + [segs[i]]);
    }
  }

  lemma {:induction false} YiPhaseOneThen(segs: seq<Seg>, i: nat, k: nat, temp: seq<Seg>, next: seq<Seg>)
    returns (j: nat)
    requires i < |segs| && YiPhaseOne(segs, i, temp) == YiPhaseOne(segs, i + 1, next)
    requires DoubledOnce(segs, i + 1, k, next) && YiPhaseOne(segs, i, temp).Some?
    ensures DoubledOnce(segs, |segs|, j, YiPhaseOne(segs, i, temp).value)
    decreases |segs| - i, 0
  {
    j := YiPhaseOneFrom(segs, i + 1, k, next);
  }

  /** Where it does not overrun, the first phase doubles at most one verb around 一 and drops what that repeats. */
  lemma YiPhaseOneExactly(segs: seq<Seg>) returns (k: nat)
    requires YiPhaseOne(segs, 0, []).Some?
    ensures DoubledOnce(segs, |segs|, k, YiPhaseOne(segs, 0, []).value)
  {
    k := YiPhaseOneFrom(segs, 0, 0, []);
  }

  /** As in 听 一 听, for any verb. */
  lemma DoubledVerb(v: string, pos: string)
    ensures YiPhaseOne([Seg(v, "v"), Seg("一", pos), Seg(v, "v")], 0, []) == Some([Seg(v + "一" + v, "v")])
  {
    var segs := [Seg(v, "v"), Seg("一", pos), Seg(v, "v")];
    var once, twice := [Seg(v, "v")], [Seg(v + "一" + v, "v")];
    assert [] + once == once && once[0 := twice[0]] == twice;
    assert YiPhaseOne(segs, 2, twice) == Some(twice);
    assert YiPhaseOne(segs, 1, once) == Some(twice);
  }

  method MergeYi(lex: Lexicon, segs: seq<Seg>) returns (result: Option<seq<Seg>>)
    ensures result == match YiPhaseOne(segs, 0, [])
                      case None => None
                      case Some(temp) => Some(Apply(lex, Yi, temp))
    ensures NoVerbs(segs) ==> result == Some(Apply(lex, Yi, segs)) && Merges(lex, Yi, segs, result.value)
    ensures segs != [] && result.Some? ==> result.value != []
  {
    var temp: seq<Seg> := [];
    for i := 0 to |segs|
      invariant YiPhaseOne(segs, 0, []) == YiPhaseOne(segs, i, temp) && (i > 0 ==> temp != [])
    {
      if DoublesAround(segs, i) {
        if i - 1 >= |temp| {
          return None;
        }
        temp := temp[i - 1 := Seg(temp[i - 1].word + "一" + temp[i - 1].word, temp[i - 1].pos)];
      } else if !RepeatsBefore(segs, i) {
        temp := temp + [segs[i]];
      }
    }
    var forward := MergeYiForward(lex, temp);
    result := Some(forward);
    if NoVerbs(segs) {
      YiPhaseOneIsIdentity(segs, 0);
    }
  }

  // ---------------------------------------------------------------------
  // The pipeline
  // ---------------------------------------------------------------------

  /** One word, or a word and the next one it may pair with. */
  predicate OneOrPair(lex: Lexicon, whole: bool, segs: seq<Seg>, g: Group)
    requires g.from < g.to <= |segs|
  {
    || g.to == g.from + 1
    || (&& g.to == g.from + 2 && MayPair(lex, segs, g.from + 1)
        && TonesMeet(whole, FinalsOf(lex, segs[g.from]), FinalsOf(lex, segs[g.from + 1])))
  }

  lemma GrownIsOneOrPair(lex: Lexicon, whole: bool, segs: seq<Seg>, n: nat, g: Group)
    requires g.from < g.to <= n <= |segs| && GrownRight(lex, Tones(whole), segs, n, g)
    ensures OneOrPair(lex, whole, segs, g)
  {
    var last := g.to - 1;
    assert g.from < last ==> Joins(lex, Tones(whole), segs, g.from, last);
  }

  lemma GroupIsOneOrPair(lex: Lexicon, whole: bool, segs: seq<Seg>, n: nat, k: nat)
    requires n <= |segs| && k < |Groups(lex, Tones(whole), segs, n)|
    ensures OneOrPair(lex, whole, segs, Groups(lex, Tones(whole), segs, n)[k])
  {
    GroupsGrownRight(lex, Tones(whole), segs, n);
    GrownIsOneOrPair(lex, whole, segs, n, Groups(lex, Tones(whole), segs, n)[k]);
  }

  lemma TwoWords(segs: seq<Seg>, i: nat)
    requires i + 2 <= |segs|
    ensures Text(segs, i, i + 2) == segs[i].word + segs[i + 1].word
  {
    OneWord(Yi, segs, i);
  }

  /** `x` is the one word of the group, or its two words together, of at most three characters. */
  predicate Unchained(segs: seq<Seg>, g: Group, x: Seg)
    requires g.from < g.to <= |segs|
  {
    || (g.to == g.from + 1 && x == segs[g.from])
    || (&& g.to == g.from + 2 && |x.word| <= 3
        && x == Seg(segs[g.from].word + segs[g.from + 1].word, segs[g.from].pos))
  }

  lemma PairText(pass: Pass, segs: seq<Seg>, g: Group)
    requires g.from < g.to <= |segs| && g.to <= g.from + 2 && !pass.Bu?
    requires g.to == g.from + 2 ==> |segs[g.from].word| + |segs[g.from + 1].word| <= 3
    ensures Unchained(segs, g, Merged(pass, segs, g))
  {
    OneWord(pass, segs, g.from);
    if g.to == g.from + 2 {
      TwoWords(segs, g.from);
    }
  }

  // ---------------------------------------------------------------------
  // What each pass makes of its words, on the words alone
  // ---------------------------------------------------------------------

  /** Word `i` of the first `n` is in the same group as the one before it exactly if it joins. */
  ghost predicate GrownRight(lex: Lexicon, pass: Pass, segs: seq<Seg>, n: nat, g: Group)
    requires g.from < g.to <= n <= |segs|
  {
    && (forall i :: g.from < i < g.to ==> Joins(lex, pass, segs, g.from, i))
    && (g.to < n ==> !Joins(lex, pass, segs, g.from, g.to))
  }

  lemma {:induction false} PartitionEnds(gs: seq<Group>, n: nat, k: nat)
    requires Partition(gs, n) && k < |gs|
    ensures gs[k].from < gs[k].to <= n && (k < |gs| - 1 ==> gs[k].to < n)
  {
    var last := |gs| - 1;
    if k < last {
      PartitionEnds(gs[..last], gs[last].from, k);
    }
  }

  ghost predicate AllGrownRight(lex: Lexicon, pass: Pass, segs: seq<Seg>, n: nat, gs: seq<Group>)
    requires n <= |segs|
  {
    Within(gs, n) && forall k :: 0 <= k < |gs| ==> GrownRight(lex, pass, segs, n, gs[k])
  }

  /** One more word: the open group grows or is closed, and the others stay as they are. */
  lemma GrownRightOn(lex: Lexicon, pass: Pass, segs: seq<Seg>, n: nat, g: Group)
    requires g.from < g.to <= n < |segs| && GrownRight(lex, pass, segs, n, g)
    ensures g.to < n || !Joins(lex, pass, segs, g.from, n) ==> GrownRight(lex, pass, segs, n + 1, g)
    ensures g.to == n && Joins(lex, pass, segs, g.from, n) ==>
              GrownRight(lex, pass, segs, n + 1, Group(g.from, n + 1))
  {
  }

  lemma AllGrownJoin(lex: Lexicon, pass: Pass, segs: seq<Seg>, n: nat, gs: seq<Group>)
    requires n < |segs| && gs != [] && Partition(gs, n) && AllGrownRight(lex, pass, segs, n, gs)
    requires Joins(lex, pass, segs, gs[|gs| - 1].from, n)
    ensures AllGrownRight(lex, pass, segs, n + 1, Grown(gs, n + 1))
  {
    var r := Grown(gs, n + 1);
    forall k | 0 <= k < |r| ensures GrownRight(lex, pass, segs, n + 1, r[k]) {
      PartitionEnds(gs, n, k);
      GrownRightOn(lex, pass, segs, n, gs[k]);
    }
  }

  lemma AllGrownNew(lex: Lexicon, pass: Pass, segs: seq<Seg>, n: nat, gs: seq<Group>)
    requires n < |segs| && Partition(gs, n) && AllGrownRight(lex, pass, segs, n, gs)
    requires gs != [] ==> !Joins(lex, pass, segs, gs[|gs| - 1].from, n)
    ensures AllGrownRight(lex, pass, segs, n + 1, gs + [Group(n, n + 1)])
  {
    var r := gs + [Group(n, n + 1)];
    forall k | 0 <= k < |r| ensures GrownRight(lex, pass, segs, n + 1, r[k]) {
      if k < |gs| {
        PartitionEnds(gs, n, k);
        GrownRightOn(lex, pass, segs, n, gs[k]);
      }
    }
  }

  /** The groups of one more word. */
  function GroupsThen(lex: Lexicon, pass: Pass, segs: seq<Seg>, n: nat, gs: seq<Group>): seq<Group>
    requires n < |segs| && Partition(gs, n) && Within(gs, n)
  {
    if gs != [] && Joins(lex, pass, segs, gs[|gs| - 1].from, n) then Grown(gs, n + 1) else gs + [Group(n, n + 1)]
  }

  lemma GroupsNext(lex: Lexicon, pass: Pass, segs: seq<Seg>, n: nat)
    requires n < |segs|
    ensures Groups(lex, pass, segs, n + 1) == GroupsThen(lex, pass, segs, n, Groups(lex, pass, segs, n))
  {
  }

  lemma GrownNext(lex: Lexicon, pass: Pass, segs: seq<Seg>, n: nat, gs: seq<Group>)
    requires n < |segs| && Partition(gs, n) && AllGrownRight(lex, pass, segs, n, gs)
    ensures AllGrownRight(lex, pass, segs, n + 1, GroupsThen(lex, pass, segs, n, gs))
  {
    if gs != [] && Joins(lex, pass, segs, gs[|gs| - 1].from, n) {
      AllGrownJoin(lex, pass, segs, n, gs);
    } else {
      AllGrownNew(lex, pass, segs, n, gs);
    }
  }

  lemma {:induction false} GroupsGrownRight(lex: Lexicon, pass: Pass, segs: seq<Seg>, n: nat)
    requires n <= |segs|
    ensures AllGrownRight(lex, pass, segs, n, Groups(lex, pass, segs, n))
  {
    if n > 0 {
      GroupsGrownRight(lex, pass, segs, n - 1);
      GroupsNext(lex, pass, segs, n - 1);
      GrownNext(lex, pass, segs, n - 1, Groups(lex, pass, segs, n - 1));
    }
  }

  /** 不 takes in the next word and its tag; an output word 不 can only be the last one, tagged d. */
  ghost predicate BuGroup(segs: seq<Seg>, g: Group, x: Seg)
    requires g.from < g.to <= |segs|
  {
    && (forall i :: g.from < i < g.to ==> Text(segs, g.from, i) == "不")
    && (g.to < |segs| ==> x.word != "不")
    && x.pos == if x.word == "不" then "d" else segs[g.to - 1].pos
  }

  /** 一 takes in the next word; an output word 一 can only be the last one. */
  ghost predicate YiGroup(segs: seq<Seg>, g: Group, x: Seg)
    requires g.from < g.to <= |segs|
  {
    && (forall i :: g.from < i < g.to ==> Text(segs, g.from, i) == "一")
    && (g.to < |segs| ==> x.word != "一")
    && x.pos == segs[g.from].pos
  }

  /** A word that repeats the output word before it is taken in, and no other. */
  ghost predicate RepeatGroup(segs: seq<Seg>, g: Group, x: Seg)
    requires g.from < g.to <= |segs|
  {
    && (forall i :: g.from < i < g.to ==> segs[i].word == Text(segs, g.from, i))
    && (g.to < |segs| ==> segs[g.to].word != x.word)
    && x.pos == segs[g.from].pos
  }

  /** 儿 is taken in, and no other; so it can only be the first output word. */
  ghost predicate ErGroup(segs: seq<Seg>, g: Group, x: Seg)
    requires g.from < g.to <= |segs|
  {
    && (forall i :: g.from < i < g.to ==> segs[i].word == "儿")
    && (g.to < |segs| ==> segs[g.to].word != "儿")
    && x.pos == segs[g.from].pos
  }

  predicate EndsIn(final: string, tone: char) { final != "" && final[|final| - 1] == tone }

  /** Words `i` and `i + 1` may be pronounced together: short enough, no reduplication and no final punctuation. */
  predicate Close(lex: Lexicon, segs: seq<Seg>, i: nat)
    requires i + 1 < |segs|
  {
    && segs[i + 1].pos == "x" && segs[i + 1].word != " " && (i + 2 == |segs| ==> segs[i + 1].word !in lex.punc)
    && !(|segs[i].word| == 2 && segs[i].word[0] == segs[i].word[1])
    && |segs[i].word| + |segs[i + 1].word| <= 3
  }

  /** A word with pronunciation that ends, or begins, in tone three. */
  predicate ThirdLast(lex: Lexicon, s: Seg) {
    var fs := lex.finals(s.word);
    s.pos == "x" && s.word != " " && s.word !in lex.puncOmit && fs != [] && EndsIn(fs[|fs| - 1], '3')
  }

  predicate ThirdFirst(lex: Lexicon, s: Seg) {
    var fs := lex.finals(s.word);
    s.pos == "x" && s.word != " " && s.word !in lex.puncOmit && fs != [] && EndsIn(fs[0], '3')
  }

  /** No character of the word is pronounced in another tone than the third. */
  predicate NotOtherTone(lex: Lexicon, s: Seg) {
    s.pos == "x" && s.word != " " && s.word !in lex.puncOmit ==>
      forall i :: 0 <= i < |lex.finals(s.word)| ==> EndsIn(lex.finals(s.word)[i], '3')
  }

  predicate Pairs(lex: Lexicon, whole: bool, segs: seq<Seg>, i: nat)
    requires i + 1 < |segs|
  {
    && Close(lex, segs, i)
    && if whole then NotOtherTone(lex, segs[i]) && NotOtherTone(lex, segs[i + 1])
       else ThirdLast(lex, segs[i]) && ThirdFirst(lex, segs[i + 1])
  }

  /** One word that does not pair with the next, or two that do. */
  ghost predicate ToneGroup(lex: Lexicon, whole: bool, segs: seq<Seg>, g: Group, x: Seg)
    requires g.from < g.to <= |segs|
  {
    && x.pos == segs[g.from].pos
    && if g.to == g.from + 1 then g.to < |segs| ==> !Pairs(lex, whole, segs, g.from)
       else g.to == g.from + 2 && Pairs(lex, whole, segs, g.from)
  }

  ghost predicate GroupLaw(lex: Lexicon, pass: Pass, segs: seq<Seg>, g: Group, x: Seg)
    requires g.from < g.to <= |segs|
  {
    match pass
    case Bu => BuGroup(segs, g, x)
    case Yi => YiGroup(segs, g, x)
    case Reduplication => RepeatGroup(segs, g, x)
    case Tones(whole) => ToneGroup(lex, whole, segs, g, x)
    case Er => ErGroup(segs, g, x)
  }

  /** Output word `k` is the text of group `k`, which is as the pass promises. */
  ghost predicate LawAt(lex: Lexicon, pass: Pass, segs: seq<Seg>, gs: seq<Group>, r: seq<Seg>, k: nat)
    requires k < |gs| == |r|
  {
    && gs[k].from < gs[k].to <= |segs| && r[k].word == Text(segs, gs[k].from, gs[k].to)
    && GroupLaw(lex, pass, segs, gs[k], r[k])
  }

  ghost predicate MergesInto(lex: Lexicon, pass: Pass, segs: seq<Seg>, gs: seq<Group>, r: seq<Seg>) {
    Partition(gs, |segs|) && |r| == |gs| && forall k :: 0 <= k < |gs| ==> LawAt(lex, pass, segs, gs, r, k)
  }

  /** What a pass promises, without mention of how it goes about it. */
  ghost predicate Merges(lex: Lexicon, pass: Pass, segs: seq<Seg>, r: seq<Seg>) {
    exists gs :: MergesInto(lex, pass, segs, gs, r)
  }

  lemma TonesPair(lex: Lexicon, whole: bool, segs: seq<Seg>, i: nat)
    requires i + 1 < |segs|
    ensures Joins(lex, Tones(whole), segs, i, i + 1) <==> Pairs(lex, whole, segs, i)
  {
  }

  lemma GroupIsLawful(lex: Lexicon, pass: Pass, segs: seq<Seg>, g: Group)
    requires g.from < g.to <= |segs| && GrownRight(lex, pass, segs, |segs|, g)
    ensures GroupLaw(lex, pass, segs, g, Merged(pass, segs, g))
  {
    match pass
    case Bu =>
      forall i | g.from < i < g.to ensures Text(segs, g.from, i) == "不" {
        assert Joins(lex, pass, segs, g.from, i);
      }
    case Yi =>
      forall i | g.from < i < g.to ensures Text(segs, g.from, i) == "一" {
        assert Joins(lex, pass, segs, g.from, i);
      }
    case Reduplication =>
      forall i | g.from < i < g.to ensures segs[i].word == Text(segs, g.from, i) {
        assert Joins(lex, pass, segs, g.from, i);
      }
    case Er =>
      forall i | g.from < i < g.to ensures segs[i].word == "儿" {
        assert Joins(lex, pass, segs, g.from, i);
      }
    case Tones(whole) =>
      if g.from + 1 < |segs| {
        TonesPair(lex, whole, segs, g.from);
      }
      var last := g.to - 1;
      assert g.from < last ==> Joins(lex, pass, segs, g.from, last);
  }

  lemma ApplyMerges(lex: Lexicon, pass: Pass, segs: seq<Seg>)
    ensures Merges(lex, pass, segs, Apply(lex, pass, segs))
  {
    var gs, r := Groups(lex, pass, segs, |segs|), Apply(lex, pass, segs);
    GroupsGrownRight(lex, pass, segs, |segs|);
    forall k | 0 <= k < |gs| ensures LawAt(lex, pass, segs, gs, r, k) {
      GroupIsLawful(lex, pass, segs, gs[k]);
    }
    assert MergesInto(lex, pass, segs, gs, r);
  }

  /** 很 and 美丽 meet in third tones and come out as one word. */
  lemma HenMeili(lex: Lexicon)
    requires lex.finals("很") == ["en3"] && lex.finals("美丽") == ["ei3", "i4"]
    requires "美丽" !in lex.punc && {"很", "美丽"} !! lex.puncOmit
    ensures Apply(lex, Tones(false), [Seg("很", "x"), Seg("美丽", "x")]) == [Seg("很美丽", "x")]
  {
    var segs := [Seg("很", "x"), Seg("美丽", "x")];
    assert EndsIn("en3", '3') && EndsIn("ei3", '3') && "很" + "美丽" == "很美丽";
    TonesPair(lex, false, segs, 0);
    JoinedPair(lex, Tones(false), segs);
  }

  lemma {:induction false} PartitionLinks(gs: seq<Group>, n: nat, k: nat)
    requires Partition(gs, n) && k <= |gs|
    ensures (if k == 0 then 0 else gs[k - 1].to) == (if k == |gs| then n else gs[k].from)
  {
    var last := |gs| - 1;
    if gs != [] && k < |gs| {
      PartitionLinks(gs[..last], gs[last].from, k);
    }
  }

  /** Two lawful groups that begin together end together. */
  lemma SameGroup(lex: Lexicon, pass: Pass, segs: seq<Seg>, g: Group, x: Seg, h: Group, y: Seg)
    requires g.from == h.from && g.from < g.to <= |segs| && h.from < h.to <= |segs|
    requires x.word == Text(segs, g.from, g.to) && y.word == Text(segs, h.from, h.to)
    requires GroupLaw(lex, pass, segs, g, x) && GroupLaw(lex, pass, segs, h, y)
    ensures g == h && x == y
  {
  }

  lemma SameNext(lex: Lexicon, pass: Pass, segs: seq<Seg>, gs: seq<Group>, r: seq<Seg>, hs: seq<Group>, q: seq<Seg>,
                 k: nat)
    requires MergesInto(lex, pass, segs, gs, r) && MergesInto(lex, pass, segs, hs, q)
    requires k < |gs| && k <= |hs| && (k > 0 ==> gs[k - 1] == hs[k - 1])
    ensures k < |hs| && gs[k] == hs[k] && r[k] == q[k]
  {
    assert LawAt(lex, pass, segs, gs, r, k);
    PartitionLinks(gs, |segs|, k);
    PartitionLinks(hs, |segs|, k);
    assert LawAt(lex, pass, segs, hs, q, k);
    SameGroup(lex, pass, segs, gs[k], r[k], hs[k], q[k]);
  }

  lemma {:induction false} SameGroups(lex: Lexicon, pass: Pass, segs: seq<Seg>, gs: seq<Group>, r: seq<Seg>,
                                      hs: seq<Group>, q: seq<Seg>, k: nat)
    requires MergesInto(lex, pass, segs, gs, r) && MergesInto(lex, pass, segs, hs, q) && k <= |gs|
    ensures k <= |hs| && gs[..k] == hs[..k] && r[..k] == q[..k]
  {
    if k > 0 {
      SameGroups(lex, pass, segs, gs, r, hs, q, k - 1);
      assert k > 1 ==> gs[k - 2] == gs[..k - 1][k - 2] == hs[k - 2];
      SameNext(lex, pass, segs, gs, r, hs, q, k - 1);
    }
  }

  /** The promise of a pass leaves one possible output. */
  lemma OneOutput(lex: Lexicon, pass: Pass, segs: seq<Seg>, r: seq<Seg>, q: seq<Seg>)
    requires Merges(lex, pass, segs, r) && Merges(lex, pass, segs, q)
    ensures r == q
  {
    var gs :| MergesInto(lex, pass, segs, gs, r);
    var hs :| MergesInto(lex, pass, segs, hs, q);
    SameGroups(lex, pass, segs, gs, r, hs, q, |gs|);
    SameGroups(lex, pass, segs, hs, q, gs, r, |hs|);
    assert r[..|r|] == r && q[..|q|] == q;
  }

  /** After the last pass, 儿 is no output word but the first. */
  lemma ErOnlyFirst(lex: Lexicon, segs: seq<Seg>, r: seq<Seg>, k: nat)
    requires NonEmpty(segs) && Merges(lex, Er, segs, r) && 0 < k < |r|
    ensures r[k].word != "儿"
  {
    var gs: seq<Group> :| MergesInto(lex, Er, segs, gs, r);
    PartitionLinks(gs, |segs|, k);
    assert LawAt(lex, Er, segs, gs, r, k - 1) && LawAt(lex, Er, segs, gs, r, k);
    var g := gs[k];
    TextSplit(segs, g.from, g.from + 1, g.to);
    OneWord(Er, segs, g.from);
    assert segs[g.from].word != "";
  }

  /** In both third-tone passes merging never chains. */
  lemma TonesNeverChain(lex: Lexicon, whole: bool, segs: seq<Seg>, k: nat)
    requires k < |Apply(lex, Tones(whole), segs)|
    ensures Unchained(segs, Groups(lex, Tones(whole), segs, |segs|)[k], Apply(lex, Tones(whole), segs)[k])
  {
    GroupIsShort(lex, whole, segs, k);
    UnchainedIn(Tones(whole), segs, Groups(lex, Tones(whole), segs, |segs|), k);
  }

  lemma UnchainedIn(pass: Pass, segs: seq<Seg>, gs: seq<Group>, k: nat)
    requires Within(gs, |segs|) && k < |gs| && !pass.Bu? && gs[k].to <= gs[k].from + 2
    requires gs[k].to == gs[k].from + 2 ==> |segs[gs[k].from].word| + |segs[gs[k].from + 1].word| <= 3
    ensures Unchained(segs, gs[k], MergedAll(pass, segs, gs)[k])
  {
    PairText(pass, segs, gs[k]);
  }

  lemma GroupIsShort(lex: Lexicon, whole: bool, segs: seq<Seg>, k: nat)
    requires k < |Groups(lex, Tones(whole), segs, |segs|)|
    ensures var g := Groups(lex, Tones(whole), segs, |segs|)[k];
            g.to <= g.from + 2 && (g.to == g.from + 2 ==> |segs[g.from].word| + |segs[g.from + 1].word| <= 3)
  {
    GroupIsOneOrPair(lex, whole, segs, |segs|, k);
    OneOrPairIsShort(lex, whole, segs, Groups(lex, Tones(whole), segs, |segs|)[k]);
  }

  lemma OneOrPairIsShort(lex: Lexicon, whole: bool, segs: seq<Seg>, g: Group)
    requires g.from < g.to <= |segs| && OneOrPair(lex, whole, segs, g)
    ensures g.to <= g.from + 2 && (g.to == g.from + 2 ==> |segs[g.from].word| + |segs[g.from + 1].word| <= 3)
  {
  }

  // What the first third-tone pass joins ---------------------------------

  /** A word with finals, all of them third tone. */
  predicate ThirdToneWord(lex: Lexicon, s: Seg) {
    IsSpoken(s) && s.word !in lex.puncOmit && lex.finals(s.word) != [] && AllToneThree(lex.finals(s.word))
  }

  /** A word whose finals the pass does not have: not spoken, punctuation to omit, or without pronunciation. */
  predicate Silent(lex: Lexicon, s: Seg) { !IsSpoken(s) || s.word in lex.puncOmit || lex.finals(s.word) == [] }

  /** The pass takes silent words for third-tone words. */
  lemma SilentPassesForThirdTone(lex: Lexicon, s: Seg)
    ensures FinalsOf(lex, s) == [] <==> Silent(lex, s)
    ensures AllToneThree(FinalsOf(lex, s)) <==> Silent(lex, s) || ThirdToneWord(lex, s)
  {
  }

  /**
    Output word `k` of the first third-tone pass, if it is a pair, is two
    third-tone words if and only if neither is silent.
   */
  lemma PairIsThirdToneUnlessSilent(lex: Lexicon, segs: seq<Seg>, k: nat)
    requires k < |Groups(lex, Tones(true), segs, |segs|)|
    ensures var g := Groups(lex, Tones(true), segs, |segs|)[k];
            g.to == g.from + 2 ==>
              (ThirdToneWord(lex, segs[g.from]) && ThirdToneWord(lex, segs[g.from + 1])
               <==> !Silent(lex, segs[g.from]) && !Silent(lex, segs[g.from + 1]))
  {
    GroupIsOneOrPair(lex, true, segs, |segs|, k);
    var g := Groups(lex, Tones(true), segs, |segs|)[k];
    if g.to == g.from + 2 {
      PairUnlessSilent(lex, segs, g);
    }
  }

  lemma PairUnlessSilent(lex: Lexicon, segs: seq<Seg>, g: Group)
    requires g.to == g.from + 2 <= |segs| && OneOrPair(lex, true, segs, g)
    ensures ThirdToneWord(lex, segs[g.from]) && ThirdToneWord(lex, segs[g.from + 1])
            <==> !Silent(lex, segs[g.from]) && !Silent(lex, segs[g.from + 1])
  {
    SilentPassesForThirdTone(lex, segs[g.from]);
    SilentPassesForThirdTone(lex, segs[g.from + 1]);
  }

  lemma GroupsOfTwo(lex: Lexicon, pass: Pass, segs: seq<Seg>, i: nat)
    requires i == 0 && |segs| == i + 2 && Joins(lex, pass, segs, i, i + 1)
    ensures Groups(lex, pass, segs, i + 2) == [Group(i, i + 2)]
  {
    GroupsNew(lex, pass, segs, i);
    assert Groups(lex, pass, segs, i + 1) == [Group(i, i + 1)];
    GroupsJoin(lex, pass, segs, i + 1);
  }

  /** Two words that join are the whole result, under the tag of the first. */
  lemma JoinedPair(lex: Lexicon, pass: Pass, segs: seq<Seg>)
    requires |segs| == 2 && !pass.Bu? && Joins(lex, pass, segs, 0, 1)
    ensures Apply(lex, pass, segs) == [Seg(segs[0].word + segs[1].word, segs[0].pos)]
  {
    GroupsOfTwo(lex, pass, segs, 0);
    TwoWords(segs, 0);
  }

  /** A short silent word takes in the third-tone character after it. */
  lemma SilentSwallowsThirdTone(lex: Lexicon, a: Seg, b: Seg)
    requires Silent(lex, a) && ThirdToneWord(lex, b) && b.word !in lex.punc
    requires !IsReduplication(a.word) && |a.word| + |b.word| <= 3
    ensures Apply(lex, Tones(true), [a, b]) == [Seg(a.word + b.word, a.pos)]
  {
    SilentPassesForThirdTone(lex, a);
    SilentPassesForThirdTone(lex, b);
    JoinedPair(lex, Tones(true), [a, b]);
  }

  /** So 好 after the English word "ok" goes to the English reader. */
  lemma EnglishSwallowsThirdTone(lex: Lexicon)
    requires lex.finals("好") == ["ao3"] && "好" !in lex.punc && "好" !in lex.puncOmit
    ensures Apply(lex, Tones(true), [Seg("ok", "eng"), Seg("好", "x")]) == [Seg("ok好", "eng")]
  {
    assert ToneThree("ao3") && "ok" + "好" == "ok好";
    SilentSwallowsThirdTone(lex, Seg("ok", "eng"), Seg("好", "x"));
  }

  /** The tags the tagger gives. */
  predicate FromTagger(segs: seq<Seg>) {
    forall i :: 0 <= i < |segs| ==> segs[i].pos == "x" || segs[i].pos == "m" || segs[i].pos == "eng"
  }

  lemma BuBringsNoVerbs(lex: Lexicon, segs: seq<Seg>)
    requires FromTagger(segs)
    ensures NoVerbs(Apply(lex, Bu, segs))
  {
  }

  /** The tagger's tags, and d for a 不 that stands alone. */
  predicate FrontTags(segs: seq<Seg>) {
    forall i :: 0 <= i < |segs| ==>
      segs[i].pos == "x" || segs[i].pos == "m" || segs[i].pos == "eng" || segs[i].pos == "d"
  }

  /** No pass brings in another tag. */
  lemma ApplyKeepsTags(lex: Lexicon, pass: Pass, segs: seq<Seg>)
    requires FrontTags(segs)
    ensures FrontTags(Apply(lex, pass, segs))
  {
  }

  lemma PipelineTags(lex: Lexicon, segs: seq<Seg>)
    requires FrontTags(segs)
    ensures FrontTags(Pipeline(lex, segs))
  {
    var bu := Apply(lex, Bu, segs);
    ApplyKeepsTags(lex, Bu, segs);
    var yi := Apply(lex, Yi, bu);
    ApplyKeepsTags(lex, Yi, bu);
    var redup := Apply(lex, Reduplication, yi);
    ApplyKeepsTags(lex, Reduplication, yi);
    var tones := Apply(lex, Tones(true), redup);
    ApplyKeepsTags(lex, Tones(true), redup);
    ApplyKeepsTags(lex, Tones(false), tones);
    ApplyKeepsTags(lex, Er, Apply(lex, Tones(false), tones));
  }

  /** All six passes in order, the first phase of the 一 pass being the identity. */
  function Pipeline(lex: Lexicon, segs: seq<Seg>): seq<Seg> {
    var yi := Apply(lex, Yi, Apply(lex, Bu, segs));
    var tones := Apply(lex, Tones(false), Apply(lex, Tones(true), Apply(lex, Reduplication, yi)));
    Apply(lex, Er, tones)
  }

  lemma PassKeeps(lex: Lexicon, pass: Pass, segs: seq<Seg>)
    requires NonEmpty(segs) && segs != []
    ensures var r := Apply(lex, pass, segs);
            Whole(r) == Whole(segs) && NonEmpty(r) && r != [] && |r| <= |segs|
  {
    ApplyKeepsText(lex, pass, segs);
    ApplyKeepsNonEmpty(lex, pass, segs);
  }

  /** The pipeline keeps the text, drops no word to nothing, and never makes more words. */
  lemma PipelineKeepsText(lex: Lexicon, segs: seq<Seg>)
    requires NonEmpty(segs) && segs != []
    ensures var r := Pipeline(lex, segs);
            Whole(r) == Whole(segs) && NonEmpty(r) && r != [] && |r| <= |segs|
  {
    PassKeeps(lex, Bu, segs);
    var bu := Apply(lex, Bu, segs);
    PassKeeps(lex, Yi, bu);
    var yi := Apply(lex, Yi, bu);
    PassKeeps(lex, Reduplication, yi);
    var redup := Apply(lex, Reduplication, yi);
    PassKeeps(lex, Tones(true), redup);
    var tones := Apply(lex, Tones(true), redup);
    PassKeeps(lex, Tones(false), tones);
    PassKeeps(lex, Er, Apply(lex, Tones(false), tones));
  }

  /** The six passes one after the other, each as promised. */
  ghost predicate MergedInOrder(lex: Lexicon, segs: seq<Seg>, r: seq<Seg>) {
    exists bu, yi, repeat, whole, meet ::
      && Merges(lex, Bu, segs, bu) && Merges(lex, Yi, bu, yi) && Merges(lex, Reduplication, yi, repeat)
      && Merges(lex, Tones(true), repeat, whole) && Merges(lex, Tones(false), whole, meet) && Merges(lex, Er, meet, r)
  }

  /** None stands for the out-of-range access of the 一 pass, which the tagger's tags rule out. */
  method MergeForModify(lex: Lexicon, segs: seq<Seg>) returns (r: Option<seq<Seg>>)
    requires segs != []
    ensures FromTagger(segs) ==> r == Some(Pipeline(lex, segs)) && MergedInOrder(lex, segs, r.value)
    ensures FromTagger(segs) && NonEmpty(segs) ==>
              Whole(r.value) == Whole(segs) && NonEmpty(r.value) && |r.value| <= |segs|
  {
    if NonEmpty(segs) {
      PipelineKeepsText(lex, segs);
    }
    if FromTagger(segs) {
      BuBringsNoVerbs(lex, segs);
    }
    var bu := MergeBu(lex, segs);
    var yi := MergeYi(lex, bu);
    if yi.None? {
      return None;
    }
    var redup := MergeReduplication(lex, yi.value);
    var whole := MergeThreeTones(lex, true, redup);
    var meet := MergeThreeTones(lex, false, whole);
    var er := MergeEr(lex, meet);
    return Some(er);
  }
}
