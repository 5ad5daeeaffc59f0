/**
  The tone passes over the finals of one word (a final such as "ang3" carries
  its tone as its last character), and the merging of a final 儿 into the
  syllable before it.
 */
module ToneSandhi {
  import opened Options

  /** Word lists, and the word splitter, of which only the lengths of the two pieces are known. */
  datatype Lexicon = Lexicon(mustNeutral: set<string>, mustNotNeutral: set<string>,
                             mustErhua: set<string>, notErhua: set<string>, split: string -> (string, string))

  /** The pieces are as long as the word together, and the first is not empty. */
  predicate SplitsWell(lex: Lexicon, word: string) {
    var (a, b) := lex.split(word);
    |a| >= 1 && |a| + |b| == |word|
  }

  // ---------------------------------------------------------------------
  // Tones
  // ---------------------------------------------------------------------

  function Tone(final: string): char
    requires final != ""
  {
    final[|final| - 1]
  }

  function Stem(final: string): string
    requires final != ""
  {
    final[..|final| - 1]
  }

  predicate SameStem(r: string, final: string)
    requires r != "" && final != ""
  {
    Stem(r) == Stem(final)
  }

  function SetTone(final: string, tone: char): (r: string)
    requires final != ""
    ensures r != "" && SameStem(r, final) && Tone(r) == tone
  {
    final[..|final| - 1] + [tone]
  }

  predicate Proper(fs: seq<string>) { forall i :: 0 <= i < |fs| ==> fs[i] != "" }

  predicate AllToneThree(fs: seq<string>)
    requires Proper(fs)
  {
    forall i :: 0 <= i < |fs| ==> Tone(fs[i]) == '3'
  }

  /** `r` differs from `fs` at most in the last character of each final. */
  predicate OnlyTones(fs: seq<string>, r: seq<string>)
    requires Proper(fs)
  {
    |r| == |fs| && Proper(r) && forall i {:trigger SameStem(r[i], fs[i])} :: 0 <= i < |fs| ==> SameStem(r[i], fs[i])
  }

  /** Position `i` gets tone `tone`. */
  function Retone(fs: seq<string>, i: nat, tone: char): (r: seq<string>)
    requires i < |fs| && Proper(fs)
    ensures OnlyTones(fs, r)
  {
    fs[i := SetTone(fs[i], tone)]
  }

  // ---------------------------------------------------------------------
  // 不
  // ---------------------------------------------------------------------

  /** In the middle of three it turns neutral; otherwise it turns to tone two before a tone four. */
  function BuTone(word: string, fs: seq<string>, i: nat): (r: string)
    requires i < |word| == |fs| && Proper(fs)
    ensures r != "" && SameStem(r, fs[i])
  {
    if |word| == 3 && word[1] == '不' then if i == 1 then SetTone(fs[1], '5') else fs[i]
    else if word[i] == '不' && i + 1 < |word| && Tone(fs[i + 1]) == '4' then SetTone(fs[i], '2')
    else fs[i]
  }

  function BuSpec(word: string, fs: seq<string>): (r: seq<string>)
    requires |word| == |fs| && Proper(fs)
    ensures OnlyTones(fs, r) && forall i :: 0 <= i < |fs| ==> r[i] == BuTone(word, fs, i)
  {
    seq(|fs|, i requires 0 <= i < |fs| => BuTone(word, fs, i))
  }

  method BuSandhi(word: string, fs: seq<string>) returns (finals: seq<string>)
    requires |word| == |fs| && Proper(fs)
    ensures finals == BuSpec(word, fs)
    ensures |word| == 3 && word[1] == '不' ==> finals == [fs[0], Stem(fs[1]) + "5", fs[2]]
    ensures !(|word| == 3 && word[1] == '不') ==>
              && |finals| == |fs|
              && forall i :: 0 <= i < |fs| ==>
                   finals[i] == if word[i] == '不' && i + 1 < |fs| && Tone(fs[i + 1]) == '4' then Stem(fs[i]) + "2"
                                else fs[i]
  {
    finals := fs;
    if |word| == 3 && word[1] == '不' {
      finals := Retone(finals, 1, '5');
      return;
    }
    for i := 0 to |word|
      invariant |finals| == |fs| && Proper(finals)
      invariant forall k :: 0 <= k < |fs| ==> finals[k] == if k < i then BuTone(word, fs, k) else fs[k]
    {
      ghost var before := finals;
      if word[i] == '不' && i + 1 < |word| && Tone(finals[i + 1]) == '4' {
        finals := Retone(finals, i, '2');
      }
      assert finals == before[i := BuTone(word, fs, i)];
    }
  }

  /** The code's own examples, 看不懂 and 不怕. */
  lemma BuExamples()
    ensures BuSpec("看不懂", ["an4", "u4", "ong3"]) == ["an4", "u5", "ong3"]
    ensures BuSpec("不怕", ["u4", "a4"]) == ["u2", "a4"]
  {
    assert SetTone("u4", '5') == "u5" && SetTone("u4", '2') == "u2";
    assert "看不懂"[1] == '不' && "不怕"[0] == '不' && "不怕"[1] != '不';
  }

  // ---------------------------------------------------------------------
  // 一
  // ---------------------------------------------------------------------

  const NUMERALS: string := "零一二三四六七八九"

  /** Words with 一 that do not end in it leave the pass at once, all numerals or not. */
  predicate YiSkips(word: string)
    requires word != ""
  {
    '一' in word && word[|word| - 1] != '一'
  }

  /** The tone the rules for 一 give to position `i`, if they give one. */
  function YiTarget(word: string, fs: seq<string>, i: nat): Option<char>
    requires i < |word| == |fs| && Proper(fs) && word != "第"
  {
    if |word| == 3 && word[1] == '一' && word[0] == word[2] then if i == 1 then Some('5') else None
    else if word[0] == '第' && word[1] == '一' then if i == 1 then Some('1') else None
    else if word[i] == '一' && i + 1 < |word| then Some(if Tone(fs[i + 1]) == '4' then '2' else '4')
    else None
  }

  function Targeted(final: string, target: Option<char>): (r: string)
    requires final != ""
    ensures r != "" && SameStem(r, final)
  {
    if target.Some? then SetTone(final, target.value) else final
  }

  function YiTone(word: string, fs: seq<string>, i: nat): (r: string)
    requires i < |word| == |fs| && Proper(fs) && word != "第"
    ensures r != "" && SameStem(r, fs[i])
  {
    if YiSkips(word) then fs[i] else Targeted(fs[i], YiTarget(word, fs, i))
  }

  function YiSpec(word: string, fs: seq<string>): (r: seq<string>)
    requires |word| == |fs| && Proper(fs) && word != "第"
    ensures OnlyTones(fs, r) && forall i :: 0 <= i < |fs| ==> r[i] == YiTone(word, fs, i)
  {
    seq(|fs|, i requires 0 <= i < |fs| => YiTone(word, fs, i))
  }

  /** How the tones come out, on the word and its finals alone; only words that end in 一 change. */
  predicate YiChanges(word: string, fs: seq<string>, r: seq<string>)
    requires |word| == |fs| >= 1 && Proper(fs)
  {
    if word[|word| - 1] != '一' then r == fs
    else if word == "一一一" then r == [fs[0], Stem(fs[1]) + "5", fs[2]]
    else if "第一" <= word then r == fs[1 := Stem(fs[1]) + "1"]
    else
      && |r| == |fs|
      && forall i :: 0 <= i < |fs| ==>
           r[i] == if word[i] != '一' || i + 1 == |fs| then fs[i]
                   else Stem(fs[i]) + if Tone(fs[i + 1]) == '4' then "2" else "4"
  }

  lemma YiSpecChanges(word: string, fs: seq<string>)
    requires |word| == |fs| >= 1 && Proper(fs) && word != "第"
    ensures YiChanges(word, fs, YiSpec(word, fs))
  {
    assert '一' !in word ==> forall i :: 0 <= i < |word| ==> word[i] != '一';
    if |word| == 3 && word[1] == '一' && word[0] == word[2] && word[2] == '一' {
      assert word == "一一一";
    }
    if |word| >= 2 && word[0] == '第' && word[1] == '一' {
      assert word[..2] == "第一";
    }
  }

  /** The one-character word 第 is not accepted: the code looks at its second character. */
  method YiSandhi(word: string, fs: seq<string>) returns (finals: seq<string>)
    requires |word| == |fs| >= 1 && Proper(fs) && word != "第"
    ensures finals == YiSpec(word, fs)
    ensures YiChanges(word, fs, finals)
  {
    finals := fs;
    if '一' in word && word[|word| - 1] != '一' {
      var j := 0;
      while j < |word| && word[j] in NUMERALS
        invariant 0 <= j <= |word|
      {
        j := j + 1;
      }
      return;
    }
    finals := YiRules(word, fs);
    YiSpecChanges(word, fs);
  }

  /** The three cases, for words without 一 or that end in it. */
  method YiRules(word: string, fs: seq<string>) returns (finals: seq<string>)
    requires |word| == |fs| >= 1 && Proper(fs) && word != "第" && !YiSkips(word)
    ensures finals == YiSpec(word, fs)
  {
    finals := fs;
    assert |word| >= 2 || word[0] != '第';
    if |word| == 3 && word[1] == '一' && word[0] == word[2] {
      finals := Retone(finals, 1, '5');
    } else if word[0] == '第' && word[1] == '一' {
      finals := Retone(finals, 1, '1');
    } else {
      finals := YiBefore(word, fs);
    }
  }

  /** The last case: every 一 that something follows, by the tone of what follows. */
  method YiBefore(word: string, fs: seq<string>) returns (finals: seq<string>)
    requires |word| == |fs| >= 1 && Proper(fs) && word != "第" && !YiSkips(word)
    requires !(|word| == 3 && word[1] == '一' && word[0] == word[2]) && !(word[0] == '第' && word[1] == '一')
    ensures finals == YiSpec(word, fs)
  {
    finals := fs;
    for i := 0 to |word|
      invariant |finals| == |fs| && Proper(finals)
      invariant forall k :: 0 <= k < |fs| ==> finals[k] == if k < i then YiTone(word, fs, k) else fs[k]
    {
      ghost var before := finals;
      if word[i] == '一' && i + 1 < |word| {
        if Tone(finals[i + 1]) == '4' {
          finals := Retone(finals, i, '2');
        } else {
          finals := Retone(finals, i, '4');
        }
      }
      assert finals == before[i := YiTone(word, fs, i)];
    }
  }

  // The rule its comments give -------------------------------------------

  /** All ten digits; the list in the code has no 五, but nothing depends on what it holds. */
  const DIGITS: string := "零一二三四五六七八九"

  predicate AllNumerals(word: string) { forall i :: 0 <= i < |word| ==> word[i] in DIGITS }

  /** Number sequences are left alone; otherwise the three cases apply, as 看一看, 第一, 一段 and 一天. */
  function YiRule(word: string, fs: seq<string>): (r: seq<string>)
    requires |word| == |fs| && Proper(fs) && word != "第"
    ensures |r| == |fs|
    ensures forall i :: 0 <= i < |fs| ==>
              r[i] == if '一' in word && AllNumerals(word) then fs[i] else Targeted(fs[i], YiTarget(word, fs, i))
  {
    seq(|fs|, i requires 0 <= i < |fs| =>
      if '一' in word && AllNumerals(word) then fs[i] else Targeted(fs[i], YiTarget(word, fs, i)))
  }

  /** Every position the rules give a tone to has that tone already. */
  ghost predicate TonesAlready(word: string, fs: seq<string>)
    requires |word| == |fs| && Proper(fs) && word != "第"
  {
    forall i :: 0 <= i < |fs| ==> var t := YiTarget(word, fs, i); t.Some? ==> t.value == Tone(fs[i])
  }

  lemma TargetedChanges(final: string, target: Option<char>)
    requires final != ""
    ensures Targeted(final, target) == final <==> (target.Some? ==> target.value == Tone(final))
  {
    assert final == Stem(final) + [Tone(final)];
  }

  /**
    The pass does what its comments say if and only if the word has no 一, or is
    a number sequence exactly when it does not end in 一, or has the tones
    already.
   */
  lemma YiMeetsItsRuleExactly(word: string, fs: seq<string>)
    requires |word| == |fs| >= 1 && Proper(fs) && word != "第"
    ensures YiSpec(word, fs) == YiRule(word, fs) <==>
              || '一' !in word
              || AllNumerals(word) != (word[|word| - 1] == '一')
              || TonesAlready(word, fs)
  {
    var code, rule := YiSpec(word, fs), YiRule(word, fs);
    forall i | 0 <= i < |fs|
      ensures Targeted(fs[i], YiTarget(word, fs, i)) == fs[i] <==>
              (var t := YiTarget(word, fs, i); t.Some? ==> t.value == Tone(fs[i]))
    {
      TargetedChanges(fs[i], YiTarget(word, fs, i));
    }
    if '一' in word && AllNumerals(word) == (word[|word| - 1] == '一') {
      if code == rule {
        forall i | 0 <= i < |fs| ensures Targeted(fs[i], YiTarget(word, fs, i)) == fs[i] {
          assert code[i] == rule[i];
        }
      }
    }
  }

  /** The examples in the comments: 第一, 一段 and 一天. */
  lemma YiRuleExamples()
    ensures YiRule("第一", ["i4", "i4"]) == ["i4", "i1"]
    ensures YiRule("一段", ["i1", "uan4"]) == ["i2", "uan4"]
    ensures YiRule("一天", ["i1", "ian1"]) == ["i4", "ian1"]
  {
    assert "第一"[1] == '一' && "一段"[0] == '一' && "一天"[0] == '一';
    assert !AllNumerals("第一") by { assert "第一"[0] !in DIGITS; }
    assert !AllNumerals("一段") by { assert "一段"[1] !in DIGITS; }
    assert !AllNumerals("一天") by { assert "一天"[1] !in DIGITS; }
    assert SetTone("i4", '1') == "i1" && SetTone("i1", '2') == "i2" && SetTone("i1", '4') == "i4";
  }

  /** Its own example 看一看 stays as it is. */
  lemma KanYiKanIsMissed()
    ensures var fs := ["an4", "i1", "an4"]; YiSpec("看一看", fs) == fs && YiRule("看一看", fs) == ["an4", "i5", "an4"]
  {
    var word, fs := "看一看", ["an4", "i1", "an4"];
    assert word[1] == '一' && !AllNumerals(word) by { assert word[0] !in DIGITS; }
    assert SetTone("i1", '5') == "i5";
  }

  /** A number sequence that ends in 一 is changed. */
  lemma YiLingYiIsChanged()
    ensures var fs := ["i1", "ing2", "i1"];
            YiSpec("一零一", fs) == ["i4", "ing2", "i1"] && YiRule("一零一", fs) == fs
  {
    var word, fs := "一零一", ["i1", "ing2", "i1"];
    assert word[0] == '一' && word[2] == '一';
    assert SetTone("i1", '4') == "i4";
    assert DIGITS[0] == '零' && DIGITS[1] == '一';
  }

  // ---------------------------------------------------------------------
  // Neutral tones
  // ---------------------------------------------------------------------

  /** The second of two equal characters of a noun, verb or adjective. */
  predicate Doubled(word: string, pos: string, i: nat)
    requires i < |word|
  {
    i >= 1 && word[i] == word[i - 1] && pos != "" && pos[0] in "nva"
  }

  /** The word or its last two characters are listed as neutral. */
  predicate ListedNeutral(lex: Lexicon, word: string) {
    word in lex.mustNeutral || (|word| >= 2 && word[|word| - 2..] in lex.mustNeutral)
  }

  /** The first position of 个, or the length. */
  function GeIndex(word: string, i: nat): (k: nat)
    requires i <= |word|
    ensures i <= k <= |word| && (forall j :: i <= j < k ==> word[j] != '个') && (k < |word| ==> word[k] == '个')
    decreases |word| - i
  {
    if i == |word| || word[i] == '个' then i else GeIndex(word, i + 1)
  }

  /** Whether the last character is read neutral, by the chain of rules in the order they are tried. */
  predicate EndsNeutral(lex: Lexicon, word: string, pos: string)
    requires word != ""
  {
    var n, last := |word|, word[|word| - 1];
    var ge := GeIndex(word, 0);
    || last in "吧呢哈啊呐噻嘛吖嗨呐哦哒额滴哩哟喽啰耶喔诶"
    || last in "的地得"
    || (n == 1 && last in "了着过" && (pos == "ul" || pos == "uz" || pos == "ug"))
    || (n > 1 && last in "们子" && (pos == "r" || pos == "n") && word in lex.mustNotNeutral)
    || (n > 1 && last in "上下里" && (pos == "s" || pos == "l" || pos == "f"))
    || (n > 1 && last in "来去" && word[n - 2] in "上下进出回过起开")
    || (1 <= ge < n && word[ge - 1] in "几有两半多各整每做是零一二三四六七八九")
    || word == "个"
    || ListedNeutral(lex, word)
  }

  /** Where a character is read neutral: doubled, last by the rules or the list, or the end of the first piece. */
  predicate NeutralAt(lex: Lexicon, word: string, pos: string, i: nat)
    requires i < |word| && SplitsWell(lex, word)
  {
    var (a, b) := lex.split(word);
    || Doubled(word, pos, i)
    || (i == |word| - 1 && (EndsNeutral(lex, word, pos) || ListedNeutral(lex, b)))
    || (i == |a| - 1 && ListedNeutral(lex, a))
  }

  function Neutralized(final: string, neutral: bool): (r: string)
    requires final != ""
    ensures r != "" && SameStem(r, final)
  {
    if neutral then SetTone(final, '5') else final
  }

  /** Neutral positions get tone five, the others keep theirs. */
  function NeutralSpec(lex: Lexicon, word: string, pos: string, fs: seq<string>): (r: seq<string>)
    requires |word| == |fs| >= 1 && Proper(fs) && SplitsWell(lex, word)
    ensures OnlyTones(fs, r)
    ensures forall i :: 0 <= i < |fs| ==> r[i] == Neutralized(fs[i], NeutralAt(lex, word, pos, i))
  {
    seq(|fs|, i requires 0 <= i < |fs| => Neutralized(fs[i], NeutralAt(lex, word, pos, i)))
  }

  /** Setting a tone twice is setting it once. */
  lemma NeutralTwice(final: string, p: bool, q: bool)
    requires final != ""
    ensures Neutralized(Neutralized(final, p), q) == Neutralized(final, p || q)
  {
  }

  /** `r` is `fs` with tone five where `p` says so. */
  predicate NeutralWhere(fs: seq<string>, r: seq<string>, p: nat -> bool)
    requires Proper(fs)
  {
    |r| == |fs| && Proper(r) && forall i :: 0 <= i < |fs| ==> r[i] == Neutralized(fs[i], p(i))
  }

  method DoubledLoop(word: string, pos: string, fs: seq<string>) returns (finals: seq<string>)
    requires |word| == |fs| && Proper(fs)
    ensures NeutralWhere(fs, finals, (i: nat) => i < |word| && Doubled(word, pos, i))
  {
    finals := fs;
    for j := 0 to |word|
      invariant |finals| == |fs| && Proper(finals)
      invariant forall k :: 0 <= k < |fs| ==> finals[k] == Neutralized(fs[k], k < j && Doubled(word, pos, k))
    {
      if j - 1 >= 0 && word[j] == word[j - 1] && pos != "" && pos[0] in "nva" {
        finals := Retone(finals, j, '5');
      }
    }
  }

  /** The chain of rules for the last character: the first that applies makes it neutral. */
  method EndRules(lex: Lexicon, word: string, pos: string, fs: seq<string>) returns (finals: seq<string>)
    requires |word| == |fs| >= 1 && Proper(fs)
    ensures NeutralWhere(fs, finals, (i: nat) => i == |word| - 1 && EndsNeutral(lex, word, pos))
  {
    var n, ge := |word|, GeIndex(word, 0);
    var last, neutral := word[n - 1], false;
    if last in "吧呢哈啊呐噻嘛吖嗨呐哦哒额滴哩哟喽啰耶喔诶" {
      neutral := true;
    } else if last in "的地得" {
      neutral := true;
    } else if n == 1 && last in "了着过" && (pos == "ul" || pos == "uz" || pos == "ug") {
      neutral := true;
    } else if n > 1 && last in "们子" && (pos == "r" || pos == "n") && word in lex.mustNotNeutral {
      neutral := true;
    } else if n > 1 && last in "上下里" && (pos == "s" || pos == "l" || pos == "f") {
      neutral := true;
    } else if n > 1 && last in "来去" && word[n - 2] in "上下进出回过起开" {
      neutral := true;
    } else if (1 <= ge < n && word[ge - 1] in "几有两半多各整每做是零一二三四六七八九") || word == "个" {
      neutral := true;
    } else if word in lex.mustNeutral || (n >= 2 && word[n - 2..] in lex.mustNeutral) {
      neutral := true;
    }
    assert neutral == EndsNeutral(lex, word, pos);
    finals := if neutral then Retone(fs, n - 1, '5') else fs;
  }

  /** The finals are cut in two where the word is, the end of each listed piece is set, and they are joined again. */
  method NeutralPieces(lex: Lexicon, a: string, b: string, fs: seq<string>) returns (finals: seq<string>)
    requires |a| >= 1 && |a| + |b| == |fs| && Proper(fs) && "" !in lex.mustNeutral
    ensures NeutralWhere(fs, finals, (i: nat) => (i == |a| - 1 && ListedNeutral(lex, a))
                                              || (i == |fs| - 1 && ListedNeutral(lex, b)))
  {
    var left, right := fs[..|a|], fs[|a|..];
    var la := a in lex.mustNeutral || (|a| >= 2 && a[|a| - 2..] in lex.mustNeutral);
    var lb := b in lex.mustNeutral || (|b| >= 2 && b[|b| - 2..] in lex.mustNeutral);
    if la {
      left := Retone(left, |left| - 1, '5');
    }
    if lb {
      right := Retone(right, |right| - 1, '5');
    }
    finals := left + right;
    assert la == ListedNeutral(lex, a) && lb == ListedNeutral(lex, b);
    forall i | 0 <= i < |fs|
      ensures finals[i] == Neutralized(fs[i], (i == |a| - 1 && la) || (i == |fs| - 1 && lb))
    {
      assert finals[i] == if i < |a| then left[i] else right[i - |a|];
    }
  }

  /** Only tones change, every changed final gets tone five, and exactly the neutral positions have it set. */
  method NeuralSandhi(lex: Lexicon, word: string, pos: string, fs: seq<string>) returns (finals: seq<string>)
    requires |word| == |fs| >= 1 && Proper(fs) && SplitsWell(lex, word) && "" !in lex.mustNeutral
    ensures finals == NeutralSpec(lex, word, pos, fs)
    ensures OnlyTones(fs, finals)
    ensures forall i :: 0 <= i < |fs| && finals[i] != fs[i] ==>
              && Tone(finals[i]) == '5'
              && (Doubled(word, pos, i) || i == |fs| - 1 || i == |lex.split(word).0| - 1)
  {
    var doubled := DoubledLoop(word, pos, fs);
    var ended := EndRules(lex, word, pos, doubled);
    finals := NeutralPieces(lex, lex.split(word).0, lex.split(word).1, ended);
    forall i | 0 <= i < |fs| ensures finals[i] == Neutralized(fs[i], NeutralAt(lex, word, pos, i)) {
      var p, q := Doubled(word, pos, i), i == |word| - 1 && EndsNeutral(lex, word, pos);
      NeutralTwice(fs[i], p, q);
      NeutralTwice(fs[i], p || q, NeutralAt(lex, word, pos, i));
    }
  }

  /** `word` is one of `list`, or ends in one of two characters. */
  ghost predicate EndsListed(word: string, list: set<string>) {
    word in list || exists a, b :: word == a + b && |b| == 2 && b in list
  }

  lemma ListedIsListed(lex: Lexicon, word: string)
    ensures ListedNeutral(lex, word) <==> EndsListed(word, lex.mustNeutral)
  {
    if |word| >= 2 {
      assert word == word[..|word| - 2] + word[|word| - 2..];
    }
    if a, b :| word == a + b && |b| == 2 && b in lex.mustNeutral {
      assert word[|word| - 2..] == b;
    }
  }

  /** The first 个 is counted by the character before it. */
  ghost predicate CountedGe(word: string) {
    exists g :: && 1 <= g < |word| && word[g] == '个' && '个' !in word[..g]
                && word[g - 1] in "几有两半多各整每做是零一二三四六七八九"
  }

  lemma CountedGeIsFirst(word: string)
    ensures CountedGe(word) <==>
            var ge := GeIndex(word, 0); 1 <= ge < |word| && word[ge - 1] in "几有两半多各整每做是零一二三四六七八九"
  {
    var ge := GeIndex(word, 0);
    assert '个' !in word[..ge];
    forall g | 1 <= g < |word| && word[g] == '个' && '个' !in word[..g] ensures g == ge {
      assert forall j :: 0 <= j < g ==> word[j] == word[..g][j];
    }
  }

  /** Rule by rule, which characters are neutral whatever the tag. */
  lemma NeutralRules(lex: Lexicon, word: string, pos: string, fs: seq<string>)
    requires |word| == |fs| >= 1 && Proper(fs) && SplitsWell(lex, word)
    ensures var n, r, (a, b) := |word|, NeutralSpec(lex, word, pos, fs), lex.split(word);
            && (word[n - 1] in "吧呢哈啊呐噻嘛吖嗨哦哒额滴哩哟喽啰耶喔诶的地得" ==> Tone(r[n - 1]) == '5')
            && (n >= 2 && word[n - 1] in "来去" && word[n - 2] in "上下进出回过起开" ==> Tone(r[n - 1]) == '5')
            && (word == "个" || CountedGe(word) ==> Tone(r[n - 1]) == '5')
            && (EndsListed(word, lex.mustNeutral) || EndsListed(b, lex.mustNeutral) ==> Tone(r[n - 1]) == '5')
            && (EndsListed(a, lex.mustNeutral) ==> Tone(r[|a| - 1]) == '5')
  {
    ListedIsListed(lex, word);
    ListedIsListed(lex, lex.split(word).0);
    ListedIsListed(lex, lex.split(word).1);
    CountedGeIsFirst(word);
  }

  /** And which are with the tags the rules ask for. */
  lemma NeutralByTag(lex: Lexicon, word: string, pos: string, fs: seq<string>)
    requires |word| == |fs| >= 1 && Proper(fs) && SplitsWell(lex, word)
    ensures var n, r := |word|, NeutralSpec(lex, word, pos, fs);
            && (pos in {"ul", "uz", "ug"} && word in {"了", "着", "过"} ==> Tone(r[0]) == '5')
            && (pos in {"r", "n"} && n >= 2 && word[n - 1] in "们子" && word in lex.mustNotNeutral ==>
                  Tone(r[n - 1]) == '5')
            && (pos in {"s", "l", "f"} && n >= 2 && word[n - 1] in "上下里" ==> Tone(r[n - 1]) == '5')
            && (pos != "" && pos[0] in "nva" ==>
                  forall i :: 1 <= i < n && word[i] == word[i - 1] ==> Tone(r[i]) == '5')
  {
    assert "了"[0] in "了着过" && "着"[0] in "了着过" && "过"[0] in "了着过" by {
      assert "了着过"[0] == '了' && "了着过"[1] == '着' && "了着过"[2] == '过';
    }
  }

  /** Nothing else is: a final that changes without a tag's help is one of those. */
  lemma OnlyThoseNeutral(lex: Lexicon, word: string, pos: string, fs: seq<string>, i: nat)
    requires |word| == |fs| && Proper(fs) && SplitsWell(lex, word) && i < |fs|
    requires FrontTag(pos) && NeutralSpec(lex, word, pos, fs)[i] != fs[i]
    ensures var n, (a, b) := |word|, lex.split(word);
            || (i == |a| - 1 && EndsListed(a, lex.mustNeutral))
            || (&& i == n - 1
                && (|| word[n - 1] in "吧呢哈啊呐噻嘛吖嗨哦哒额滴哩哟喽啰耶喔诶的地得"
                    || (n >= 2 && word[n - 1] in "来去" && word[n - 2] in "上下进出回过起开")
                    || word == "个" || CountedGe(word)
                    || EndsListed(word, lex.mustNeutral) || EndsListed(b, lex.mustNeutral)))
  {
    ListedIsListed(lex, lex.split(word).0);
    ListedIsListed(lex, lex.split(word).1);
    TagsDecideNothing(lex, word, pos, i);
    if EndsNeutral(lex, word, "") {
      UntaggedEnd(lex, word);
    }
  }

  lemma UntaggedEnd(lex: Lexicon, word: string)
    requires word != "" && EndsNeutral(lex, word, "")
    ensures var n := |word|;
            || word[n - 1] in "吧呢哈啊呐噻嘛吖嗨哦哒额滴哩哟喽啰耶喔诶的地得"
            || (n >= 2 && word[n - 1] in "来去" && word[n - 2] in "上下进出回过起开")
            || word == "个" || CountedGe(word) || EndsListed(word, lex.mustNeutral)
  {
    ListedIsListed(lex, word);
    CountedGeIsFirst(word);
  }

  /** The tags a word can have here: the tagger's three, and d for a 不 that stands alone. */
  predicate FrontTag(pos: string) { pos == "x" || pos == "m" || pos == "eng" || pos == "d" }

  /** With these tags no rule that asks for a part of speech ever applies. */
  lemma TagsDecideNothing(lex: Lexicon, word: string, pos: string, i: nat)
    requires FrontTag(pos) && i < |word| && SplitsWell(lex, word)
    ensures !Doubled(word, pos, i) && NeutralAt(lex, word, pos, i) == NeutralAt(lex, word, "", i)
  {
    assert pos[0] == 'x' || pos[0] == 'm' || pos[0] == 'e' || pos[0] == 'd';
  }

  /** A character that no rule for the last character mentions without asking for a tag. */
  predicate PlainEnd(c: char) {
    c !in "吧呢哈啊呐噻嘛吖嗨呐哦哒额滴哩哟喽啰耶喔诶" && c !in "的地得" && c !in "来去" && c != '个'
  }

  /** So a doubled character as in the pass's own examples stays as it is, unless the word is listed. */
  lemma DoublingIsMissed(lex: Lexicon, c: char, pos: string, fs: seq<string>)
    requires PlainEnd(c) && FrontTag(pos) && |fs| == 2 && Proper(fs) && SplitsWell(lex, [c, c]) && Unlisted(lex, [c, c])
    ensures NeutralSpec(lex, [c, c], pos, fs) == fs
  {
    assert GeIndex([c, c], 2) == 2 && GeIndex([c, c], 1) == 2 && GeIndex([c, c], 0) == 2;
    forall i | 0 <= i < |fs| ensures !NeutralAt(lex, [c, c], pos, i) {
      TagsDecideNothing(lex, [c, c], pos, i);
    }
  }

  predicate Unlisted(lex: Lexicon, word: string) {
    var (a, b) := lex.split(word);
    !ListedNeutral(lex, word) && !ListedNeutral(lex, a) && !ListedNeutral(lex, b)
  }

  /** 奶奶 and 试试 are such words. */
  lemma DoubledExamplesAreMissed(lex: Lexicon, word: string, pos: string, fs: seq<string>)
    requires word == "奶奶" || word == "试试"
    requires FrontTag(pos) && |fs| == 2 && Proper(fs) && SplitsWell(lex, word) && Unlisted(lex, word)
    ensures NeutralSpec(lex, word, pos, fs) == fs
  {
    var c := word[0];
    assert word == [c, c];
    assert PlainEnd(c);
    DoublingIsMissed(lex, c, pos, fs);
  }

  // ---------------------------------------------------------------------
  // Third tones
  // ---------------------------------------------------------------------

  /** The first of two third tones turns to tone two. */
  function PairSpec(fs: seq<string>): (r: seq<string>)
    requires Proper(fs)
    ensures OnlyTones(fs, r)
  {
    if |fs| == 2 && AllToneThree(fs) then Retone(fs, 0, '2') else fs
  }

  /** Each half as a pair; a third tone before a right half that begins with one, but is not all of them, turns too. */
  function HalvesSpec(l: seq<string>, r: seq<string>): (fs: seq<string>)
    requires Proper(l) && Proper(r) && 1 <= |l|
    ensures Proper(fs) && |fs| == |l| + |r|
  {
    var left, n := PairSpec(l), |l| - 1;
    if !AllToneThree(r) && Tone(r[0]) == '3' && Tone(left[n]) == '3' then Retone(left, n, '2') + r
    else left + PairSpec(r)
  }

  /** Three characters, split after the first `k`. */
  function TripleSpec(fs: seq<string>, k: nat): (r: seq<string>)
    requires |fs| == 3 && Proper(fs) && 1 <= k <= 3
    ensures Proper(r) && |r| == 3
  {
    if AllToneThree(fs) then
      if k == 2 then Retone(Retone(fs, 0, '2'), 1, '2') else if k == 1 then Retone(fs, 1, '2') else fs
    else HalvesSpec(fs[..k], fs[k..])
  }

  function ThreeSpec(lex: Lexicon, word: string, fs: seq<string>): (r: seq<string>)
    requires |word| == |fs| >= 1 && Proper(fs) && SplitsWell(lex, word)
    ensures Proper(r) && |r| == |fs|
  {
    if |word| == 2 then PairSpec(fs)
    else if |word| == 3 then TripleSpec(fs, |lex.split(word).0|)
    else if |word| == 4 then PairSpec(fs[..2]) + PairSpec(fs[2..])
    else fs
  }

  /** Two third tones side by side. */
  predicate PairAt(fs: seq<string>, i: nat)
    requires Proper(fs) && i + 1 < |fs|
  {
    Tone(fs[i]) == '3' && Tone(fs[i + 1]) == '3'
  }

  lemma PairLeavesNone(fs: seq<string>)
    requires Proper(fs) && |fs| == 2
    ensures var r := PairSpec(fs);
            !PairAt(r, 0) && r[1] == fs[1] && r[0] == if PairAt(fs, 0) then SetTone(fs[0], '2') else fs[0]
  {
    assert AllToneThree(fs) <==> PairAt(fs, 0);
  }

  /**
    Which final turns to tone two, for a word split after `k` characters: the
    first of two third tones side by side, within each half of a word of four,
    and for three characters as the split asks.
   */
  predicate TurnsTwo(fs: seq<string>, k: nat, i: nat)
    requires Proper(fs) && i < |fs|
  {
    match |fs|
    case 2 => i == 0 && PairAt(fs, 0)
    case 3 =>
      || (i == 0 && PairAt(fs, 0) && (k == 2 || (k == 1 && !PairAt(fs, 1))))
      || (i == 1 && PairAt(fs, 1) && (k == 1 || (k == 2 && PairAt(fs, 0))))
    case 4 => (i == 0 && PairAt(fs, 0)) || (i == 2 && PairAt(fs, 2))
    case _ => false
  }

  lemma OneAndTwo(x: string, y: string, z: string)
    requires x != "" && y != "" && z != ""
    ensures var p, q := PairAt([x, y, z], 0), PairAt([x, y, z], 1);
            HalvesSpec([x], [y, z]) == [if p && !q then Stem(x) + "2" else x, if q then Stem(y) + "2" else y, z]
  {
    PairLeavesNone([y, z]);
  }

  lemma TwoAndOne(x: string, y: string, z: string)
    requires x != "" && y != "" && z != ""
    ensures HalvesSpec([x, y], [z]) == [if PairAt([x, y, z], 0) then Stem(x) + "2" else x, y, z]
  {
    PairLeavesNone([x, y]);
    assert [z][0] == z;
  }

  lemma TripleTurns(fs: seq<string>, k: nat, i: nat)
    requires |fs| == 3 && Proper(fs) && 1 <= k <= 3 && i < 3
    ensures TripleSpec(fs, k)[i] == if TurnsTwo(fs, k, i) then Stem(fs[i]) + "2" else fs[i]
  {
    var x, y, z := fs[0], fs[1], fs[2];
    assert fs == [x, y, z];
    assert AllToneThree(fs) <==> PairAt(fs, 0) && PairAt(fs, 1);
    if k == 1 {
      assert fs[..k] == [x] && fs[k..] == [y, z];
      OneAndTwo(x, y, z);
    } else if k == 2 {
      assert fs[..k] == [x, y] && fs[k..] == [z];
      TwoAndOne(x, y, z);
    } else {
      assert fs[..k] == fs && fs[k..] == [];
    }
  }

  lemma ThreeTurns(lex: Lexicon, word: string, fs: seq<string>, i: nat)
    requires |word| == |fs| && Proper(fs) && SplitsWell(lex, word) && i < |fs|
    ensures ThreeSpec(lex, word, fs)[i]
         == if TurnsTwo(fs, |lex.split(word).0|, i) then Stem(fs[i]) + "2" else fs[i]
  {
    if |word| == 2 {
      PairLeavesNone(fs);
    } else if |word| == 3 {
      TripleTurns(fs, |lex.split(word).0|, i);
    } else if |word| == 4 {
      PairLeavesNone(fs[..2]);
      PairLeavesNone(fs[2..]);
    }
  }

  method ThreeSandhi(lex: Lexicon, word: string, fs: seq<string>) returns (finals: seq<string>)
    requires |word| == |fs| >= 1 && Proper(fs) && SplitsWell(lex, word)
    ensures finals == ThreeSpec(lex, word, fs)
    ensures forall i :: 0 <= i < |fs| ==>
              finals[i] == if TurnsTwo(fs, |lex.split(word).0|, i) then Stem(fs[i]) + "2" else fs[i]
  {
    forall i | 0 <= i < |fs|
      ensures ThreeSpec(lex, word, fs)[i]
           == if TurnsTwo(fs, |lex.split(word).0|, i) then Stem(fs[i]) + "2" else fs[i]
    {
      ThreeTurns(lex, word, fs, i);
    }
    finals := fs;
    if |word| == 2 && AllToneThree(finals) {
      finals := Retone(finals, 0, '2');
    } else if |word| == 3 {
      var k := |lex.split(word).0|;
      if AllToneThree(finals) {
        if k == 2 {
          finals := Retone(finals, 0, '2');
          finals := Retone(finals, 1, '2');
        } else if k == 1 {
          finals := Retone(finals, 1, '2');
        }
      } else {
        finals := ThreeSplit(fs[..k], fs[k..]);
      }
    } else if |word| == 4 {
      var left, right := finals[..2], finals[2..];
      if AllToneThree(left) {
        left := Retone(left, 0, '2');
      }
      if AllToneThree(right) {
        right := Retone(right, 0, '2');
      }
      finals := left + right;
    }
  }

  method ThreeSplit(l: seq<string>, r: seq<string>) returns (finals: seq<string>)
    requires Proper(l) && Proper(r) && 1 <= |l|
    ensures finals == HalvesSpec(l, r)
  {
    var left, right := l, r;
    if AllToneThree(left) && |left| == 2 {
      left := Retone(left, 0, '2');
    }
    assert left == PairSpec(l);
    if AllToneThree(right) && |right| == 2 {
      right := Retone(right, 0, '2');
    } else if !AllToneThree(right) && Tone(right[0]) == '3' && Tone(left[|left| - 1]) == '3' {
      left := Retone(left, |left| - 1, '2');
    }
    finals := left + right;
  }

  /** Of three characters, a pair is left over when the split leaves all of them, or only the last, on its own side. */
  lemma TripleLeaves(fs: seq<string>, k: nat)
    requires |fs| == 3 && Proper(fs) && 1 <= k <= 3
    ensures var r := TripleSpec(fs, k);
            PairAt(r, 0) || PairAt(r, 1) <==>
              || (k == 3 && (PairAt(fs, 0) || PairAt(fs, 1)))
              || (k == 2 && PairAt(fs, 1) && !PairAt(fs, 0))
  {
    var l, h := fs[..k], fs[k..];
    assert AllToneThree(fs) <==> PairAt(fs, 0) && PairAt(fs, 1);
    if k == 1 {
      PairLeavesNone(h);
      assert AllToneThree(h) <==> PairAt(fs, 1);
    } else if k == 2 {
      PairLeavesNone(l);
      assert AllToneThree(h) <==> Tone(fs[2]) == '3';
    }
  }

  /** Exactly which third tones are left side by side, for every word. */
  lemma ThirdTonesLeft(lex: Lexicon, word: string, fs: seq<string>)
    requires |word| == |fs| >= 1 && Proper(fs) && SplitsWell(lex, word)
    ensures var r, k := ThreeSpec(lex, word, fs), |lex.split(word).0|;
            && (|word| == 2 ==> !PairAt(r, 0))
            && (|word| == 3 ==>
                  (PairAt(r, 0) || PairAt(r, 1) <==>
                     || (k == 3 && (PairAt(fs, 0) || PairAt(fs, 1)))
                     || (k == 2 && PairAt(fs, 1) && !PairAt(fs, 0))))
            && (|word| == 4 ==> !PairAt(r, 0) && !PairAt(r, 2))
            && (|word| == 4 ==> (PairAt(r, 1) <==> PairAt(fs, 1) && !PairAt(fs, 2)))
            && (|word| == 1 || |word| > 4 ==> r == fs)
  {
    if |word| == 2 {
      PairLeavesNone(fs);
    } else if |word| == 3 {
      TripleLeaves(fs, |lex.split(word).0|);
    } else if |word| == 4 {
      PairLeavesNone(fs[..2]);
      PairLeavesNone(fs[2..]);
    }
  }

  // ---------------------------------------------------------------------
  // All passes
  // ---------------------------------------------------------------------

  lemma OnlyTonesTransitive(a: seq<string>, b: seq<string>, c: seq<string>)
    requires Proper(a) && Proper(b) && OnlyTones(a, b) && OnlyTones(b, c)
    ensures OnlyTones(a, c)
  {
    forall i | 0 <= i < |a| ensures SameStem(c[i], a[i]) {
      assert SameStem(b[i], a[i]) && SameStem(c[i], b[i]);
    }
  }

  lemma OnlyTonesConcat(a: seq<string>, b: seq<string>, a': seq<string>, b': seq<string>)
    requires Proper(a) && Proper(b) && OnlyTones(a, a') && OnlyTones(b, b')
    ensures Proper(a + b) && OnlyTones(a + b, a' + b')
  {
  }

  lemma TripleOnlyTones(fs: seq<string>, k: nat)
    requires |fs| == 3 && Proper(fs) && 1 <= k <= 3
    ensures OnlyTones(fs, TripleSpec(fs, k))
  {
    if AllToneThree(fs) {
      OnlyTonesTransitive(fs, Retone(fs, 0, '2'), Retone(Retone(fs, 0, '2'), 1, '2'));
    } else {
      var left, right := PairSpec(fs[..k]), PairSpec(fs[k..]);
      assert fs == fs[..k] + fs[k..];
      OnlyTonesConcat(fs[..k], fs[k..], left, right);
      OnlyTonesTransitive(fs[..k], left, Retone(left, k - 1, '2'));
      OnlyTonesConcat(fs[..k], fs[k..], Retone(left, k - 1, '2'), fs[k..]);
    }
  }

  lemma ThreeOnlyTones(lex: Lexicon, word: string, fs: seq<string>)
    requires |word| == |fs| >= 1 && Proper(fs) && SplitsWell(lex, word)
    ensures OnlyTones(fs, ThreeSpec(lex, word, fs))
  {
    if |word| == 3 {
      TripleOnlyTones(fs, |lex.split(word).0|);
    } else if |word| == 4 {
      assert fs == fs[..2] + fs[2..];
      OnlyTonesConcat(fs[..2], fs[2..], PairSpec(fs[..2]), PairSpec(fs[2..]));
    }
  }

  /** The four passes in order change nothing but tones. */
  method ModifyTone(lex: Lexicon, word: string, pos: string, fs: seq<string>) returns (finals: seq<string>)
    requires |word| == |fs| >= 1 && Proper(fs) && word != "第" && SplitsWell(lex, word) && "" !in lex.mustNeutral
    ensures Proper(finals) && OnlyTones(fs, finals)
    ensures finals == ThreeSpec(lex, word, NeutralSpec(lex, word, pos, YiSpec(word, BuSpec(word, fs))))
  {
    var bu := BuSandhi(word, fs);
    var yi := YiSandhi(word, bu);
    var neutral := NeuralSandhi(lex, word, pos, yi);
    finals := ThreeSandhi(lex, word, neutral);
    OnlyTonesTransitive(fs, bu, yi);
    OnlyTonesTransitive(fs, yi, neutral);
    ThreeOnlyTones(lex, word, neutral);
    OnlyTonesTransitive(fs, neutral, finals);
  }

  // ---------------------------------------------------------------------
  // A final 儿
  // ---------------------------------------------------------------------

  /** Whether the last character is a 儿 read into the syllable before it. */
  predicate Absorbs(lex: Lexicon, word: string, finals: seq<string>)
    requires |word| == |finals|
  {
    && |word| >= 2 && word[|word| - 1] == '儿'
    && (finals[|word| - 1] == "er2" || finals[|word| - 1] == "er5")
    && word[|word| - 2..] !in lex.notErhua
  }

  /** The r goes between the stem and the tone. */
  function WithR(final: string): (r: string)
    requires final != ""
  {
    Stem(final) + "r" + [Tone(final)]
  }

  /** Initials and finals keep equal lengths: unchanged, or one syllable shorter. */
  method MergeErhua(lex: Lexicon, initials: seq<string>, finals: seq<string>, word: string, pos: string)
    returns (newInitials: seq<string>, newFinals: seq<string>)
    requires |initials| == |finals| && Proper(finals)
    ensures |newInitials| == |newFinals|
    ensures var n := |finals|;
            var kept := word !in lex.mustErhua && (word in lex.notErhua || pos in {"a", "j", "nr"});
            if !kept && n == |word| >= 2 && word[n - 1] == '儿' && finals[n - 1] in {"er2", "er5"}
               && word[n - 2..] !in lex.notErhua
            then newInitials == initials[..n - 1]
                 && newFinals == finals[..n - 2] + [Stem(finals[n - 2]) + "r" + [Tone(finals[n - 2])]]
            else newInitials == initials && newFinals == finals
  {
    if word !in lex.mustErhua && (word in lex.notErhua || pos == "a" || pos == "j" || pos == "nr") {
      return initials, finals;
    }
    if |finals| != |word| {
      return initials, finals;
    }
    newInitials, newFinals := [], [];
    var n := |finals|;
    for i := 0 to n
      invariant i < n || !Absorbs(lex, word, finals) ==> newInitials == initials[..i] && newFinals == finals[..i]
      invariant i == n && Absorbs(lex, word, finals) ==>
                  newInitials == initials[..n - 1] && newFinals == finals[..n - 2] + [WithR(finals[n - 2])]
    {
      if i == n - 1 && word[i] == '儿' && (finals[i] == "er2" || finals[i] == "er5") && |word| >= 2
         && word[|word| - 2..] !in lex.notErhua && newFinals != []
      {
        newFinals := newFinals[|newFinals| - 1 := WithR(newFinals[|newFinals| - 1])];
      } else {
        newInitials := newInitials + [initials[i]];
        newFinals := newFinals + [finals[i]];
      }
    }
  }
}
