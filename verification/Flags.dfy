/**
  The flag registry: three ways of setting a flag, saving and restoring all of
  them, and reading a flag file as one transaction.
 */
module Flags {
  import opened Options
  import Argv

  type Value = string

  /** A flag's state; the validator is known by a number. */
  datatype Flag = Flag(current: Value, defValue: Value, modified: bool, validator: nat)

  type FlagMap = map<string, Flag>

  /** How values of a flag are parsed and validated, and which file patterns match this program. */
  datatype Env = Env(parse: (string, string) -> Option<Value>, valid: (nat, Value) -> bool, glob: string -> bool)

  datatype Mode = SetValue | SetIfDefault | SetDefault

  // ---------------------------------------------------------------------
  // One call
  // ---------------------------------------------------------------------

  /** A flag whose variable was written directly counts as modified. */
  function UpdateModifiedBit(f: Flag): Flag {
    if !f.modified && f.current != f.defValue then f.(modified := true) else f
  }

  /** The value a text stands for, if it parses and passes validation. */
  function TryParse(env: Env, name: string, f: Flag, text: string): Option<Value> {
    match env.parse(name, text)
    case None => None
    case Some(v) => if env.valid(f.validator, v) then Some(v) else None
  }

  datatype SetResult = SetResult(ok: bool, flag: Flag)

  function SetFlag(env: Env, name: string, flag: Flag, text: string, mode: Mode): SetResult {
    var f := UpdateModifiedBit(flag);
    var v := TryParse(env, name, f, text);
    match mode
    case SetValue =>
      if v.None? then SetResult(false, f) else SetResult(true, f.(current := v.value, modified := true))
    case SetIfDefault =>
      if f.modified then SetResult(true, f)
      else if v.None? then SetResult(false, f)
      else SetResult(true, f.(current := v.value, modified := true))
    case SetDefault =>
      if v.None? then SetResult(false, f)
      else if f.modified then SetResult(true, f.(defValue := v.value))
      else SetResult(true, f.(defValue := v.value, current := v.value))
  }

  /** An unmodified flag has its default value. */
  predicate Consistent(f: Flag) { !f.modified ==> f.current == f.defValue }

  /** Somebody has given the flag a value, through a call or by writing to its variable. */
  predicate Touched(f: Flag) { f.modified || f.current != f.defValue }

  /**
    What each mode promises: an explicit value always wins, a value for an
    untouched flag gives way to any other, and a new default moves the value
    only of an untouched flag. Failure changes neither value.
   */
  predicate SetOutcome(env: Env, name: string, f: Flag, r: Flag, text: string, mode: Mode, ok: bool) {
    var v := env.parse(name, text);
    && (ok <==> (v.Some? && env.valid(f.validator, v.value)) || (mode == SetIfDefault && Touched(f)))
    && r.validator == f.validator
    && (!ok ==> r.current == f.current && r.defValue == f.defValue && r.modified == Touched(f))
    && (ok && mode == SetValue ==> Some(r.current) == v && r.defValue == f.defValue && r.modified)
    && (ok && mode == SetIfDefault ==>
          && r.defValue == f.defValue && r.modified
          && (if Touched(f) then r.current == f.current else Some(r.current) == v))
    && (ok && mode == SetDefault ==>
          && Some(r.defValue) == v && r.modified == Touched(f)
          && (if Touched(f) then r.current == f.current else Some(r.current) == v))
  }

  /** Every call meets it and leaves the flag consistent. */
  lemma SetFlagMeetsOutcome(env: Env, name: string, f: Flag, text: string, mode: Mode)
    ensures var r := SetFlag(env, name, f, text, mode);
            Consistent(r.flag) && SetOutcome(env, name, f, r.flag, text, mode, r.ok)
  {
  }

  // ---------------------------------------------------------------------
  // Runs
  // ---------------------------------------------------------------------

  /** A call, or a write straight to the flag's variable. */
  datatype Event = Call(name: string, text: string, mode: Mode) | Write(name: string, value: Value)

  function Apply(env: Env, flags: FlagMap, e: Event): FlagMap {
    if e.name !in flags then flags
    else
      match e
      case Call(n, text, mode) => flags[n := SetFlag(env, n, flags[n], text, mode).flag]
      case Write(n, v) => flags[n := flags[n].(current := v)]
  }

  function ApplyAll(env: Env, flags: FlagMap, es: seq<Event>): FlagMap
    decreases |es|
  {
    if es == [] then flags else Apply(env, ApplyAll(env, flags, es[..|es| - 1]), es[|es| - 1])
  }

  /** The last event that concerns `name` is not a direct write. */
  predicate CleanAt(es: seq<Event>, name: string)
    decreases |es|
  {
    es == [] || (if es[|es| - 1].name == name then es[|es| - 1].Call? else CleanAt(es[..|es| - 1], name))
  }

  /**
    Over any run, a flag that was consistent and whose last event was not a
    direct write is consistent.
   */
  lemma {:induction false} RunsKeepFlagsConsistent(env: Env, flags: FlagMap, es: seq<Event>, name: string)
    requires name in flags && CleanAt(es, name)
    requires Consistent(flags[name]) || exists i :: 0 <= i < |es| && es[i].name == name
    ensures name in ApplyAll(env, flags, es) && Consistent(ApplyAll(env, flags, es)[name])
    decreases |es|
  {
    KeysStay(env, flags, es);
    if es != [] {
      var e, before := es[|es| - 1], es[..|es| - 1];
      KeysStay(env, flags, before);
      if e.name == name {
        SetFlagMeetsOutcome(env, name, ApplyAll(env, flags, before)[name], e.text, e.mode);
      } else {
        if !Consistent(flags[name]) {
          var i :| 0 <= i < |es| && es[i].name == name;
          assert before[i].name == name;
        }
        RunsKeepFlagsConsistent(env, flags, before, name);
      }
    }
  }

  lemma {:induction false} KeysStay(env: Env, flags: FlagMap, es: seq<Event>)
    ensures ApplyAll(env, flags, es).Keys == flags.Keys
    decreases |es|
  {
    if es != [] {
      KeysStay(env, flags, es[..|es| - 1]);
    }
  }

  /** No event other than an explicit setting or a direct write changes a modified flag's value. */
  lemma {:induction false} ExplicitSettingSticks(env: Env, flags: FlagMap, es: seq<Event>, name: string)
    requires name in flags && flags[name].modified
    requires forall i :: 0 <= i < |es| && es[i].name == name ==> es[i].Call? && es[i].mode != SetValue
    ensures name in ApplyAll(env, flags, es)
    ensures var f := ApplyAll(env, flags, es)[name]; f.modified && f.current == flags[name].current
    decreases |es|
  {
    if es != [] {
      var e, before := es[|es| - 1], es[..|es| - 1];
      ExplicitSettingSticks(env, flags, before, name);
      if e.name == name {
        SetFlagMeetsOutcome(env, name, ApplyAll(env, flags, before)[name], e.text, e.mode);
      }
    }
  }

  // ---------------------------------------------------------------------
  // The lines of a flag file
  // ---------------------------------------------------------------------

  predicate IsSpace(c: char) { c == ' ' || '\t' <= c <= '\r' }

  function SkipSpace(text: string, i: nat): (k: nat)
    requires i <= |text|
    ensures i <= k <= |text| && (forall j :: i <= j < k ==> IsSpace(text[j])) && (k < |text| ==> !IsSpace(text[k]))
    decreases |text| - i
  {
    if i < |text| && IsSpace(text[i]) then SkipSpace(text, i + 1) else i
  }

  function IndexOf(text: string, c: char, i: nat): (r: Option<nat>)
    requires i <= |text|
    ensures r.Some? ==> i <= r.value < |text| && text[r.value] == c && c !in text[i..r.value]
    ensures r.None? ==> c !in text[i..]
    decreases |text| - i
  {
    if i == |text| then None else if text[i] == c then Some(i) else IndexOf(text, c, i + 1)
  }

  lemma SplitAt(text: string, i: nat, c: char)
    requires i <= |text|
    ensures forall j, k :: i <= j <= k <= |text| && c !in text[i..] ==> c !in text[j..k]
  {
    assert forall x :: i <= x < |text| ==> text[x] in text[i..];
  }

  /** A line ends at the next carriage return, however far it is; only without one at the next newline. */
  function LineEnd(text: string, i: nat): (r: Option<nat>)
    requires i <= |text|
    ensures r.Some? ==> i <= r.value < |text|
  {
    var cr := IndexOf(text, '\r', i);
    if cr.Some? then cr else IndexOf(text, '\n', i)
  }

  /** The lines from position `i` on, without the space before them. */
  function Lines(text: string, i: nat): seq<string>
    requires i <= |text|
    decreases |text| - i
  {
    var s := SkipSpace(text, i);
    match LineEnd(text, s)
    case None => [text[s..]]
    case Some(e) => [text[s..e]] + Lines(text, e + 1)
  }

  // When lines run together ----------------------------------------------

  predicate SomeNewline(ls: seq<string>) { exists k :: 0 <= k < |ls| && '\n' in ls[k] }

  /** A newline at `a`, with something before it since the last carriage return, and a carriage return after it. */
  predicate RunsOn(text: string, b: nat, a: nat, c: nat) {
    b < a < c < |text| && !IsSpace(text[b]) && text[a] == '\n' && '\r' !in text[b..a] && text[c] == '\r'
  }

  ghost predicate RunsOnFrom(text: string, i: nat) { exists b, a, c :: i <= b && RunsOn(text, b, a, c) }

  /** The first line holds a newline exactly if one runs on before the carriage return that ends it. */
  lemma HeadRunsOn(text: string, s: nat, e: nat)
    requires s <= e < |text| && text[e] == '\r' && '\r' !in text[s..e] && !IsSpace(text[s])
    ensures RunsOnFrom(text, s) <==> '\n' in text[s..e] || RunsOnFrom(text, e + 1)
  {
    if '\n' in text[s..e] {
      var a :| s <= a < e && text[a] == '\n';
      assert text[s..a] <= text[s..e];
      assert RunsOn(text, s, a, e);
    }
    if b: nat, a: nat, c: nat :| s <= b && RunsOn(text, b, a, c) {
      if b < e {
        assert text[s..e][a - s] == '\n';
      } else {
        assert e + 1 <= b && RunsOn(text, b, a, c);
      }
    }
  }

  /** Only space is skipped, so nothing that runs on begins there. */
  lemma SkippedDoesNotRunOn(text: string, i: nat)
    requires i <= |text|
    ensures RunsOnFrom(text, i) <==> RunsOnFrom(text, SkipSpace(text, i))
  {
    var s := SkipSpace(text, i);
    if b: nat, a: nat, c: nat :| i <= b && RunsOn(text, b, a, c) {
      assert s <= b && RunsOn(text, b, a, c);
    }
    if b: nat, a: nat, c: nat :| s <= b && RunsOn(text, b, a, c) {
      assert i <= b && RunsOn(text, b, a, c);
    }
  }

  lemma NoReturnNoRunOn(text: string, s: nat)
    requires s <= |text| && '\r' !in text[s..]
    ensures !RunsOnFrom(text, s)
  {
    assert forall c :: s <= c < |text| ==> text[c] in text[s..];
  }

  lemma NewlineInHead(line: string, rest: seq<string>)
    ensures SomeNewline([line] + rest) <==> '\n' in line || SomeNewline(rest)
  {
    var ls := [line] + rest;
    if k :| 0 <= k < |rest| && '\n' in rest[k] {
      assert '\n' in ls[k + 1];
    }
    if '\n' in line {
      assert '\n' in ls[0];
    }
  }

  /** The same for a line that may also end at a newline. */
  lemma LineRunsOn(text: string, s: nat, e: nat)
    requires s <= |text| && (s < |text| ==> !IsSpace(text[s])) && LineEnd(text, s) == Some(e)
    ensures RunsOnFrom(text, s) <==> '\n' in text[s..e] || RunsOnFrom(text, e + 1)
  {
    if text[e] == '\r' {
      HeadRunsOn(text, s, e);
    } else {
      SplitAt(text, s, '\r');
      NoReturnNoRunOn(text, s);
      NoReturnNoRunOn(text, e + 1);
    }
  }

  lemma LastLineEnds(text: string, s: nat)
    requires s <= |text| && LineEnd(text, s) == None
    ensures !SomeNewline([text[s..]]) && !RunsOnFrom(text, s)
  {
    NoReturnNoRunOn(text, s);
  }

  lemma {:induction false} LinesRunOnFrom(text: string, i: nat)
    requires i <= |text|
    ensures SomeNewline(Lines(text, i)) <==> RunsOnFrom(text, i)
    decreases |text| - i
  {
    var s := SkipSpace(text, i);
    SkippedDoesNotRunOn(text, i);
    match LineEnd(text, s)
    case None => LastLineEnds(text, s);
    case Some(e) =>
      LinesRunOnFrom(text, e + 1);
      LineRunsOn(text, s, e);
      FirstLine(text, i, e);
  }

  lemma FirstLine(text: string, i: nat, e: nat)
    requires i <= |text| && LineEnd(text, SkipSpace(text, i)) == Some(e)
    ensures SomeNewline(Lines(text, i)) <==> '\n' in text[SkipSpace(text, i)..e] || SomeNewline(Lines(text, e + 1))
  {
    NewlineInHead(text[SkipSpace(text, i)..e], Lines(text, e + 1));
  }

  /**
    Lines run together exactly if a newline that ends one is followed, anywhere
    further down, by a carriage return, and no carriage return ended it before.
   */
  lemma LinesRunTogetherExactly(text: string)
    ensures SomeNewline(Lines(text, 0)) <==> exists b, a, c :: RunsOn(text, b, a, c)
  {
    LinesRunOnFrom(text, 0);
    if b: nat, a: nat, c: nat :| RunsOn(text, b, a, c) {
      assert 0 <= b && RunsOn(text, b, a, c);
    }
  }

  /** Two lines before a carriage return are read as one, whatever they hold. */
  lemma TwoLinesBecomeOne(u: string, v: string)
    requires u != "" && !IsSpace(u[0]) && '\r' !in u && '\r' !in v
    ensures Lines(u + "\n" + v + "\r\n", 0) == [u + "\n" + v, ""]
  {
    var line := u + "\n" + v;
    var text, n := line + "\r\n", |line|;
    assert text == u + "\n" + v + "\r\n";
    assert text[n] == '\r' && text[n + 1] == '\n' && |text| == n + 2 && text[0] == u[0];
    assert '\r' !in line && forall k :: 0 <= k < n ==> text[k] == line[k];
    FirstIndex(text, '\r', 0, n);
    assert text[0..n] == line;
    assert SkipSpace(text, n + 1) == n + 2 && text[n + 2..] == "";
    assert Lines(text, n + 1) == [""];
  }

  lemma {:induction false} FirstIndex(text: string, c: char, i: nat, k: nat)
    requires i <= k < |text| && text[k] == c && forall j :: i <= j < k ==> text[j] != c
    ensures IndexOf(text, c, i) == Some(k)
    decreases k - i
  {
    if i < k {
      FirstIndex(text, c, i + 1, k);
    }
  }

  predicate StandsAt(text: string, i: Option<nat>) { i.Some? ==> i.value <= |text| }

  /** After the last line there is no position to go on from. */
  function LinesLeft(text: string, i: Option<nat>): seq<string>
    requires StandsAt(text, i)
  {
    if i.Some? then Lines(text, i.value) else []
  }

  lemma LineShape(text: string, s: nat, end: Option<nat>)
    requires s <= |text| && end == LineEnd(text, s)
    ensures var e := if end.Some? then end.value else |text|;
            && s <= e <= |text| && '\r' !in text[s..e] && ('\n' in text[s..e] ==> '\r' in text[s..])
            && (end.Some? ==> text[e] == '\r' || (text[e] == '\n' && '\r' !in text[e..]))
            && (end.None? ==> '\n' !in text[s..e])
  {
    SplitAt(text, s, '\r');
    assert text[s..|text|] == text[s..];
    if end.Some? {
      assert text[end.value] in text[s..] by { assert text[s..][end.value - s] == text[end.value]; }
    }
  }

  method NextLine(text: string, i: nat) returns (line: string, next: Option<nat>)
    requires i <= |text|
    ensures StandsAt(text, next) && (next.Some? ==> i < next.value)
    ensures Lines(text, i) == [line] + LinesLeft(text, next)
    ensures '\r' !in line && ('\n' in line ==> '\r' in text[i..])
    ensures var end := if next.Some? then next.value - 1 else |text|;
            && |line| <= end - i && line == text[end - |line|..end]
            && (forall k :: i <= k < end - |line| ==> IsSpace(text[k]))
            && (next.Some? ==> text[end] == '\r' || (text[end] == '\n' && '\r' !in text[end..]))
            && (next.None? ==> '\n' !in line)
  {
    var start := SkipSpace(text, i);
    var end := LineEnd(text, start);
    LineShape(text, start, end);
    line := if end.Some? then text[start..end.value] else text[start..];
    next := if end.Some? then Some(end.value + 1) else None;
  }

  /** A line is empty or a comment, a flag, or a list of file patterns that may match this program. */
  datatype Line = Skip | FlagLine(text: string) | Patterns(matches: bool)

  /** Some space-separated word of the line, from position `i` on, matches. */
  predicate AnyMatch(env: Env, line: string, i: nat)
    requires i <= |line|
    decreases |line| - i
  {
    match IndexOf(line, ' ', i)
    case None => env.glob(line[i..])
    case Some(k) => env.glob(line[i..k]) || AnyMatch(env, line, k + 1)
  }

  function Classify(env: Env, line: string): Line {
    if line == "" || line[0] == '#' then Skip
    else if line[0] == '-' then FlagLine(if |line| >= 2 && line[1] == '-' then line[2..] else line[1..])
    else Patterns(AnyMatch(env, line, 0))
  }

  function ClassifyAll(env: Env, lines: seq<string>): (r: seq<Line>)
    ensures |r| == |lines| && forall i :: 0 <= i < |lines| ==> r[i] == Classify(env, lines[i])
  {
    seq(|lines|, i requires 0 <= i < |lines| => Classify(env, lines[i]))
  }

  /** line[i..k] is one of the words of the line, which end at single spaces. */
  predicate IsWord(line: string, i: nat, k: nat) {
    && i <= k <= |line| && ' ' !in line[i..k]
    && (i == 0 || line[i - 1] == ' ') && (k == |line| || line[k] == ' ')
  }

  ghost predicate WordMatches(env: Env, line: string, i: nat) {
    exists j: nat, k: nat :: i <= j && IsWord(line, j, k) && env.glob(line[j..k])
  }

  lemma FirstSpace(env: Env, line: string, i: nat) returns (end: nat)
    requires i <= |line| && (i == 0 || line[i - 1] == ' ')
    ensures i <= end <= |line| && IsWord(line, i, end)
    ensures AnyMatch(env, line, i) <==> env.glob(line[i..end]) || (end < |line| && AnyMatch(env, line, end + 1))
  {
    assert line[i..|line|] == line[i..];
    match IndexOf(line, ' ', i)
    case None => end := |line|;
    case Some(k) => end := k;
  }

  /** A pattern line matches exactly if one of its words does. */
  lemma {:induction false} AnyMatchExactly(env: Env, line: string, i: nat)
    requires i <= |line| && (i == 0 || line[i - 1] == ' ')
    ensures AnyMatch(env, line, i) <==> WordMatches(env, line, i)
    decreases |line| - i
  {
    var end := FirstSpace(env, line, i);
    if end < |line| {
      AnyMatchExactly(env, line, end + 1);
      if WordMatches(env, line, end + 1) {
        var j: nat, k: nat :| end + 1 <= j && IsWord(line, j, k) && env.glob(line[j..k]);
        assert i <= j && IsWord(line, j, k) && env.glob(line[j..k]);
      }
    }
    if WordMatches(env, line, i) {
      var j: nat, k: nat :| i <= j && IsWord(line, j, k) && env.glob(line[j..k]);
      FirstWord(line, i, end, j, k);
      assert end + 1 <= j ==> WordMatches(env, line, end + 1);
    }
  }

  /** The only word that begins before the first space is the one that ends there. */
  lemma FirstWord(line: string, i: nat, end: nat, j: nat, k: nat)
    requires i <= end <= |line| && ' ' !in line[i..end] && (end == |line| || line[end] == ' ')
    requires i <= j && IsWord(line, j, k)
    ensures (j == i && k == end) || end + 1 <= j
  {
    assert forall x :: i <= x < end ==> line[x] in line[i..end];
    assert forall x :: j <= x < k ==> line[x] in line[j..k];
  }

  /** The kinds of lines, by how they begin. */
  lemma ClassifyLines(env: Env, t: string)
    ensures Classify(env, "") == Skip && Classify(env, "#" + t) == Skip && Classify(env, "--" + t) == FlagLine(t)
    ensures t == "" || t[0] != '-' ==> Classify(env, "-" + t) == FlagLine(t)
    ensures t != "" && t[0] != '#' && t[0] != '-' ==> Classify(env, t) == Patterns(AnyMatch(env, t, 0))
    ensures AnyMatch(env, t, 0) <==> WordMatches(env, t, 0)
  {
    AnyMatchExactly(env, t, 0);
    assert ("--" + t)[2..] == t && ("-" + t)[1..] == t;
  }

  // ---------------------------------------------------------------------
  // What a flag file does
  // ---------------------------------------------------------------------

  /** The reader: whether flag lines apply here, whether it is among pattern lines, whether a setting failed. */
  datatype Reader = Reader(flags: FlagMap, relevant: bool, inSection: bool, failed: bool)

  /** Unknown flags and flags without a value are silently ignored. */
  function ReadFlagLine(env: Env, types: Argv.Registry, r: Reader, text: string, mode: Mode): Reader {
    match Argv.SplitArgument(types, text)
    case Some(Setting(flag, Some(value))) =>
      if flag in r.flags then
        var s := SetFlag(env, flag, r.flags[flag], value, mode);
        r.(flags := r.flags[flag := s.flag], failed := r.failed || !s.ok)
      else r
    case _ => r
  }

  function ReadLine(env: Env, types: Argv.Registry, r: Reader, line: Line, mode: Mode): Reader {
    match line
    case Skip => r
    case FlagLine(text) =>
      var now := r.(inSection := false);
      if r.relevant then ReadFlagLine(env, types, now, text, mode) else now
    case Patterns(matches) => r.(inSection := true, relevant := (r.inSection && r.relevant) || matches)
  }

  /** The reader after the first `k` lines. */
  function Read(env: Env, types: Argv.Registry, flags: FlagMap, lines: seq<Line>, k: nat, mode: Mode): Reader
    requires k <= |lines|
  {
    if k == 0 then Reader(flags, true, false, false)
    else ReadLine(env, types, Read(env, types, flags, lines, k - 1, mode), lines[k - 1], mode)
  }

  /** No pattern line before `k` starts a new section after line `q`. */
  ghost predicate SameSection(lines: seq<Line>, q: nat, k: nat)
    requires k <= |lines|
  {
    forall f, p :: q < f < p < k && lines[f].FlagLine? ==> !lines[p].Patterns?
  }

  /** Line `k` is in the section before all patterns, or in one with a pattern that matches. */
  ghost predicate Applies(lines: seq<Line>, k: nat)
    requires k <= |lines|
  {
    || (forall p :: 0 <= p < k ==> !lines[p].Patterns?)
    || exists q :: 0 <= q < k && lines[q].Patterns? && lines[q].matches && SameSection(lines, q, k)
  }

  /** The last line before `k` that is not skipped is a pattern line. */
  ghost predicate AmongPatterns(lines: seq<Line>, k: nat)
    requires k <= |lines|
  {
    exists p :: 0 <= p < k && lines[p].Patterns? && forall f :: p < f < k ==> !lines[f].FlagLine?
  }

  lemma {:induction false} ReaderTracksSections(
    env: Env, types: Argv.Registry, flags: FlagMap, lines: seq<Line>, k: nat, mode: Mode)
    requires k <= |lines|
    ensures var r := Read(env, types, flags, lines, k, mode);
            r.inSection == AmongPatterns(lines, k) && r.relevant == Applies(lines, k)
    ensures Read(env, types, flags, lines, k, mode).flags.Keys == flags.Keys
    decreases k
  {
    if k > 0 {
      ReaderTracksSections(env, types, flags, lines, k - 1, mode);
      ReadLineTracks(env, types, Read(env, types, flags, lines, k - 1, mode), lines[k - 1], mode);
      if lines[k - 1].Patterns? {
        PatternStep(lines, k - 1);
      } else {
        OtherStep(lines, k - 1);
      }
    } else {
      assert !AmongPatterns(lines, 0) && Applies(lines, 0);
    }
  }

  lemma ReadLineTracks(env: Env, types: Argv.Registry, r: Reader, line: Line, mode: Mode)
    ensures var now := ReadLine(env, types, r, line, mode);
            && now.flags.Keys == r.flags.Keys
            && now.inSection == (line.Patterns? || (r.inSection && !line.FlagLine?))
            && now.relevant == if line.Patterns? then (r.inSection && r.relevant) || line.matches else r.relevant
  {
  }

  lemma PatternStep(lines: seq<Line>, k: nat)
    requires k < |lines| && lines[k].Patterns?
    ensures AmongPatterns(lines, k + 1)
    ensures Applies(lines, k + 1) == ((AmongPatterns(lines, k) && Applies(lines, k)) || lines[k].matches)
  {
    if lines[k].matches {
      assert SameSection(lines, k, k + 1);
    } else {
      if AmongPatterns(lines, k) && Applies(lines, k) {
        SectionGoesOn(lines, k);
      }
      if Applies(lines, k + 1) {
        SectionWentOn(lines, k);
      }
    }
  }

  lemma SectionGoesOn(lines: seq<Line>, k: nat)
    requires k < |lines| && lines[k].Patterns? && AmongPatterns(lines, k) && Applies(lines, k)
    ensures Applies(lines, k + 1)
  {
    var p :| 0 <= p < k && lines[p].Patterns? && forall f :: p < f < k ==> !lines[f].FlagLine?;
    var q :| 0 <= q < k && lines[q].Patterns? && lines[q].matches && SameSection(lines, q, k);
    assert SameSection(lines, q, k + 1);
  }

  lemma SectionWentOn(lines: seq<Line>, k: nat)
    requires k < |lines| && lines[k].Patterns? && !lines[k].matches && Applies(lines, k + 1)
    ensures AmongPatterns(lines, k) && Applies(lines, k)
  {
    var q :| 0 <= q < k + 1 && lines[q].Patterns? && lines[q].matches && SameSection(lines, q, k + 1);
    assert SameSection(lines, q, k);
    assert forall f :: q < f < k ==> !lines[f].FlagLine?;
  }

  lemma OtherStep(lines: seq<Line>, k: nat)
    requires k < |lines| && !lines[k].Patterns?
    ensures AmongPatterns(lines, k + 1) == (AmongPatterns(lines, k) && !lines[k].FlagLine?)
    ensures Applies(lines, k + 1) == Applies(lines, k)
  {
    forall q: nat ensures SameSection(lines, q, k + 1) == SameSection(lines, q, k) {
      assert SameSection(lines, q, k + 1) ==> SameSection(lines, q, k);
    }
  }

  /** The settings in the flag lines that apply, among the first `k` lines and in their order. */
  ghost function Calls(types: Argv.Registry, flags: FlagMap, lines: seq<Line>, k: nat, mode: Mode): seq<Event>
    requires k <= |lines|
  {
    if k == 0 then []
    else
      Calls(types, flags, lines, k - 1, mode)
      + if lines[k - 1].FlagLine? && Applies(lines, k - 1) then CallOf(types, flags, lines[k - 1].text, mode) else []
  }

  /** Unknown flags, and flags without a value, are passed over. */
  function CallOf(types: Argv.Registry, flags: FlagMap, text: string, mode: Mode): seq<Event> {
    match Argv.SplitArgument(types, text)
    case Some(Setting(flag, Some(value))) => if flag in flags then [Call(flag, value, mode)] else []
    case _ => []
  }

  /** The value of the last call does not parse, or does not pass validation, where that is asked for. */
  predicate Fails(env: Env, flags: FlagMap, e: Event)
    requires e.Call? && e.name in flags
  {
    var v := env.parse(e.name, e.text);
    && !(v.Some? && env.valid(flags[e.name].validator, v.value))
    && !(e.mode == SetIfDefault && Touched(flags[e.name]))
  }

  /** Some call fails when its turn comes. */
  ghost predicate SomeFails(env: Env, flags: FlagMap, es: seq<Event>) {
    exists i :: && 0 <= i < |es| && es[i].Call? && es[i].name in ApplyAll(env, flags, es[..i])
                && Fails(env, ApplyAll(env, flags, es[..i]), es[i])
  }

  lemma AppliedOne(env: Env, flags: FlagMap, es: seq<Event>, e: Event)
    ensures ApplyAll(env, flags, es + [e]) == Apply(env, ApplyAll(env, flags, es), e)
    ensures var now := ApplyAll(env, flags, es);
            e.Call? && e.name in now ==>
              (SomeFails(env, flags, es + [e]) <==> SomeFails(env, flags, es) || Fails(env, now, e))
  {
    var more := es + [e];
    assert more[..|es|] == es && forall i :: 0 <= i <= |es| ==> more[..i] == es[..i];
    assert es[..|es|] == es && more[|es|] == e;
    assert forall i :: 0 <= i < |es| ==> more[i] == es[i];
  }

  /** The reader stands where the calls `es` lead from `flags`. */
  ghost predicate Reached(env: Env, flags: FlagMap, es: seq<Event>, r: Reader) {
    r.flags == ApplyAll(env, flags, es) && (r.failed <==> SomeFails(env, flags, es))
  }

  lemma FlagLineIsItsCall(
    env: Env, types: Argv.Registry, flags: FlagMap, es: seq<Event>, r: Reader, text: string, mode: Mode)
    requires Reached(env, flags, es, r) && r.flags.Keys == flags.Keys
    ensures Reached(env, flags, es + CallOf(types, flags, text, mode), ReadFlagLine(env, types, r, text, mode))
  {
    var call := CallOf(types, flags, text, mode);
    if call == [] {
      assert es + call == es;
    } else {
      AppliedOne(env, flags, es, call[0]);
      SetFlagMeetsOutcome(env, call[0].name, r.flags[call[0].name], call[0].text, mode);
    }
  }

  lemma LineIsItsCall(
    env: Env, types: Argv.Registry, flags: FlagMap, es: seq<Event>, r: Reader, line: Line, mode: Mode)
    requires Reached(env, flags, es, r) && r.flags.Keys == flags.Keys
    ensures var call := if line.FlagLine? && r.relevant then CallOf(types, flags, line.text, mode) else [];
            Reached(env, flags, es + call, ReadLine(env, types, r, line, mode))
  {
    if line.FlagLine? && r.relevant {
      FlagLineIsItsCall(env, types, flags, es, r.(inSection := false), line.text, mode);
    } else {
      assert es + [] == es;
    }
  }

  lemma CallsNext(types: Argv.Registry, flags: FlagMap, lines: seq<Line>, k: nat, mode: Mode)
    requires k < |lines|
    ensures Calls(types, flags, lines, k + 1, mode)
         == Calls(types, flags, lines, k, mode)
            + if lines[k].FlagLine? && Applies(lines, k) then CallOf(types, flags, lines[k].text, mode) else []
  {
  }

  /** The file does what its applicable settings do one after the other, and fails if one of them does. */
  lemma {:induction false} FileIsItsCalls(
    env: Env, types: Argv.Registry, flags: FlagMap, lines: seq<Line>, k: nat, mode: Mode)
    requires k <= |lines|
    ensures Reached(env, flags, Calls(types, flags, lines, k, mode), Read(env, types, flags, lines, k, mode))
    decreases k
  {
    if k > 0 {
      FileIsItsCalls(env, types, flags, lines, k - 1, mode);
      ReaderTracksSections(env, types, flags, lines, k - 1, mode);
      CallsNext(types, flags, lines, k - 1, mode);
      var r, es := Read(env, types, flags, lines, k - 1, mode), Calls(types, flags, lines, k - 1, mode);
      LineIsItsCall(env, types, flags, es, r, lines[k - 1], mode);
    }
  }

  /** So in this file only flag a can be set: its value takes in the line of b. */
  lemma SecondFlagIsSwallowed(env: Env, types: Argv.Registry, flags: FlagMap, mode: Mode, n: string)
    requires n in flags && n != "a"
    ensures var lines := ClassifyAll(env, Lines("--a=1\n--b=2\r\n", 0));
            |lines| == 2 && n in Read(env, types, flags, lines, 2, mode).flags
            && Read(env, types, flags, lines, 2, mode).flags[n] == flags[n]
  {
    SwallowedLines();
    SwallowedArgument(env, types);
    OneFlagLine(env, types, flags, ClassifyAll(env, ["--a=1\n--b=2", ""]), "a=1\n--b=2", mode, n);
  }

  /** A single flag line touches no flag but its own. */
  lemma OneFlagLine(
    env: Env, types: Argv.Registry, flags: FlagMap, lines: seq<Line>, arg: string, mode: Mode, n: string)
    requires |lines| == 2 && lines[0] == FlagLine(arg) && lines[1] == Skip && n in flags
    requires var r := Argv.SplitArgument(types, arg); r.Some? ==> r.value.flag != n
    ensures var r := Read(env, types, flags, lines, 2, mode); n in r.flags && r.flags[n] == flags[n]
  {
    var zero, one := Read(env, types, flags, lines, 0, mode), Read(env, types, flags, lines, 1, mode);
    assert one == ReadLine(env, types, zero, lines[0], mode);
    assert Read(env, types, flags, lines, 2, mode) == ReadLine(env, types, one, lines[1], mode) == one;
  }

  lemma SwallowedLines()
    ensures Lines("--a=1\n--b=2\r\n", 0) == ["--a=1\n--b=2", ""]
  {
    assert "--a=1" + "\n" + "--b=2" == "--a=1\n--b=2";
    assert "--a=1\n--b=2" + "\r\n" == "--a=1\n--b=2\r\n";
    TwoLinesBecomeOne("--a=1", "--b=2");
  }

  lemma SwallowedArgument(env: Env, types: Argv.Registry)
    ensures Classify(env, "--a=1\n--b=2") == FlagLine("a=1\n--b=2")
    ensures var r := Argv.SplitArgument(types, "a=1\n--b=2"); r.Some? ==> r.value.flag == "a"
  {
    var arg := "a=1\n--b=2";
    assert "--a=1\n--b=2"[2..] == arg;
    assert Argv.EqualsAt(arg, 1) == 1 && Argv.EqualsAt(arg, 0) == 1 && arg[..1] == "a";
  }

  datatype Outcome = Applied | RolledBack | Exit

  class FlagRegistry {
    var flags: FlagMap

    constructor (flags: FlagMap)
      ensures this.flags == flags
    {
      this.flags := flags;
    }

    method SetFlagLocked(env: Env, name: string, text: string, mode: Mode) returns (ok: bool)
      requires name in flags
      modifies this
      ensures var r := SetFlag(env, name, old(flags)[name], text, mode);
              ok == r.ok && flags == old(flags)[name := r.flag]
      ensures forall n :: n in old(flags) && n != name ==> n in flags && flags[n] == old(flags)[n]
      ensures Consistent(flags[name]) && SetOutcome(env, name, old(flags)[name], flags[name], text, mode, ok)
    {
      SetFlagMeetsOutcome(env, name, flags[name], text, mode);
      var f := UpdateModifiedBit(flags[name]);
      flags := flags[name := f];
      match mode {
        case SetValue =>
          var v := TryParse(env, name, f, text);
          if v.None? { return false; }
          flags := flags[name := f.(current := v.value, modified := true)];
        case SetIfDefault =>
          if !f.modified {
            var v := TryParse(env, name, f, text);
            if v.None? { return false; }
            flags := flags[name := f.(current := v.value, modified := true)];
          }
        case SetDefault =>
          var v := TryParse(env, name, f, text);
          if v.None? { return false; }
          f := f.(defValue := v.value);
          flags := flags[name := if f.modified then f else f.(current := v.value)];
      }
      return true;
    }

    /** Copies every flag into a list. */
    method Save() returns (backup: seq<(string, Flag)>)
      ensures BackupOf(backup, flags)
    {
      backup := [];
      var names := flags.Keys;
      while names != {}
        invariant names <= flags.Keys
        invariant forall i :: 0 <= i < |backup| ==> backup[i].0 in flags && backup[i].1 == flags[backup[i].0]
        invariant forall n :: n in flags && n !in names ==> Saved(backup, n)
        decreases names
      {
        var n :| n in names;
        ghost var before := backup;
        backup := backup + [(n, flags[n])];
        names := names - {n};
        forall m | m in flags && m !in names ensures Saved(backup, m) {
          SavedMore(before, (n, flags[n]), m);
        }
      }
    }

    /**
      Copies the list back, one flag after the other, skipping those whose name
      is no longer found. A flag gets the state saved under its own name, unless
      a vanished flag's name leads to it too; a flag no saved name leads to
      stays as it is.
     */
    method Restore(backup: seq<(string, Flag)>, ghost saved: FlagMap)
      requires BackupOf(backup, saved)
      modifies this
      ensures flags.Keys == old(flags).Keys
      ensures AllRestoredTo(saved, old(flags), flags)
      ensures saved.Keys <= old(flags).Keys ==> flags == old(flags) + saved
    {
      for i := 0 to |backup|
        invariant flags.Keys == old(flags).Keys
        invariant AllRestoredBy(backup[..i], old(flags), flags)
      {
        var (name, f) := backup[i];
        ghost var before := flags;
        var found := Argv.FindName(flags.Keys, name);
        if found.Some? {
          flags := flags[found.value := f];
        }
        RestoredStep(backup, i, old(flags), before, flags);
      }
      assert backup[..|backup|] == backup;
      RestoredAtEnd(backup, saved, old(flags), flags);
      if saved.Keys <= old(flags).Keys {
        RestoredExactly(saved, old(flags), flags);
      }
    }

    /** With the saved names still there, everything is as it was. */
    method RollBack(backup: seq<(string, Flag)>, ghost saved: FlagMap)
      requires BackupOf(backup, saved) && saved.Keys == flags.Keys
      modifies this
      ensures flags == saved
    {
      Restore(backup, saved);
    }

    /** Reads one line of a flag file. */
    method ProcessLine(
      env: Env, types: Argv.Registry, line: Line, mode: Mode, relevant: bool, inSection: bool, failed: bool)
      returns (relevant': bool, inSection': bool, failed': bool)
      requires types.Keys == flags.Keys
      modifies this
      ensures Reader(flags, relevant', inSection', failed')
           == ReadLine(env, types, Reader(old(flags), relevant, inSection, failed), line, mode)
      ensures flags.Keys == old(flags).Keys
    {
      relevant', inSection', failed' := relevant, inSection, failed;
      match line
      case Skip =>
      case FlagLine(arg) =>
        inSection' := false;
        if relevant {
          match Argv.SplitArgument(types, arg) {
            case Some(Setting(flag, Some(value))) =>
              var ok := SetFlagLocked(env, flag, value, mode);
              failed' := failed || !ok;
            case _ =>
          }
        }
      case Patterns(matches) =>
        relevant' := (inSection && relevant) || matches;
        inSection' := true;
    }

    /** Reads a flag file line by line. */
    method ProcessOptionsFromString(env: Env, types: Argv.Registry, text: string, mode: Mode) returns (failed: bool)
      requires types.Keys == flags.Keys
      modifies this
      ensures var lines := ClassifyAll(env, Lines(text, 0));
              var r := Read(env, types, old(flags), lines, |lines|, mode);
              failed == r.failed && flags == r.flags
      ensures var lines := ClassifyAll(env, Lines(text, 0));
              var es := Calls(types, old(flags), lines, |lines|, mode);
              flags == ApplyAll(env, old(flags), es) && (failed <==> SomeFails(env, old(flags), es))
    {
      ghost var all := Lines(text, 0);
      ghost var lines := ClassifyAll(env, all);
      ghost var k := 0;
      var relevant, inSection, i := true, false, Some(0);
      failed := false;
      while i.Some?
        invariant k <= |lines| && flags.Keys == types.Keys
        invariant Reader(flags, relevant, inSection, failed) == Read(env, types, old(flags), lines, k, mode)
        invariant StandsAt(text, i) && all[k..] == LinesLeft(text, i)
        decreases if i.Some? then |text| - i.value + 1 else 0
      {
        ghost var rest := all[k..];
        var line, next := NextLine(text, i.value);
        assert all[k] == rest[0] && all[k + 1..] == rest[1..];
        relevant, inSection, failed := ProcessLine(env, types, Classify(env, line), mode, relevant, inSection, failed);
        i, k := next, k + 1;
      }
      FileIsItsCalls(env, types, old(flags), lines, |lines|, mode);
    }

    /** A flag file takes effect as a whole or, if any setting in it fails, not at all. */
    method ReadFlagsFromString(env: Env, types: Argv.Registry, text: string, errorsAreFatal: bool)
      returns (out: Outcome)
      requires types.Keys == flags.Keys
      modifies this
      ensures var lines := ClassifyAll(env, Lines(text, 0));
              var r := Read(env, types, old(flags), lines, |lines|, SetValue);
              && (out == Applied <==> !r.failed)
              && (out == Applied ==> flags == r.flags)
              && (out == RolledBack <==> r.failed && !errorsAreFatal)
              && (out == RolledBack ==> flags == old(flags))
      ensures var lines := ClassifyAll(env, Lines(text, 0));
              var es := Calls(types, old(flags), lines, |lines|, SetValue);
              && (out == Applied <==> !SomeFails(env, old(flags), es))
              && (out == Applied ==> flags == ApplyAll(env, old(flags), es))
    {
      var backup := Save();
      ghost var saved := flags;
      var failed := ProcessOptionsFromString(env, types, text, SetValue);
      if !failed {
        return Applied;
      }
      if errorsAreFatal {
        return Exit;
      }
      ghost var lines := ClassifyAll(env, Lines(text, 0));
      ReaderTracksSections(env, types, saved, lines, |lines|, SetValue);
      RollBack(backup, saved);
      return RolledBack;
    }
  }

  predicate Saved(backup: seq<(string, Flag)>, n: string) { exists i :: 0 <= i < |backup| && backup[i].0 == n }

  /** The list holds exactly the flags of `flags`. */
  ghost predicate BackupOf(backup: seq<(string, Flag)>, flags: FlagMap) {
    && (forall i :: 0 <= i < |backup| ==> backup[i].0 in flags && backup[i].1 == flags[backup[i].0])
    && (forall n :: n in flags ==> Saved(backup, n))
  }

  lemma SavedMore(b: seq<(string, Flag)>, x: (string, Flag), n: string)
    ensures Saved(b + [x], n) <==> n == x.0 || Saved(b, n)
  {
    var c := b + [x];
    if n == x.0 {
      assert c[|b|].0 == n;
    } else if Saved(b, n) {
      var i :| 0 <= i < |b| && b[i].0 == n;
      assert c[i].0 == n;
    }
  }

  /** The saved names that lead to flag `n` in a registry with these names. */
  predicate LeadsTo(names: set<string>, m: string, n: string) { Argv.FindName(names, m) == Some(n) }

  /** `f` is the last state in the list under a name that leads to `n`, or what `n` was. */
  ghost predicate RestoredBy(backup: seq<(string, Flag)>, was: FlagMap, n: string, f: Flag)
    requires n in was
  {
    if exists i :: 0 <= i < |backup| && LeadsTo(was.Keys, backup[i].0, n) then
      exists i :: 0 <= i < |backup| && LeadsTo(was.Keys, backup[i].0, n) && backup[i].1 == f
    else f == was[n]
  }

  lemma RestoredMore(backup: seq<(string, Flag)>, i: nat, was: FlagMap, n: string, f: Flag)
    requires i < |backup| && n in was && RestoredBy(backup[..i], was, n, f)
    ensures RestoredBy(backup[..i + 1], was, n, if LeadsTo(was.Keys, backup[i].0, n) then backup[i].1 else f)
  {
    var b := backup[..i + 1];
    assert forall k :: 0 <= k < i ==> b[k] == backup[..i][k];
    if LeadsTo(was.Keys, backup[i].0, n) {
      assert b[i] == backup[i] && LeadsTo(was.Keys, b[i].0, n);
    } else if k :| 0 <= k < i && LeadsTo(was.Keys, backup[..i][k].0, n) && backup[..i][k].1 == f {
      assert LeadsTo(was.Keys, b[k].0, n) && b[k].1 == f;
    }
  }

  /** The same by name: some saved name that leads to `n`, its own if that is the only one. */
  ghost predicate RestoredTo(saved: FlagMap, was: FlagMap, n: string, f: Flag)
    requires n in was
  {
    && ((forall m :: m in saved ==> !LeadsTo(was.Keys, m, n)) ==> f == was[n])
    && ((exists m :: m in saved && LeadsTo(was.Keys, m, n)) ==>
          exists m :: m in saved && LeadsTo(was.Keys, m, n) && saved[m] == f)
    && (n in saved && (forall m :: m in saved && LeadsTo(was.Keys, m, n) ==> m == n) ==> f == saved[n])
  }

  lemma RestoredAll(backup: seq<(string, Flag)>, saved: FlagMap, was: FlagMap, n: string, f: Flag)
    requires BackupOf(backup, saved) && n in was && RestoredBy(backup, was, n, f)
    ensures RestoredTo(saved, was, n, f)
  {
    if m :| m in saved && LeadsTo(was.Keys, m, n) {
      assert Saved(backup, m);
      var i :| 0 <= i < |backup| && backup[i].0 == m;
      assert LeadsTo(was.Keys, backup[i].0, n);
      var k :| 0 <= k < |backup| && LeadsTo(was.Keys, backup[k].0, n) && backup[k].1 == f;
      assert backup[k].0 in saved && saved[backup[k].0] == f;
    }
  }

  ghost predicate AllRestoredBy(backup: seq<(string, Flag)>, was: FlagMap, now: FlagMap)
    requires now.Keys == was.Keys
  {
    forall n {:trigger RestoredBy(backup, was, n, now[n])} :: n in was ==> RestoredBy(backup, was, n, now[n])
  }

  lemma RestoredStep(backup: seq<(string, Flag)>, i: nat, was: FlagMap, before: FlagMap, now: FlagMap)
    requires i < |backup| && before.Keys == now.Keys == was.Keys && AllRestoredBy(backup[..i], was, before)
    requires var found := Argv.FindName(was.Keys, backup[i].0);
             now == if found.Some? then before[found.value := backup[i].1] else before
    ensures AllRestoredBy(backup[..i + 1], was, now)
  {
    forall n | n in was ensures RestoredBy(backup[..i + 1], was, n, now[n]) {
      assert RestoredBy(backup[..i], was, n, before[n]);
      RestoredMore(backup, i, was, n, before[n]);
    }
  }

  ghost predicate AllRestoredTo(saved: FlagMap, was: FlagMap, now: FlagMap)
    requires now.Keys == was.Keys
  {
    forall n {:trigger RestoredTo(saved, was, n, now[n])} :: n in was ==> RestoredTo(saved, was, n, now[n])
  }

  lemma RestoredAtEnd(backup: seq<(string, Flag)>, saved: FlagMap, was: FlagMap, now: FlagMap)
    requires BackupOf(backup, saved) && now.Keys == was.Keys && AllRestoredBy(backup, was, now)
    ensures AllRestoredTo(saved, was, now)
  {
    forall n | n in was ensures RestoredTo(saved, was, n, now[n]) {
      assert RestoredBy(backup, was, n, now[n]);
      RestoredAll(backup, saved, was, n, now[n]);
    }
  }

  lemma RestoredExactly(saved: FlagMap, was: FlagMap, now: FlagMap)
    requires now.Keys == was.Keys && saved.Keys <= was.Keys && AllRestoredTo(saved, was, now)
    ensures now == was + saved
  {
    forall n | n in now ensures now[n] == (was + saved)[n] {
      assert RestoredTo(saved, was, n, now[n]);
      RestoredInPlace(saved, was, n, now[n]);
    }
  }

  lemma RestoredInPlace(saved: FlagMap, was: FlagMap, n: string, f: Flag)
    requires n in was && saved.Keys <= was.Keys && RestoredTo(saved, was, n, f)
    ensures f == if n in saved then saved[n] else was[n]
  {
    assert forall m :: m in saved ==> (LeadsTo(was.Keys, m, n) <==> m == n);
  }
}
