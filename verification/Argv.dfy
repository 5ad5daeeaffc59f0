/**
  The command-line scan: like getopt it permutes the arguments in place so
  that options (with the values they consume) come first and everything else
  is parked at the end.
 */
module Argv {
  import opened Options

  // ---------------------------------------------------------------------
  // One argument
  // ---------------------------------------------------------------------

  /** The registered flags by name, and whether each is boolean. */
  type Registry = map<string, bool>

  /** A lone dash counts as an argument, not as a flag. */
  predicate IsNonOption(arg: string) { |arg| <= 1 || arg[0] != '-' }

  /** The flag text after one or two leading dashes. */
  function Stripped(arg: string): string
    requires !IsNonOption(arg)
  {
    if arg[1] == '-' then arg[2..] else arg[1..]
  }

  function Underscored(name: string): (r: string)
    ensures |r| == |name| && '-' !in r
    ensures forall i :: 0 <= i < |name| ==> (name[i] == '-' ==> r[i] == '_') && (name[i] != '-' ==> r[i] == name[i])
  {
    seq(|name|, i requires 0 <= i < |name| => if name[i] == '-' then '_' else name[i])
  }

  /** Dashes in a name that is not found are tried as underscores. */
  function FindName(names: set<string>, name: string): (r: Option<string>)
    ensures r.Some? ==> r.value in names
  {
    if name in names then Some(name)
    else if '-' in name && Underscored(name) in names then Some(Underscored(name))
    else None
  }

  function FindFlag(flags: Registry, name: string): (r: Option<string>)
    ensures r.Some? ==> r.value in flags
  {
    FindName(flags.Keys, name)
  }

  function EqualsAt(s: string, i: nat): (k: nat)
    requires i <= |s|
    ensures i <= k <= |s| && '=' !in s[i..k] && (k < |s| ==> s[k] == '=')
    decreases |s| - i
  {
    if i == |s| || s[i] == '=' then i else EqualsAt(s, i + 1)
  }

  /** A flag and the value given with it, if any. */
  datatype Setting = Setting(flag: string, value: Option<string>)

  /** Splits flag=value; "no" before a boolean flag means 0, a bare boolean flag means 1. */
  function SplitArgument(flags: Registry, arg: string): Option<Setting> {
    var k := EqualsAt(arg, 0);
    var key := arg[..k];
    var value := if k < |arg| then Some(arg[k + 1..]) else None;
    match FindFlag(flags, key)
    case Some(flag) => Some(Setting(flag, if value.None? && flags[flag] then Some("1") else value))
    case None =>
      if |key| >= 2 && key[..2] == "no" && FindFlag(flags, key[2..]).Some? && flags[FindFlag(flags, key[2..]).value]
      then Some(Setting(FindFlag(flags, key[2..]).value, Some("0")))
      else None
  }

  /** `flag` is the registered name that `name` stands for. */
  predicate Names(flags: Registry, name: string, flag: string) {
    flag in flags && (flag == name || (name !in flags && '-' in name && flag == Underscored(name)))
  }

  lemma FindFlagNames(flags: Registry, name: string)
    ensures FindFlag(flags, name).Some? ==> Names(flags, name, FindFlag(flags, name).value)
    ensures forall f :: Names(flags, name, f) ==> FindFlag(flags, name) == Some(f)
  {
  }

  lemma {:induction false} EqualsAtFirst(s: string, i: nat, k: nat)
    requires i <= k <= |s| && '=' !in s[i..k] && (k < |s| ==> s[k] == '=')
    ensures EqualsAt(s, i) == k
    decreases k - i
  {
    if i < k {
      assert s[i] in s[i..k] && s[i + 1..k] == s[i..k][1..];
      EqualsAtFirst(s, i + 1, k);
    }
  }

  /** "name=value" gives the value to any flag. */
  lemma SplitWithValue(flags: Registry, name: string, value: string, flag: string)
    requires '=' !in name && Names(flags, name, flag)
    ensures SplitArgument(flags, name + "=" + value) == Some(Setting(flag, Some(value)))
  {
    var arg := name + "=" + value;
    assert arg[0..|name|] == name && arg[|name| + 1..] == value;
    EqualsAtFirst(arg, 0, |name|);
    FindFlagNames(flags, name);
  }

  /** "name" alone turns a boolean flag on, and leaves any other waiting for its value. */
  lemma SplitAlone(flags: Registry, name: string, flag: string)
    requires '=' !in name && Names(flags, name, flag)
    ensures SplitArgument(flags, name) == Some(Setting(flag, if flags[flag] then Some("1") else None))
  {
    assert name[0..|name|] == name;
    EqualsAtFirst(name, 0, |name|);
    FindFlagNames(flags, name);
  }

  /** "noname" turns a boolean flag off, whatever value follows it. */
  lemma SplitNo(flags: Registry, name: string, flag: string, tail: string)
    requires '=' !in name && Names(flags, name, flag) && flags[flag]
    requires FindFlag(flags, "no" + name).None? && (tail == "" || tail[0] == '=')
    ensures SplitArgument(flags, "no" + name + tail) == Some(Setting(flag, Some("0")))
  {
    var key := "no" + name;
    var arg := key + tail;
    assert arg[0..|key|] == key && arg[..|key|] == key && key[..2] == "no" && key[2..] == name;
    EqualsAtFirst(arg, 0, |key|);
    FindFlagNames(flags, name);
  }

  /** Anything else is no flag. */
  lemma SplitUnknown(flags: Registry, arg: string)
    ensures SplitArgument(flags, arg).None? <==>
            var key := arg[..EqualsAt(arg, 0)];
            && (forall f :: !Names(flags, key, f))
            && !("no" <= key && exists f :: Names(flags, key[2..], f) && flags[f])
  {
    var key := arg[..EqualsAt(arg, 0)];
    FindFlagNames(flags, key);
    if |key| >= 2 {
      FindFlagNames(flags, key[2..]);
    }
  }

  /**
    What the scan does with an argument: park it, stop at a bare "--", or take
    it as an option, which needs the next argument as its value if it is known,
    not boolean, and came without one.
   */
  datatype Kind = Park | Stop | Flag | FlagWithNext

  function KindOf(flags: Registry, arg: string): Kind {
    if IsNonOption(arg) then Park
    else if Stripped(arg) == "" then Stop
    else
      match SplitArgument(flags, Stripped(arg))
      case Some(Setting(_, None)) => FlagWithNext
      case _ => Flag
  }

  /** A flag that waits for its value: one or two dashes, and the name of a flag that is not boolean. */
  ghost predicate WaitsForValue(flags: Registry, arg: string) {
    exists name, flag ::
      && name != "" && '=' !in name && Names(flags, name, flag) && !flags[flag]
      && (arg == "--" + name || (arg == "-" + name && name[0] != '-'))
  }

  /** Exactly those arguments take the next one. */
  lemma TakesNextExactly(flags: Registry, arg: string)
    ensures KindOf(flags, arg).FlagWithNext? <==> WaitsForValue(flags, arg)
  {
    if KindOf(flags, arg).FlagWithNext? {
      var name := Stripped(arg);
      assert arg == (if arg[1] == '-' then "--" else "-") + name;
      assert EqualsAt(name, 0) == |name| && name[..|name|] == name && name[0..|name|] == name;
      FindFlagNames(flags, name);
      assert Names(flags, name, FindFlag(flags, name).value);
    }
    if name, flag :| && name != "" && '=' !in name && Names(flags, name, flag) && !flags[flag]
                     && (arg == "--" + name || (arg == "-" + name && name[0] != '-')) {
      assert Stripped(arg) == name;
      SplitAlone(flags, name, flag);
    }
  }

  // ---------------------------------------------------------------------
  // The whole scan, on positions
  // ---------------------------------------------------------------------

  /** Positions of options and their values, of what follows a bare "--", and of parked arguments. */
  datatype Scan = Scan(opts: seq<nat>, rest: seq<nat>, parked: seq<nat>)

  function Range(a: nat, b: nat): (r: seq<nat>)
    requires a <= b
    ensures |r| == b - a && forall i :: 0 <= i < |r| ==> r[i] == a + i
  {
    seq(b - a, i requires 0 <= i < b - a => a + i)
  }

  /** Everything from `a` on is left as it is. */
  function Remainder(a: nat, b: nat): Scan
    requires a <= b
  {
    Scan([], Range(a, b), [])
  }

  function ConsOpt(p: nat, s: Scan): Scan { s.(opts := [p] + s.opts) }
  function ConsParked(p: nat, s: Scan): Scan { s.(parked := [p] + s.parked) }

  /** The scan from position `p` on; an option that needs a value but is last ends it. */
  function ScanFrom(flags: Registry, args: seq<string>, p: nat): Scan
    requires p <= |args|
    decreases |args| - p
  {
    if p == |args| then Scan([], [], [])
    else
      match KindOf(flags, args[p])
      case Park => ConsParked(p, ScanFrom(flags, args, p + 1))
      case Stop => ConsOpt(p, Remainder(p + 1, |args|))
      case Flag => ConsOpt(p, ScanFrom(flags, args, p + 1))
      case FlagWithNext =>
        if p + 1 == |args| then ConsOpt(p, Remainder(p + 1, |args|))
        else ConsOpt(p, ConsOpt(p + 1, ScanFrom(flags, args, p + 2)))
  }

  // ---------------------------------------------------------------------
  // What the positions satisfy
  // ---------------------------------------------------------------------

  predicate Between(idx: seq<nat>, lo: nat, hi: nat) { forall i :: 0 <= i < |idx| ==> lo <= idx[i] < hi }

  predicate Increasing(idx: seq<nat>) { forall i, j :: 0 <= i < j < |idx| ==> idx[i] < idx[j] }

  predicate Before(a: seq<nat>, b: seq<nat>) { forall i, j :: 0 <= i < |a| && 0 <= j < |b| ==> a[i] < b[j] }

  /** Each of the three is in order and in range, and parking stops where a bare "--" is met. */
  predicate Ordered(s: Scan, lo: nat, hi: nat) {
    && Between(s.opts, lo, hi) && Between(s.rest, lo, hi) && Between(s.parked, lo, hi)
    && Increasing(s.opts) && Increasing(s.rest) && Increasing(s.parked) && Before(s.parked, s.rest)
  }

  /** Position `x` occurs once if it is in [lo, hi), and not at all otherwise. */
  predicate Once(s: Scan, x: nat, lo: nat, hi: nat) {
    multiset(s.opts)[x] + multiset(s.rest)[x] + multiset(s.parked)[x] == if lo <= x < hi then 1 else 0
  }

  lemma ConsOrdered(p: nat, s: Scan, hi: nat)
    requires Ordered(s, p + 1, hi) && p < hi
    ensures Ordered(ConsOpt(p, s), p, hi) && Ordered(ConsParked(p, s), p, hi)
  {
  }

  lemma ConsOnce(p: nat, s: Scan, hi: nat, x: nat)
    requires Once(s, x, p + 1, hi) && p < hi
    ensures Once(ConsOpt(p, s), x, p, hi) && Once(ConsParked(p, s), x, p, hi)
  {
    assert multiset([p] + s.opts) == multiset([p]) + multiset(s.opts);
    assert multiset([p] + s.parked) == multiset([p]) + multiset(s.parked);
  }

  lemma {:induction false} ScanOrdered(flags: Registry, args: seq<string>, p: nat)
    requires p <= |args|
    ensures Ordered(ScanFrom(flags, args, p), p, |args|)
    decreases |args| - p
  {
    if p < |args| {
      match KindOf(flags, args[p])
      case Park =>
        ScanOrdered(flags, args, p + 1);
        ConsOrdered(p, ScanFrom(flags, args, p + 1), |args|);
      case Stop =>
      case Flag =>
        ScanOrdered(flags, args, p + 1);
        ConsOrdered(p, ScanFrom(flags, args, p + 1), |args|);
      case FlagWithNext =>
        if p + 1 < |args| {
          var s := ScanFrom(flags, args, p + 2);
          ScanOrdered(flags, args, p + 2);
          ConsOrdered(p + 1, s, |args|);
          ConsOrdered(p, ConsOpt(p + 1, s), |args|);
        }
    }
  }

  lemma {:induction false} RangeOnce(a: nat, b: nat, x: nat)
    requires a <= b
    ensures multiset(Range(a, b))[x] == if a <= x < b then 1 else 0
    decreases b - a
  {
    if a < b {
      RangeOnce(a + 1, b, x);
      assert Range(a, b) == [a] + Range(a + 1, b);
    }
  }

  /** Every position from `p` on occurs exactly once: the scan is a permutation. */
  lemma {:induction false} ScanPermutes(flags: Registry, args: seq<string>, p: nat, x: nat)
    requires p <= |args|
    ensures Once(ScanFrom(flags, args, p), x, p, |args|)
    decreases |args| - p
  {
    if p < |args| {
      match KindOf(flags, args[p])
      case Park =>
        ScanPermutes(flags, args, p + 1, x);
        ConsOnce(p, ScanFrom(flags, args, p + 1), |args|, x);
      case Stop => StopOnce(p, |args|, x);
      case Flag =>
        ScanPermutes(flags, args, p + 1, x);
        ConsOnce(p, ScanFrom(flags, args, p + 1), |args|, x);
      case FlagWithNext =>
        if p + 1 < |args| {
          var s := ScanFrom(flags, args, p + 2);
          ScanPermutes(flags, args, p + 2, x);
          ConsOnce(p + 1, s, |args|, x);
          ConsOnce(p, ConsOpt(p + 1, s), |args|, x);
        } else {
          StopOnce(p, |args|, x);
        }
    }
  }

  lemma StopOnce(p: nat, hi: nat, x: nat)
    requires p < hi
    ensures Once(ConsOpt(p, Remainder(p + 1, hi)), x, p, hi)
  {
    RangeOnce(p + 1, hi, x);
    ConsOnce(p, Remainder(p + 1, hi), hi, x);
  }

  /** The arguments left for the program, in the order they end up in. */
  function Tail(s: Scan): seq<nat> { s.rest + s.parked }

  /** In terms of the scan: nothing was parked, or nothing follows where it stopped. */
  lemma TailOrderOfScan(flags: Registry, args: seq<string>)
    ensures var s := ScanFrom(flags, args, 0);
            Increasing(Tail(s)) <==> s.rest == [] || s.parked == []
  {
    ScanOrdered(flags, args, 0);
    var s := ScanFrom(flags, args, 0);
    if s.rest == [] {
      assert Tail(s) == s.parked;
    } else if s.parked == [] {
      assert Tail(s) == s.rest;
    } else {
      assert Tail(s)[0] == s.rest[0] && Tail(s)[|s.rest|] == s.parked[0];
    }
  }

  lemma OnlyDashDashStops(flags: Registry, arg: string)
    ensures KindOf(flags, arg).Stop? <==> arg == "--"
  {
    if !IsNonOption(arg) && Stripped(arg) == "" {
      assert arg == arg[..2] + Stripped(arg);
    }
  }

  /** The scan from `p` on looks at argument `x`: it is no flag's value, and no bare "--" precedes it. */
  predicate Visits(flags: Registry, args: seq<string>, p: nat, x: nat)
    requires p <= |args|
    decreases |args| - p
  {
    && p <= x < |args|
    && (p == x ||
        (match KindOf(flags, args[p])
         case Stop => false
         case FlagWithNext => p + 1 < |args| && Visits(flags, args, p + 2, x)
         case _ => Visits(flags, args, p + 1, x)))
  }

  /** A visited "--" that is not the last argument. */
  predicate StopsAt(flags: Registry, args: seq<string>, p: nat, x: nat)
    requires p <= |args|
  {
    x + 1 < |args| && args[x] == "--" && Visits(flags, args, p, x)
  }

  predicate ParksAt(flags: Registry, args: seq<string>, p: nat, x: nat)
    requires p <= |args|
  {
    x < |args| && IsNonOption(args[x]) && Visits(flags, args, p, x)
  }

  /** Where the scan goes next: past a flag's value, and nowhere from a bare "--". */
  lemma {:induction false} VisitsOn(flags: Registry, args: seq<string>, p: nat, x: nat)
    requires p <= |args| && Visits(flags, args, p, x)
    ensures args[x] == "--" ==> forall y :: x < y ==> !Visits(flags, args, p, y)
    ensures WaitsForValue(flags, args[x]) ==>
              !Visits(flags, args, p, x + 1) && (x + 2 < |args| ==> Visits(flags, args, p, x + 2))
    ensures args[x] != "--" && !WaitsForValue(flags, args[x]) && x + 1 < |args| ==> Visits(flags, args, p, x + 1)
    decreases |args| - p
  {
    OnlyDashDashStops(flags, args[p]);
    TakesNextExactly(flags, args[p]);
    if p < x {
      VisitsOn(flags, args, NextAfter(flags, args, p), x);
    }
  }

  /** Exactly the visited arguments that are no options are parked. */
  lemma {:induction false} ParkedMembers(flags: Registry, args: seq<string>, p: nat, x: nat)
    requires p <= |args|
    ensures x in ScanFrom(flags, args, p).parked <==> ParksAt(flags, args, p, x)
    decreases |args| - p
  {
    if p < |args| {
      var next := NextAfter(flags, args, p);
      if next <= |args| {
        ParkedMembers(flags, args, next, x);
        VisitsNext(flags, args, p, next);
      }
    }
  }

  /** Exactly what follows a visited "--" is left unscanned. */
  lemma {:induction false} RestMembers(flags: Registry, args: seq<string>, p: nat, x: nat)
    requires p <= |args|
    ensures x in ScanFrom(flags, args, p).rest <==> x < |args| && exists y: nat :: y < x && StopsAt(flags, args, p, y)
    decreases |args| - p
  {
    if p < |args| {
      OnlyDashDashStops(flags, args[p]);
      var next := NextAfter(flags, args, p);
      if next <= |args| {
        RestMembers(flags, args, next, x);
        VisitsNext(flags, args, p, next);
        forall y: nat ensures StopsAt(flags, args, p, y) <==> StopsAt(flags, args, next, y) {
        }
      } else if KindOf(flags, args[p]).Stop? {
        RangeMembers(p + 1, |args|, x);
        if p + 1 < |args| {
          assert StopsAt(flags, args, p, p);
        }
      }
    }
  }

  lemma RangeMembers(a: nat, b: nat, x: nat)
    requires a <= b
    ensures x in Range(a, b) <==> a <= x < b
  {
    if a <= x < b {
      assert Range(a, b)[x - a] == x;
    }
  }

  /** Something is left unscanned exactly if a visited "--" has something after it. */
  lemma {:induction false} RestExactly(flags: Registry, args: seq<string>, p: nat)
    requires p <= |args|
    ensures ScanFrom(flags, args, p).rest != [] <==> exists x :: StopsAt(flags, args, p, x)
    decreases |args| - p
  {
    if p < |args| {
      OnlyDashDashStops(flags, args[p]);
      var next := NextAfter(flags, args, p);
      if next <= |args| {
        RestExactly(flags, args, next);
        VisitsNext(flags, args, p, next);
        forall x: nat ensures StopsAt(flags, args, p, x) <==> StopsAt(flags, args, next, x) {
        }
      } else if KindOf(flags, args[p]).Stop? && p + 1 < |args| {
        assert StopsAt(flags, args, p, p);
      }
    }
  }

  /** Something is parked exactly if a visited argument is no option. */
  lemma {:induction false} ParkedExactly(flags: Registry, args: seq<string>, p: nat)
    requires p <= |args|
    ensures ScanFrom(flags, args, p).parked != [] <==> exists x :: ParksAt(flags, args, p, x)
    decreases |args| - p
  {
    if p < |args| {
      var next := NextAfter(flags, args, p);
      if KindOf(flags, args[p]).Park? {
        assert ParksAt(flags, args, p, p);
      } else if next <= |args| {
        ParkedExactly(flags, args, next);
        VisitsNext(flags, args, p, next);
        forall x: nat ensures ParksAt(flags, args, p, x) <==> ParksAt(flags, args, next, x) {
        }
      }
    }
  }

  /** Where the scan goes on after `p`; beyond the arguments if it does not. */
  function NextAfter(flags: Registry, args: seq<string>, p: nat): nat
    requires p < |args|
  {
    match KindOf(flags, args[p])
    case Stop => |args| + 1
    case FlagWithNext => p + 2
    case _ => p + 1
  }

  lemma VisitsNext(flags: Registry, args: seq<string>, p: nat, next: nat)
    requires p < |args| && next == NextAfter(flags, args, p) <= |args|
    ensures forall x :: Visits(flags, args, p, x) <==> x == p || Visits(flags, args, next, x)
  {
  }

  /** Nothing is visited behind a visited "--". */
  lemma {:induction false} NothingVisitedAfterStop(flags: Registry, args: seq<string>, p: nat, x: nat, y: nat)
    requires p <= |args| && Visits(flags, args, p, x) && Visits(flags, args, p, y) && args[x] == "--"
    ensures y <= x
    decreases |args| - p
  {
    OnlyDashDashStops(flags, args[p]);
    if p < x && p < y {
      NothingVisitedAfterStop(flags, args, NextAfter(flags, args, p), x, y);
    }
  }

  /** An argument that is no option, parked before a bare "--" that something follows. */
  predicate ParkedBeforeStop(flags: Registry, args: seq<string>, y: nat, x: nat) {
    y < x && ParksAt(flags, args, 0, y) && StopsAt(flags, args, 0, x)
  }

  /** The arguments left for the program keep their order unless one is parked before such a "--". */
  lemma TailKeepsOrder(flags: Registry, args: seq<string>)
    ensures Increasing(Tail(ScanFrom(flags, args, 0))) <==> !exists y, x :: ParkedBeforeStop(flags, args, y, x)
  {
    TailOrderOfScan(flags, args);
    RestExactly(flags, args, 0);
    ParkedExactly(flags, args, 0);
    if x, y :| StopsAt(flags, args, 0, x) && ParksAt(flags, args, 0, y) {
      NothingVisitedAfterStop(flags, args, 0, x, y);
      assert ParkedBeforeStop(flags, args, y, x);
    }
  }

  /** Without a bare "--" nothing follows one, so the order is always kept. */
  lemma {:induction false} NoStopNoRest(flags: Registry, args: seq<string>, p: nat)
    requires p <= |args| && "--" !in args
    ensures ScanFrom(flags, args, p).rest == []
    decreases |args| - p
  {
    if p < |args| {
      OnlyDashDashStops(flags, args[p]);
      NoStopNoRest(flags, args, p + 1);
      if p + 2 <= |args| {
        NoStopNoRest(flags, args, p + 2);
      }
    }
  }

  /** So then the tail is exactly the parked arguments, in their original order. */
  lemma NoStopKeepsOrder(flags: Registry, args: seq<string>)
    requires "--" !in args
    ensures var s := ScanFrom(flags, args, 0); Tail(s) == s.parked && Increasing(Tail(s))
  {
    NoStopNoRest(flags, args, 0);
    TailOrderOfScan(flags, args);
  }

  /** "a -- b" reaches the program as b, a. */
  lemma DashDashReordersEarlierArguments(flags: Registry)
    ensures ScanFrom(flags, ["a", "--", "b"], 0) == Scan([1], [2], [0])
  {
    var args := ["a", "--", "b"];
    assert Range(2, 3) == [2];
    assert ScanFrom(flags, args, 1) == ConsOpt(1, Remainder(2, 3)) == Scan([1], [2], []);
  }

  predicate NonOptionsAt(args: seq<string>, idx: seq<nat>) {
    forall i :: 0 <= i < |idx| ==> idx[i] < |args| && IsNonOption(args[idx[i]])
  }

  /** Only arguments that do not look like options are parked. */
  lemma {:induction false} ParkedAreNonOptions(flags: Registry, args: seq<string>, p: nat)
    requires p <= |args|
    ensures NonOptionsAt(args, ScanFrom(flags, args, p).parked)
    decreases |args| - p
  {
    if p < |args| {
      match KindOf(flags, args[p])
      case Stop =>
      case FlagWithNext =>
        if p + 2 <= |args| {
          ParkedAreNonOptions(flags, args, p + 2);
        }
      case _ =>
        ParkedAreNonOptions(flags, args, p + 1);
        var s := ScanFrom(flags, args, p + 1);
        assert NonOptionsAt(args, s.parked) && (IsNonOption(args[p]) ==> NonOptionsAt(args, [p] + s.parked));
    }
  }

  // ---------------------------------------------------------------------
  // The scan in place
  // ---------------------------------------------------------------------

  /** The argument at `i` goes last; those after it move up. */
  method MoveToEnd(argv: array<string>, i: nat)
    requires i < argv.Length
    modifies argv
    ensures argv[..] == old(argv[..i]) + old(argv[i + 1..]) + [old(argv[i])]
  {
    var arg := argv[i];
    var k := i;
    while k + 1 < argv.Length
      invariant i <= k < argv.Length
      invariant argv[..k] == old(argv[..i]) + old(argv[i + 1..k + 1])
      invariant argv[k..] == old(argv[k..])
    {
      assert argv[k + 1] == argv[k..][1] == old(argv[k + 1]);
      argv[k] := argv[k + 1];
      assert argv[..k + 1] == argv[..k] + [argv[k]];
      assert old(argv[i + 1..k + 2]) == old(argv[i + 1..k + 1]) + [old(argv[k + 1])];
      k := k + 1;
    }
    argv[k] := arg;
    assert argv[..] == argv[..k] + [argv[k]];
    assert old(argv[i + 1..k + 1]) == old(argv[i + 1..]);
  }

  function Pick(args: seq<string>, idx: seq<nat>): (r: seq<string>)
    requires Between(idx, 0, |args|)
    ensures |r| == |idx| && forall i :: 0 <= i < |r| ==> r[i] == args[idx[i]]
  {
    seq(|idx|, i requires 0 <= i < |idx| => args[idx[i]])
  }

  /** The array at some point of the scan: options, what is left to scan, parked arguments. */
  ghost predicate Arranged(now: seq<string>, args: seq<string>, opts: seq<nat>, p: nat, parked: seq<nat>)
    requires p <= |args| && Between(opts, 0, |args|) && Between(parked, 0, |args|)
  {
    now == Pick(args, opts) + args[p..] + Pick(args, parked)
  }

  /** The scan of the whole is what has been done followed by the scan of what is left. */
  ghost predicate Continues(whole: Scan, opts: seq<nat>, parked: seq<nat>, s: Scan) {
    whole == Scan(opts + s.opts, s.rest, parked + s.parked)
  }

  lemma ArrangedOption(now: seq<string>, args: seq<string>, opts: seq<nat>, p: nat, parked: seq<nat>)
    requires p < |args| && Between(opts, 0, |args|) && Between(parked, 0, |args|)
    requires Arranged(now, args, opts, p, parked)
    ensures Between(opts + [p], 0, |args|) && Arranged(now, args, opts + [p], p + 1, parked)
  {
    assert Pick(args, opts + [p]) == Pick(args, opts) + [args[p]];
    assert args[p..] == [args[p]] + args[p + 1..];
  }

  lemma ArrangedParked(now: seq<string>, args: seq<string>, opts: seq<nat>, p: nat, parked: seq<nat>, i: nat)
    requires p < |args| && Between(opts, 0, |args|) && Between(parked, 0, |args|)
    requires Arranged(now, args, opts, p, parked) && i == |opts|
    ensures i < |now| && now[i] == args[p] && Between(parked + [p], 0, |args|)
    ensures Arranged(now[..i] + now[i + 1..] + [now[i]], args, opts, p + 1, parked + [p])
  {
    assert Pick(args, parked + [p]) == Pick(args, parked) + [args[p]];
    assert now[..i] == Pick(args, opts);
    assert now[i + 1..] == args[p + 1..] + Pick(args, parked);
  }

  /** The final arrangement, once the scan of `args` is known to be `s`. */
  ghost predicate Sorted(now: seq<string>, args: seq<string>, s: Scan) {
    && Between(s.opts, 0, |args|) && Between(Tail(s), 0, |args|)
    && now == Pick(args, s.opts) + Pick(args, Tail(s))
  }

  lemma SortedAtEnd(now: seq<string>, args: seq<string>, opts: seq<nat>, parked: seq<nat>, whole: Scan)
    requires Between(opts, 0, |args|) && Between(parked, 0, |args|) && Arranged(now, args, opts, |args|, parked)
    requires Continues(whole, opts, parked, Scan([], [], []))
    ensures Sorted(now, args, whole) && |whole.opts| == |opts|
  {
    assert opts + [] == opts && parked + [] == parked;
    assert args[|args|..] == [] && [] + parked == parked;
    assert Pick(args, opts) + [] == Pick(args, opts);
  }

  lemma SortedAtStop(now: seq<string>, args: seq<string>, opts: seq<nat>, p: nat, parked: seq<nat>, whole: Scan)
    requires p < |args| && Between(opts, 0, |args|) && Between(parked, 0, |args|)
    requires Arranged(now, args, opts, p, parked)
    requires Continues(whole, opts, parked, ConsOpt(p, Remainder(p + 1, |args|)))
    ensures Sorted(now, args, whole) && |whole.opts| == |opts| + 1
  {
    ArrangedOption(now, args, opts, p, parked);
    assert whole.opts == opts + [p] && Tail(whole) == Range(p + 1, |args|) + parked;
    assert Pick(args, Tail(whole)) == args[p + 1..] + Pick(args, parked);
  }

  lemma ContinuesOption(whole: Scan, opts: seq<nat>, parked: seq<nat>, p: nat, s: Scan)
    requires Continues(whole, opts, parked, ConsOpt(p, s))
    ensures Continues(whole, opts + [p], parked, s)
  {
  }

  lemma ContinuesParked(whole: Scan, opts: seq<nat>, parked: seq<nat>, p: nat, s: Scan)
    requires Continues(whole, opts, parked, ConsParked(p, s))
    ensures Continues(whole, opts, parked + [p], s)
  {
  }

  /** The loop's situation: at array index 1 + |opts|, with args[p..] still unread. */
  ghost predicate Scanning(
    flags: Registry, now: seq<string>, args: seq<string>, opts: seq<nat>, p: nat, parked: seq<nat>) {
    && p <= |args| && Between(opts, 0, |args|) && Between(parked, 0, |args|)
    && Arranged(now, args, opts, p, parked)
    && Continues(ScanFrom(flags, args, 0), opts, parked, ScanFrom(flags, args, p))
  }

  lemma AfterFlag(flags: Registry, now: seq<string>, args: seq<string>, opts: seq<nat>, p: nat, parked: seq<nat>)
    requires Scanning(flags, now, args, opts, p, parked) && p < |args| && KindOf(flags, args[p]).Flag?
    ensures Scanning(flags, now, args, opts + [p], p + 1, parked)
  {
    ArrangedOption(now, args, opts, p, parked);
    ContinuesOption(ScanFrom(flags, args, 0), opts, parked, p, ScanFrom(flags, args, p + 1));
  }

  lemma AfterPair(flags: Registry, now: seq<string>, args: seq<string>, opts: seq<nat>, p: nat, parked: seq<nat>)
    requires Scanning(flags, now, args, opts, p, parked) && p + 1 < |args| && KindOf(flags, args[p]).FlagWithNext?
    ensures Scanning(flags, now, args, opts + [p] + [p + 1], p + 2, parked)
  {
    var s := ScanFrom(flags, args, p + 2);
    ArrangedOption(now, args, opts, p, parked);
    ArrangedOption(now, args, opts + [p], p + 1, parked);
    ContinuesOption(ScanFrom(flags, args, 0), opts, parked, p, ConsOpt(p + 1, s));
    ContinuesOption(ScanFrom(flags, args, 0), opts + [p], parked, p + 1, s);
  }

  lemma AfterPark(flags: Registry, now: seq<string>, args: seq<string>, opts: seq<nat>, p: nat, parked: seq<nat>)
    requires Scanning(flags, now, args, opts, p, parked) && p < |args| && KindOf(flags, args[p]).Park?
    ensures var i := |opts|;
            && i < |now| && now[i] == args[p]
            && Scanning(flags, now[..i] + now[i + 1..] + [now[i]], args, opts, p + 1, parked + [p])
  {
    ArrangedParked(now, args, opts, p, parked, |opts|);
    ContinuesParked(ScanFrom(flags, args, 0), opts, parked, p, ScanFrom(flags, args, p + 1));
  }

  // Nothing is lost or duplicated ----------------------------------------

  /** `v` occurs among the picked arguments as often as from position `p` on. */
  ghost predicate SameCount(args: seq<string>, s: Scan, p: nat, v: string)
    requires p <= |args| && Ordered(s, p, |args|)
  {
    multiset(Pick(args, s.opts))[v] + multiset(Pick(args, s.rest))[v] + multiset(Pick(args, s.parked))[v]
    == multiset(args[p..])[v]
  }

  lemma ConsCount(args: seq<string>, s: Scan, p: nat, v: string)
    requires p < |args| && Ordered(s, p + 1, |args|) && SameCount(args, s, p + 1, v)
    ensures Ordered(ConsOpt(p, s), p, |args|) && SameCount(args, ConsOpt(p, s), p, v)
    ensures Ordered(ConsParked(p, s), p, |args|) && SameCount(args, ConsParked(p, s), p, v)
  {
    ConsOrdered(p, s, |args|);
    assert args[p..] == [args[p]] + args[p + 1..];
    assert Pick(args, [p] + s.opts) == [args[p]] + Pick(args, s.opts);
    assert Pick(args, [p] + s.parked) == [args[p]] + Pick(args, s.parked);
  }

  lemma RemainderCount(args: seq<string>, p: nat, v: string)
    requires p <= |args|
    ensures Ordered(Remainder(p, |args|), p, |args|) && SameCount(args, Remainder(p, |args|), p, v)
  {
    assert Pick(args, Range(p, |args|)) == args[p..];
  }

  lemma {:induction false} ScanKeepsCounts(flags: Registry, args: seq<string>, p: nat, v: string)
    requires p <= |args|
    ensures Ordered(ScanFrom(flags, args, p), p, |args|) && SameCount(args, ScanFrom(flags, args, p), p, v)
    decreases |args| - p
  {
    if p == |args| {
      RemainderCount(args, p, v);
    } else {
      match KindOf(flags, args[p])
      case Park =>
        ScanKeepsCounts(flags, args, p + 1, v);
        ConsCount(args, ScanFrom(flags, args, p + 1), p, v);
      case Stop =>
        RemainderCount(args, p + 1, v);
        ConsCount(args, Remainder(p + 1, |args|), p, v);
      case Flag =>
        ScanKeepsCounts(flags, args, p + 1, v);
        ConsCount(args, ScanFrom(flags, args, p + 1), p, v);
      case FlagWithNext =>
        if p + 1 == |args| {
          RemainderCount(args, p + 1, v);
          ConsCount(args, Remainder(p + 1, |args|), p, v);
        } else {
          ScanKeepsCounts(flags, args, p + 2, v);
          ConsCount(args, ScanFrom(flags, args, p + 2), p + 1, v);
          ConsCount(args, ConsOpt(p + 1, ScanFrom(flags, args, p + 2)), p, v);
        }
    }
  }

  /** The final arrangement is a permutation of the arguments. */
  lemma SortedIsPermutation(flags: Registry, now: seq<string>, args: seq<string>)
    requires Sorted(now, args, ScanFrom(flags, args, 0))
    ensures multiset(now) == multiset(args)
  {
    var s := ScanFrom(flags, args, 0);
    ScanOrdered(flags, args, 0);
    assert Pick(args, Tail(s)) == Pick(args, s.rest) + Pick(args, s.parked);
    assert args[0..] == args;
    forall v ensures multiset(now)[v] == multiset(args)[v] {
      ScanKeepsCounts(flags, args, 0, v);
    }
  }

  /** Parks the argument at index 1 + |opts|. */
  method ParkArgument(flags: Registry, argv: array<string>, i: nat, ghost args: seq<string>, ghost opts: seq<nat>,
                      ghost p: nat, ghost parked: seq<nat>)
    requires argv.Length >= 1 && Scanning(flags, argv[1..], args, opts, p, parked) && i == 1 + |opts|
    requires p < |args| && KindOf(flags, args[p]).Park?
    modifies argv
    ensures argv[0] == old(argv[0]) && Scanning(flags, argv[1..], args, opts, p + 1, parked + [p])
  {
    AfterPark(flags, argv[1..], args, opts, p, parked);
    ghost var all := argv[..];
    assert argv[1..] == all[1..];
    MoveToEnd(argv, i);
    MovedTail(all, i);
    assert argv[1..] == argv[..][1..];
  }

  /** Moving an element other than the first to the end, seen without the first. */
  lemma MovedTail(all: seq<string>, i: nat)
    requires 1 <= i < |all|
    ensures var now, moved := all[1..], all[..i] + all[i + 1..] + [all[i]];
            moved[0] == all[0] && moved[1..] == now[..i - 1] + now[i..] + [now[i - 1]]
  {
  }

  /** One turn of the loop: it either ends with everything in place or goes on. */
  method ScanArgument(flags: Registry, argv: array<string>, i: nat, firstNonopt: nat, ghost args: seq<string>,
                      ghost opts: seq<nat>, ghost p: nat, ghost parked: seq<nat>)
    returns (done: bool, i': nat, firstNonopt': nat, ghost opts': seq<nat>, ghost p': nat, ghost parked': seq<nat>)
    requires argv.Length >= 1 && Scanning(flags, argv[1..], args, opts, p, parked) && p < |args|
    requires i == 1 + |opts| && firstNonopt == i + |args| - p
    modifies argv
    ensures argv[0] == old(argv[0])
    ensures done ==> Sorted(argv[1..], args, ScanFrom(flags, args, 0))
                     && firstNonopt' == 1 + |ScanFrom(flags, args, 0).opts|
    ensures !done ==> && Scanning(flags, argv[1..], args, opts', p', parked') && p < p'
                      && i' == 1 + |opts'| && firstNonopt' == i' + |args| - p'
  {
    assert argv[i] == argv[1..][i - 1] == args[p];
    var kind := KindOf(flags, argv[i]);
    done, i', firstNonopt', opts', p', parked' := false, i, firstNonopt, opts, p, parked;
    match kind
    case Park =>
      ParkArgument(flags, argv, i, args, opts, p, parked);
      firstNonopt' := firstNonopt - 1;
      p', parked' := p + 1, parked + [p];
    case Stop =>
      SortedAtStop(argv[1..], args, opts, p, parked, ScanFrom(flags, args, 0));
      done, firstNonopt' := true, i + 1;
    case Flag =>
      AfterFlag(flags, argv[1..], args, opts, p, parked);
      i', opts', p' := i + 1, opts + [p], p + 1;
    case FlagWithNext =>
      if i + 1 >= firstNonopt {
        SortedAtStop(argv[1..], args, opts, p, parked, ScanFrom(flags, args, 0));
        done := true;
      } else {
        AfterPair(flags, argv[1..], args, opts, p, parked);
        i', opts', p' := i + 2, opts + [p] + [p + 1], p + 2;
      }
  }

  /**
    Stage one of parsing, as far as it moves arguments: the program name, the
    options with their values in order, what follows a bare "--", and the
    parked arguments. The result is where the arguments for the program begin.
   */
  method PermuteArguments(flags: Registry, argv: array<string>) returns (firstNonopt: nat)
    requires argv.Length >= 1
    modifies argv
    ensures var s := ScanFrom(flags, old(argv[1..]), 0);
            && argv[0] == old(argv[0]) && Sorted(argv[1..], old(argv[1..]), s)
            && firstNonopt == 1 + |s.opts|
    ensures multiset(argv[1..]) == old(multiset(argv[1..]))
  {
    ghost var args := argv[1..];
    ghost var opts: seq<nat>, p: nat, parked: seq<nat> := [], 0, [];
    firstNonopt := argv.Length;
    var i, done := 1, false;
    while i < firstNonopt
      invariant Scanning(flags, argv[1..], args, opts, p, parked)
      invariant argv[0] == old(argv[0])
      invariant i == 1 + |opts| && firstNonopt == i + |args| - p
      decreases firstNonopt - i
    {
      done, i, firstNonopt, opts, p, parked := ScanArgument(flags, argv, i, firstNonopt, args, opts, p, parked);
      if done {
        SortedIsPermutation(flags, argv[1..], args);
        return;
      }
    }
    SortedAtEnd(argv[1..], args, opts, parked, ScanFrom(flags, args, 0));
    SortedIsPermutation(flags, argv[1..], args);
  }

  /** Flag removal: the program sees its name and then the rest and the parked arguments. */
  method RemoveFlags(argv: array<string>, firstNonopt: nat) returns (from: nat)
    requires 1 <= firstNonopt <= argv.Length
    modifies argv
    ensures from == firstNonopt - 1 && argv[from..] == [old(argv[0])] + old(argv[firstNonopt..])
  {
    argv[firstNonopt - 1] := argv[0];
    from := firstNonopt - 1;
  }
}
