/**
  The fallback tagger. Dictionary tags are not consulted, so it only ever
  answers x (no ASCII seen), m (numbers) or eng, which the merge passes rely on.
 */
module PosTagger {
  import opened Unicode

  predicate IsAscii(r: Rune) { r.code < 0x80 }
  predicate IsNumeral(r: Rune) { 0x30 <= r.code && r.code <= 0x39 }

  /** How many of the first `k` runes are ASCII, and how many are digits. */
  function Ascii(u: seq<Rune>, k: nat): (n: nat)
    requires k <= |u|
    ensures n <= k
  {
    if k == 0 then 0 else Ascii(u, k - 1) + if IsAscii(u[k - 1]) then 1 else 0
  }

  function Numerals(u: seq<Rune>, k: nat): (n: nat)
    requires k <= |u|
  {
    if k == 0 then 0 else Numerals(u, k - 1) + if IsAscii(u[k - 1]) && IsNumeral(u[k - 1]) then 1 else 0
  }

  lemma {:induction false} CountsGrow(u: seq<Rune>, i: nat, k: nat)
    requires i <= k <= |u|
    ensures Ascii(u, i) <= Ascii(u, k)
    ensures Ascii(u, i) == Ascii(u, k) ==> Numerals(u, i) == Numerals(u, k)
    decreases k - i
  {
    if i < k {
      CountsGrow(u, i, k - 1);
    }
  }

  /** At most half of the runes are looked at as ASCII; the scan stops once that many are found. */
  function Seen(u: seq<Rune>): nat {
    var all := Ascii(u, |u|);
    if all < |u| / 2 then all else |u| / 2
  }

  /** The first ASCII runes, as many as are looked at, are all digits. */
  ghost predicate SeenAreNumerals(u: seq<Rune>) {
    exists k :: 0 <= k <= |u| && Ascii(u, k) == Seen(u) && Numerals(u, k) == Seen(u)
  }

  /** The tag of a word by its runes: x without ASCII runes, m if those looked at are digits, else eng. */
  ghost predicate TagOfRunes(u: seq<Rune>, tag: string) {
    && (tag == "x" <==> |u| < 2 || forall i :: 0 <= i < |u| ==> u[i].code >= 0x80)
    && (tag == "m" <==> Seen(u) > 0 && SeenAreNumerals(u))
    && (tag == "x" || tag == "m" || tag == "eng")
  }

  lemma {:induction false} NoAscii(u: seq<Rune>, k: nat)
    requires k <= |u|
    ensures Ascii(u, k) == 0 <==> forall i :: 0 <= i < k ==> u[i].code >= 0x80
  {
    if k > 0 {
      NoAscii(u, k - 1);
    }
  }

  method SpecialRule(u: seq<Rune>) returns (tag: string)
    ensures TagOfRunes(u, tag)
  {
    var m, eng, i := 0, 0, 0;
    while i < |u| && eng < |u| / 2
      invariant 0 <= i <= |u| && eng <= |u| / 2
      invariant eng == Ascii(u, i) && m == Numerals(u, i)
    {
      if IsAscii(u[i]) {
        eng := eng + 1;
        if IsNumeral(u[i]) {
          m := m + 1;
        }
      }
      i := i + 1;
    }
    CountsGrow(u, i, |u|);
    assert eng == Seen(u);
    forall k | 0 <= k <= |u| && Ascii(u, k) == eng ensures Numerals(u, k) == m {
      if k < i { CountsGrow(u, k, i); } else { CountsGrow(u, i, k); }
    }
    NoAscii(u, |u|);
    tag := if eng == 0 then "x" else if m == eng then "m" else "eng";
  }

  lemma {:induction false} DigitsInFront(u: seq<Rune>, k: nat)
    requires k <= |u| && forall i :: 0 <= i < k ==> 0x30 <= u[i].code && u[i].code <= 0x39
    ensures Ascii(u, k) == Numerals(u, k) == k
  {
    if k > 0 {
      DigitsInFront(u, k - 1);
    }
  }

  /** Digits in the first half make a number, whatever comes after them. */
  lemma HalfDecides(u: seq<Rune>, tag: string)
    requires |u| >= 2 && TagOfRunes(u, tag)
    requires forall i :: 0 <= i < |u| / 2 ==> 0x30 <= u[i].code && u[i].code <= 0x39
    ensures tag == "m"
  {
    DigitsInFront(u, |u| / 2);
    CountsGrow(u, |u| / 2, |u|);
  }

  /** A word that does not decode is tagged x. */
  ghost predicate TagOf(str: seq<Byte>, tag: string) {
    if Decodes(str) then TagOfRunes(Decoded(str), tag) else tag == "x"
  }

  method LookupTag(str: seq<Byte>) returns (tag: string)
    ensures TagOf(str, tag)
  {
    var ok, runes := DecodeRunesInString(str);
    if !ok {
      return "x";
    }
    tag := SpecialRule(RunesOf(runes));
  }

  const SPACE: seq<Byte> := [0x20]

  /** The words that are tagged: all but empty ones and single spaces. */
  function Tagged(words: seq<seq<Byte>>): seq<seq<Byte>> {
    if words == [] then []
    else
      var w, before := words[|words| - 1], Tagged(words[..|words| - 1]);
      if w == [] || w == SPACE then before else before + [w]
  }

  /** What the merge passes are given: non-empty words, each tagged by its runes. */
  method Tag(cutRes: seq<seq<Byte>>) returns (found: bool, res: seq<(seq<Byte>, string)>)
    ensures |res| == |Tagged(cutRes)| && (found <==> res != [])
    ensures forall i :: 0 <= i < |res| ==>
              res[i].0 == Tagged(cutRes)[i] && res[i].0 != [] && TagOf(res[i].0, res[i].1)
  {
    res := [];
    for k := 0 to |cutRes|
      invariant |res| == |Tagged(cutRes[..k])|
      invariant forall i :: 0 <= i < |res| ==>
                  res[i].0 == Tagged(cutRes[..k])[i] && res[i].0 != [] && TagOf(res[i].0, res[i].1)
    {
      assert cutRes[..k + 1][..k] == cutRes[..k];
      if cutRes[k] != [] && cutRes[k] != SPACE {
        var tag := LookupTag(cutRes[k]);
        res := res + [(cutRes[k], tag)];
      }
    }
    assert cutRes[..|cutRes|] == cutRes;
    found := res != [];
  }
}
