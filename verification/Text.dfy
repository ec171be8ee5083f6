/** The string operations the source relies on, as they act on ASCII text. */
module Text {
  function LowerChar(c: char): (r: char) {
    if 'A' <= c <= 'Z' then ((c as int) + 32) as char else c
  }

  function Lower(s: string): (r: string) {
    if s == "" then "" else [LowerChar(s[0])] + Lower(s[1..])
  }

  lemma {:induction false} LowerIdempotent(s: string)
    ensures Lower(Lower(s)) == Lower(s) && |Lower(s)| == |s|
  {
    if s != "" {
      LowerIdempotent(s[1..]);
      assert Lower(s)[1..] == Lower(s[1..]);
    }
  }

  function UpperChar(c: char): (r: char) {
    if 'a' <= c <= 'z' then ((c as int) - 32) as char else c
  }

  function Upper(s: string): (r: string) {
    if s == "" then "" else [UpperChar(s[0])] + Upper(s[1..])
  }

  /** Folding acts letter by letter: the 26 letters move between the cases, in alphabetical order, and
      every other character stays. */
  lemma {:induction false} FoldingIsPointwise(s: string)
    ensures |Lower(s)| == |s| && |Upper(s)| == |s|
    ensures forall i :: 0 <= i < |s| ==>
              && (if 'A' <= s[i] <= 'Z' then Lower(s)[i] as int - 'a' as int == s[i] as int - 'A' as int else Lower(s)[i] == s[i])
              && (if 'a' <= s[i] <= 'z' then Upper(s)[i] as int - 'A' as int == s[i] as int - 'a' as int else Upper(s)[i] == s[i])
  {
    if s != "" {
      FoldingIsPointwise(s[1..]);
    }
  }

  /** The characters Python's `strip` removes. */
  predicate IsSpace(c: char) {
    || c == ' ' || '\t' <= c <= '\r' || '\U{001C}' <= c <= '\U{001F}' || c == '\U{0085}' || c == '\U{00A0}'
    || c == '\U{1680}' || '\U{2000}' <= c <= '\U{200A}' || c == '\U{2028}' || c == '\U{2029}'
    || c == '\U{202F}' || c == '\U{205F}' || c == '\U{3000}'
  }

  function StripLeft(s: string): (r: string) {
    if s != "" && IsSpace(s[0]) then StripLeft(s[1..]) else s
  }

  function StripRight(s: string): (r: string) {
    if s != "" && IsSpace(s[|s| - 1]) then StripRight(s[..|s| - 1]) else s
  }

  function Strip(s: string): (r: string) { StripRight(StripLeft(s)) }

  lemma {:induction false} StripRightKeepsStart(s: string)
    requires s == "" || !IsSpace(s[0])
    ensures StripRight(s) == "" <==> s == ""
    ensures StripRight(s) != "" ==> !IsSpace(StripRight(s)[0]) && !IsSpace(StripRight(s)[|StripRight(s)| - 1])
  {
    if s != "" && IsSpace(s[|s| - 1]) {
      StripRightKeepsStart(s[..|s| - 1]);
    }
  }

  lemma {:induction false} StripLeftTrims(s: string)
    ensures StripLeft(s) == "" || !IsSpace(StripLeft(s)[0])
  {
    if s != "" && IsSpace(s[0]) {
      StripLeftTrims(s[1..]);
    }
  }

  /** What is left after stripping starts and ends with no space, and has no character the text had not. */
  lemma StripTrims(s: string)
    ensures Strip(s) != "" ==> !IsSpace(Strip(s)[0]) && !IsSpace(Strip(s)[|Strip(s)| - 1])
    ensures forall c :: c in Strip(s) ==> c in s
  {
    StripLeftTrims(s);
    StripRightKeepsStart(StripLeft(s));
    StripDropsOnly(s);
  }

  lemma StripDropsOnly(s: string)
    ensures forall c :: c in Strip(s) ==> c in s
  {
    StripLeftDropsOnly(s);
    StripRightDropsOnly(StripLeft(s));
    forall c | c in Strip(s) ensures c in s {
      assert c in StripLeft(s);
    }
  }

  /** Stripping removes the longest runs of spaces at both ends and nothing else. */
  lemma StripIsTheMiddle(s: string) returns (before: string, after: string)
    ensures s == before + Strip(s) + after
    ensures (forall c :: c in before ==> IsSpace(c)) && (forall c :: c in after ==> IsSpace(c))
    ensures Strip(s) != "" ==> !IsSpace(Strip(s)[0]) && !IsSpace(Strip(s)[|Strip(s)| - 1])
  {
    before := StripLeftCuts(s);
    after := StripRightCuts(StripLeft(s));
    StripTrims(s);
  }

  lemma {:induction false} StripLeftCuts(s: string) returns (before: string)
    ensures s == before + StripLeft(s) && forall c :: c in before ==> IsSpace(c)
  {
    before := "";
    if s != "" && IsSpace(s[0]) {
      before := StripLeftCuts(s[1..]);
      before := [s[0]] + before;
    }
  }

  lemma {:induction false} StripRightCuts(s: string) returns (after: string)
    ensures s == StripRight(s) + after && forall c :: c in after ==> IsSpace(c)
  {
    after := "";
    if s != "" && IsSpace(s[|s| - 1]) {
      after := StripRightCuts(s[..|s| - 1]);
      after := after + [s[|s| - 1]];
    }
  }

  lemma {:induction false} StripLeftDropsOnly(s: string)
    ensures forall c :: c in StripLeft(s) ==> c in s
  {
    if s != "" {
      StripLeftDropsOnly(s[1..]);
    }
  }

  lemma {:induction false} StripRightDropsOnly(s: string)
    ensures forall c :: c in StripRight(s) ==> c in s
  {
    if s != "" {
      StripRightDropsOnly(s[..|s| - 1]);
    }
  }

  /** Stripping twice strips no more. */
  lemma StripIdempotent(s: string)
    ensures Strip(Strip(s)) == Strip(s)
  {
    StripLeftTrims(s);
    StripRightKeepsStart(StripLeft(s));
  }

  function Count(s: string, c: char): (r: nat) {
    if s == "" then 0 else (if s[0] == c then 1 else 0) + Count(s[1..], c)
  }

  /** What precedes, and what follows, the first occurrence of a character. */
  function Before(s: string, c: char): (r: string) {
    if s == "" || s[0] == c then "" else [s[0]] + Before(s[1..], c)
  }

  function After(s: string, c: char): (r: string) {
    if s == "" then "" else if s[0] == c then s[1..] else After(s[1..], c)
  }

  lemma {:induction false} BeforeFirst(s: string, c: char, rest: string)
    requires c !in s
    ensures Before(s + [c] + rest, c) == s && After(s + [c] + rest, c) == rest
  {
    if s == "" {
      assert s + [c] + rest == [c] + rest;
    } else {
      BeforeFirst(s[1..], c, rest);
      assert (s + [c] + rest)[1..] == s[1..] + [c] + rest;
    }
  }

  lemma {:induction false} CountSplits(s: string, c: char)
    ensures Count(s, c) == 0 <==> c !in s
    ensures c in s ==> s == Before(s, c) + [c] + After(s, c) && Count(s, c) == 1 + Count(After(s, c), c) && c !in Before(s, c)
  {
    if s != "" {
      CountSplits(s[1..], c);
      assert s == [s[0]] + s[1..];
      if s[0] != c && c in s {
        assert s == [s[0]] + (Before(s[1..], c) + [c] + After(s[1..], c));
      }
    }
  }
}
