/** Removing privacy placeholders from log formats: what the in-place loop deletes, and exactly when
    that is every placeholder. */
module LogFormat {

  const PUBLIC := "{public}"
  const PRIVATE := "{private}"

  /** `h` occurs in `s` at `i`. */
  predicate At(s: string, h: string, i: int) {
    0 <= i <= |s| - |h| && s[i..i + |h|] == h
  }

  ghost predicate Contains(s: string, h: string) { exists i :: At(s, h, i) }

  /** No proper suffix of `h` is also a prefix, so occurrences of `h` cannot overlap. */
  ghost predicate BorderFree(h: string) {
    h != [] && forall k :: 0 < k < |h| ==> h[k..] != h[..|h| - k]
  }

  /** What the loop computes: after each deletion the next character is kept unseen. */
  function Strip(s: string, h: string): string
    decreases |s|
  {
    if s == [] then []
    else if At(s, h, 0) then
      var rest := s[|h|..];
      if rest == [] then [] else [rest[0]] + Strip(rest[1..], h)
    else [s[0]] + Strip(s[1..], h)
  }

  /** What is wanted: every occurrence deleted, from left to right. */
  function DeleteAll(s: string, h: string): string
    requires h != []
    decreases |s|
  {
    if s == [] then [] else if At(s, h, 0) then DeleteAll(s[|h|..], h) else [s[0]] + DeleteAll(s[1..], h)
  }

  // ---------- the loop ----------

  /** What the loop will end with, from its current text and index. */
  ghost function Goal(s: string, h: string, index: nat): string {
    if index <= |s| then s[..index] + Strip(s[index..], h) else s
  }

  /** `std::string::find`: the first occurrence at or after `from`, or -1. */
  method Find(s: string, h: string, from: nat) returns (i: int)
    ensures i == -1 || (from <= i && At(s, h, i))
    ensures forall k :: from <= k && (i == -1 || k < i) ==> !At(s, h, k)
  {
    i := from;
    while i <= |s| - |h|
      invariant from <= i
      invariant forall k :: from <= k < i ==> !At(s, h, k)
    {
      if s[i..i + |h|] == h {
        return;
      }
      i := i + 1;
    }
    i := -1;
  }

  method ReplaceHolder(text: string, holder: string) returns (str: string)
    ensures str == Strip(text, holder)
  {
    str := text;
    var index := 0;
    assert text[0..] == text && Goal(text, holder, 0) == Strip(text, holder);
    hide Goal;
    hide Strip;
    while true
      invariant 0 <= index <= |str| + 1
      invariant Goal(str, holder, index) == Strip(text, holder)
      decreases |str| + 1 - index
    {
      var found := Find(str, holder, index);
      if found == -1 {
        StripNone(str, holder, index);
        break;
      }
      StripFirst(str, holder, index, found);
      str := str[..found] + str[found + |holder|..];
      index := found + 1;
    }
  }

  lemma {:induction false} StripSkip(s: string, h: string, j: nat)
    requires j <= |s| && forall k :: 0 <= k < j ==> !At(s, h, k)
    ensures Strip(s, h) == s[..j] + Strip(s[j..], h)
  {
    if j == 0 {
      assert s[0..] == s;
    } else {
      assert !At(s, h, 0);
      forall k | 0 <= k < j - 1 ensures !At(s[1..], h, k) { Shift(s, h, 1, k); }
      StripSkip(s[1..], h, j - 1);
      assert s[1..][j - 1..] == s[j..];
      assert s[..j] == [s[0]] + s[1..][..j - 1];
    }
  }

  lemma Shift(s: string, h: string, d: nat, k: nat)
    requires d <= |s|
    ensures At(s[d..], h, k) <==> At(s, h, d + k)
  {
    if d + k + |h| <= |s| { assert s[d..][k..k + |h|] == s[d + k..d + k + |h|]; }
  }

  lemma StripNone(s: string, h: string, index: nat)
    requires forall k :: index <= k ==> !At(s, h, k)
    ensures Goal(s, h, index) == s
  {
    if index <= |s| {
      var t := s[index..];
      forall k | 0 <= k < |t| ensures !At(t, h, k) { Shift(s, h, index, k); }
      StripSkip(t, h, |t|);
      assert t[..|t|] == t && t[|t|..] == [];
    }
  }

  lemma StripHead(u: string, h: string, rest: string)
    requires At(u, h, 0) && rest == u[|h|..]
    ensures Strip(u, h) == if rest == [] then [] else [rest[0]] + Strip(rest[1..], h)
  {
  }

  lemma Assoc(a: string, b: string, c: string)
    ensures a + (b + c) == a + b + c
  {
  }

  /** One round of the loop, seen from the characters before and after the deleted occurrence. */
  lemma StripFirst(s: string, h: string, index: nat, found: nat)
    requires index <= found && At(s, h, found) && forall k :: index <= k < found ==> !At(s, h, k)
    ensures Goal(s, h, index) == Goal(s[..found] + s[found + |h|..], h, found + 1)
  {
    hide Strip;
    var t, j, rest := s[index..], found - index, s[found + |h|..];
    var str := s[..found] + rest;
    forall k | 0 <= k < j ensures !At(t, h, k) { Shift(s, h, index, k); }
    StripSkip(t, h, j);
    assert t[j..] == s[found..] && s[..index] + t[..j] == s[..found];
    Shift(s, h, found, 0);
    assert s[found..][|h|..] == rest;
    StripHead(s[found..], h, rest);
    Assoc(s[..index], t[..j], Strip(s[found..], h));
    if rest != [] {
      assert str[..found + 1] == s[..found] + [rest[0]] && str[found + 1..] == rest[1..];
      Assoc(s[..found], [rest[0]], Strip(rest[1..], h));
    }
  }

  // ---------- when it deletes everything ----------

  lemma OverlapIsBorder(s: string, h: string, i: nat, j: nat)
    requires At(s, h, i) && At(s, h, j) && i < j < i + |h|
    ensures h[j - i..] == h[..|h| - (j - i)]
  {
    var k := j - i;
    assert h[k..] == s[i..i + |h|][k..] == s[j..i + |h|];
    assert h[..|h| - k] == s[j..j + |h|][..|h| - k] == s[j..i + |h|];
  }

  lemma NoOverlap(s: string, h: string, i: nat, j: nat)
    requires BorderFree(h) && At(s, h, i) && At(s, h, j) && i < j
    ensures i + |h| <= j
  {
    if j < i + |h| { OverlapIsBorder(s, h, i, j); }
  }

  lemma DoubleIsTwo(s: string, h: string, i: nat)
    ensures At(s, h + h, i) <==> At(s, h, i) && At(s, h, i + |h|)
  {
    if i + |h| + |h| <= |s| {
      var a, b, w := s[i..i + |h|], s[i + |h|..i + |h| + |h|], s[i..i + |h + h|];
      assert w == a + b;
      assert w[..|h|] == a && w[|h|..] == b && (h + h)[..|h|] == h && (h + h)[|h|..] == h;
    }
  }

  lemma NoneInside(rest: string, h: string)
    requires BorderFree(h) && At(rest, h, 0)
    ensures forall k :: 0 <= k < |h| - 1 ==> !At(rest[1..], h, k)
  {
    forall k | 0 <= k < |h| - 1 ensures !At(rest[1..], h, k) {
      Shift(rest, h, 1, k);
      if At(rest, h, 1 + k) { NoOverlap(rest, h, 0, 1 + k); }
    }
  }

  lemma HeadAndTail(rest: string, h: string)
    requires h != [] && At(rest, h, 0)
    ensures h == [rest[0]] + rest[1..][..|h| - 1] && rest[1..][|h| - 1..] == rest[|h|..]
  {
    assert h == rest[..|h|];
  }

  /** A run of two: the loop keeps the second occurrence whole. */
  lemma StripAdjacent(rest: string, h: string)
    requires BorderFree(h) && At(rest, h, 0)
    ensures [rest[0]] + Strip(rest[1..], h) == h + Strip(rest[|h|..], h)
  {
    hide Strip;
    NoneInside(rest, h);
    HeadAndTail(rest, h);
    StripSkip(rest[1..], h, |h| - 1);
    hide At;
    hide BorderFree;
    Assoc([rest[0]], rest[1..][..|h| - 1], Strip(rest[|h|..], h));
  }

  lemma {:induction false} StripKeepsMore(s: string, h: string)
    requires BorderFree(h)
    ensures |DeleteAll(s, h)| <= |Strip(s, h)|
    decreases |s|
  {
    if s == [] {
    } else {
      var rest := if At(s, h, 0) then s[|h|..] else s;
      if rest != [] {
        if At(s, h, 0) && At(rest, h, 0) {
          StripAdjacent(rest, h);
          StripKeepsMore(rest[|h|..], h);
        } else {
          StripKeepsMore(rest[1..], h);
        }
      }
    }
  }

  /** Removing a stretch that holds no start of a double occurrence. */
  lemma DoubleMovesPast(s: string, h: string, d: nat)
    requires h != [] && d <= |s| && forall k :: 0 <= k < d ==> !At(s, h + h, k)
    ensures Contains(s, h + h) <==> Contains(s[d..], h + h)
  {
    if i :| At(s, h + h, i) { Shift(s, h + h, d, i - d); }
    if i :| At(s[d..], h + h, i) { Shift(s, h + h, d, i); }
  }

  /** Main theorem: the loop deletes every placeholder if and only if no two of them are adjacent. */
  lemma {:induction false} StripDeletesAllIff(s: string, h: string)
    requires BorderFree(h)
    ensures Strip(s, h) == DeleteAll(s, h) <==> !Contains(s, h + h)
    decreases |s|
  {
    if s == [] {
    } else if !At(s, h, 0) {
      StripDeletesAllIff(s[1..], h);
      DoubleIsTwo(s, h, 0);
      DoubleMovesPast(s, h, 1);
      ConsEqual(s[0], Strip(s[1..], h), DeleteAll(s[1..], h));
    } else {
      var rest := s[|h|..];
      Shift(s, h, |h|, 0);
      DoubleIsTwo(s, h, 0);
      if At(rest, h, 0) {
        assert At(s, h + h, 0);
        StripAdjacent(rest, h);
        StripKeepsMore(rest[|h|..], h);
        assert |DeleteAll(s, h)| < |Strip(s, h)|;
      } else {
        NoDoubleStart(s, h);
        DoubleMovesPast(s, h, if rest == [] then |h| else |h| + 1);
        if rest != [] {
          assert s[|h| + 1..] == rest[1..];
          StripDeletesAllIff(rest[1..], h);
          ConsEqual(rest[0], Strip(rest[1..], h), DeleteAll(rest[1..], h));
        }
      }
    }
  }

  lemma ConsEqual(c: char, a: string, b: string)
    ensures [c] + a == [c] + b <==> a == b
  {
    if [c] + a == [c] + b { assert a == ([c] + a)[1..] == ([c] + b)[1..] == b; }
  }

  lemma NoDoubleStart(s: string, h: string)
    requires BorderFree(h) && At(s, h, 0) && !At(s, h, |h|)
    ensures forall k :: 0 <= k <= |h| ==> !At(s, h + h, k)
  {
    forall k | 0 <= k <= |h| ensures !At(s, h + h, k) {
      DoubleIsTwo(s, h, k);
      if 0 < k < |h| && At(s, h, k) { NoOverlap(s, h, 0, k); }
    }
  }

  // ---------- what "every placeholder deleted" means ----------

  /** The occurrence of `h` at `p` covers position `i`. */
  predicate CoveredFrom(s: string, h: string, i: nat, p: nat) { p <= i < p + |h| && At(s, h, p) }

  /** Some occurrence of `h` covers position `i`. */
  predicate Covered(s: string, h: string, i: nat) {
    exists p :: 0 <= p <= i && CoveredFrom(s, h, i, p)
  }

  /** The uncovered characters from position `i` on, in order. */
  function Uncovered(s: string, h: string, i: nat): string
    requires i <= |s|
    decreases |s| - i
  {
    if i == |s| then [] else (if Covered(s, h, i) then [] else [s[i]]) + Uncovered(s, h, i + 1)
  }

  /** No occurrence straddles position `d`. */
  ghost predicate Separates(s: string, h: string, d: nat) {
    forall k :: 0 <= k < d && At(s, h, k) ==> k + |h| <= d
  }

  lemma UncoveredEnd(s: string, h: string)
    ensures Uncovered(s, h, |s|) == []
  {
  }

  lemma UncoveredStep(s: string, h: string, i: nat)
    requires i < |s|
    ensures Uncovered(s, h, i) == (if Covered(s, h, i) then [] else [s[i]]) + Uncovered(s, h, i + 1)
  {
    hide Covered;
  }

  lemma {:induction false} UncoveredShift(s: string, h: string, d: nat, i: nat)
    requires d <= |s| && i <= |s| - d
    requires Separates(s, h, d)
    ensures Uncovered(s[d..], h, i) == Uncovered(s, h, d + i)
    decreases |s| - d - i
  {
    hide Covered;
    hide Uncovered;
    hide Separates;
    var t, j := s[d..], d + i;
    if i == |t| {
      UncoveredEnd(t, h);
      UncoveredEnd(s, h);
    } else {
      CoveredShift(s, h, d, i);
      UncoveredShift(s, h, d, i + 1);
      UncoveredStep(t, h, i);
      UncoveredStep(s, h, j);
      assert t[i] == s[j];
    }
  }

  lemma CoveredShift(s: string, h: string, d: nat, i: nat)
    requires d <= |s| && i < |s| - d
    requires Separates(s, h, d)
    ensures Covered(s[d..], h, i) <==> Covered(s, h, d + i)
  {
    hide At;
    if Covered(s[d..], h, i) {
      var p :| 0 <= p <= i && CoveredFrom(s[d..], h, i, p);
      Shift(s, h, d, p);
      assert CoveredFrom(s, h, d + i, d + p);
    }
    if Covered(s, h, d + i) {
      var p :| 0 <= p <= d + i && CoveredFrom(s, h, d + i, p);
      assert p >= d;
      Shift(s, h, d, p - d);
      assert CoveredFrom(s[d..], h, i, p - d);
    }
  }

  lemma {:induction false} SkipCovered(s: string, h: string, i: nat)
    requires At(s, h, 0) && i <= |h|
    ensures Uncovered(s, h, i) == Uncovered(s, h, |h|)
    decreases |h| - i
  {
    if i < |h| {
      assert Covered(s, h, i) by { assert CoveredFrom(s, h, i, 0); }
      SkipCovered(s, h, i + 1);
    }
  }

  lemma FirstSeparates(s: string, h: string)
    requires BorderFree(h) && At(s, h, 0)
    ensures Separates(s, h, |h|)
  {
    forall k | 0 <= k < |h| && At(s, h, k) ensures k + |h| <= |h| { if k > 0 { NoOverlap(s, h, 0, k); } }
  }

  lemma NoneSeparates(s: string, h: string)
    requires h != [] && !At(s, h, 0)
    ensures Separates(s, h, 1)
  {
  }

  lemma FirstIsUncovered(s: string, h: string)
    requires s != [] && !At(s, h, 0)
    ensures Uncovered(s, h, 0) == [s[0]] + Uncovered(s, h, 1)
  {
    hide Uncovered;
    UncoveredStep(s, h, 0);
  }

  /** The reference deletes exactly the characters that lie in some occurrence. */
  lemma {:induction false} DeleteAllIsUncovered(s: string, h: string)
    requires BorderFree(h)
    ensures DeleteAll(s, h) == Uncovered(s, h, 0)
    decreases |s|
  {
    hide Covered;
    hide Separates;
    if s == [] {
    } else {
      if At(s, h, 0) {
        SkipCovered(s, h, 0);
        FirstSeparates(s, h);
        UncoveredShift(s, h, |h|, 0);
        DeleteAllIsUncovered(s[|h|..], h);
      } else {
        NoneSeparates(s, h);
        FirstIsUncovered(s, h);
        UncoveredShift(s, h, 1, 0);
        DeleteAllIsUncovered(s[1..], h);
      }
    }
  }

  /** The smallest failure: of two adjacent placeholders one survives. */
  lemma AdjacentSurvives(h: string)
    requires BorderFree(h)
    ensures Strip(h + h, h) == h && DeleteAll(h + h, h) == ""
  {
    var s := h + h;
    assert At(s, h, 0) && s[|h|..] == h && At(h, h, 0) && h[|h|..] == "";
    StripAdjacent(h, h);
    assert h + Strip("", h) == h;
    assert DeleteAll(s, h) == DeleteAll(h, h) == DeleteAll("", h);
  }

  function Times(h: string, n: nat): string { if n == 0 then "" else h + Times(h, n - 1) }

  /** Of a run of adjacent placeholders every other one survives. */
  lemma {:induction false} RunSurvives(h: string, n: nat)
    requires BorderFree(h)
    ensures Strip(Times(h, n), h) == Times(h, n / 2)
  {
    if n == 0 {
    } else if n == 1 {
      assert Times(h, 0) == "" && Times(h, 1) == h + "" == h;
      StripHead(h, h, "");
    } else {
      hide Times;
      hide Strip;
      TimesStep(h, n);
      TimesStep(h, n - 1);
      StripTwo(h, Times(h, n - 2));
      RunSurvives(h, n - 2);
      TimesStep(h, n / 2);
    }
  }

  /** Two adjacent placeholders in front: one of them is kept. */
  lemma StripTwo(h: string, more: string)
    requires BorderFree(h)
    ensures Strip(h + (h + more), h) == h + Strip(more, h)
  {
    var rest := h + more;
    assert (h + rest)[|h|..] == rest && rest[|h|..] == more;
    assert At(h + rest, h, 0) && At(rest, h, 0);
    StripHead(h + rest, h, rest);
    hide Strip;
    StripAdjacent(rest, h);
  }

  lemma TimesStep(h: string, n: nat)
    requires n > 0
    ensures Times(h, n) == h + Times(h, n - 1)
  {
  }

  // ---------- the formats in use ----------

  /** A word whose first character does not recur in it cannot overlap itself. */
  lemma BorderFreeByHead(h: string)
    requires h != [] && forall k :: 0 < k < |h| ==> h[k] != h[0]
    ensures BorderFree(h)
  {
    forall k | 0 < k < |h| ensures h[k..] != h[..|h| - k] { assert h[k..][0] == h[k]; }
  }

  /** Every occurrence of `h`, except possibly one at the very start, directly follows `lead`. */
  ghost predicate Led(s: string, h: string, lead: char) {
    forall i :: 0 < i && At(s, h, i) ==> s[i - 1] == lead
  }

  /** If every placeholder directly follows some other character, as in "%{public}s", none are adjacent. */
  lemma LedPlaceholdersAreApart(s: string, h: string, lead: char)
    requires h != [] && h[|h| - 1] != lead && Led(s, h, lead)
    ensures !Contains(s, h + h)
  {
    forall i ensures !At(s, h + h, i) {
      if At(s, h + h, i) {
        DoubleIsTwo(s, h, i);
      }
    }
  }

  lemma LedSuffix(s: string, h: string, lead: char, d: nat)
    requires d <= |s| && Led(s, h, lead)
    ensures Led(s[d..], h, lead)
  {
    forall i | 0 < i && At(s[d..], h, i) ensures s[d..][i - 1] == lead { Shift(s, h, d, i); }
  }

  lemma NotInSuffix(s: string, w: string, d: nat)
    requires d <= |s| && !Contains(s, w)
    ensures !Contains(s[d..], w)
  {
    forall i ensures !At(s[d..], w, i) {
      if At(s[d..], w, i) { Shift(s, w, d, i); }
    }
  }

  lemma PrefixStep(s: string, w: string)
    requires w != []
    ensures w <= s <==> s != [] && s[0] == w[0] && w[1..] <= s[1..]
  {
    if w <= s {
      assert w == s[..|w|];
      assert w[1..] == s[1..][..|w| - 1];
    }
    if s != [] && s[0] == w[0] && w[1..] <= s[1..] {
      assert w[1..] == s[1..][..|w| - 1];
      assert w == [w[0]] + w[1..] == [s[0]] + s[1..][..|w| - 1] == s[..|w|];
    }
  }

  lemma StartIsPrefix(s: string, w: string)
    ensures At(s, w, 0) <==> w <= s
  {
    if w <= s { assert s[0..|w|] == w; }
  }

  /** What deletion leaves at the front was there before, up to the next leading character. */
  lemma {:induction false} FrontWasThere(s: string, h: string, lead: char, w: string)
    requires h != [] && Led(s, h, lead) && !At(s, h, 0) && lead !in w && w <= DeleteAll(s, h)
    ensures w <= s
    decreases |s|
  {
    if w == [] {
    } else {
      PrefixStep(DeleteAll(s, h), w);
      assert s != [] && DeleteAll(s, h) == [s[0]] + DeleteAll(s[1..], h);
      assert DeleteAll(s, h)[1..] == DeleteAll(s[1..], h);
      LedSuffix(s, h, lead, 1);
      Shift(s, h, 1, 0);
      assert w[0] in w;
      FrontWasThere(s[1..], h, lead, w[1..]);
      PrefixStep(s, w);
    }
  }

  lemma AtCons(c: char, s: string, w: string, i: nat)
    ensures i > 0 ==> (At([c] + s, w, i) <==> At(s, w, i - 1))
  {
    if i > 0 {
      assert ([c] + s)[1..] == s;
      Shift([c] + s, w, 1, i - 1);
    }
  }

  /** Deleting led placeholders brings no word together that was not there, unless it holds the
      leading character. */
  lemma {:induction false} NothingAppears(s: string, h: string, lead: char, w: string)
    requires h != [] && Led(s, h, lead) && lead !in w && w != [] && (w == h || !Contains(s, w))
    ensures !Contains(DeleteAll(s, h), w)
    decreases |s|
  {
    if s == [] {
    } else if At(s, h, 0) {
      LedSuffix(s, h, lead, |h|);
      if w != h { NotInSuffix(s, w, |h|); }
      NothingAppears(s[|h|..], h, lead, w);
    } else {
      LedSuffix(s, h, lead, 1);
      if w != h { NotInSuffix(s, w, 1); }
      NothingAppears(s[1..], h, lead, w);
      NotAtFront(s, h, lead, w);
      NotInCons(s[0], DeleteAll(s[1..], h), w);
    }
  }

  lemma NotInCons(c: char, d: string, w: string)
    requires !Contains(d, w) && !At([c] + d, w, 0)
    ensures !Contains([c] + d, w)
  {
    forall i ensures !At([c] + d, w, i) {
      if i > 0 { AtCons(c, d, w, i); }
    }
  }

  lemma NotAtFront(s: string, h: string, lead: char, w: string)
    requires h != [] && Led(s, h, lead) && !At(s, h, 0) && lead !in w && (w == h || !Contains(s, w))
    ensures !At(DeleteAll(s, h), w, 0)
  {
    StartIsPrefix(s, w);
    StartIsPrefix(DeleteAll(s, h), w);
    if w <= DeleteAll(s, h) { FrontWasThere(s, h, lead, w); }
  }

  /** Placeholders of another kind keep their leading character. */
  lemma {:induction false} StaysLed(s: string, h: string, v: string, lead: char)
    requires h != [] && v != [] && lead !in v && Led(s, h, lead) && Led(s, v, lead)
    ensures Led(DeleteAll(s, h), v, lead)
    decreases |s|
  {
    if s == [] {
    } else if At(s, h, 0) {
      LedSuffix(s, h, lead, |h|);
      LedSuffix(s, v, lead, |h|);
      StaysLed(s[|h|..], h, v, lead);
    } else {
      LedSuffix(s, h, lead, 1);
      LedSuffix(s, v, lead, 1);
      StaysLed(s[1..], h, v, lead);
      if At(DeleteAll(s[1..], h), v, 0) { SecondIsLed(s, h, v, lead); }
      LedCons(s[0], DeleteAll(s[1..], h), v, lead);
    }
  }

  lemma LedCons(c: char, d: string, v: string, lead: char)
    requires Led(d, v, lead) && (At(d, v, 0) ==> c == lead)
    ensures Led([c] + d, v, lead)
  {
    forall i | 0 < i && At([c] + d, v, i) ensures ([c] + d)[i - 1] == lead {
      AtCons(c, d, v, i);
      if i > 1 { assert ([c] + d)[i - 1] == d[i - 2]; }
    }
  }

  lemma SecondIsLed(s: string, h: string, v: string, lead: char)
    requires s != [] && h != [] && lead !in v && Led(s, h, lead) && Led(s, v, lead) && At(DeleteAll(s[1..], h), v, 0)
    ensures s[0] == lead
  {
    Shift(s, h, 1, 0);
    Shift(s, v, 1, 0);
    if !At(s[1..], h, 0) {
      StartIsPrefix(DeleteAll(s[1..], h), v);
      StartIsPrefix(s[1..], v);
      LedSuffix(s, h, lead, 1);
      FrontWasThere(s[1..], h, lead, v);
    }
  }

  // ---------- two passes ----------

  function Count(s: string, ch: char): nat {
    if s == [] then 0 else (if s[0] == ch then 1 else 0) + Count(s[1..], ch)
  }

  lemma {:induction false} CountConcat(a: string, b: string, ch: char)
    ensures Count(a + b, ch) == Count(a, ch) + Count(b, ch)
  {
    if a == [] {
      assert a + b == b;
    } else {
      assert (a + b)[1..] == a[1..] + b;
      CountConcat(a[1..], b, ch);
    }
  }

  lemma {:induction false} CountPositive(s: string, ch: char)
    ensures Count(s, ch) > 0 <==> ch in s
  {
    if s == [] {
    } else {
      assert ch in s <==> ch == s[0] || ch in s[1..];
      CountPositive(s[1..], ch);
    }
  }

  lemma CountCons(c: char, s: string, ch: char)
    ensures Count([c] + s, ch) == (if c == ch then 1 else 0) + Count(s, ch)
  {
    assert ([c] + s)[1..] == s;
  }

  lemma CountPast(s: string, h: string, ch: char)
    requires At(s, h, 0) && ch !in h
    ensures Count(s, ch) == Count(s[|h|..], ch)
  {
    CountPositive(h, ch);
    assert s == h + s[|h|..];
    CountConcat(h, s[|h|..], ch);
  }

  /** Neither form touches a character that is not in the placeholder. */
  lemma {:induction false} ForeignCount(s: string, h: string, ch: char)
    requires h != [] && ch !in h
    ensures Count(Strip(s, h), ch) == Count(s, ch) == Count(DeleteAll(s, h), ch)
    decreases |s|
  {
    if s == [] {
    } else {
      if At(s, h, 0) {
        var rest := s[|h|..];
        CountPast(s, h, ch);
        ForeignCount(rest, h, ch);
        if rest != [] {
          ForeignCount(rest[1..], h, ch);
          CountCons(rest[0], Strip(rest[1..], h), ch);
        }
      } else {
        ForeignCount(s[1..], h, ch);
        CountCons(s[0], Strip(s[1..], h), ch);
        CountCons(s[0], DeleteAll(s[1..], h), ch);
      }
    }
  }

  /** The loop's leftovers show in the count of any character of the placeholder. */
  lemma {:induction false} OwnCount(s: string, h: string, ch: char)
    requires BorderFree(h) && ch in h
    ensures Count(DeleteAll(s, h), ch) <= Count(Strip(s, h), ch)
    ensures Count(DeleteAll(s, h), ch) == Count(Strip(s, h), ch) ==> Strip(s, h) == DeleteAll(s, h)
    decreases |s|
  {
    if s == [] {
    } else {
      var rest := if At(s, h, 0) then s[|h|..] else s;
      if rest != [] {
        if At(s, h, 0) && At(rest, h, 0) {
          OwnCount(rest[|h|..], h, ch);
          StripAdjacent(rest, h);
          CountConcat(h, Strip(rest[|h|..], h), ch);
          CountPositive(h, ch);
        } else {
          OwnCount(rest[1..], h, ch);
          CountCons(rest[0], Strip(rest[1..], h), ch);
          CountCons(rest[0], DeleteAll(rest[1..], h), ch);
        }
      }
    }
  }

  /** Both passes together delete everything if and only if each of them does: what the first leaves
      behind, the second cannot remove, because 'u' is in the first placeholder only. */
  lemma TwoPassesIff(s: string)
    ensures Strip(Strip(s, PUBLIC), PRIVATE) == DeleteAll(DeleteAll(s, PUBLIC), PRIVATE) <==>
            !Contains(s, PUBLIC + PUBLIC) && !Contains(DeleteAll(s, PUBLIC), PRIVATE + PRIVATE)
  {
    hide Strip;
    hide DeleteAll;
    hide Contains;
    hide Count;
    BorderFreeByHead(PUBLIC);
    BorderFreeByHead(PRIVATE);
    StripDeletesAllIff(s, PUBLIC);
    StripDeletesAllIff(DeleteAll(s, PUBLIC), PRIVATE);
    assert 'u' !in PRIVATE;
    assert PUBLIC[2] == 'u';
    ForeignCount(Strip(s, PUBLIC), PRIVATE, 'u');
    ForeignCount(DeleteAll(s, PUBLIC), PRIVATE, 'u');
    OwnCount(s, PUBLIC, 'u');
  }

  /** Formats whose placeholders all follow a '%' come out free of both kinds. */
  lemma LedFormatsAreCleaned(fmt: string)
    requires Led(fmt, PUBLIC, '%') && Led(fmt, PRIVATE, '%')
    ensures var r := Strip(Strip(fmt, PUBLIC), PRIVATE);
      r == DeleteAll(DeleteAll(fmt, PUBLIC), PRIVATE) && !Contains(r, PUBLIC) && !Contains(r, PRIVATE)
  {
    var once := DeleteAll(fmt, PUBLIC);
    assert '%' !in PUBLIC && '%' !in PRIVATE;
    assert PUBLIC[|PUBLIC| - 1] != '%' && PRIVATE[|PRIVATE| - 1] != '%';
    StaysLed(fmt, PUBLIC, PRIVATE, '%');
    hide Strip;
    hide DeleteAll;
    hide Contains;
    hide Led;
    LedPlaceholdersAreApart(fmt, PUBLIC, '%');
    LedPlaceholdersAreApart(once, PRIVATE, '%');
    TwoPassesIff(fmt);
    NothingAppears(fmt, PUBLIC, '%', PUBLIC);
    NothingAppears(once, PRIVATE, '%', PRIVATE);
    NothingAppears(once, PRIVATE, '%', PUBLIC);
  }

  method ReplaceHolders(fmt: string) returns (r: string)
    ensures r == "[%s:%d] %s# " + Strip(Strip(fmt, PUBLIC), PRIVATE) + "\n"
    ensures r == "[%s:%d] %s# " + DeleteAll(DeleteAll(fmt, PUBLIC), PRIVATE) + "\n" <==>
            !Contains(fmt, PUBLIC + PUBLIC) && !Contains(DeleteAll(fmt, PUBLIC), PRIVATE + PRIVATE)
    ensures Led(fmt, PUBLIC, '%') && Led(fmt, PRIVATE, '%') ==>
            r == "[%s:%d] %s# " + DeleteAll(DeleteAll(fmt, PUBLIC), PRIVATE) + "\n"
  {
    hide Strip;
    hide DeleteAll;
    hide Contains;
    hide Led;
    var str := ReplaceHolder(fmt, PUBLIC);
    str := ReplaceHolder(str, PRIVATE);
    r := "[%s:%d] %s# " + str + "\n";
    TwoPassesIff(fmt);
    if Led(fmt, PUBLIC, '%') && Led(fmt, PRIVATE, '%') { LedFormatsAreCleaned(fmt); }
    FrameEqual("[%s:%d] %s# ", str, DeleteAll(DeleteAll(fmt, PUBLIC), PRIVATE), "\n");
  }

  lemma FrameEqual(pre: string, a: string, b: string, post: string)
    ensures pre + a + post == pre + b + post <==> a == b
  {
    if pre + a + post == pre + b + post {
      var l, r := pre + a + post, pre + b + post;
      assert a == l[|pre|..|l| - |post|] && b == r[|pre|..|r| - |post|];
    }
  }
}
