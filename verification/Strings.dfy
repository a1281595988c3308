/** Substrings and `str::replace`: leftmost, non-overlapping replacement. A Dafny `char`
    stands for one byte of the UTF-8 text here, so lengths are byte lengths. */
module Strings {
  import opened Seqs
  import opened Wrappers

  /** Position of the first `c`, or the length. */
  function IndexOf(s: string, c: char): (i: nat)
    ensures i <= |s| && (i < |s| ==> s[i] == c) && forall k :: 0 <= k < i ==> s[k] != c
  {
    if s == [] then 0 else if s[0] == c then 0 else 1 + IndexOf(s[1..], c)
  }

  predicate OccursAt(s: string, p: string, i: nat) {
    i + |p| <= |s| && forall k :: 0 <= k < |p| ==> p[k] == s[i + k]
  }

  ghost predicate Contains(s: string, p: string) { exists i: nat :: OccursAt(s, p, i) }

  /** The leftmost occurrence at or after `from`. */
  function FindFrom(s: string, p: string, from: nat): (r: Option<nat>)
    ensures r.Some? ==> from <= r.value && r.value + |p| <= |s|
    decreases |s| - from
  {
    if from + |p| > |s| then None
    else if OccursAt(s, p, from) then Some(from)
    else if from == |s| then None
    else FindFrom(s, p, from + 1)
  }

  /** `s` from `from` on, with the occurrences of `p` replaced by `r`. */
  function ReplaceFrom(s: string, p: string, r: string, from: nat): string
    requires p != [] && from <= |s|
    decreases |s| - from
  {
    match FindFrom(s, p, from)
    case None => s[from..]
    case Some(i) => s[from..i] + r + ReplaceFrom(s, p, r, i + |p|)
  }

  function Replace(s: string, p: string, r: string): string
    requires p != []
  {
    ReplaceFrom(s, p, r, 0)
  }

  /** `str::replace` as its loop: copy up to each match, push the replacement, go on behind it. */
  method StrReplace(s: string, p: string, r: string) returns (result: string)
    requires p != []
    ensures result == Replace(s, p, r)
  {
    result := "";
    var lastEnd := 0;
    var next := FindFrom(s, p, 0);
    hide FindFrom, ReplaceFrom;
    while next.Some?
      invariant 0 <= lastEnd <= |s| && next == FindFrom(s, p, lastEnd)
      invariant result + ReplaceFrom(s, p, r, lastEnd) == Replace(s, p, r)
      decreases |s| - lastEnd
    {
      ReplaceStep(s, p, r, lastEnd, next.value);
      Associate4(result, s[lastEnd..next.value], r, ReplaceFrom(s, p, r, next.value + |p|));
      result := result + s[lastEnd..next.value] + r;
      lastEnd := next.value + |p|;
      next := FindFrom(s, p, lastEnd);
    }
    ReplaceEnd(s, p, r, lastEnd);
    result := result + s[lastEnd..];
  }

  // ---------------------------------------------------------- occurrences

  lemma {:induction false} FindIsLeftmost(s: string, p: string, from: nat)
    requires p != []
    ensures FindFrom(s, p, from).Some? ==> OccursAt(s, p, FindFrom(s, p, from).value)
    ensures forall j: nat :: from <= j && OccursAt(s, p, j) ==>
              FindFrom(s, p, from).Some? && FindFrom(s, p, from).value <= j
    decreases |s| - from
  {
    if from + |p| <= |s| && !OccursAt(s, p, from) { FindIsLeftmost(s, p, from + 1); }
  }

  lemma FindIs(s: string, p: string, from: nat, i: nat)
    requires p != [] && from <= i && OccursAt(s, p, i) && forall j: nat :: from <= j < i ==> !OccursAt(s, p, j)
    ensures FindFrom(s, p, from) == Some(i)
  {
    FindIsLeftmost(s, p, from);
  }

  lemma FindNothing(s: string, p: string, from: nat)
    requires p != [] && forall j: nat :: from <= j ==> !OccursAt(s, p, j)
    ensures FindFrom(s, p, from) == None
  {
    FindIsLeftmost(s, p, from);
  }

  lemma ContainsPart(s: string, lo: nat, hi: nat, p: string)
    requires lo <= hi <= |s| && Contains(s[lo..hi], p)
    ensures Contains(s, p)
  {
    var i: nat :| OccursAt(s[lo..hi], p, i);
    assert OccursAt(s, p, lo + i);
  }

  lemma ContainsInMiddle(a: string, b: string, c: string, p: string)
    requires Contains(b, p)
    ensures Contains(a + b + c, p)
  {
    assert (a + b + c)[|a|..|a| + |b|] == b;
    ContainsPart(a + b + c, |a|, |a| + |b|, p);
  }

  /** An occurrence reaches across the seam between the two. */
  ghost predicate Straddles(x: string, y: string, p: string) {
    exists j: nat :: j < |x| < j + |p| && OccursAt(x + y, p, j)
  }

  /** Without one, every occurrence lies on either side. */
  lemma OccursEitherSide(x: string, y: string, p: string, j: nat)
    requires !Straddles(x, y, p) && OccursAt(x + y, p, j)
    ensures if j < |x| then OccursAt(x, p, j) else OccursAt(y, p, j - |x|)
  {
    if j >= |x| { OccursShift(x, y, p, j - |x|); }
  }

  lemma OccursChar(s: string, p: string, j: nat, i: nat)
    requires OccursAt(s, p, j) && i < |p|
    ensures p[i] == s[j + i]
  {
  }

  lemma OccursShift(a: string, y: string, p: string, k: nat)
    ensures OccursAt(a + y, p, |a| + k) <==> OccursAt(y, p, k)
  {
  }

  lemma ContainsJoin(x: string, y: string, p: string)
    requires !Straddles(x, y, p) && Contains(x + y, p)
    ensures Contains(x, p) || Contains(y, p)
  {
    var j: nat :| OccursAt(x + y, p, j);
    OccursEitherSide(x, y, p, j);
  }

  // ---------------------------------------------------------- replacement

  lemma ReplaceNothing(s: string, p: string, r: string)
    requires p != [] && !Contains(s, p)
    ensures Replace(s, p, r) == s
  {
    FindNothing(s, p, 0);
  }

  lemma {:induction false} FindShift(a: string, y: string, p: string, k: nat)
    requires p != []
    ensures FindFrom(a + y, p, |a| + k) == match FindFrom(y, p, k) case Some(i) => Some(|a| + i) case None => None
    decreases |y| - k
  {
    OccursShift(a, y, p, k);
    if k + |p| <= |y| && !OccursAt(y, p, k) { FindShift(a, y, p, k + 1); }
  }

  /** What lies before the starting point is irrelevant. */
  lemma {:induction false} ReplaceShift(a: string, y: string, p: string, r: string, k: nat)
    requires p != [] && k <= |y|
    ensures ReplaceFrom(a + y, p, r, |a| + k) == ReplaceFrom(y, p, r, k)
    decreases |y| - k
  {
    FindShift(a, y, p, k);
    if FindFrom(y, p, k).Some? {
      var i := FindFrom(y, p, k).value;
      ReplaceShift(a, y, p, r, i + |p|);
      ShiftStep(a, y, p, r, k, i);
    } else {
      assert (a + y)[|a| + k..] == y[k..];
    }
  }

  lemma ShiftStep(a: string, y: string, p: string, r: string, k: nat, i: nat)
    requires p != [] && k <= |y| && FindFrom(y, p, k) == Some(i) && FindFrom(a + y, p, |a| + k) == Some(|a| + i)
    requires ReplaceFrom(a + y, p, r, |a| + (i + |p|)) == ReplaceFrom(y, p, r, i + |p|)
    ensures ReplaceFrom(a + y, p, r, |a| + k) == ReplaceFrom(y, p, r, k)
  {
    hide ReplaceFrom, FindFrom;
    SliceShift(a, y, k, i);
    ReplaceStep(a + y, p, r, |a| + k, |a| + i);
    ReplaceStep(y, p, r, k, i);
  }

  lemma SliceShift(a: string, y: string, k: nat, i: nat)
    requires k <= i <= |y|
    ensures (a + y)[|a| + k..|a| + i] == y[k..i]
  {
  }

  lemma ReplaceStep(s: string, p: string, r: string, from: nat, i: nat)
    requires p != [] && from <= |s| && FindFrom(s, p, from) == Some(i)
    ensures ReplaceFrom(s, p, r, from) == s[from..i] + r + ReplaceFrom(s, p, r, i + |p|)
  {
  }

  lemma ReplaceEnd(s: string, p: string, r: string, from: nat)
    requires p != [] && from <= |s| && FindFrom(s, p, from) == None
    ensures ReplaceFrom(s, p, r, from) == s[from..]
  {
  }

  lemma ReplaceWhole(v: string, r: string)
    requires v != []
    ensures Replace(v, v, r) == r
  {
    FindIs(v, v, 0, 0);
    FindNothing(v, v, |v|);
    assert ReplaceFrom(v, v, r, |v|) == v[|v|..] == "";
    assert Replace(v, v, r) == v[0..0] + r + "";
  }

  lemma ReplaceRest(s: string, k: nat, p: string, r: string)
    requires p != [] && k <= |s|
    ensures ReplaceFrom(s, p, r, k) == Replace(s[k..], p, r)
  {
    hide FindFrom, ReplaceFrom;
    ReplaceShift(s[..k], s[k..], p, r, 0);
    assert s[..k] + s[k..] == s;
  }

  /** The first occurrence is replaced and the rest of the text treated alike. */
  lemma ReplaceFirst(s: string, p: string, r: string, i: nat)
    requires p != [] && FindFrom(s, p, 0) == Some(i)
    ensures Replace(s, p, r) == s[..i] + r + Replace(s[i + |p|..], p, r)
  {
    ReplaceStep(s, p, r, 0, i);
    ReplaceRest(s, i + |p|, p, r);
  }

  /** Where no occurrence straddles the seam, replacement works on either side separately. */
  lemma ReplaceJoin(x: string, y: string, p: string, r: string)
    requires p != [] && !Straddles(x, y, p)
    ensures Replace(x + y, p, r) == Replace(x, p, r) + Replace(y, p, r)
  {
    ReplaceUpTo(x, y, p, r, 0);
    ReplaceShift(x, y, p, r, 0);
  }

  lemma {:induction false} ReplaceUpTo(x: string, y: string, p: string, r: string, from: nat)
    requires p != [] && !Straddles(x, y, p) && from <= |x|
    ensures ReplaceFrom(x + y, p, r, from) == ReplaceFrom(x, p, r, from) + ReplaceFrom(x + y, p, r, |x|)
    decreases |x| - from
  {
    FindUpTo(x, y, p, from);
    hide FindFrom, ReplaceFrom, Straddles;
    if FindFrom(x, p, from).Some? {
      var i := FindFrom(x, p, from).value;
      ReplaceUpTo(x, y, p, r, i + |p|);
      UpToStep(x, y, p, r, from, i);
    } else {
      UpToEnd(x, y, p, r, from);
    }
  }

  lemma UpToStep(x: string, y: string, p: string, r: string, from: nat, i: nat)
    requires p != [] && from <= |x| && FindFrom(x, p, from) == Some(i) && FindFrom(x + y, p, from) == Some(i)
    requires ReplaceFrom(x + y, p, r, i + |p|) == ReplaceFrom(x, p, r, i + |p|) + ReplaceFrom(x + y, p, r, |x|)
    ensures ReplaceFrom(x + y, p, r, from) == ReplaceFrom(x, p, r, from) + ReplaceFrom(x + y, p, r, |x|)
  {
    hide FindFrom, ReplaceFrom;
    SlicePrefix(x, y, from, i);
    ReplaceStep(x + y, p, r, from, i);
    ReplaceStep(x, p, r, from, i);
    Associate(x[from..i] + r, ReplaceFrom(x, p, r, i + |p|), ReplaceFrom(x + y, p, r, |x|));
  }

  lemma UpToEnd(x: string, y: string, p: string, r: string, from: nat)
    requires p != [] && from <= |x|
    requires FindFrom(x, p, from) == None && FindFrom(x + y, p, from) == FindFrom(x + y, p, |x|)
    ensures ReplaceFrom(x + y, p, r, from) == ReplaceFrom(x, p, r, from) + ReplaceFrom(x + y, p, r, |x|)
  {
    var s, found := x + y, FindFrom(x + y, p, |x|);
    hide FindFrom, ReplaceFrom;
    ReplaceEnd(x, p, r, from);
    if found.Some? {
      var i := found.value;
      SliceOver(x, y, from, i);
      ReplaceStep(s, p, r, from, i);
      ReplaceStep(s, p, r, |x|, i);
      Associate(x[from..], s[|x|..i], r);
      Associate(x[from..], s[|x|..i] + r, ReplaceFrom(s, p, r, i + |p|));
    } else {
      ReplaceEnd(s, p, r, from);
      ReplaceEnd(s, p, r, |x|);
      assert s[from..] == s[from..|s|] && s[|x|..] == s[|x|..|s|];
      SliceOver(x, y, from, |s|);
    }
  }

  lemma SlicePrefix(x: string, y: string, from: nat, i: nat)
    requires from <= i <= |x|
    ensures (x + y)[from..i] == x[from..i]
  {
  }

  lemma SliceOver(x: string, y: string, from: nat, i: nat)
    requires from <= |x| <= i <= |x| + |y|
    ensures (x + y)[from..i] == x[from..] + (x + y)[|x|..i]
  {
  }

  lemma FindUpTo(x: string, y: string, p: string, from: nat)
    requires p != [] && !Straddles(x, y, p) && from <= |x|
    ensures FindFrom(x + y, p, from) ==
              match FindFrom(x, p, from) case Some(i) => Some(i) case None => FindFrom(x + y, p, |x|)
    ensures FindFrom(x + y, p, |x|).Some? ==> FindFrom(x + y, p, |x|).value >= |x|
  {
    var s := x + y;
    FindIsLeftmost(x, p, from);
    FindIsLeftmost(s, p, |x|);
    forall j: nat | j < |x| && OccursAt(s, p, j) ensures OccursAt(x, p, j) { OccursEitherSide(x, y, p, j); }
    match FindFrom(x, p, from)
    case Some(i) =>
      assert OccursAt(s, p, i);
      FindIs(s, p, from, i);
    case None =>
      match FindFrom(s, p, |x|)
      case Some(i) => FindIs(s, p, from, i);
      case None => FindNothing(s, p, from);
  }

  /** Nothing before the first occurrence contains the pattern. */
  lemma BeforeFirstIsFree(s: string, p: string, i: nat)
    requires p != [] && FindFrom(s, p, 0) == Some(i)
    ensures !Contains(s[..i], p) && Contains(s, p)
  {
    FindIsLeftmost(s, p, 0);
    forall j: nat ensures !OccursAt(s[..i], p, j) {
      assert j < i ==> !OccursAt(s, p, j);
    }
  }

  // -------------------------------------------- what replacement can leave

  /** A copy of `p` begins before an inserted `r` and reaches into it: the end of `p` and the start of `r`
      agree as far as both go, and `p` behind that beginning of itself is found there and not before. */
  predicate ReachesIn(p: string, r: string, i: int) {
    && 0 < i < |p| && (p[i..] <= r || r <= p[i..])
    && FindFrom(p[..i] + p, p, 0) == Some(i)
  }

  /** A copy of `p` begins in an inserted `r` and reaches beyond its end. */
  predicate ReachesOut(p: string, r: string, k: int) {
    0 < k < |p| && k <= |r| && p[..k] == r[|r| - k..]
  }

  /** `p` in the replacement, or put together from part of it and of the text around it. */
  ghost predicate CanLeave(p: string, r: string) {
    || Contains(r, p)
    || (exists i :: 0 <= i < |p| && ReachesIn(p, r, i))
    || (exists k :: 0 <= k < |p| && ReachesOut(p, r, k))
  }

  /** Replacing `p` by `r` can leave a `p` in the result exactly then. */
  lemma CanLeaveIff(p: string, r: string)
    requires p != []
    ensures CanLeave(p, r) <==> exists text :: Contains(Replace(text, p, r), p)
  {
    if text :| Contains(Replace(text, p, r), p) {
      var x: nat :| OccursAt(Replace(text, p, r), p, x);
      Leftover(text, p, r, x);
    }
    if Contains(r, p) {
      ReplaceWhole(p, r);
      assert Contains(Replace(p, p, r), p);
    } else if i :| 0 <= i < |p| && ReachesIn(p, r, i) {
      LeftBefore(p, r, i);
    } else if k :| 0 <= k < |p| && ReachesOut(p, r, k) {
      LeftAfter(p, r, k);
    }
  }

  /** Where a `p` is left, part of it, or all, was inserted. */
  lemma {:induction false} Leftover(text: string, p: string, r: string, x: nat)
    requires p != [] && OccursAt(Replace(text, p, r), p, x)
    ensures CanLeave(p, r)
    decreases |text|
  {
    FindIsLeftmost(text, p, 0);
    match FindFrom(text, p, 0)
    case None =>
    case Some(i) =>
      var before, rest := text[..i], Replace(text[i + |p|..], p, r);
      ReplaceFirst(text, p, r, i);
      hide Replace, CanLeave;
      if x >= i + |r| {
        OccursShift(before + r, rest, p, x - i - |r|);
        Leftover(text[i + |p|..], p, r, x - i - |r|);
      } else if x >= i {
        LeftoverInside(before, r, rest, p, x);
      } else {
        LeftoverBefore(text, p, r, rest, i, x);
      }
  }

  lemma LeftoverInside(before: string, r: string, rest: string, p: string, x: nat)
    requires p != [] && |before| <= x < |before| + |r| && OccursAt(before + r + rest, p, x)
    ensures CanLeave(p, r)
  {
    var o := x - |before|;
    if o + |p| <= |r| {
      assert OccursAt(r, p, o);
    } else {
      assert p[..|r| - o] == r[o..];
      assert ReachesOut(p, r, |r| - o);
    }
  }

  lemma OccursInSlice(text: string, lo: nat, hi: nat, p: string, j: nat)
    requires lo <= hi <= |text| && OccursAt(text[lo..hi], p, j)
    ensures OccursAt(text, p, lo + j)
  {
  }

  lemma OccursInPart(text: string, i: nat, rest: string, p: string, x: nat)
    requires i <= |text| && x + |p| <= i && OccursAt(text[..i] + rest, p, x)
    ensures OccursAt(text, p, x)
  {
  }

  lemma LeftoverBefore(text: string, p: string, r: string, rest: string, i: nat, x: nat)
    requires p != [] && x < i && OccursAt(text, p, i) && FindFrom(text, p, 0) == Some(i)
    requires OccursAt(text[..i] + r + rest, p, x)
    ensures CanLeave(p, r)
  {
    FindIsLeftmost(text, p, 0);
    hide CanLeave, FindFrom, OccursAt;
    if x + |p| <= i {
      Associate(text[..i], r, rest);
      OccursInPart(text, i, r + rest, p, x);
    } else {
      OverlapAgrees(text[..i], r, rest, p, x);
      FoundBehindStart(text, p, i, x);
      ReachingInLeaves(p, r, i - x);
    }
  }

  lemma ReachingInLeaves(p: string, r: string, i: nat)
    requires ReachesIn(p, r, i)
    ensures CanLeave(p, r)
  {
  }

  lemma OverlapAgrees(before: string, r: string, rest: string, p: string, x: nat)
    requires x < |before| < x + |p| && OccursAt(before + r + rest, p, x)
    ensures p[..|before| - x] == before[x..]
    ensures p[|before| - x..] <= r || r <= p[|before| - x..]
  {
    var n := |before| - x;
    if |p| - n <= |r| { assert p[n..] == r[..|p| - n]; } else { assert p[n..][..|r|] == r; }
  }

  lemma FoundBehindStart(text: string, p: string, i: nat, x: nat)
    requires p != [] && x < i < x + |p| && OccursAt(text, p, i) && FindFrom(text, p, 0) == Some(i)
    requires p[..i - x] == text[..i][x..]
    ensures FindFrom(p[..i - x] + p, p, 0) == Some(i - x)
  {
    FindIsLeftmost(text, p, 0);
    hide FindFrom;
    var n := i - x;
    assert p[..n] + p == text[x..i + |p|];
    forall j: nat | j < n ensures !OccursAt(p[..n] + p, p, j) {
      if OccursAt(p[..n] + p, p, j) { OccursInSlice(text, x, i + |p|, p, j); }
    }
    assert OccursAt(p[..n] + p, p, n);
    FindIs(p[..n] + p, p, 0, n);
  }

  lemma TooShort(s: string, p: string, r: string)
    requires |s| < |p|
    ensures Replace(s, p, r) == s
  {
    FindNothing(s, p, 0);
    assert s[0..] == s;
  }

  lemma LeftAfter(p: string, r: string, k: nat)
    requires p != [] && ReachesOut(p, r, k)
    ensures exists text :: Contains(Replace(text, p, r), p)
  {
    var text := "" + p + p[k..];
    FindIs(text, p, 0, 0);
    ReplacedOnce("", p, r, p[k..]);
    hide Replace, Contains, FindFrom;
    assert Replace(text, p, r) == r + p[k..];
    HoldsToEnd(p, r, k);
  }

  lemma HoldsToEnd(p: string, r: string, k: nat)
    requires ReachesOut(p, r, k)
    ensures Contains(r + p[k..], p)
  {
    assert p == r[|r| - k..] + p[k..];
    assert OccursAt(r + p[k..], p, |r| - k);
  }

  lemma LeftBefore(p: string, r: string, i: nat)
    requires p != [] && ReachesIn(p, r, i)
    ensures exists text :: Contains(Replace(text, p, r), p)
  {
    hide FindFrom, Replace, Contains;
    var tail := if |r| <= |p| - i then p[i + |r|..] else "";
    var text := p[..i] + p + tail;
    FoundWithTail(p[..i] + p, p, tail, i);
    HoldsFromStart(p, r, i, tail);
    ReplacedOnce(p[..i], p, r, tail);
    assert Contains(Replace(text, p, r), p);
  }

  lemma ReplacedOnce(before: string, p: string, r: string, tail: string)
    requires FindFrom(before + p + tail, p, 0) == Some(|before|) && p != [] && |tail| < |p|
    ensures Replace(before + p + tail, p, r) == before + r + tail
  {
    hide FindFrom, ReplaceFrom, Replace;
    var text := before + p + tail;
    ReplaceFirst(text, p, r, |before|);
    assert text[|before| + |p|..] == tail && text[..|before|] == before;
    TooShort(tail, p, r);
  }

  lemma FoundWithTail(s: string, p: string, tail: string, i: nat)
    requires p != [] && FindFrom(s, p, 0) == Some(i)
    ensures FindFrom(s + tail, p, 0) == Some(i)
  {
    FindIsLeftmost(s, p, 0);
    forall j: nat | j < i ensures !OccursAt(s + tail, p, j) {
      assert s[..|s|] == s;
      if OccursAt(s + tail, p, j) { OccursInPart(s, |s|, tail, p, j); }
    }
    assert OccursAt(s + tail, p, i);
    FindIs(s + tail, p, 0, i);
  }

  lemma HoldsFromStart(p: string, r: string, i: nat, tail: string)
    requires i <= |p| && (p[i..] <= r || r <= p[i..])
    requires |r| <= |p| - i ==> tail == p[i + |r|..]
    ensures Contains(p[..i] + r + tail, p)
  {
    var end := p[i..];
    if |r| <= |end| {
      assert end == r + tail;
      assert p == p[..i] + r + tail;
    } else {
      assert r[..|end|] == end;
    }
    assert OccursAt(p[..i] + r + tail, p, 0);
  }
}
