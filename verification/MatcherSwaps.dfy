/** What the header comment says about `@swap`: which swaps are needless, which of those the matcher
    catches, and the two families of inputs the comment describes. */
module MatcherSwaps {
  import opened Lists
  import opened Matcher
  import opened MatcherSoundness
  import opened MatcherExactness

  /** Naming `x` was not needed: the order still agrees when `x` is left out of the swapped names. */
  ghost predicate Needless(C: seq<Name>, R: seq<Name>, S: seq<Name>, I: seq<Name>, x: Name) {
    x in S && Kept(C, Elements(S) - {x} + Elements(I)) == Kept(R, Elements(S) - {x})
  }

  /** Nothing hides the swap `C[g] == R[r]` from the check: it does not directly follow another swap
      in the reflection, and the listed names that directly precede it in the class, `C[a..g]`, are
      all swaps that the reflection lists later (so no ignored field and no earlier swap). */
  ghost predicate Unobstructed(C: seq<Name>, R: seq<Name>, S: seq<Name>, I: seq<Name>, a: nat, g: nat, r: nat) {
    && a <= g < |C| && r < |R| && C[g] == R[r]
    && (r > 0 ==> R[r - 1] !in S)
    && (a > 0 ==> C[a - 1] !in S && C[a - 1] !in I)
    && forall j :: a <= j < g ==> C[j] in S && C[j] !in R[..r]
  }

  lemma {:induction false} KeptCount<T>(s: seq<T>, d: set<T>, x: T)
    ensures Count(Kept(s, d), x) == if x in d then 0 else Count(s, x)
  {
    if s != [] {
      KeptCount(s[1..], d, x);
      CountConcat(if s[0] in d then [] else [s[0]], Kept(s[1..], d), x);
    }
  }

  /** Filtering around the only occurrence of `x`, with and without `x` dropped. */
  lemma {:induction false} KeptAround<T>(s: seq<T>, d: set<T>, k: nat)
    requires k < |s| && s[k] in d && Count(s, s[k]) == 1
    ensures Kept(s, d) == Kept(s[..k], d) + Kept(s[k + 1..], d)
    ensures Kept(s, d - {s[k]}) == Kept(s[..k], d) + [s[k]] + Kept(s[k + 1..], d)
    ensures s[k] !in Kept(s[..k], d)
  {
    var x := s[k];
    CountSplit(s, k, x);
    CountSuffix(s, k, x);
    CountMembers(s[..k], x);
    CountMembers(s[k + 1..], x);
    KeptMembers(s[..k], d, x);
    KeptSame(s[..k], d, x);
    KeptSame(s[k + 1..], d, x);
    KeptCut(s, d, k);
    KeptCut(s, d - {x}, k);
  }

  lemma {:induction false} KeptCut<T>(s: seq<T>, d: set<T>, k: nat)
    requires k < |s|
    ensures Kept(s, d) == Kept(s[..k], d) + (if s[k] in d then [] else [s[k]]) + Kept(s[k + 1..], d)
  {
    assert s == s[..k] + s[k..];
    KeptConcat(s[..k], s[k..], d);
    KeptSuffix(s, k, d);
  }

  lemma {:induction false} KeptSame<T>(s: seq<T>, d: set<T>, x: T)
    requires x !in s
    ensures Kept(s, d - {x}) == Kept(s, d)
  {
    if s != [] { KeptSame(s[1..], d, x); }
  }

  lemma {:induction false} SameCut<T>(u: seq<T>, v: seq<T>, u': seq<T>, v': seq<T>, x: T)
    requires u + [x] + v == u' + [x] + v' && x !in u && x !in u'
    ensures u == u'
  {
    var w := u + [x] + v;
    assert w[|u|] == x && w[|u'|] == x;
    assert forall i :: 0 <= i < |u| ==> w[i] == u[i];
    assert forall i :: 0 <= i < |u'| ==> w[i] == u'[i];
    assert u == w[..|u|] && u' == w[..|u'|];
  }

  /** A swapped name is needless exactly when the same unlisted fields precede it on both sides. */
  lemma {:induction false} NeedlessByPrefix(C: seq<Name>, R: seq<Name>, S: seq<Name>, I: seq<Name>, g: nat, r: nat)
    requires Sound(C, R, S, I) && g < |C| && r < |R| && C[g] == R[r] && C[g] in S
    ensures Needless(C, R, S, I, C[g])
       <==> Kept(C[..g], Elements(S) + Elements(I)) == Kept(R[..r], Elements(S))
  {
    var x, d, e := C[g], Elements(S) + Elements(I), Elements(S);
    SoundFacts(C, R, S, I, x);
    assert e - {x} + Elements(I) == d - {x};
    KeptAround(C, d, g);
    KeptAround(R, e, r);
    var (u, v, u', v') := (Kept(C[..g], d), Kept(C[g + 1..], d), Kept(R[..r], e), Kept(R[r + 1..], e));
    if u == u' {
      assert (u + v)[|u|..] == v && (u' + v')[|u|..] == v';
    }
    if Needless(C, R, S, I, x) {
      SameCut(u, v, u', v', x);
    }
  }

  /** All of `s[a..]` is dropped, and `s[a - 1]` is the last element kept, if there is one. */
  lemma {:induction false} KeptLast<T>(s: seq<T>, d: set<T>, a: nat)
    requires a <= |s| && (forall j :: a <= j < |s| ==> s[j] in d) && (a > 0 ==> s[a - 1] !in d)
    ensures a == 0 ==> Kept(s, d) == []
    ensures a > 0 ==> Kept(s, d) == Kept(s[..a - 1], d) + [s[a - 1]]
  {
    assert s == s[..a] + s[a..];
    KeptConcat(s[..a], s[a..], d);
    KeptNothing(s[a..], d);
    if a > 0 {
      assert s[..a] == s[..a - 1] + [s[a - 1]];
      KeptConcat(s[..a - 1], [s[a - 1]], d);
    }
  }

  lemma {:induction false} LastsAgree<T>(p: seq<T>, q: seq<T>, p': seq<T>, q': seq<T>)
    requires p + q == p' + q' && |p| > 0 && |p'| > 0
    requires p[|p| - 1] == p'[|p'| - 1] && Count(p + q, p[|p| - 1]) <= 1
    ensures p == p'
  {
    Once(p + q, |p| - 1, |p'| - 1);
    assert p == (p + q)[..|p|] && p' == (p' + q')[..|p|];
  }

  /** The check at line 600 fires exactly on the needless swaps that nothing hides from it. */
  lemma {:induction false} InPlaceExactly(C: seq<Name>, R: seq<Name>, S: seq<Name>, I: seq<Name>, a: nat, g: nat,
                                          r: nat)
    requires Sound(C, R, S, I)
    ensures InPlace(C, R, S, a, g, r)
       <==> Unobstructed(C, R, S, I, a, g, r) && Needless(C, R, S, I, C[g])
  {
    if InPlace(C, R, S, a, g, r) {
      NeedlessByPrefix(C, R, S, I, g, r);
      if a > 0 {
        SoundFacts(C, R, S, I, R[r - 1]);
        PrefixesMeet(C, R, S, I, a, g, r);
      } else {
        KeptLast(C[..g], Elements(S) + Elements(I), 0);
      }
    }
    if Unobstructed(C, R, S, I, a, g, r) && Needless(C, R, S, I, C[g]) {
      UnhiddenIsInPlace(C, R, S, I, a, g, r);
    }
  }

  lemma {:induction false} UnhiddenIsInPlace(C: seq<Name>, R: seq<Name>, S: seq<Name>, I: seq<Name>, a: nat, g: nat,
                                             r: nat)
    requires Sound(C, R, S, I) && Unobstructed(C, R, S, I, a, g, r) && Needless(C, R, S, I, C[g])
    ensures InPlace(C, R, S, a, g, r)
  {
    NeedlessByPrefix(C, R, S, I, g, r);
    var k := Kept(R[..r], Elements(S));
    KeptLast(C[..g], Elements(S) + Elements(I), a);
    KeptLast(R[..r], Elements(S), r);
    assert a > 0 ==> |k| > 0 && k[|k| - 1] == C[a - 1];
    assert r > 0 ==> |k| > 0 && k[|k| - 1] == R[r - 1];
  }

  lemma {:induction false} PrefixesMeet(C: seq<Name>, R: seq<Name>, S: seq<Name>, I: seq<Name>, a: nat, g: nat, r: nat)
    requires Sound(C, R, S, I) && InPlace(C, R, S, a, g, r) && a > 0
    ensures Kept(C[..g], Elements(S) + Elements(I)) == Kept(R[..r], Elements(S))
  {
    var b, d, e := R[r - 1], Elements(S) + Elements(I), Elements(S);
    SoundFacts(C, R, S, I, b);
    KeptLast(C[..g], d, a);
    KeptLast(R[..r], e, r);
    assert C == C[..g] + C[g..] && R == R[..r] + R[r..];
    KeptConcat(C[..g], C[g..], d);
    KeptConcat(R[..r], R[r..], e);
    KeptCount(R, e, b);
    LastsAgree(Kept(C[..g], d), Kept(C[g..], d), Kept(R[..r], e), Kept(R[r..], e));
  }

  /** Every rejection for an in-place swap points at a swap that was not needed. */
  lemma {:induction false} RejectedSwapIsNeedless(C: seq<Name>, R: seq<Name>, S: seq<Name>, I: seq<Name>)
    requires Sound(C, R, S, I)
    ensures Verify(C, R, S, I) == Rejected(SwapInPlace)
       <==> exists a: nat, g: nat, r: nat :: Unobstructed(C, R, S, I, a, g, r) && Needless(C, R, S, I, C[g])
  {
    Exact(C, R, S, I);
    forall a: nat, g: nat, r: nat {
      InPlaceExactly(C, R, S, I, a, g, r);
    }
    if SomeInPlace(C, R, S) {
      var a, g, r :| InPlace(C, R, S, a, g, r);
      assert Unobstructed(C, R, S, I, a, g, r);
    }
    if a: nat, g: nat, r: nat :| Unobstructed(C, R, S, I, a, g, r) && Needless(C, R, S, I, C[g]) {
      assert InPlace(C, R, S, a, g, r);
    }
  }

  lemma {:induction false} KeptOne<T>(x: T, d: set<T>)
    ensures Kept([x], d) == if x in d then [] else [x]
  {}

  /** Not every needless swap is caught: an ignored field can hide it, ... */
  lemma {:induction false} IgnoreHidesNeedlessSwap(i: Name, s: Name)
    requires i != s
    ensures Needless([i, s], [s], [s], [i], s) && Verify([i, s], [s], [s], [i]) == Accepted
  {
    var C, R := [i, s], [s];
    assert Kept(C, {i}) == [s] == Kept(R, {}) by {
      assert C == [i] + [s];
      KeptConcat([i], [s], {i});
      KeptOne(i, {i});
      KeptOne(s, {i});
      KeptOne(s, {});
    }
    assert Elements([s]) - {s} + Elements([i]) == {i} && Elements([s]) - {s} == {};
    var s1, s2, s3 := State(0, 1, [], [i], [], [s], []), State(1, 1, [], [], [], [s], [i]),
        State(2, 1, [], [], [], [], [i]);
    assert After(C, R, Start([s], [i])) == s1 && After(C, R, s1) == s2 && After(C, R, s2) == s3;
    assert Run(C, R, s3) == Accepted;
    assert Run(C, R, s2) == Run(C, R, s3) && Run(C, R, s1) == Run(C, R, s2);
  }

  /** ... and so can another swap that the reflection lists first. */
  lemma {:induction false} SwapHidesNeedlessSwap(p: Name, q: Name, s: Name)
    requires p != q && q != s && p != s
    ensures Needless([p, q, s], [s, p, q], [s, p], [], p) && Verify([p, q, s], [s, p, q], [s, p], []) == Accepted
  {
    var C, R := [p, q, s], [s, p, q];
    assert Kept(C, {s}) == [p, q] == Kept(R, {s}) by {
      assert C == [p] + ([q] + [s]) && R == [s] + ([p] + [q]);
      KeptConcat([p], [q] + [s], {s});
      KeptConcat([q], [s], {s});
      KeptConcat([s], [p] + [q], {s});
      KeptConcat([p], [q], {s});
      KeptOne(p, {s});
      KeptOne(q, {s});
      KeptOne(s, {s});
    }
    assert Elements([s, p]) - {p} == {s} && {s} + Elements([]) == {s};
    HiddenRun(p, q, s);
  }

  lemma {:induction false} HiddenRun(p: Name, q: Name, s: Name)
    requires p != q && q != s && p != s
    ensures Verify([p, q, s], [s, p, q], [s, p], []) == Accepted
  {
    var C, R := [p, q, s], [s, p, q];
    var s1, s2, s3 := State(1, 0, [s], [], [p], [], []), State(1, 1, [], [], [p], [s], []),
        State(1, 2, [], [], [], [s], []);
    assert Remove([s, p], p) == [s] by { assert [s, p][1..] == [p]; }
    assert After(C, R, Start([s, p], [])) == s1 && After(C, R, s1) == s2 && After(C, R, s2) == s3;
    HiddenRest(p, q, s);
    assert Run(C, R, s2) == Run(C, R, s3) && Run(C, R, s1) == Run(C, R, s2);
  }

  lemma {:induction false} HiddenRest(p: Name, q: Name, s: Name)
    requires p != q && q != s && p != s
    ensures Run([p, q, s], [s, p, q], State(1, 2, [], [], [], [s], [])) == Accepted
  {
    var C, R := [p, q, s], [s, p, q];
    var s3, s4, s5 := State(1, 2, [], [], [], [s], []), State(2, 3, [], [], [], [s], []),
        State(3, 3, [], [], [], [], []);
    assert After(C, R, s3) == s4 && After(C, R, s4) == s5;
    assert Run(C, R, s5) == Accepted && Run(C, R, s4) == Run(C, R, s5);
  }

  lemma {:induction false} CountInsert<T>(a: seq<T>, x: T, b: seq<T>, y: T)
    ensures Count(a + [x] + b, y) == Count(a + b, y) + Unit(x == y)
  {
    CountConcat(a + [x], b, y);
    CountConcat(a, [x], y);
    CountConcat(a, b, y);
  }

  lemma {:induction false} KeptInsert<T>(a: seq<T>, x: T, b: seq<T>, d: set<T>)
    requires x in d
    ensures Kept(a + [x] + b, d) == Kept(a + b, d)
  {
    KeptConcat(a + [x], b, d);
    KeptConcat(a, [x], d);
    KeptConcat(a, b, d);
  }

  /** One field moved, and only that field named: accepted however far it moved, in either
      direction, and rejected exactly when it did not move. */
  lemma {:induction false} SingleMove(a: seq<Name>, b: seq<Name>, c: seq<Name>, d: seq<Name>, x: Name)
    requires NoDup(a + [x] + b) && a + b == c + d
    ensures Verify(a + [x] + b, c + [x] + d, [x], []) ==
            if a == c then Rejected(SwapInPlace) else Accepted
  {
    var C, R := a + [x] + b, c + [x] + d;
    SingleMoveIsConsistent(a, b, c, d, x);
    Exact(C, R, [x], []);
    if a == c {
      UnmovedIsInPlace(a, b, c, d, x);
    }
    if i: nat, g: nat, r: nat :| InPlace(C, R, [x], i, g, r) {
      InPlaceIsUnmoved(a, b, c, d, x, i, g, r);
    }
  }

  lemma {:induction false} SingleMoveIsConsistent(a: seq<Name>, b: seq<Name>, c: seq<Name>, d: seq<Name>, x: Name)
    requires NoDup(a + [x] + b) && a + b == c + d
    ensures Consistent(a + [x] + b, c + [x] + d, [x], []) && NoDup(c + [x] + d)
  {
    var C, R := a + [x] + b, c + [x] + d;
    forall y
      ensures Count(C, y) == Count(R, y) + Count<Name>([], y) && Count([x], y) <= Count(R, y) && Count(R, y) <= 1
    {
      CountInsert(a, x, b, y);
      CountInsert(c, x, d, y);
      NoDupCount(C, y);
    }
    CountsGiveNoDup(R);
    CountsAreConsistent(C, R, [x], []);
    KeptInsert(a, x, b, Elements([x]));
    KeptInsert(c, x, d, Elements([x]));
    assert Elements([x]) + Elements([]) == Elements([x]);
  }

  lemma {:induction false} UnmovedIsInPlace(a: seq<Name>, b: seq<Name>, c: seq<Name>, d: seq<Name>, x: Name)
    requires NoDup(a + [x] + b) && a + b == c + d && a == c
    ensures InPlace(a + [x] + b, c + [x] + d, [x], |a|, |a|, |a|)
  {
    var C := a + [x] + b;
    assert C[|a|] == x;
    assert forall j :: 0 <= j < |a| ==> C[j] == a[j] && C[j] != x;
  }

  lemma {:induction false} InPlaceIsUnmoved(a: seq<Name>, b: seq<Name>, c: seq<Name>, d: seq<Name>, x: Name, i: nat,
                                            g: nat, r: nat)
    requires NoDup(a + [x] + b) && NoDup(c + [x] + d) && a + b == c + d
    requires InPlace(a + [x] + b, c + [x] + d, [x], i, g, r)
    ensures a == c
  {
    var C, R := a + [x] + b, c + [x] + d;
    assert C[|a|] == x && R[|c|] == x;
    assert g == |a| && r == |c|;
    assert C[if i < g then i else g] == x;
    if r > 0 {
      assert (a + b)[|a| - 1] == C[g - 1] && (c + d)[|c| - 1] == R[r - 1];
      assert forall j :: 0 <= j < |a + b| ==> (a + b)[j] == C[if j < |a| then j else j + 1];
    }
    assert a == (a + b)[..|a|] && c == (a + b)[..|c|];
  }

  /** Unchanged order: any swap at all is rejected. */
  lemma {:induction false} NoSwapWhenOrderIsUnchanged(C: seq<Name>, S: seq<Name>)
    requires NoDup(C)
    ensures Verify(C, C, S, []) == Accepted <==> S == []
  {
    Exact(C, C, S, []);
    assert Elements(S) + Elements([]) == Elements(S);
    if S != [] && Consistent(C, C, S, []) {
      SoundFacts(C, C, S, [], S[0]);
      var g := FirstSwap(C, S, 0);
      assert InPlace(C, C, S, g, g, g);
    }
  }

  lemma {:induction false} FirstSwap(C: seq<Name>, S: seq<Name>, k: nat) returns (g: nat)
    requires k <= |C| && (forall j :: 0 <= j < k ==> C[j] !in S) && exists x :: x in S && x in C
    ensures g < |C| && C[g] in S && forall j :: 0 <= j < g ==> C[j] !in S
    decreases |C| - k
  {
    if k == |C| {
      assert false;
    } else if C[k] in S {
      g := k;
    } else {
      g := FirstSwap(C, S, k + 1);
    }
  }

  /** Two neighbours exchanged and both named: rejected at every position and length. */
  lemma {:induction false} ExchangeNamedTwice(p: seq<Name>, x: Name, y: Name, q: seq<Name>, S: seq<Name>)
    requires NoDup(p + [x, y] + q) && Elements(S) == {x, y}
    ensures Verify(p + [x, y] + q, p + [y, x] + q, S, []).Rejected?
  {
    var C, R, k := p + [x, y] + q, p + [y, x] + q, |p|;
    assert C[k] == x && C[k + 1] == y && R[k] == y && R[k + 1] == x;
    assert forall i :: 0 <= i < k ==> C[i] == R[i];
    assert forall i :: k + 2 <= i < |C| ==> C[i] == R[i];
    assert NoDup(R);
    Exact(C, R, S, []);
    assert x in Elements(S) && y in Elements(S);
    assert k > 0 ==> C[k - 1] !in Elements(S);
    assert InPlace(C, R, S, k, k + 1, k);
  }
}
