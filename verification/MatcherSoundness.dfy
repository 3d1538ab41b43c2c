/** What acceptance means, with no assumption at all on the four lists: names are conserved, every
    swap is accounted for on both sides, and the unswapped fields agree in order. */
module MatcherSoundness {
  import opened Lists
  import opened Matcher

  /** The five working lists, seen from one name. */
  datatype Tally = Tally(swapped: int, ignores: int, back: int, fwd: int, ignored: int)

  ghost function TallyOf(st: State, x: Name): Tally {
    Tally(Count(st.swapped, x), Count(st.ignores, x), Count(st.back, x), Count(st.fwd, x), Count(st.ignored, x))
  }

  ghost function Moved(t: Tally, m: Move, u: int): Tally {
    match m
    case GoBack => t.(swapped := t.swapped - u, back := t.back + u)
    case GoForward => t.(swapped := t.swapped - u, fwd := t.fwd + u)
    case Ignore => t.(ignores := t.ignores - u, ignored := t.ignored + u)
    case MeetBack => t.(back := t.back - u)
    case MeetForward => t.(fwd := t.fwd - u)
    case Agree => t
  }

  lemma {:induction false} ApplyTally(st: State, m: Move, y: Name, x: Name)
    requires Applies(st, m, y)
    ensures TallyOf(Apply(st, m, y), x) == Moved(TallyOf(st, x), m, Unit(y == x))
  {
    match m
    case GoBack => CountRemove(st.swapped, y, x); CountConcat(st.back, [y], x);
    case GoForward => CountRemove(st.swapped, y, x); CountConcat(st.fwd, [y], x);
    case Ignore => CountRemove(st.ignores, y, x); CountConcat(st.ignored, [y], x);
    case MeetBack => CountRemove(st.back, y, x);
    case MeetForward => CountRemove(st.fwd, y, x);
    case Agree =>
  }

  /** What a successful iteration does to the cursors and to one name. */
  ghost predicate Stepped(C: seq<Name>, R: seq<Name>, m: Move, st: State, st': State, x: Name) {
    && st.f < |C| && st.r <= |R| && (m.TakesReflected() ==> st.r < |R|)
    && st'.f == st.f + Unit(m.TakesClassField()) && st'.r == st.r + Unit(m.TakesReflected())
    && (m.Agree? ==> C[st.f] == R[st.r])
    && TallyOf(st', x) == Moved(TallyOf(st, x), m, Unit((if m.TakesClassField() then C[st.f] else R[st.r]) == x))
  }

  lemma {:induction false} StepTally(C: seq<Name>, R: seq<Name>, st: State, x: Name)
    requires st.f < |C| && st.r <= |R| && Fault(C, R, st) == None
    ensures Stepped(C, R, MoveOf(C, R, st), st, After(C, R, st), x)
  {
    hide Count;
    ApplyTally(st, MoveOf(C, R, st), Consumed(C, R, st), x);
  }

  /** The drain loop consumes `back` name for name. */
  lemma {:induction false} DrainBalance(rest: seq<Name>, back: seq<Name>, x: Name)
    ensures var (b, unused) := Drain(rest, back);
            Count(rest, x) + Count(b, x) == Count(back, x) + Count(unused, x)
  {
    if rest != [] {
      if rest[0] in back {
        CountRemove(back, rest[0], x);
        DrainBalance(rest[1..], Remove(back, rest[0]), x);
      } else {
        DrainBalance(rest[1..], back, x);
      }
    }
  }

  /** What the fields still ahead owe to the working lists. */
  ghost predicate Balanced(C: seq<Name>, R: seq<Name>, st: State, x: Name)
    requires InRange(C, R, st)
  {
    var t := TallyOf(st, x);
    && Count(C[st.f..], x) + t.back == Count(R[st.r..], x) + t.fwd + t.ignores
    && t.swapped + t.back <= Count(R[st.r..], x)
  }

  /** The balance every step keeps, read backwards from an accepting end. */
  lemma {:induction false} Balance(C: seq<Name>, R: seq<Name>, st: State, x: Name)
    requires InRange(C, R, st) && Run(C, R, st) == Accepted
    ensures Balanced(C, R, st, x)
    decreases |C| - st.f + |R| - st.r
  {
    if st.f == |C| {
      DrainBalance(R[st.r..], st.back, x);
    } else {
      var st' := After(C, R, st);
      Balance(C, R, st', x);
      StepTally(C, R, st, x);
      BalanceStep(C, R, MoveOf(C, R, st), st, st', x);
    }
  }

  lemma {:induction false} BalanceStep(C: seq<Name>, R: seq<Name>, m: Move, st: State, st': State, x: Name)
    requires Stepped(C, R, m, st, st', x) && Balanced(C, R, st', x)
    ensures Balanced(C, R, st, x)
  {
    hide Count;
    CountSuffix(C, st.f, x);
    if st.r < |R| { CountSuffix(R, st.r, x); }
  }

  /** Where the working lists' names come from. */
  ghost predicate Listed(S: set<Name>, I: set<Name>, st: State, x: Name) {
    var t := TallyOf(st, x);
    && (t.swapped > 0 || t.back > 0 || t.fwd > 0 ==> x in S)
    && (t.ignores > 0 || t.ignored > 0 <==> x in I)
  }

  lemma {:induction false} Order(C: seq<Name>, R: seq<Name>, S: set<Name>, I: set<Name>, st: State)
    requires InRange(C, R, st) && Run(C, R, st) == Accepted && forall x :: Listed(S, I, st, x)
    ensures Kept(C[st.f..], S + I) == Kept(R[st.r..], S)
    decreases |C| - st.f + |R| - st.r
  {
    if st.f == |C| {
      forall x | x in R[st.r..] ensures x in S {
        DrainBalance(R[st.r..], st.back, x);
        CountMembers(R[st.r..], x);
        assert Listed(S, I, st, x);
      }
      KeptNothing(R[st.r..], S);
    } else {
      var st' := After(C, R, st);
      forall x ensures Listed(S, I, st', x) {
        ListedStep(C, R, S, I, st, x);
      }
      Order(C, R, S, I, st');
      OrderStep(C, R, S, I, st);
    }
  }

  lemma {:induction false} ListedStep(C: seq<Name>, R: seq<Name>, S: set<Name>, I: set<Name>, st: State, x: Name)
    requires st.f < |C| && st.r <= |R| && Fault(C, R, st) == None && Listed(S, I, st, x)
    ensures Listed(S, I, After(C, R, st), x)
  {
    hide Count;
    StepTally(C, R, st, x);
    CountMembers(st.swapped, x);
    CountMembers(st.ignores, x);
  }

  lemma {:induction false} OrderStep(C: seq<Name>, R: seq<Name>, S: set<Name>, I: set<Name>, st: State)
    requires st.f < |C| && st.r <= |R| && Fault(C, R, st) == None
    requires forall x :: Listed(S, I, st, x)
    requires var st' := After(C, R, st); Kept(C[st'.f..], S + I) == Kept(R[st'.r..], S)
    ensures Kept(C[st.f..], S + I) == Kept(R[st.r..], S)
  {
    hide Count;
    KeptSuffix(C, st.f, S + I);
    assert Listed(S, I, st, C[st.f]);
    StepTally(C, R, st, C[st.f]);
    if st.r < |R| {
      KeptSuffix(R, st.r, S);
      assert Listed(S, I, st, R[st.r]);
    }
    var x := Consumed(C, R, st);
    CountMembers(st.swapped, x);
    CountMembers(st.ignores, x);
    CountMembers(st.ignored, x);
    CountMembers(st.back, x);
    CountMembers(st.fwd, x);
  }

  /** The matcher's contract (header comment of the script), stated without the matcher. */
  ghost predicate Consistent(C: seq<Name>, R: seq<Name>, S: seq<Name>, I: seq<Name>) {
    && multiset(C) == multiset(R) + multiset(I)
    && multiset(S) <= multiset(R)
    && Kept(C, Elements(S) + Elements(I)) == Kept(R, Elements(S))
  }

  lemma {:induction false} ConsistentCounts(C: seq<Name>, R: seq<Name>, S: seq<Name>, I: seq<Name>, x: Name)
    ensures multiset(C) == multiset(R) + multiset(I) ==> Count(C, x) == Count(R, x) + Count(I, x)
    ensures multiset(S) <= multiset(R) ==> Count(S, x) <= Count(R, x)
  {
    CountIsMultiplicity(C, x);
    CountIsMultiplicity(R, x);
    CountIsMultiplicity(S, x);
    CountIsMultiplicity(I, x);
  }

  lemma {:induction false} CountsAreConsistent(C: seq<Name>, R: seq<Name>, S: seq<Name>, I: seq<Name>)
    requires forall x :: Count(C, x) == Count(R, x) + Count(I, x) && Count(S, x) <= Count(R, x)
    ensures multiset(C) == multiset(R) + multiset(I) && multiset(S) <= multiset(R)
  {
    forall x ensures multiset(C)[x] == multiset(R)[x] + multiset(I)[x] && multiset(S)[x] <= multiset(R)[x] {
      CountIsMultiplicity(C, x);
      CountIsMultiplicity(R, x);
      CountIsMultiplicity(S, x);
      CountIsMultiplicity(I, x);
    }
  }

  lemma {:induction false} AcceptedIsConsistent(C: seq<Name>, R: seq<Name>, S: seq<Name>, I: seq<Name>)
    requires Verify(C, R, S, I) == Accepted
    ensures Consistent(C, R, S, I)
  {
    assert C[0..] == C && R[0..] == R;
    forall x ensures Count(C, x) == Count(R, x) + Count(I, x) && Count(S, x) <= Count(R, x) {
      Balance(C, R, Start(S, I), x);
    }
    CountsAreConsistent(C, R, S, I);
    forall x ensures Listed(Elements(S), Elements(I), Start(S, I), x) {
      CountMembers(S, x);
      CountMembers(I, x);
    }
    Order(C, R, Elements(S), Elements(I), Start(S, I));
  }

  lemma {:induction false} IgnoredAreNotReflected(C: seq<Name>, R: seq<Name>, S: seq<Name>, I: seq<Name>)
    requires Disjoint(S, I) && Kept(C, Elements(S) + Elements(I)) == Kept(R, Elements(S))
    ensures Disjoint(I, R)
  {
    forall x | x in I ensures x !in R {
      KeptMembers(C, Elements(S) + Elements(I), x);
      KeptMembers(R, Elements(S), x);
    }
  }

  /** Acceptance rules out repeated class fields, given the guarantees of the collector. */
  lemma {:induction false} AcceptedClassHasNoDuplicates(C: seq<Name>, R: seq<Name>, S: seq<Name>, I: seq<Name>)
    requires NoDup(R) && NoDup(I) && Disjoint(S, I) && Verify(C, R, S, I) == Accepted
    ensures NoDup(C)
  {
    AcceptedIsConsistent(C, R, S, I);
    IgnoredAreNotReflected(C, R, S, I);
    forall x ensures Count(C, x) <= 1 {
      ConsistentCounts(C, R, S, I, x);
      NoDupCount(R, x);
      NoDupCount(I, x);
    }
    CountsGiveNoDup(C);
  }

  /** A swapped name that is not reflected is never accepted, so the automatic `id` ignore cannot
      hide a swapped `id`. */
  lemma {:induction false} SwappedButUnreflectedIsRejected(C: seq<Name>, R: seq<Name>, S: seq<Name>, I: seq<Name>,
                                                           x: Name)
    requires x in S && x !in R
    ensures Verify(C, R, S, I).Rejected?
  {
    if Verify(C, R, S, I) == Accepted {
      AcceptedIsConsistent(C, R, S, I);
      ConsistentCounts(C, R, S, I, x);
      CountMembers(S, x);
      CountMembers(R, x);
    }
  }
}
