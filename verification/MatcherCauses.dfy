/** Which assertion fails, and why.  The matcher's five working lists follow from its two cursors, so
    it equals a matcher without lists; and every rejection names a fault of the four input lists. */
module MatcherCauses {
  import opened Lists
  import opened Matcher
  import opened MatcherSoundness
  import opened MatcherExactness

  // ----- the matcher without working lists

  /** A swap listed but met on neither side before the cursors. */
  ghost predicate Unmet(C: seq<Name>, R: seq<Name>, S: seq<Name>, f: nat, r: nat, x: Name)
    requires f <= |C| && r <= |R|
  {
    x in S && x !in C[..f] && x !in R[..r]
  }

  /** The verdict from cursors `f` and `r` on, by the four lists alone. */
  ghost function Judge(C: seq<Name>, R: seq<Name>, S: seq<Name>, I: seq<Name>, f: nat, r: nat): Verdict
    requires f <= |C| && r <= |R|
    decreases |C| - f + |R| - r
  {
    if f == |C| then Close(C, R, S, I, r)
    else
      var x, more := C[f], r < |R|;
      if Unmet(C, R, S, f, r, x) then
        if x !in R then Rejected(SwapNotReflected)
        else if more && R[r] == x then Rejected(SwapInPlace)
        else Judge(C, R, S, I, f + 1, r)
      else if more && Unmet(C, R, S, f, r, R[r]) then Judge(C, R, S, I, f, r + 1)
      else if more && R[r] in I && R[r] in C[..f] then Rejected(IgnoredButReflected)
      else if Count(C[..f], x) < Count(I, x) then
        if more && R[r] == x then Rejected(IgnoreInPlace) else Judge(C, R, S, I, f + 1, r)
      else if more && R[r] in S && R[r] in C[..f] then Judge(C, R, S, I, f, r + 1)
      else if x in S && x in R[..r] && x !in C[..f] then Judge(C, R, S, I, f + 1, r)
      else if more && R[r] == x then Judge(C, R, S, I, f + 1, r + 1)
      else Rejected(FieldMismatch)
  }

  ghost function Close(C: seq<Name>, R: seq<Name>, S: seq<Name>, I: seq<Name>, r: nat): Verdict
    requires r <= |R|
  {
    if exists x :: Count(I, x) > Count(C, x) then Rejected(ErroneousIgnores)
    else if exists x :: x in R[r..] && (x !in S || x !in C) then Rejected(UnknownReflected)
    else if exists x :: x in S && x !in C && x !in R then Rejected(ErroneousSwaps)
    else if exists x :: x in S && x !in C then Rejected(SwapNotInClass)
    else Accepted
  }

  // ----- what each rejection is about

  /** Cursors that a run can stand on: the fields before them, but for swapped and ignored ones, are
      the same in the same order. */
  ghost predicate Aligned(C: seq<Name>, R: seq<Name>, S: seq<Name>, I: seq<Name>, f: nat, r: nat) {
    f <= |C| && r <= |R| && Kept(C[..f], Elements(S) + Elements(I)) == Kept(R[..r], Elements(S))
  }

  /** An ignored field comes up in the reflection after the class had it. */
  ghost predicate LateIgnore(C: seq<Name>, R: seq<Name>, S: seq<Name>, I: seq<Name>, f: nat, r: nat) {
    Aligned(C, R, S, I, f, r) && f < |C| && r < |R| && R[r] in I && R[r] in C[..f]
  }

  /** An ignored field comes up on both sides at once. */
  ghost predicate IgnoreAtOnce(C: seq<Name>, R: seq<Name>, S: seq<Name>, I: seq<Name>, f: nat, r: nat) {
    Aligned(C, R, S, I, f, r) && f < |C| && r < |R| && R[r] in I && C[f] == R[r]
  }

  /** A class field that no directive covers, or covers no longer, meets another field or the end. */
  ghost predicate Mismatch(C: seq<Name>, R: seq<Name>, S: seq<Name>, I: seq<Name>, f: nat, r: nat) {
    && Aligned(C, R, S, I, f, r) && f < |C|
    && ((C[f] !in S && C[f] !in I) || C[f] in C[..f])
    && (r < |R| ==> R[r] != C[f] && R[r] !in S && !(R[r] in I && R[r] in C[..f]))
  }

  ghost predicate IgnoresCovered(C: seq<Name>, I: seq<Name>) {
    forall x :: Count(I, x) <= Count(C, x)
  }

  ghost predicate SameOrder(C: seq<Name>, R: seq<Name>, S: seq<Name>, I: seq<Name>) {
    Kept(C, Elements(S) + Elements(I)) == Kept(R, Elements(S))
  }

  ghost predicate Cause(c: Check, C: seq<Name>, R: seq<Name>, S: seq<Name>, I: seq<Name>) {
    match c
    case SwapNotReflected => exists x :: x in S && x in C && x !in R
    case SwapInPlace => SomeInPlace(C, R, S)
    case IgnoredButReflected => exists f, r :: LateIgnore(C, R, S, I, f, r)
    case IgnoreInPlace => exists f, r :: IgnoreAtOnce(C, R, S, I, f, r)
    case FieldMismatch => exists f, r :: Mismatch(C, R, S, I, f, r)
    case ErroneousIgnores => exists x :: Count(I, x) > Count(C, x)
    case UnknownReflected => IgnoresCovered(C, I) && exists x :: x in R && Count(C, x) == Count(I, x)
    case ErroneousSwaps =>
      IgnoresCovered(C, I) && SameOrder(C, R, S, I) && exists x :: x in S && x !in C && x !in R
    case SwapNeverProvided => false
    case SwapNotInClass =>
      && IgnoresCovered(C, I) && SameOrder(C, R, S, I) && (forall x :: x in S ==> x in R)
      && exists x :: x in S && x !in C
  }

  // ----- the working lists, from the cursors

  ghost predicate Given(R: seq<Name>, S: seq<Name>, I: seq<Name>) {
    NoDup(R) && NoDup(S) && Disjoint(S, I)
  }

  /** The working lists as one name sees them; `used` is how often the class had it, `listed` how
      often it is to be ignored. */
  ghost predicate Entry(t: Tally, inS: bool, inI: bool, inC: bool, inR: bool, used: nat, listed: nat) {
    && (inC <==> used > 0)
    && t.swapped == Unit(inS && !inC && !inR)
    && t.back == Unit(inS && inC && !inR)
    && t.fwd == Unit(inS && !inC && inR)
    && (if inI then t.ignored == used && t.ignores == listed - used && used <= listed && !inR
        else t.ignores == 0 && t.ignored == 0)
    && (!inS && !inI ==> used == Unit(inR))
  }

  ghost predicate Ledger(C: seq<Name>, R: seq<Name>, S: seq<Name>, I: seq<Name>, st: State, x: Name)
    requires InRange(C, R, st)
  {
    Entry(TallyOf(st, x), x in S, x in I, x in C[..st.f], x in R[..st.r], Count(C[..st.f], x), Count(I, x))
  }

  lemma {:induction false} EntryStep(t: Tally, m: Move, hit: bool, inS: bool, inI: bool, inC: bool, inR: bool,
                                     used: nat, listed: nat)
    requires Entry(t, inS, inI, inC, inR, used, listed) && !(inS && inI)
    requires hit ==> Fits(t, m, !inS && !inI)
    requires hit && m.TakesReflected() ==> !inR
    ensures Entry(Moved(t, m, Unit(hit)), inS, inI, inC || (hit && m.TakesClassField()),
                  inR || (hit && m.TakesReflected()), used + Unit(hit && m.TakesClassField()), listed)
  {
    match m
    case GoBack =>
    case GoForward =>
    case Ignore =>
    case MeetBack =>
    case MeetForward =>
    case Agree =>
  }

  /** The cursors have only swaps between them and the last agreement, when both stand on a swap. */
  ghost predicate Recent(C: seq<Name>, R: seq<Name>, S: seq<Name>, st: State)
    requires InRange(C, R, st)
  {
    IsIn(Reflected(R, st.r), st.swapped) && st.f < |C| && C[st.f] in st.swapped ==>
      exists a :: Since(C, R, S, a, st.f, st.r)
  }

  ghost predicate Derived(C: seq<Name>, R: seq<Name>, S: seq<Name>, I: seq<Name>, st: State) {
    && InRange(C, R, st)
    && (forall x :: Ledger(C, R, S, I, st, x))
    && Aligned(C, R, S, I, st.f, st.r)
    && Recent(C, R, S, st)
    && (forall x :: x in S && x in C[..st.f] ==> x in R)
  }

  lemma {:induction false} LedgerStart(C: seq<Name>, R: seq<Name>, S: seq<Name>, I: seq<Name>)
    requires Given(R, S, I)
    ensures Derived(C, R, S, I, Start(S, I))
  {
    forall x ensures Ledger(C, R, S, I, Start(S, I), x) {
      NoDupCount(S, x);
      CountMembers(I, x);
    }
    assert Since(C, R, S, 0, 0, 0);
  }

  /** Membership in the working lists, by the cursors. */
  lemma {:induction false} OnLists(C: seq<Name>, R: seq<Name>, S: seq<Name>, I: seq<Name>, st: State, x: Name)
    requires InRange(C, R, st) && Ledger(C, R, S, I, st, x) && Disjoint(S, I)
    ensures x in st.swapped <==> Unmet(C, R, S, st.f, st.r, x)
    ensures x in st.back <==> x in S && x in C[..st.f] && x !in R[..st.r]
    ensures x in st.fwd <==> x in S && x !in C[..st.f] && x in R[..st.r]
    ensures x in st.ignores <==> Count(C[..st.f], x) < Count(I, x)
    ensures x in st.ignored <==> x in I && x in C[..st.f]
    ensures x in I ==> x !in R[..st.r]
    ensures x !in S && x !in I ==> (x in C[..st.f] <==> x in R[..st.r])
  {
    CountMembers(st.swapped, x);
    CountMembers(st.back, x);
    CountMembers(st.fwd, x);
    CountMembers(st.ignores, x);
    CountMembers(st.ignored, x);
    CountMembers(I, x);
  }

  /** The two names under the cursors. */
  lemma {:induction false} Under(C: seq<Name>, R: seq<Name>, S: seq<Name>, I: seq<Name>, st: State)
    requires Given(R, S, I) && Derived(C, R, S, I, st)
    ensures st.r < |R| ==> R[st.r] !in R[..st.r]
    ensures st.f < |C| && MoveOf(C, R, st) == Agree && Fault(C, R, st) == None ==>
              Reflected(R, st.r) == Some(C[st.f]) && C[st.f] !in S && C[st.f] !in I
  {
    hide Ledger, Kept, Recent, Count;
    if st.f < |C| && MoveOf(C, R, st) == Agree && Fault(C, R, st) == None {
      OnLists(C, R, S, I, st, C[st.f]);
      CountMembers(I, C[st.f]);
      CountMembers(C[..st.f], C[st.f]);
    }
  }

  // ----- one iteration

  lemma {:induction false} LedgerStep(C: seq<Name>, R: seq<Name>, S: seq<Name>, I: seq<Name>, st: State, x: Name)
    requires Given(R, S, I) && Derived(C, R, S, I, st) && st.f < |C| && Fault(C, R, st) == None
    ensures Ledger(C, R, S, I, After(C, R, st), x)
  {
    hide Kept, Recent, Count;
    var m, y, st' := MoveOf(C, R, st), Consumed(C, R, st), After(C, R, st);
    assert Ledger(C, R, S, I, st, x);
    StepTally(C, R, st, x);
    CursorsMove(C, R, m, st, st', x);
    CountSplit(C, st.f, x);
    CountSplit(C, st'.f, x);
    if y == x {
      OnLists(C, R, S, I, st, x);
      Under(C, R, S, I, st);
      CountMembers(st.swapped, x);
      CountMembers(st.ignores, x);
      CountMembers(st.back, x);
      CountMembers(st.fwd, x);
    }
    EntryStep(TallyOf(st, x), m, y == x, x in S, x in I, x in C[..st.f], x in R[..st.r],
              Count(C[..st.f], x), Count(I, x));
  }

  lemma {:induction false} KeptPrefix(s: seq<Name>, i: nat, drop: set<Name>)
    requires i < |s|
    ensures Kept(s[..i + 1], drop) == Kept(s[..i], drop) + if s[i] in drop then [] else [s[i]]
  {
    assert s[..i + 1] == s[..i] + [s[i]];
    KeptConcat(s[..i], [s[i]], drop);
    assert [s[i]][1..] == [];
  }

  lemma {:induction false} AlignedStep(C: seq<Name>, R: seq<Name>, S: seq<Name>, I: seq<Name>, st: State)
    requires Given(R, S, I) && Derived(C, R, S, I, st) && st.f < |C| && Fault(C, R, st) == None
    ensures var st' := After(C, R, st); Aligned(C, R, S, I, st'.f, st'.r)
  {
    hide Kept, Recent, Count, Ledger;
    var x := Consumed(C, R, st);
    OnLists(C, R, S, I, st, x);
    CountMembers(I, x);
    Under(C, R, S, I, st);
    KeptPrefix(C, st.f, Elements(S) + Elements(I));
    if st.r < |R| { KeptPrefix(R, st.r, Elements(S)); }
  }

  lemma {:induction false} RecentStep(C: seq<Name>, R: seq<Name>, S: seq<Name>, I: seq<Name>, st: State)
    requires Given(R, S, I) && Derived(C, R, S, I, st) && st.f < |C| && Fault(C, R, st) == None
    ensures Recent(C, R, S, After(C, R, st))
  {
    hide Kept, Count, Ledger;
    var st', m := After(C, R, st), MoveOf(C, R, st);
    Under(C, R, S, I, st);
    if IsIn(Reflected(R, st'.r), st'.swapped) && st'.f < |C| && C[st'.f] in st'.swapped {
      if m.GoBack? {
        RemoveMembers(st.swapped, C[st.f], R[st.r]);
        OnLists(C, R, S, I, st, C[st.f]);
        var a :| Since(C, R, S, a, st.f, st.r);
        assert Since(C, R, S, a, st'.f, st'.r);
      } else if m.Agree? {
        assert Since(C, R, S, st'.f, st'.f, st'.r);
      } else if m.GoForward? {
        RemoveMembers(st.swapped, R[st.r], C[st.f]);
      }
    }
  }

  lemma {:induction false} RemoveMembers(s: seq<Name>, y: Name, x: Name)
    requires y in s
    ensures x in Remove(s, y) ==> x in s
  {
    CountRemove(s, y, x);
    CountMembers(s, x);
    CountMembers(Remove(s, y), x);
  }

  lemma {:induction false} FaultCause(C: seq<Name>, R: seq<Name>, S: seq<Name>, I: seq<Name>, st: State)
    requires Given(R, S, I) && Derived(C, R, S, I, st) && st.f < |C| && Fault(C, R, st).Some?
    ensures Cause(Fault(C, R, st).value, C, R, S, I)
  {
    hide Kept, Count, Ledger;
    var x := C[st.f];
    Under(C, R, S, I, st);
    OnLists(C, R, S, I, st, x);
    CountMembers(I, x);
    CountMembers(C[..st.f], x);
    if st.r < |R| { OnLists(C, R, S, I, st, R[st.r]); }
    match Fault(C, R, st).value
    case SwapNotReflected =>
    case SwapInPlace =>
      var a :| Since(C, R, S, a, st.f, st.r);
      assert InPlace(C, R, S, a, st.f, st.r);
    case IgnoredButReflected => assert LateIgnore(C, R, S, I, st.f, st.r);
    case IgnoreInPlace => assert IgnoreAtOnce(C, R, S, I, st.f, st.r);
    case FieldMismatch => assert Mismatch(C, R, S, I, st.f, st.r);
  }

  // ----- after the class fields

  /** What draining leaves, when the reflected fields are distinct. */
  lemma {:induction false} DrainMembers(rest: seq<Name>, back: seq<Name>, x: Name)
    requires NoDup(rest) && NoDup(back)
    ensures var (b, unused) := Drain(rest, back);
            && (x in b <==> x in back && x !in rest)
            && (x in unused <==> x in rest && x !in back)
  {
    if rest != [] {
      assert NoDup(rest[1..]) && rest[0] !in rest[1..];
      if rest[0] in back {
        RemoveKeeps(back, rest[0], x);
        DrainMembers(rest[1..], Remove(back, rest[0]), x);
      } else {
        DrainMembers(rest[1..], back, x);
      }
    }
  }

  lemma {:induction false} RemoveKeeps(s: seq<Name>, y: Name, x: Name)
    requires NoDup(s) && y in s
    ensures NoDup(Remove(s, y)) && (x in Remove(s, y) <==> x in s && x != y)
  {
    forall z ensures Count(Remove(s, y), z) == Unit(z in s && z != y) {
      CountRemove(s, y, z);
      NoDupCount(s, z);
    }
    CountsGiveNoDup(Remove(s, y));
    CountMembers(Remove(s, y), x);
  }

  /** At the end of the class, the names that the checks after the loop are about. */
  lemma {:induction false} AtEnd(C: seq<Name>, R: seq<Name>, S: seq<Name>, I: seq<Name>, st: State, x: Name)
    requires Given(R, S, I) && Derived(C, R, S, I, st) && st.f == |C|
    ensures var (back, unused) := Drain(R[st.r..], st.back);
            && (x in st.ignores <==> Count(I, x) > Count(C, x))
            && (x in unused <==> x in R[st.r..] && (x !in S || x !in C))
            && (x in st.swapped <==> x in S && x !in C && x !in R[..st.r])
            && (x in back <==> x in S && x in C && x !in R)
            && (x in st.fwd <==> x in S && x !in C && x in R[..st.r])
            && (x in unused && st.ignores == [] ==> Count(C, x) == Count(I, x))
  {
    hide Kept, Recent, Count, Ledger, Drain;
    assert C[..|C|] == C && R == R[..st.r] + R[st.r..];
    assert x in R[st.r..] ==> x !in R[..st.r];
    OnLists(C, R, S, I, st, x);
    BackIsDistinct(C, R, S, I, st);
    DrainMembers(R[st.r..], st.back, x);
    CountMembers(I, x);
    CountMembers(C, x);
    if x in I { assert Ledger(C, R, S, I, st, x); UsedUp(C, R, S, I, st, x); }
  }

  lemma {:induction false} BackIsDistinct(C: seq<Name>, R: seq<Name>, S: seq<Name>, I: seq<Name>, st: State)
    requires Derived(C, R, S, I, st)
    ensures NoDup(st.back)
  {
    forall x ensures Count(st.back, x) <= 1 { assert Ledger(C, R, S, I, st, x); }
    CountsGiveNoDup(st.back);
  }

  lemma {:induction false} UsedUp(C: seq<Name>, R: seq<Name>, S: seq<Name>, I: seq<Name>, st: State, x: Name)
    requires InRange(C, R, st) && Ledger(C, R, S, I, st, x) && st.f == |C| && x in I
    ensures st.ignores == [] ==> Count(C, x) == Count(I, x)
  {
    assert C[..|C|] == C;
  }

  /** No swap that the class had is missing from the reflection: the check for it cannot fail. */
  lemma {:induction false} AllProvided(C: seq<Name>, R: seq<Name>, S: seq<Name>, I: seq<Name>, st: State, x: Name)
    requires Derived(C, R, S, I, st) && st.f == |C|
    ensures x in S && x in C ==> x in R
  {
    assert C[..|C|] == C;
  }

  lemma {:induction false} RestIsSwapped(C: seq<Name>, R: seq<Name>, S: seq<Name>, I: seq<Name>, st: State)
    requires Derived(C, R, S, I, st) && st.f == |C| && forall x :: x in R[st.r..] ==> x in S
    ensures SameOrder(C, R, S, I)
  {
    assert C[..|C|] == C && R == R[..st.r] + R[st.r..];
    KeptConcat(R[..st.r], R[st.r..], Elements(S));
    KeptNothing(R[st.r..], Elements(S));
  }

  /** The lists that the checks after the loop look at, by the four input lists. */
  ghost predicate Left(C: seq<Name>, R: seq<Name>, S: seq<Name>, I: seq<Name>, r: nat,
                       ignores: seq<Name>, unused: seq<Name>, swapped: seq<Name>, fwd: seq<Name>)
    requires r <= |R|
  {
    forall x ::
      && (x in ignores <==> Count(I, x) > Count(C, x))
      && (x in unused <==> x in R[r..] && (x !in S || x !in C))
      && (x in swapped <==> x in S && x !in C && x !in R[..r])
      && (x in fwd <==> x in S && x !in C && x in R[..r])
      && (x in unused && ignores == [] ==> Count(C, x) == Count(I, x))
      && (x in R <==> x in R[..r] || x in R[r..])
      && (x in S && x in C ==> x in R)
  }

  lemma {:induction false} EndsLeft(C: seq<Name>, R: seq<Name>, S: seq<Name>, I: seq<Name>, st: State)
    requires Given(R, S, I) && Derived(C, R, S, I, st) && st.f == |C|
    ensures var (back, unused) := Drain(R[st.r..], st.back);
            back == [] && Left(C, R, S, I, st.r, st.ignores, unused, st.swapped, st.fwd)
  {
    assert InRange(C, R, st);
    hide Count, Drain, Given, Derived;
    var (back, unused) := Drain(R[st.r..], st.back);
    assert R == R[..st.r] + R[st.r..];
    forall x
      ensures x !in back && (x in S && x in C ==> x in R)
      ensures x in st.ignores <==> Count(I, x) > Count(C, x)
      ensures x in unused <==> x in R[st.r..] && (x !in S || x !in C)
      ensures x in st.swapped <==> x in S && x !in C && x !in R[..st.r]
      ensures x in st.fwd <==> x in S && x !in C && x in R[..st.r]
      ensures x in unused && st.ignores == [] ==> Count(C, x) == Count(I, x)
    {
      AtEnd(C, R, S, I, st, x);
      AllProvided(C, R, S, I, st, x);
    }
    Someone(back);
  }

  lemma {:induction false} FinishIsClose(C: seq<Name>, R: seq<Name>, S: seq<Name>, I: seq<Name>, st: State)
    requires Given(R, S, I) && Derived(C, R, S, I, st) && st.f == |C|
    ensures Finish(R, st) == Close(C, R, S, I, st.r)
  {
    assert InRange(C, R, st);
    hide Count, Drain, Given, Derived;
    EndsLeft(C, R, S, I, st);
    var unused := Drain(R[st.r..], st.back).1;
    CloseByLists(C, R, S, I, st.r, st.ignores, unused, st.swapped, st.fwd);
  }

  lemma {:induction false} CloseByLists(C: seq<Name>, R: seq<Name>, S: seq<Name>, I: seq<Name>, r: nat,
                                        ignores: seq<Name>, unused: seq<Name>, swapped: seq<Name>, fwd: seq<Name>)
    requires r <= |R| && Left(C, R, S, I, r, ignores, unused, swapped, fwd)
    ensures Close(C, R, S, I, r) ==
            if ignores != [] then Rejected(ErroneousIgnores)
            else if unused != [] then Rejected(UnknownReflected)
            else if swapped != [] then Rejected(ErroneousSwaps)
            else if fwd != [] then Rejected(SwapNotInClass)
            else Accepted
  {
    hide Count;
    Someone(ignores);
    Someone(unused);
    Someone(swapped);
    Someone(fwd);
  }

  lemma {:induction false} Someone(s: seq<Name>)
    ensures s != [] <==> exists x :: x in s
  {
    if s != [] { assert s[0] in s; }
  }

  lemma {:induction false} FinishCause(C: seq<Name>, R: seq<Name>, S: seq<Name>, I: seq<Name>, st: State)
    requires Given(R, S, I) && Derived(C, R, S, I, st) && st.f == |C| && Finish(R, st).Rejected?
    ensures Cause(Finish(R, st).check, C, R, S, I)
  {
    assert InRange(C, R, st);
    hide Count, Drain, Given, Derived, SameOrder;
    EndsLeft(C, R, S, I, st);
    var r, unused := st.r, Drain(R[st.r..], st.back).1;
    if st.ignores != [] {
      assert st.ignores[0] in st.ignores;
    } else if unused != [] {
      assert unused[0] in unused;
    } else {
      assert forall x :: x in R[r..] ==> x in S && x in C;
      RestIsSwapped(C, R, S, I, st);
      if st.swapped != [] {
        assert st.swapped[0] in st.swapped;
      } else {
        assert st.fwd[0] in st.fwd;
      }
    }
  }

  // ----- whole runs

  lemma {:induction false} DerivedStep(C: seq<Name>, R: seq<Name>, S: seq<Name>, I: seq<Name>, st: State)
    requires Given(R, S, I) && Derived(C, R, S, I, st) && st.f < |C| && Fault(C, R, st) == None
    ensures Derived(C, R, S, I, After(C, R, st))
  {
    hide Kept, Count, Ledger, Aligned, Recent;
    var st' := After(C, R, st);
    forall x ensures Ledger(C, R, S, I, st', x) { LedgerStep(C, R, S, I, st, x); }
    AlignedStep(C, R, S, I, st);
    RecentStep(C, R, S, I, st);
    forall x | x in S && x in C[..st'.f] ensures x in R {
      PrefixStep(C, st.f, x);
      OnLists(C, R, S, I, st, x);
      if x == C[st.f] && x !in C[..st.f] { Under(C, R, S, I, st); }
    }
  }

  /** One iteration of the matcher is one of the matcher without lists. */
  lemma {:induction false} StepJudged(C: seq<Name>, R: seq<Name>, S: seq<Name>, I: seq<Name>, st: State)
    requires Given(R, S, I) && Derived(C, R, S, I, st) && st.f < |C|
    ensures Judge(C, R, S, I, st.f, st.r) ==
            match Fault(C, R, st)
            case Some(c) => Rejected(c)
            case None => Judge(C, R, S, I, After(C, R, st).f, After(C, R, st).r)
  {
    hide Kept, Count, Ledger, Aligned, Recent, Close;
    OnLists(C, R, S, I, st, C[st.f]);
    Under(C, R, S, I, st);
    if st.r < |R| { OnLists(C, R, S, I, st, R[st.r]); }
  }

  lemma {:induction false} RunJudged(C: seq<Name>, R: seq<Name>, S: seq<Name>, I: seq<Name>, st: State)
    requires Given(R, S, I) && Derived(C, R, S, I, st)
    ensures Run(C, R, st) == Judge(C, R, S, I, st.f, st.r)
    ensures Run(C, R, st).Rejected? ==> Cause(Run(C, R, st).check, C, R, S, I)
    decreases |C| - st.f + |R| - st.r
  {
    assert InRange(C, R, st);
    hide Derived, Cause, Fault;
    if st.f == |C| {
      FinishIsClose(C, R, S, I, st);
      if Finish(R, st).Rejected? { FinishCause(C, R, S, I, st); }
    } else {
      StepJudged(C, R, S, I, st);
      hide Judge;
      if Fault(C, R, st).Some? {
        FaultCause(C, R, S, I, st);
      } else {
        DerivedStep(C, R, S, I, st);
        RunJudged(C, R, S, I, After(C, R, st));
      }
    }
  }

  /** On the lists the collector can produce, the matcher's verdict is that of the matcher without
      working lists. */
  lemma {:induction false} VerdictByCursors(C: seq<Name>, R: seq<Name>, S: seq<Name>, I: seq<Name>)
    requires NoDup(R) && NoDup(S) && Disjoint(S, I)
    ensures Verify(C, R, S, I) == Judge(C, R, S, I, 0, 0)
  {
    LedgerStart(C, R, S, I);
    RunJudged(C, R, S, I, Start(S, I));
  }

  /** A rejection names a fault that the four lists have. */
  lemma {:induction false} RejectedForCause(C: seq<Name>, R: seq<Name>, S: seq<Name>, I: seq<Name>)
    requires NoDup(R) && NoDup(S) && Disjoint(S, I)
    ensures Verify(C, R, S, I).Rejected? ==> Cause(Verify(C, R, S, I).check, C, R, S, I)
  {
    LedgerStart(C, R, S, I);
    RunJudged(C, R, S, I, Start(S, I));
  }

  // ----- without directives

  lemma {:induction false} PlainRun(C: seq<Name>, R: seq<Name>, k: nat)
    requires k <= |C| && k <= |R| && C[..k] == R[..k]
    ensures Run(C, R, State(k, k, [], [], [], [], [])) ==
            if !(C <= R) then Rejected(FieldMismatch) else if C < R then Rejected(UnknownReflected) else Accepted
    decreases |C| - k
  {
    var st := State(k, k, [], [], [], [], []);
    if k == |C| {
      assert C <= R;
      DrainNothing(R[k..]);
    } else if k < |R| && R[k] == C[k] {
      assert C[..k + 1] == R[..k + 1];
      PlainRun(C, R, k + 1);
    }
  }

  lemma {:induction false} DrainNothing(rest: seq<Name>)
    ensures Drain(rest, []) == ([], rest)
  {
    if rest != [] {
      DrainNothing(rest[1..]);
      assert rest == [rest[0]] + rest[1..];
    }
  }

  /** Without directives, on all lists: the three possible verdicts, each exactly when. */
  lemma {:induction false} WithoutDirectives(C: seq<Name>, R: seq<Name>)
    ensures Verify(C, R, [], []) == Accepted <==> C == R
    ensures Verify(C, R, [], []) == Rejected(FieldMismatch) <==> !(C <= R)
    ensures Verify(C, R, [], []) == Rejected(UnknownReflected) <==> C < R
  {
    PlainRun(C, R, 0);
  }

  /** The remaining check needs a name listed as swapped twice, which the collector refuses. */
  lemma {:induction false} NeverProvided(x: Name, y: Name)
    requires x != y
    ensures Verify([x, x, y], [y, x], [x, x], []) == Rejected(SwapNeverProvided)
  {
    hide Run, Fault, After;
    var C, R := [x, x, y], [y, x];
    var s1, s2 := State(1, 0, [x], [], [x], [], []), State(2, 0, [], [], [x, x], [], []);
    TwiceBack(x, y);
    AgreeAfter(x, y);
    RunStep(C, R, Start([x, x], []));
    RunStep(C, R, s1);
    RunStep(C, R, s2);
    OneLeftOver(x, y);
  }

  lemma {:induction false} RunStep(C: seq<Name>, R: seq<Name>, st: State)
    requires st.f < |C| && st.r <= |R| && Fault(C, R, st) == None
    ensures Run(C, R, st) == Run(C, R, After(C, R, st))
  {}

  lemma {:induction false} TwiceBack(x: Name, y: Name)
    requires x != y
    ensures var C, R, s0, s1 := [x, x, y], [y, x], Start([x, x], []), State(1, 0, [x], [], [x], [], []);
            && Fault(C, R, s0) == None && After(C, R, s0) == s1
            && Fault(C, R, s1) == None && After(C, R, s1) == State(2, 0, [], [], [x, x], [], [])
  {
    assert x == [y, x][1] && [x, x][1..] == [x] && [] + [x] == [x] && [x] + [x] == [x, x];
    assert Remove([x, x], x) == [x] && Remove([x], x) == [];
  }

  lemma {:induction false} AgreeAfter(x: Name, y: Name)
    requires x != y
    ensures var C, R, s2 := [x, x, y], [y, x], State(2, 0, [], [], [x, x], [], []);
            Fault(C, R, s2) == None && After(C, R, s2) == State(3, 1, [], [], [x, x], [], [])
  {}

  lemma {:induction false} OneLeftOver(x: Name, y: Name)
    ensures Run([x, x, y], [y, x], State(3, 1, [], [], [x, x], [], [])) == Rejected(SwapNeverProvided)
  {
    assert [y, x][1..] == [x] && [x][1..] == [] && [x, x][1..] == [x];
    assert Drain([x], [x, x]) == Drain([], [x]) == ([x], []);
  }
}
