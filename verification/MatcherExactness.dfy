/** Exactly which inputs the matcher accepts.  On the lists the collector can produce, acceptance is
    `Consistent` plus the absence of a swapped field that the run finds already in place. */
module MatcherExactness {
  import opened Lists
  import opened Matcher
  import opened MatcherSoundness

  /** Where matching resumes in the class once the reflected fields before `r` are consumed by a
      plain agreement: at the start, or right after the class field equal to `R[r - 1]`. */
  ghost predicate Resumes(C: seq<Name>, R: seq<Name>, S: seq<Name>, a: nat, r: nat) {
    && a <= |C| && r <= |R|
    && (r == 0 <==> a == 0)
    && (r > 0 ==> C[a - 1] == R[r - 1] && R[r - 1] !in S)
  }

  /** The swapped field `R[r] == C[g]` is in place: it follows an agreement in the reflection, and
      in the class only swapped fields that the reflection has not listed yet come before it. */
  ghost predicate InPlace(C: seq<Name>, R: seq<Name>, S: seq<Name>, a: nat, g: nat, r: nat) {
    && Resumes(C, R, S, a, r) && a <= g < |C| && r < |R|
    && C[g] == R[r] && C[g] in S
    && forall j :: a <= j < g ==> C[j] in S && C[j] !in R[..r]
  }

  ghost predicate SomeInPlace(C: seq<Name>, R: seq<Name>, S: seq<Name>) {
    exists a, g, r :: InPlace(C, R, S, a, g, r)
  }

  /** What the source guarantees of the lists, plus the contract. */
  ghost predicate Sound(C: seq<Name>, R: seq<Name>, S: seq<Name>, I: seq<Name>) {
    NoDup(R) && Disjoint(S, I) && Consistent(C, R, S, I)
  }

  lemma {:induction false} SoundFacts(C: seq<Name>, R: seq<Name>, S: seq<Name>, I: seq<Name>, x: Name)
    requires Sound(C, R, S, I)
    ensures Count(R, x) == Unit(x in R)
    ensures x in S ==> x in R && x in C && x !in I
    ensures Count(S, x) == Unit(x in S)
    ensures x in R ==> Count(C, x) == 1 && x !in I && x in C
    ensures x in I ==> Count(C, x) == Count(I, x) && x !in R
  {
    hide Count;
    IgnoredAreNotReflected(C, R, S, I);
    ConsistentCounts(C, R, S, I, x);
    NoDupCount(R, x);
    CountMembers(S, x);
    CountMembers(I, x);
    CountMembers(C, x);
  }

  /** The working lists as functions of the two cursors. */
  ghost predicate Tracks(C: seq<Name>, R: seq<Name>, S: seq<Name>, I: seq<Name>, st: State, x: Name)
    requires InRange(C, R, st)
  {
    TracksAt(TallyOf(st, x), x in S, x in I, x in C[..st.f], x in R[..st.r], Count(C[st.f..], x))
  }

  ghost predicate TracksAt(t: Tally, inS: bool, inI: bool, inC: bool, inR: bool, ahead: nat) {
    && t.swapped == Unit(inS && !inC && !inR)
    && t.back == Unit(inS && inC && !inR)
    && t.fwd == Unit(inS && !inC && inR)
    && (inI ==> t.ignores == ahead)
    && (!inI ==> t.ignores == 0 && t.ignored == 0)
  }

  lemma {:induction false} TracksStart(C: seq<Name>, R: seq<Name>, S: seq<Name>, I: seq<Name>, x: Name)
    requires Sound(C, R, S, I)
    ensures Tracks(C, R, S, I, Start(S, I), x)
  {
    SoundFacts(C, R, S, I, x);
    CountMembers(I, x);
    assert C[0..] == C;
  }

  /** A field under the cursor is not behind it, unless it is an ignored one. */
  lemma {:induction false} Ahead(C: seq<Name>, R: seq<Name>, S: seq<Name>, I: seq<Name>, st: State)
    requires Sound(C, R, S, I) && InRange(C, R, st)
    ensures st.f < |C| && C[st.f] in R ==> C[st.f] !in C[..st.f]
    ensures st.r < |R| ==> R[st.r] !in R[..st.r]
  {
    if st.f < |C| && C[st.f] in R && C[st.f] in C[..st.f] {
      var j :| 0 <= j < st.f && C[j] == C[st.f];
      SoundFacts(C, R, S, I, C[st.f]);
      Once(C, j, st.f);
    }
  }

  /** The name a branch consumes is on the list the branch consumes it from. */
  ghost predicate Fits(t: Tally, m: Move, plain: bool) {
    match m
    case GoBack | GoForward => t.swapped > 0
    case Ignore => t.ignores > 0
    case MeetBack => t.back > 0
    case MeetForward => t.fwd > 0
    case Agree => plain
  }

  /** One iteration, seen from a name that it consumes (`hit`) or leaves alone. */
  lemma {:induction false} TracksAtStep(t: Tally, m: Move, hit: bool, inS: bool, inI: bool, inC: bool, inR: bool,
                                        ahead: nat)
    requires TracksAt(t, inS, inI, inC, inR, ahead) && !(inS && inI)
    requires hit ==> Fits(t, m, !inS && !inI)
    requires hit && m.TakesClassField() ==> ahead > 0 && !(inS && inC)
    requires hit && m.TakesReflected() ==> !inR
    ensures TracksAt(Moved(t, m, Unit(hit)), inS, inI, inC || (hit && m.TakesClassField()),
                     inR || (hit && m.TakesReflected()), ahead - Unit(hit && m.TakesClassField()))
  {
    match m
    case GoBack =>
    case GoForward =>
    case Ignore =>
    case MeetBack =>
    case MeetForward =>
    case Agree =>
  }

  lemma {:induction false} CursorsMove(C: seq<Name>, R: seq<Name>, m: Move, st: State, st': State, x: Name)
    requires Stepped(C, R, m, st, st', x)
    ensures var taken := m.TakesClassField() && C[st.f] == x;
            && (x in C[..st'.f] <==> x in C[..st.f] || taken)
            && Count(C[st'.f..], x) == Count(C[st.f..], x) - Unit(taken)
    ensures x in R[..st'.r] <==> x in R[..st.r] || (m.TakesReflected() && R[st.r] == x)
  {
    hide Count;
    PrefixStep(C, st.f, x);
    CountSuffix(C, st.f, x);
    if st.r < |R| { PrefixStep(R, st.r, x); }
  }

  // ----- the invariant of every run on a consistent input

  /** While the reflected field under the cursor is still an unmet swap: if it follows another swap,
      the class cursor is not on an unmet swap; otherwise only unmet swaps have been passed in the
      class since matching resumed. */
  ghost predicate Cursor(C: seq<Name>, R: seq<Name>, S: seq<Name>, st: State)
    requires InRange(C, R, st)
  {
    IsIn(Reflected(R, st.r), st.swapped) ==>
      if st.r > 0 && R[st.r - 1] in S then st.f < |C| ==> C[st.f] !in st.swapped
      else exists a :: Since(C, R, S, a, st.f, st.r)
  }

  ghost predicate Since(C: seq<Name>, R: seq<Name>, S: seq<Name>, a: nat, f: nat, r: nat) {
    && Resumes(C, R, S, a, r) && a <= f <= |C|
    && forall j :: a <= j < f ==> C[j] in S && C[j] !in R[..r]
  }

  ghost predicate Inv(C: seq<Name>, R: seq<Name>, S: seq<Name>, I: seq<Name>, st: State) {
    && InRange(C, R, st)
    && (forall x :: Tracks(C, R, S, I, st, x))
    && Kept(C[st.f..], Elements(S) + Elements(I)) == Kept(R[st.r..], Elements(S))
    && Cursor(C, R, S, st)
  }

  lemma {:induction false} InvStart(C: seq<Name>, R: seq<Name>, S: seq<Name>, I: seq<Name>)
    requires Sound(C, R, S, I)
    ensures Inv(C, R, S, I, Start(S, I))
  {
    forall x ensures Tracks(C, R, S, I, Start(S, I), x) {
      TracksStart(C, R, S, I, x);
    }
    assert C[0..] == C && R[0..] == R;
    assert Since(C, R, S, 0, 0, 0);
  }

  /** On which list the names under the cursors are. */
  lemma {:induction false} Kinds(C: seq<Name>, R: seq<Name>, S: seq<Name>, I: seq<Name>, st: State)
    requires Sound(C, R, S, I) && Inv(C, R, S, I, st)
    ensures st.f < |C| && C[st.f] in S ==> C[st.f] in st.swapped || C[st.f] in st.fwd
    ensures st.f < |C| && C[st.f] in I ==> C[st.f] in st.ignores
    ensures st.r < |R| && R[st.r] in S ==> R[st.r] in st.swapped || R[st.r] in st.back
  {
    hide Count, Sound, Kept;
    Ahead(C, R, S, I, st);
    if st.f < |C| {
      var x := C[st.f];
      assert Tracks(C, R, S, I, st, x);
      SoundFacts(C, R, S, I, x);
      CountSuffix(C, st.f, x);
      CountMembers(st.swapped, x);
      CountMembers(st.fwd, x);
      CountMembers(st.ignores, x);
    }
    if st.r < |R| {
      var y := R[st.r];
      assert Tracks(C, R, S, I, st, y);
      CountMembers(st.swapped, y);
      CountMembers(st.back, y);
    }
  }

  /** Working lists hold listed names only. */
  lemma {:induction false} Origins(C: seq<Name>, R: seq<Name>, S: seq<Name>, I: seq<Name>, st: State, x: Name)
    requires InRange(C, R, st) && Tracks(C, R, S, I, st, x)
    ensures x in st.swapped ==> x in S && x !in R[..st.r]
    ensures x in st.back || x in st.fwd ==> x in S
    ensures x in st.ignores || x in st.ignored ==> x in I
  {
    CountMembers(st.swapped, x);
    CountMembers(st.back, x);
    CountMembers(st.fwd, x);
    CountMembers(st.ignores, x);
    CountMembers(st.ignored, x);
  }

  /** With nothing else to do, the two cursors stand on the same unlisted name. */
  lemma {:induction false} Agreement(C: seq<Name>, R: seq<Name>, S: seq<Name>, I: seq<Name>, st: State)
    requires Sound(C, R, S, I) && Inv(C, R, S, I, st)
    requires st.f < |C| && MoveOf(C, R, st) == Agree
    ensures C[st.f] !in S && C[st.f] !in I && Reflected(R, st.r) == Some(C[st.f])
  {
    Kinds(C, R, S, I, st);
    HeadsAgree(C, st.f, Elements(S) + Elements(I), R, st.r, Elements(S));
  }

  /** The only assertion that can fail is the one about a swap already in place. */
  lemma {:induction false} OnlyInPlaceFails(C: seq<Name>, R: seq<Name>, S: seq<Name>, I: seq<Name>, st: State)
    requires Sound(C, R, S, I) && Inv(C, R, S, I, st) && st.f < |C|
    ensures Fault(C, R, st) == None || (Fault(C, R, st) == Some(SwapInPlace) && SomeInPlace(C, R, S))
  {
    hide Count, Sound, TracksAt, TallyOf, Kept;
    var field := C[st.f];
    Origins(C, R, S, I, st, field);
    SoundFacts(C, R, S, I, field);
    if st.r < |R| {
      Origins(C, R, S, I, st, R[st.r]);
      SoundFacts(C, R, S, I, R[st.r]);
    }
    if MoveOf(C, R, st) == Agree { Agreement(C, R, S, I, st); }
    if Fault(C, R, st) == Some(SwapInPlace) {
      var a :| Since(C, R, S, a, st.f, st.r);
      assert InPlace(C, R, S, a, st.f, st.r);
    }
  }

  /** What the invariant says about the name an iteration consumes. */
  ghost predicate Ready(C: seq<Name>, R: seq<Name>, S: seq<Name>, I: seq<Name>, st: State)
    requires st.f < |C| && st.r <= |R| && Fault(C, R, st) == None
  {
    var m, x := MoveOf(C, R, st), Consumed(C, R, st);
    && (if m.Agree? then x !in S && x !in I && R[st.r] == x else if m.Ignore? then x in I else x in S)
    && Fits(TallyOf(st, x), m, x !in S && x !in I)
    && (m.TakesClassField() && x in S ==> x !in C[..st.f])
    && (m.TakesReflected() ==> x !in R[..st.r])
  }

  lemma {:induction false} IsReady(C: seq<Name>, R: seq<Name>, S: seq<Name>, I: seq<Name>, st: State)
    requires Sound(C, R, S, I) && Inv(C, R, S, I, st) && st.f < |C| && Fault(C, R, st) == None
    ensures Ready(C, R, S, I, st)
  {
    hide Count, Sound, TracksAt, Kept;
    var x := Consumed(C, R, st);
    Ahead(C, R, S, I, st);
    SoundFacts(C, R, S, I, x);
    Origins(C, R, S, I, st, x);
    if MoveOf(C, R, st) == Agree { Agreement(C, R, S, I, st); }
    CountMembers(st.swapped, x);
    CountMembers(st.ignores, x);
    CountMembers(st.back, x);
    CountMembers(st.fwd, x);
  }

  lemma {:induction false} TracksKept(C: seq<Name>, R: seq<Name>, S: seq<Name>, I: seq<Name>, st: State, x: Name)
    requires st.f < |C| && st.r <= |R| && Fault(C, R, st) == None && Ready(C, R, S, I, st)
    requires Tracks(C, R, S, I, st, x) && (x in S ==> x !in I)
    ensures Tracks(C, R, S, I, After(C, R, st), x)
  {
    hide Count;
    var m := MoveOf(C, R, st);
    StepTally(C, R, st, x);
    CursorsMove(C, R, m, st, After(C, R, st), x);
    CountSuffix(C, st.f, x);
    TracksAtStep(TallyOf(st, x), m, Consumed(C, R, st) == x, x in S, x in I,
                 x in C[..st.f], x in R[..st.r], Count(C[st.f..], x));
  }

  lemma {:induction false} OrderKept(C: seq<Name>, R: seq<Name>, S: seq<Name>, I: seq<Name>, st: State)
    requires st.f < |C| && st.r <= |R| && Fault(C, R, st) == None && Ready(C, R, S, I, st)
    requires Kept(C[st.f..], Elements(S) + Elements(I)) == Kept(R[st.r..], Elements(S))
    ensures var st' := After(C, R, st);
            Kept(C[st'.f..], Elements(S) + Elements(I)) == Kept(R[st'.r..], Elements(S))
  {
    var x, d := Consumed(C, R, st), Elements(S) + Elements(I);
    if MoveOf(C, R, st) == Agree {
      HeadsAgree(C, st.f, d, R, st.r, Elements(S));
    } else if MoveOf(C, R, st).TakesClassField() {
      KeptSuffix(C, st.f, d);
    } else {
      KeptSuffix(R, st.r, Elements(S));
    }
  }

  lemma {:induction false} InvStep(C: seq<Name>, R: seq<Name>, S: seq<Name>, I: seq<Name>, st: State)
    requires Sound(C, R, S, I) && Inv(C, R, S, I, st) && st.f < |C| && Fault(C, R, st) == None
    ensures Inv(C, R, S, I, After(C, R, st))
  {
    IsReady(C, R, S, I, st);
    forall x ensures Tracks(C, R, S, I, After(C, R, st), x) {
      SoundFacts(C, R, S, I, x);
      TracksKept(C, R, S, I, st, x);
    }
    OrderKept(C, R, S, I, st);
    CursorKept(C, R, S, I, st);
  }

  lemma {:induction false} CursorKept(C: seq<Name>, R: seq<Name>, S: seq<Name>, I: seq<Name>, st: State)
    requires Sound(C, R, S, I) && Inv(C, R, S, I, st) && st.f < |C| && Fault(C, R, st) == None
    ensures Cursor(C, R, S, After(C, R, st))
  {
    hide Count, Sound, TracksAt, TallyOf, Kept;
    var st', x := After(C, R, st), Consumed(C, R, st);
    Origins(C, R, S, I, st, x);
    if IsIn(Reflected(R, st'.r), st'.swapped) {
      match MoveOf(C, R, st)
      case GoBack =>
        var y := R[st.r];
        CountRemove(st.swapped, x, y);
        CountMembers(st.swapped, y);
        CountMembers(st'.swapped, y);
        var a :| Since(C, R, S, a, st.f, st.r);
        assert Since(C, R, S, a, st'.f, st'.r);
      case GoForward =>
        CountRemove(st.swapped, x, C[st.f]);
        CountMembers(st.swapped, C[st.f]);
        CountMembers(st'.swapped, C[st.f]);
      case Agree =>
        Agreement(C, R, S, I, st);
        assert Since(C, R, S, st'.f, st'.f, st'.r);
      case _ =>
    }
  }

  lemma {:induction false} EndAccepts(C: seq<Name>, R: seq<Name>, S: seq<Name>, I: seq<Name>, st: State)
    requires Sound(C, R, S, I) && Inv(C, R, S, I, st) && st.f == |C|
    ensures Finish(R, st) == Accepted
  {
    forall x ensures Count(st.ignores, x) == 0 && Count(st.swapped, x) == 0 && Count(st.fwd, x) == 0
             ensures Count(R[st.r..], x) == Count(st.back, x)
    {
      EndTally(C, R, S, I, st, x);
    }
    AllZero(st.ignores);
    AllZero(st.swapped);
    AllZero(st.fwd);
    DrainExact(R[st.r..], st.back);
  }

  lemma {:induction false} EndTally(C: seq<Name>, R: seq<Name>, S: seq<Name>, I: seq<Name>, st: State, x: Name)
    requires Sound(C, R, S, I) && Inv(C, R, S, I, st) && st.f == |C|
    ensures Count(st.ignores, x) == 0 && Count(st.swapped, x) == 0 && Count(st.fwd, x) == 0
    ensures Count(R[st.r..], x) == Count(st.back, x)
  {
    hide Count, Sound;
    assert C[..|C|] == C && C[|C|..] == [];
    assert Tracks(C, R, S, I, st, x);
    SoundFacts(C, R, S, I, x);
    CountMembers(C[|C|..], x);
    CountSplit(R, st.r, x);
    CountMembers(R[..st.r], x);
    CountMembers(R[st.r..], x);
    KeptMembers(R[st.r..], Elements(S), x);
  }

  lemma {:induction false} DrainExact(rest: seq<Name>, back: seq<Name>)
    requires forall x :: Count(rest, x) == Count(back, x)
    ensures Drain(rest, back) == ([], [])
  {
    if rest == [] {
      AllZero(back);
    } else {
      CountMembers(rest, rest[0]);
      CountMembers(back, rest[0]);
      forall x ensures Count(rest[1..], x) == Count(Remove(back, rest[0]), x) {
        CountRemove(back, rest[0], x);
        assert Count(rest, x) == Count(back, x);
      }
      DrainExact(rest[1..], Remove(back, rest[0]));
    }
  }

  lemma {:induction false} ConsistentRun(C: seq<Name>, R: seq<Name>, S: seq<Name>, I: seq<Name>, st: State)
    requires Sound(C, R, S, I) && Inv(C, R, S, I, st)
    ensures Run(C, R, st) == Accepted || (Run(C, R, st) == Rejected(SwapInPlace) && SomeInPlace(C, R, S))
    decreases |C| - st.f + |R| - st.r
  {
    if st.f == |C| {
      EndAccepts(C, R, S, I, st);
    } else {
      OnlyInPlaceFails(C, R, S, I, st);
      if Fault(C, R, st) == None {
        InvStep(C, R, S, I, st);
        ConsistentRun(C, R, S, I, After(C, R, st));
      }
    }
  }

  // ----- and a swap in place is always caught

  /** The run has not passed the swap in place at (`g`, `r`): it is short of the agreement where
      matching resumes on both sides, or between it and the swap. */
  ghost predicate Before(st: State, a: nat, g: nat, r: nat) {
    (st.r < r && st.f < a) || (st.r == r && a <= st.f <= g)
  }

  lemma {:induction false} BeforeStep(C: seq<Name>, R: seq<Name>, S: seq<Name>, I: seq<Name>, st: State, a: nat,
                                      g: nat, r: nat)
    requires Sound(C, R, S, I) && Inv(C, R, S, I, st) && InPlace(C, R, S, a, g, r)
    requires st.f < a && st.r < r && Fault(C, R, st) == None
    ensures Before(After(C, R, st), a, g, r)
  {
    hide Count, Sound, TracksAt, TallyOf, Kept;
    var b := R[r - 1];
    SoundFacts(C, R, S, I, b);
    Origins(C, R, S, I, st, b);
    if MoveOf(C, R, st) == Agree {
      if C[st.f] == b { Once(C, st.f, a - 1); }
      if R[st.r] == b { Once(R, st.r, r - 1); }
    }
  }

  lemma {:induction false} UnmetSwap(C: seq<Name>, R: seq<Name>, S: seq<Name>, I: seq<Name>, st: State)
    requires Sound(C, R, S, I) && Inv(C, R, S, I, st)
    requires st.f < |C| && C[st.f] in S && C[st.f] !in R[..st.r]
    ensures C[st.f] in st.swapped && C[st.f] in R
  {
    hide Count, Sound, Kept;
    SoundFacts(C, R, S, I, C[st.f]);
    Ahead(C, R, S, I, st);
    assert Tracks(C, R, S, I, st, C[st.f]);
    CountMembers(st.swapped, C[st.f]);
  }

  lemma {:induction false} InPlaceIsCaught(C: seq<Name>, R: seq<Name>, S: seq<Name>, I: seq<Name>, st: State, a: nat,
                                           g: nat, r: nat)
    requires Sound(C, R, S, I) && Inv(C, R, S, I, st)
    requires InPlace(C, R, S, a, g, r) && Before(st, a, g, r)
    ensures Run(C, R, st) == Rejected(SwapInPlace)
    decreases |C| - st.f + |R| - st.r
  {
    OnlyInPlaceFails(C, R, S, I, st);
    if st.r == r {
      UnmetSwap(C, R, S, I, st);
    }
    if Fault(C, R, st) == None {
      if st.r < r { BeforeStep(C, R, S, I, st, a, g, r); }
      InvStep(C, R, S, I, st);
      InPlaceIsCaught(C, R, S, I, After(C, R, st), a, g, r);
    }
  }

  /** The exact acceptance condition, and the verdict on every consistent input. */
  lemma {:induction false} Exact(C: seq<Name>, R: seq<Name>, S: seq<Name>, I: seq<Name>)
    requires NoDup(R) && Disjoint(S, I)
    ensures Verify(C, R, S, I) == Accepted <==> Consistent(C, R, S, I) && !SomeInPlace(C, R, S)
    ensures Consistent(C, R, S, I) ==>
              Verify(C, R, S, I) == if SomeInPlace(C, R, S) then Rejected(SwapInPlace) else Accepted
  {
    if Consistent(C, R, S, I) {
      InvStart(C, R, S, I);
      ConsistentRun(C, R, S, I, Start(S, I));
      if SomeInPlace(C, R, S) {
        var a, g, r :| InPlace(C, R, S, a, g, r);
        InPlaceIsCaught(C, R, S, I, Start(S, I), a, g, r);
      }
    } else if Verify(C, R, S, I) == Accepted {
      AcceptedIsConsistent(C, R, S, I);
    }
  }
}
