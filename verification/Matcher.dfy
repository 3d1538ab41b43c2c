/** The field matcher of `validate_file`: two cursors, one over the class fields `C` and one over the
    reflected fields `R`, and lists that shrink and grow as fields are consumed, starting from the
    names `S` listed as swapped and `I` listed as ignored. */
module Matcher {
  import opened Lists

  /** The assertions that can fail, in source order.  The one at line 607 cannot: the name it looks
      up in the reflected fields was just read from them. */
  datatype Check =
    | SwapNotReflected      // line 599
    | SwapInPlace           // line 600
    | IgnoredButReflected   // line 610
    | IgnoreInPlace         // line 615
    | FieldMismatch         // line 626
    | ErroneousIgnores      // line 631
    | UnknownReflected      // line 641
    | ErroneousSwaps        // line 642
    | SwapNeverProvided     // line 643
    | SwapNotInClass        // line 644

  datatype Verdict = Accepted | Rejected(check: Check)

  /** `ignores` and `swapped` are the names still listed; `ignored` are the ignores already met;
      `back` are swapped names met in the class first, `fwd` those met in the reflection first. */
  datatype State = State(f: nat, r: nat, swapped: seq<Name>, ignores: seq<Name>,
                         back: seq<Name>, fwd: seq<Name>, ignored: seq<Name>)

  ghost predicate InRange(C: seq<Name>, R: seq<Name>, st: State) {
    st.f <= |C| && st.r <= |R|
  }

  function Reflected(R: seq<Name>, r: nat): Option<Name> {
    if r < |R| then Some(R[r]) else None
  }

  predicate IsIn(o: Option<Name>, s: seq<Name>) {
    o.Some? && o.value in s
  }

  /** The six ways an iteration can succeed; each consumes one name, `Agree` from both sides. */
  datatype Move = GoBack | GoForward | Ignore | MeetBack | MeetForward | Agree {
    predicate TakesClassField() { !GoForward? && !MeetBack? }
    predicate TakesReflected() { GoForward? || MeetBack? || Agree? }
  }

  predicate Applies(st: State, m: Move, x: Name) {
    match m
    case GoBack | GoForward => x in st.swapped
    case Ignore => x in st.ignores
    case MeetBack => x in st.back
    case MeetForward => x in st.fwd
    case Agree => true
  }

  function Apply(st: State, m: Move, x: Name): State
    requires Applies(st, m, x)
  {
    match m
    case GoBack => st.(f := st.f + 1, swapped := Remove(st.swapped, x), back := st.back + [x])
    case GoForward => st.(r := st.r + 1, swapped := Remove(st.swapped, x), fwd := st.fwd + [x])
    case Ignore => st.(f := st.f + 1, ignores := Remove(st.ignores, x), ignored := st.ignored + [x])
    case MeetBack => st.(r := st.r + 1, back := Remove(st.back, x))
    case MeetForward => st.(f := st.f + 1, fwd := Remove(st.fwd, x))
    case Agree => st.(f := st.f + 1, r := st.r + 1)
  }

  /** One iteration of the class-field loop: the first branch whose guard holds. */
  function MoveOf(C: seq<Name>, R: seq<Name>, st: State): Move
    requires st.f < |C| && st.r <= |R|
  {
    var field, rf := C[st.f], Reflected(R, st.r);
    if field in st.swapped then GoBack
    else if IsIn(rf, st.swapped) then GoForward
    else if field in st.ignores then Ignore
    else if IsIn(rf, st.back) then MeetBack
    else if field in st.fwd then MeetForward
    else Agree
  }

  /** The assertion that stops the branch, if any. */
  function Fault(C: seq<Name>, R: seq<Name>, st: State): Option<Check>
    requires st.f < |C| && st.r <= |R|
  {
    var field, rf := C[st.f], Reflected(R, st.r);
    match MoveOf(C, R, st)
    case GoBack =>
      if field !in R then Some(SwapNotReflected)
      else if rf == Some(field) then Some(SwapInPlace)
      else None
    case GoForward => None
    case m =>
      if IsIn(rf, st.ignored) then Some(IgnoredButReflected)
      else if m.Ignore? && rf == Some(field) then Some(IgnoreInPlace)
      else if m.Agree? && rf != Some(field) then Some(FieldMismatch)
      else None
  }

  /** The name the branch consumes. */
  function Consumed(C: seq<Name>, R: seq<Name>, st: State): Name
    requires st.f < |C| && st.r <= |R|
  {
    if MoveOf(C, R, st).TakesClassField() then C[st.f] else R[st.r]
  }

  function After(C: seq<Name>, R: seq<Name>, st: State): (st': State)
    requires st.f < |C| && st.r <= |R| && Fault(C, R, st) == None
    ensures st'.f <= |C| && st'.r <= |R| && st.f + st.r < st'.f + st'.r
  {
    Apply(st, MoveOf(C, R, st), Consumed(C, R, st))
  }

  /** The loop over the reflected fields left after the class fields are used up. */
  function Drain(rest: seq<Name>, back: seq<Name>): (seq<Name>, seq<Name>) {
    if rest == [] then (back, [])
    else if rest[0] in back then Drain(rest[1..], Remove(back, rest[0]))
    else var (b, unused) := Drain(rest[1..], back); (b, [rest[0]] + unused)
  }

  function Finish(R: seq<Name>, st: State): Verdict
    requires st.r <= |R|
  {
    var (back, unused) := Drain(R[st.r..], st.back);
    if st.ignores != [] then Rejected(ErroneousIgnores)
    else if unused != [] then Rejected(UnknownReflected)
    else if st.swapped != [] then Rejected(ErroneousSwaps)
    else if back != [] then Rejected(SwapNeverProvided)
    else if st.fwd != [] then Rejected(SwapNotInClass)
    else Accepted
  }

  function Run(C: seq<Name>, R: seq<Name>, st: State): Verdict
    requires st.f <= |C| && st.r <= |R|
    decreases |C| - st.f + |R| - st.r
  {
    if st.f == |C| then Finish(R, st)
    else match Fault(C, R, st)
      case Some(c) => Rejected(c)
      case None => Run(C, R, After(C, R, st))
  }

  function Start(S: seq<Name>, I: seq<Name>): State {
    State(0, 0, S, I, [], [], [])
  }

  function Verify(C: seq<Name>, R: seq<Name>, S: seq<Name>, I: seq<Name>): Verdict {
    Run(C, R, Start(S, I))
  }

  method DrainRest(R: seq<Name>, start: nat, back0: seq<Name>) returns (back: seq<Name>, unused: seq<Name>)
    requires start <= |R|
    ensures (back, unused) == Drain(R[start..], back0)
  {
    back, unused := back0, [];
    var r := start;
    while r < |R|
      invariant r <= |R|
      invariant Drain(R[start..], back0).0 == Drain(R[r..], back).0
      invariant Drain(R[start..], back0).1 == unused + Drain(R[r..], back).1
    {
      assert R[r..] == [R[r]] + R[r + 1..];
      if R[r] in back {
        back := Remove(back, R[r]);
      } else {
        unused := unused + [R[r]];
      }
      r := r + 1;
    }
    assert unused + [] == unused;
  }

  /** The source's two loops, with its local lists and cursors. */
  method Validate(C: seq<Name>, R: seq<Name>, S: seq<Name>, I: seq<Name>) returns (v: Verdict)
    ensures v == Verify(C, R, S, I)
  {
    var swapped, ignores := S, I;
    var back, fwd, ignored: seq<Name> := [], [], [];
    var f, r := 0, 0;
    while f < |C|
      invariant f <= |C| && r <= |R|
      invariant Run(C, R, State(f, r, swapped, ignores, back, fwd, ignored)) == Verify(C, R, S, I)
      decreases |C| - f + |R| - r
    {
      var field := C[f];
      var reflectField := if r < |R| then Some(R[r]) else None;
      if field in swapped {
        swapped := Remove(swapped, field);
        back := back + [field];
        if field !in R { return Rejected(SwapNotReflected); }
        if reflectField == Some(field) { return Rejected(SwapInPlace); }
        f := f + 1;
        continue;
      }
      if reflectField.Some? && reflectField.value in swapped {
        swapped := Remove(swapped, reflectField.value);
        fwd := fwd + [reflectField.value];
        r := r + 1;
        continue;
      }
      if reflectField.Some? && reflectField.value in ignored { return Rejected(IgnoredButReflected); }
      if field in ignores {
        ignores := Remove(ignores, field);
        ignored := ignored + [field];
        if reflectField == Some(field) { return Rejected(IgnoreInPlace); }
        f := f + 1;
        continue;
      }
      if reflectField.Some? && reflectField.value in back {
        back := Remove(back, reflectField.value);
        r := r + 1;
      } else if field in fwd {
        fwd := Remove(fwd, field);
        f := f + 1;
      } else {
        if reflectField != Some(field) { return Rejected(FieldMismatch); }
        f, r := f + 1, r + 1;
      }
    }
    if ignores != [] { return Rejected(ErroneousIgnores); }
    var unused;
    back, unused := DrainRest(R, r, back);
    if unused != [] { return Rejected(UnknownReflected); }
    if swapped != [] { return Rejected(ErroneousSwaps); }
    if back != [] { return Rejected(SwapNeverProvided); }
    if fwd != [] { return Rejected(SwapNotInClass); }
    return Accepted;
  }
}
