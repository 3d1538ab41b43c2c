/** The check of one reflected class, from the collected names to the verdict. */
module Validation {
  import opened Lists
  import opened Matcher
  import opened MatcherSoundness
  import opened MatcherExactness
  import opened Collector

  const ID := Name("id")

  /** chainbase objects reflect without their `id`: it is ignored unless reflected or listed. */
  function WithId(r: Reflection, ignoreId: bool): seq<Name> {
    if ignoreId && ID !in r.ignored && ID !in r.fields then r.ignored + [ID] else r.ignored
  }

  /** The verdict the header comment promises: same fields in the same order, up to the listed
      ignores and swaps, and no listed swap found in place.  A chainbase object may also leave out a
      field "id" that is neither reflected nor ignored. */
  ghost predicate Acceptable(C: seq<Name>, r: Reflection, chainbase: bool) {
    && !SomeInPlace(C, r.fields, r.swapped)
    && (if chainbase && Name("id") !in r.fields && Name("id") !in r.ignored
        then Consistent(C, r.fields, r.swapped, r.ignored + [Name("id")])
        else Consistent(C, r.fields, r.swapped, r.ignored))
  }

  method CheckReflection(C: seq<Name>, r: Reflection, ignoreId: bool) returns (v: Verdict)
    requires WellFormed(r)
    ensures v == Accepted <==> Acceptable(C, r, ignoreId)
    ensures v == Accepted ==> NoDup(C)
  {
    var ignored := r.ignored;
    if ignoreId {
      if ID !in r.ignored && ID !in r.fields {
        ignored := ignored + [ID];
      }
    }
    v := Validate(C, r.fields, r.swapped, ignored);
    VerdictIsExact(C, r, ignoreId);
  }

  lemma {:induction false} VerdictIsExact(C: seq<Name>, r: Reflection, ignoreId: bool)
    requires WellFormed(r)
    ensures Verify(C, r.fields, r.swapped, WithId(r, ignoreId)) == Accepted <==> Acceptable(C, r, ignoreId)
    ensures Acceptable(C, r, ignoreId) ==> NoDup(C)
  {
    var R, S, I := r.fields, r.swapped, WithId(r, ignoreId);
    if ID in S && I != r.ignored {
      SwappedButUnreflectedIsRejected(C, R, S, I, ID);
      ConsistentCounts(C, R, S, I, ID);
      CountMembers(S, ID);
      CountMembers(R, ID);
    } else {
      AppendKeeps(r.ignored, ID);
      Exact(C, R, S, I);
      if Acceptable(C, r, ignoreId) {
        AcceptedClassHasNoDuplicates(C, R, S, I);
      }
    }
  }

  /** From the file's entries to the verdict: whatever a file lists, in whatever order, a class that
      it reflects is accepted exactly when the lists asked for are acceptable. */
  lemma {:induction false} CollectedVerdict(es: seq<Entry>, c: Name, C: seq<Name>, ignoreId: bool)
    requires Collect(map[], es).1 == Done
    ensures var r := AskedFor(es, c);
            && Lookup(Collect(map[], es).0, c) == r
            && (Verify(C, r.fields, r.swapped, WithId(r, ignoreId)) == Accepted <==> Acceptable(C, r, ignoreId))
  {
    hide Asked, Collect, Verify, Acceptable, WellFormed;
    CollectExactly(map[], es);
    assert WellFormed(Append(Lookup(map[], c), AskedFor(es, c)));
    var r := AskedFor(es, c);
    assert Append(Lookup(map[], c), r) == r;
    VerdictIsExact(C, r, ignoreId);
  }

  /** A class with a field "id" that is not reflected, and all its other fields reflected in order
      without any directive: accepted exactly for a chainbase object. */
  lemma {:induction false} OnlyIdMissing(p: seq<Name>, q: seq<Name>, chainbase: bool)
    requires NoDup(p + [Name("id")] + q)
    ensures var r := Reflection(p + q, [], []);
            && WellFormed(r)
            && (Verify(p + [Name("id")] + q, r.fields, r.swapped, WithId(r, chainbase)) == Accepted <==> chainbase)
  {
    var C, R, id := p + [Name("id")] + q, p + q, Name("id");
    var r := Reflection(R, [], []);
    WithoutOne(p, id, q);
    VerdictIsExact(C, r, chainbase);
    assert !SomeInPlace(C, R, []);
    assert |multiset(C)| == |multiset(R)| + 1;
    MissingIsConsistent(p, q, id);
    assert [] + [id] == [id];
  }

  lemma {:induction false} WithoutOne(p: seq<Name>, x: Name, q: seq<Name>)
    requires NoDup(p + [x] + q)
    ensures NoDup(p + q) && x !in p + q
  {
    var C, R := p + [x] + q, p + q;
    assert C[|p|] == x;
    forall i | 0 <= i < |R| ensures R[i] == C[if i < |p| then i else i + 1] && R[i] != x {}
  }

  lemma {:induction false} MissingIsConsistent(p: seq<Name>, q: seq<Name>, x: Name)
    requires x !in p + q
    ensures Consistent(p + [x] + q, p + q, [], [x])
  {
    var d := Elements<Name>([]) + Elements([x]);
    assert multiset(p + [x] + q) == multiset(p + q) + multiset([x]);
    KeptConcat(p + [x], q, d);
    KeptConcat(p, [x], d);
    KeptConcat(p, q, d);
    KeptEverything(p + q, d);
    KeptEverything(p + q, Elements<Name>([]));
    KeptNothing([x], d);
    assert Kept(p, d) + [] == Kept(p, d);
  }

  lemma {:induction false} KeptEverything(s: seq<Name>, drop: set<Name>)
    requires forall x :: x in s ==> x !in drop
    ensures Kept(s, drop) == s
  {
    if s != [] { KeptEverything(s[1..], drop); }
  }
}
