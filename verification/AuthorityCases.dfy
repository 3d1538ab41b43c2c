/** Where the authority check falls short: a cycle and the depth limit can make it refuse what is
    derivable, and a permission counted twice can cost it the keys it used. */
module AuthorityCases {
  import opened Lists
  import opened Authority
  import opened AuthorityLaws

  const K := Key(1)
  const A := Permission(Name("a"), Name("active"))
  const B := Permission(Name("b"), Name("active"))
  const C := Permission(Name("c"), Name("active"))

  // ----- a cycle

  /** `A` needs `B` or the key, and looks at `B` first; `B` needs `A`. */
  const OF_A := Auth(1, [], [(K, 1)], [(B, 2)])
  const OF_B := Auth(1, [], [], [(A, 1)])
  const CYCLE := Env(map[A := OF_A, B := OF_B], {K}, 0, 3)
  const BOTH := Auth(2, [], [], [(A, 1), (B, 1)])

  /** With the key, `A` is derivable and through it `B`, yet an authority that needs both is refused:
      `B` was found unsatisfied while `A` was being evaluated, and that is what the cache keeps. */
  lemma {:induction false} CycleHidesGrant()
    ensures forall X :: Closed(CYCLE, {}, X) ==> Suffices(CYCLE, X, BOTH)
    ensures !Check(CYCLE, BOTH, State({}, Initial({})), 0).0
  {
    assert Factors(OF_A) == [HasKey(K, 1), Account(B, 2)] && Factors(OF_B) == [Account(A, 1)];
    assert Factors(BOTH) == [Account(A, 1), Account(B, 1)];
    forall X | Closed(CYCLE, {}, X) ensures Suffices(CYCLE, X, BOTH) {
      WeightOfTwo(CYCLE, X, HasKey(K, 1), Account(B, 2));
      assert A in X;
      WeightOfOne(CYCLE, X, Account(A, 1));
      assert B in X;
      WeightOfTwo(CYCLE, X, Account(A, 1), Account(B, 1));
    }
    RunOfBoth();
  }

  lemma {:induction false} WeightOfOne(env: Env, X: set<Permission>, f: Factor)
    ensures Weight(env, X, [f]) == if Holds(env, X, f) then f.weight else 0
  {
    assert [f][1..] == [];
  }

  lemma {:induction false} WeightOfTwo(env: Env, X: set<Permission>, f: Factor, g: Factor)
    ensures Weight(env, X, [f, g])
         == (if Holds(env, X, f) then f.weight else 0) + (if Holds(env, X, g) then g.weight else 0)
  {
    assert [f, g][1..] == [g];
    WeightOfOne(env, X, g);
  }

  lemma {:induction false} SortedPair(f: Factor, g: Factor)
    ensures Sorted([f]) == [f]
    ensures Sorted([f, g]) == if Before(g, f) then [g, f] else [f, g]
  {
    assert [f][..0] == [] && [f, g][..1] == [f] && [f][1..] == [];
    assert Sorted([f]) == Insert(f, []) && Sorted([f, g]) == Insert(g, [f]);
    assert Insert(g, [f][1..]) == [g];
  }

  lemma {:induction false} ScanOne(env: Env, f: Factor, threshold: nat, total: nat, st: State, depth: nat)
    requires depth <= env.limit
    ensures var (w, st') := Visit(env, f, st, depth);
            Scan(env, [f], threshold, total, st, depth) == (total + w >= threshold, st')
  {
    hide Visit;
    var (w, st') := Visit(env, f, st, depth);
    assert [f][1..] == [];
    assert Scan(env, [], threshold, total + w, st', depth) == (false, st');
  }

  lemma {:induction false} ScanTwo(env: Env, f: Factor, g: Factor, threshold: nat, st: State, depth: nat)
    requires depth <= env.limit
    ensures var (w, st') := Visit(env, f, st, depth);
            Scan(env, [f, g], threshold, 0, st, depth) ==
            if w >= threshold then (true, st') else Scan(env, [g], threshold, w, st', depth)
  {
    hide Visit;
    assert [f, g][1..] == [g];
  }

  /** Inside: `B`, while `A` is being evaluated. */
  lemma {:induction false} RunOfB(c: map<Permission, Status>)
    requires c == map[A := BeingEvaluated]
    ensures Visit(CYCLE, Account(B, 2), State({}, c), 1) == (0, State({}, c[B := Unsatisfied]))
  {
    var st := State({}, c[B := BeingEvaluated]);
    assert Factors(OF_B) == [Account(A, 1)];
    SortedPair(Account(A, 1), Account(A, 1));
    ScanOne(CYCLE, Account(A, 1), 1, 0, st, 2);
    assert Check(CYCLE, OF_B, st, 2) == (false, st);
    assert c[B := BeingEvaluated][B := Unsatisfied] == c[B := Unsatisfied];
  }

  /** Around it: `A`, by the key. */
  lemma {:induction false} RunOfA()
    ensures Visit(CYCLE, Account(A, 1), State({}, map[]), 0) == (1, State({K}, map[A := Satisfied, B := Unsatisfied]))
  {
    var c := map[A := BeingEvaluated];
    var st := State({}, c[B := Unsatisfied]);
    RunOfB(c);
    assert Factors(OF_A) == [HasKey(K, 1), Account(B, 2)];
    SortedPair(HasKey(K, 1), Account(B, 2));
    ScanTwo(CYCLE, Account(B, 2), HasKey(K, 1), 1, State({}, c), 1);
    ScanOne(CYCLE, HasKey(K, 1), 1, 0, st, 1);
    assert {} + {K} == {K};
    assert Visit(CYCLE, HasKey(K, 1), st, 1) == (1, State({K}, st.cache));
    assert Check(CYCLE, OF_A, State({}, c), 1) == (true, State({K}, st.cache));
    assert st.cache[A := Satisfied] == map[A := Satisfied, B := Unsatisfied];
    assert Mark(State({}, map[]), A, BeingEvaluated) == State({}, c);
  }

  lemma {:induction false} RunOfBoth()
    ensures !Check(CYCLE, BOTH, State({}, Initial({})), 0).0
  {
    var st := State({K}, map[A := Satisfied, B := Unsatisfied]);
    assert Initial({}) == map[];
    assert Factors(BOTH) == [Account(A, 1), Account(B, 1)];
    SortedPair(Account(A, 1), Account(B, 1));
    RunOfA();
    ScanTwo(CYCLE, Account(A, 1), Account(B, 1), 2, State({}, map[]), 0);
    ScanOne(CYCLE, Account(B, 1), 2, 1, st, 0);
    assert Visit(CYCLE, Account(B, 1), st, 0) == (0, st);
  }

  // ----- the depth limit

  const BY_KEY := Auth(1, [], [(K, 1)], [])
  const BY_B := Auth(1, [], [], [(B, 1)])
  const CHAIN := Env(map[A := BY_B, B := BY_KEY], {K}, 0, 1)
  const BY_A := Auth(1, [], [], [(A, 1)])

  /** A chain longer than the limit: with the key, `B` and through it `A` are derivable, yet an
      authority that needs `A` is refused. */
  lemma {:induction false} DepthHidesGrant()
    ensures forall X :: Closed(CHAIN, {}, X) ==> Suffices(CHAIN, X, BY_A)
    ensures !Check(CHAIN, BY_A, State({}, Initial({})), 0).0
  {
    assert Factors(BY_KEY) == [HasKey(K, 1)] && Factors(BY_B) == [Account(B, 1)] && Factors(BY_A) == [Account(A, 1)];
    forall X | Closed(CHAIN, {}, X) ensures Suffices(CHAIN, X, BY_A) {
      WeightOfOne(CHAIN, X, HasKey(K, 1));
      assert B in X;
      WeightOfOne(CHAIN, X, Account(B, 1));
      assert A in X;
      WeightOfOne(CHAIN, X, Account(A, 1));
    }
    var c := map[A := BeingEvaluated];
    assert Initial({}) == map[];
    SortedPair(Account(B, 1), Account(B, 1));
    SortedPair(Account(A, 1), Account(A, 1));
    ScanOne(CHAIN, Account(B, 1), 1, 0, State({}, c), 1);
    assert Visit(CHAIN, Account(B, 1), State({}, c), 1) == (0, State({}, c));
    ScanOne(CHAIN, Account(A, 1), 1, 0, State({}, map[]), 0);
    assert Mark(State({}, map[]), A, BeingEvaluated) == State({}, c);
  }

  // ----- a permission counted twice

  /** `B` has the key; `A` asks more of `B` than it weighs; `C` tries `A`, then `B`. */
  const MORE_THAN_B := Auth(2, [], [], [(B, 1)])
  const A_OR_B := Auth(1, [], [], [(A, 2), (B, 1)])

  function Shared(keys: set<Key>): Env {
    Env(map[A := MORE_THAN_B, B := BY_KEY, C := A_OR_B], keys, 0, 3)
  }

  /** `B` is satisfied inside the failing `A`, which takes back the key it used; the cache still knows
      `B` as satisfied, and counts it later without its key.  So the authority is satisfied, no key is
      marked as used, and without a key it is refused; likewise for the keys returned as required. */
  lemma {:induction false} RevertLosesKeys()
    ensures var (ok, st) := Check(Shared({K}), A_OR_B, State({}, Initial({})), 0);
            ok && st.used == {} && !Check(Shared(st.used), A_OR_B, State({}, Initial({})), 0).0
    ensures Required(Shared({K}), [C], {}) == Some({}) && Required(Shared({}), [C], {}) == None
  {
    assert Initial({}) == map[];
    RunOfShared({K}, map[], 0);
    RunOfShared({}, map[], 0);
    RequireC({K});
    RequireC({});
  }

  lemma {:induction false} RunOfKey(keys: set<Key>, c: map<Permission, Status>, depth: nat)
    requires B !in c && Wildcard(B) !in c && depth < 3
    ensures Visit(Shared(keys), Account(B, 1), State({}, c), depth) ==
            if K in keys then (1, State({K}, c[B := Satisfied])) else (0, State({}, c[B := Unsatisfied]))
  {
    var st := State({}, c[B := BeingEvaluated]);
    assert Factors(BY_KEY) == [HasKey(K, 1)] && {} + {K} == {K};
    SortedPair(HasKey(K, 1), HasKey(K, 1));
    ScanOne(Shared(keys), HasKey(K, 1), 1, 0, st, depth + 1);
    assert c[B := BeingEvaluated][B := Satisfied] == c[B := Satisfied];
    assert c[B := BeingEvaluated][B := Unsatisfied] == c[B := Unsatisfied];
  }

  lemma {:induction false} RunOfMore(keys: set<Key>, c: map<Permission, Status>, depth: nat)
    requires A !in c && Wildcard(A) !in c && B !in c && Wildcard(B) !in c && depth < 2
    ensures Visit(Shared(keys), Account(A, 2), State({}, c), depth) ==
            (0, State({}, c[A := Unsatisfied][B := if K in keys then Satisfied else Unsatisfied]))
  {
    hide Scan, Sorted;
    var c', s := c[A := BeingEvaluated], if K in keys then Satisfied else Unsatisfied;
    RunOfKey(keys, c', depth + 1);
    assert Factors(MORE_THAN_B) == [Account(B, 1)];
    SortedPair(Account(B, 1), Account(B, 1));
    ScanOne(Shared(keys), Account(B, 1), 2, 0, State({}, c'), depth + 1);
    assert Check(Shared(keys), MORE_THAN_B, State({}, c'), depth + 1) == (false, State({}, c'[B := s]));
    assert c'[B := s][A := Unsatisfied] == c[A := Unsatisfied][B := s];
  }

  lemma {:induction false} RunOfShared(keys: set<Key>, c: map<Permission, Status>, depth: nat)
    requires A !in c && Wildcard(A) !in c && B !in c && Wildcard(B) !in c && depth < 2
    ensures Check(Shared(keys), A_OR_B, State({}, c), depth) ==
            (K in keys, State({}, c[A := Unsatisfied][B := if K in keys then Satisfied else Unsatisfied]))
  {
    var st := State({}, c[A := Unsatisfied][B := if K in keys then Satisfied else Unsatisfied]);
    RunOfMore(keys, c, depth);
    assert Factors(A_OR_B) == [Account(A, 2), Account(B, 1)];
    SortedPair(Account(A, 2), Account(B, 1));
    ScanTwo(Shared(keys), Account(A, 2), Account(B, 1), 1, State({}, c), depth);
    ScanOne(Shared(keys), Account(B, 1), 1, 0, st, depth);
    assert Visit(Shared(keys), Account(B, 1), st, depth) == (if K in keys then 1 else 0, st);
  }

  lemma {:induction false} RequireC(keys: set<Key>)
    ensures Required(Shared(keys), [C], {}) == if K in keys then Some({}) else None
  {
    hide Check;
    var c := map[C := BeingEvaluated];
    assert Initial({}) == map[] && Mark(State({}, map[]), C, BeingEvaluated) == State({}, c);
    RunOfShared(keys, c, 1);
    assert Visit(Shared(keys), Account(C, 1), State({}, map[]), 0).0 == if K in keys then 1 else 0;
    assert Grant(Shared(keys), {}, C, {}) == (K in keys, {});
    assert [C][1..] == [];
  }
}
