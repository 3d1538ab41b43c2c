/** Exactness of the authority check, asked only of the permissions that matter to it: cycles and
    long chains elsewhere, or behind a provided permission, do no harm. */
module AuthorityLocal {
  import opened Lists
  import opened Authority
  import opened AuthorityLaws

  ghost function Restrict(env: Env, D: set<Permission>): Env {
    env.(auths := map p | p in env.auths && p in D :: env.auths[p])
  }

  /** A counted permission with an authority is in `D`, unless it is granted without looking. */
  ghost predicate Inside(env: Env, provided: set<Permission>, D: set<Permission>, f: Factor) {
    f.Account? && f.permission in env.auths ==> f.permission in D || Granted(provided, f.permission)
  }

  ghost predicate AllInside(env: Env, provided: set<Permission>, D: set<Permission>, fs: seq<Factor>) {
    forall f :: f in fs ==> Inside(env, provided, D, f)
  }

  /** `D` is closed under what its authorities count, and without cycles and within the limit. */
  ghost predicate Supported(env: Env, provided: set<Permission>, D: set<Permission>, height: map<Permission, nat>) {
    && Named(env)
    && (forall p :: p in env.auths && p in D ==> AllInside(env, provided, D, Factors(env.auths[p])))
    && Layered(Restrict(env, D), height)
  }

  // ----- the rest of the database is never looked at

  lemma {:induction false} CheckLocal(env: Env, provided: set<Permission>, D: set<Permission>,
                                      height: map<Permission, nat>, a: Auth, st: State, depth: nat)
    requires depth <= env.limit && Supported(env, provided, D, height) && provided <= st.cache.Keys
    requires AllInside(env, provided, D, Factors(a))
    ensures Check(Restrict(env, D), a, st, depth) == Check(env, a, st, depth)
    decreases env.limit - depth, 2
  {
    SortedKeeps(env, {}, Factors(a));
    ScanLocal(env, provided, D, height, Sorted(Factors(a)), a.threshold, 0, st, depth);
  }

  lemma {:induction false} ScanLocal(env: Env, provided: set<Permission>, D: set<Permission>,
                                     height: map<Permission, nat>, fs: seq<Factor>,
                                     threshold: nat, total: nat, st: State, depth: nat)
    requires depth <= env.limit && Supported(env, provided, D, height) && provided <= st.cache.Keys
    requires AllInside(env, provided, D, fs)
    ensures Scan(Restrict(env, D), fs, threshold, total, st, depth) == Scan(env, fs, threshold, total, st, depth)
    decreases env.limit - depth, 1, |fs|
  {
    hide Supported;
    if fs != [] {
      VisitLocal(env, provided, D, height, fs[0], st, depth);
      VisitGrows(env, fs[0], st, depth);
      var (w, st') := Visit(env, fs[0], st, depth);
      if total + w < threshold {
        ScanLocal(env, provided, D, height, fs[1..], threshold, total + w, st', depth);
      }
    }
  }

  lemma {:induction false} VisitLocal(env: Env, provided: set<Permission>, D: set<Permission>,
                                      height: map<Permission, nat>, f: Factor, st: State, depth: nat)
    requires depth <= env.limit && Supported(env, provided, D, height) && provided <= st.cache.Keys
    requires Inside(env, provided, D, f)
    ensures Visit(Restrict(env, D), f, st, depth) == Visit(env, f, st, depth)
    decreases env.limit - depth, 0
  {
    if f.Account? && StatusInCache(st.cache, f.permission).None? && depth < env.limit && f.permission in env.auths {
      CheckLocal(env, provided, D, height, env.auths[f.permission], Mark(st, f.permission, BeingEvaluated), depth + 1);
    }
  }

  lemma {:induction false} WeightLocal(env: Env, D: set<Permission>, X: set<Permission>, fs: seq<Factor>)
    ensures Weight(Restrict(env, D), X, fs) == Weight(env, X, fs)
  {
    if fs != [] { WeightLocal(env, D, X, fs[1..]); }
  }

  // ----- exactness

  /** The check agrees with every solution of the authorities that matter. */
  lemma {:induction false} SatisfiedExactly(env: Env, provided: set<Permission>, D: set<Permission>,
                                            height: map<Permission, nat>, X: set<Permission>, a: Auth)
    requires Supported(env, provided, D, height) && AllInside(env, provided, D, Factors(a))
    requires Solution(Restrict(env, D), provided, X)
    ensures Check(env, a, State({}, Initial(provided)), 0).0 <==> Suffices(env, X, a)
  {
    hide Factors;
    var st := State({}, Initial(provided));
    forall f | f in Factors(a) ensures Below(Restrict(env, D), height, f, env.limit) {}
    CheckExact(Restrict(env, D), provided, X, height, env.limit, a, st, 0);
    CheckLocal(env, provided, D, height, a, st, 0);
    WeightLocal(env, D, X, Factors(a));
  }

  /** The layers of `D`, with everything outside it granted. */
  ghost function Widest(env: Env, provided: set<Permission>, D: set<Permission>, height: map<Permission, nat>)
    : set<Permission>
  {
    Layer(Restrict(env, D), provided, height, env.limit) + (env.auths.Keys - D)
  }

  /** What is granted outside `D` cannot be told from inside. */
  lemma {:induction false} WidestAgrees(env: Env, provided: set<Permission>, D: set<Permission>,
                                        height: map<Permission, nat>, fs: seq<Factor>)
    requires Supported(env, provided, D, height) && AllInside(env, provided, D, fs)
    ensures Weight(env, Widest(env, provided, D, height), fs)
         == Weight(env, Layer(Restrict(env, D), provided, height, env.limit), fs)
  {
    hide Layer, Factors, Layered;
    var X, Z := Layer(Restrict(env, D), provided, height, env.limit), Widest(env, provided, D, height);
    ProvidedStay(Restrict(env, D), provided, height, env.limit);
    forall f | f in fs ensures Holds(env, Z, f) <==> Holds(env, X, f) {
      assert Inside(env, provided, D, f);
      if f.Account? { assert Wildcard(f.permission) !in env.auths; }
    }
    WeightAgrees(env, Z, X, fs);
  }

  lemma {:induction false} ProvidedStay(env: Env, provided: set<Permission>, height: map<Permission, nat>, n: nat)
    ensures provided <= Layer(env, provided, height, n)
  {
    if n > 0 { ProvidedStay(env, provided, height, n - 1); }
  }

  lemma {:induction false} WidestIsClosed(env: Env, provided: set<Permission>, D: set<Permission>,
                                          height: map<Permission, nat>)
    requires Supported(env, provided, D, height)
    ensures Closed(env, provided, Widest(env, provided, D, height))
    ensures Solution(Restrict(env, D), provided, Layer(Restrict(env, D), provided, height, env.limit))
  {
    hide Layer, Factors, Layered;
    var X, Z := Layer(Restrict(env, D), provided, height, env.limit), Widest(env, provided, D, height);
    LayersSolve(Restrict(env, D), provided, height);
    forall p | p in env.auths && Suffices(env, Z, env.auths[p]) ensures p in Z {
      if p in D {
        WidestAgrees(env, provided, D, height, Factors(env.auths[p]));
        WeightLocal(env, D, X, Factors(env.auths[p]));
        assert Suffices(Restrict(env, D), X, env.auths[p]);
      }
    }
  }

  /** Without cycles and within the depth limit among the permissions that matter, the check decides
      derivability: an authority is found satisfied exactly when it suffices in every set of
      permissions closed under all the authorities there are. */
  lemma {:induction false} DerivableExactly(env: Env, provided: set<Permission>, D: set<Permission>,
                                            height: map<Permission, nat>, a: Auth)
    requires Supported(env, provided, D, height) && AllInside(env, provided, D, Factors(a))
    ensures Check(env, a, State({}, Initial(provided)), 0).0
       <==> forall X :: Closed(env, provided, X) ==> Suffices(env, X, a)
  {
    hide Check, Factors, Layer;
    WidestIsClosed(env, provided, D, height);
    SatisfiedExactly(env, provided, D, height, Layer(Restrict(env, D), provided, height, env.limit), a);
    WidestAgrees(env, provided, D, height, Factors(a));
    hide Suffices, Supported;
    if Check(env, a, State({}, Initial(provided)), 0).0 {
      forall Y | Closed(env, provided, Y) ensures Suffices(env, Y, a) {
        SatisfiedIsDerivable(env, provided, Y, a);
      }
    }
  }

  /** The same for a single permission: granted exactly when every closed set grants it. */
  lemma {:induction false} GrantedExactly(env: Env, provided: set<Permission>, D: set<Permission>,
                                          height: map<Permission, nat>, p: Permission)
    requires Supported(env, provided, D, height) && Inside(env, provided, D, Account(p, 1))
    ensures Visit(env, Account(p, 1), State({}, Initial(provided)), 0).0 > 0
       <==> forall X :: Closed(env, provided, X) ==> Granted(X, p)
  {
    hide Visit, Factors, Layer, Suffices;
    var X, f, st := Layer(Restrict(env, D), provided, height, env.limit), Account(p, 1), State({}, Initial(provided));
    WidestIsClosed(env, provided, D, height);
    VisitExact(Restrict(env, D), provided, X, height, env.limit, f, st, 0);
    VisitLocal(env, provided, D, height, f, st, 0);
    assert [f][1..] == [];
    WidestAgrees(env, provided, D, height, [f]);
    if Visit(env, f, st, 0).0 > 0 {
      forall Y | Closed(env, provided, Y) ensures Granted(Y, p) {
        VisitSound(env, provided, Y, f, st, 0);
      }
    }
  }
}
