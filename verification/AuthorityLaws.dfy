/** What the authority check decides.  Sound for every set of authorities, cyclic or not, whatever
    the order of the factors and the state of the cache; exact when permissions do not depend on
    themselves and the depth limit covers the longest chain.  AuthorityLocal asks this only of the
    permissions that matter to the authority checked. */
module AuthorityLaws {
  import opened Lists
  import opened Authority

  // ----- authorities without the checker

  predicate Granted(X: set<Permission>, p: Permission) {
    p in X || Wildcard(p) in X
  }

  ghost predicate Holds(env: Env, X: set<Permission>, f: Factor) {
    match f
    case Wait(seconds, _) => env.delay >= seconds
    case HasKey(key, _) => key in env.keys
    case Account(p, _) => Granted(X, p)
  }

  /** The weight of the factors that hold when exactly the permissions in `X` are granted. */
  ghost function Weight(env: Env, X: set<Permission>, fs: seq<Factor>): nat {
    if fs == [] then 0 else (if Holds(env, X, fs[0]) then fs[0].weight else 0) + Weight(env, X, fs[1..])
  }

  ghost predicate Suffices(env: Env, X: set<Permission>, a: Auth) {
    Factors(a) != [] && Weight(env, X, Factors(a)) >= a.threshold
  }

  /** `X` grants what is provided and everything whose authority suffices. */
  ghost predicate Closed(env: Env, provided: set<Permission>, X: set<Permission>) {
    provided <= X && forall p :: p in env.auths && Suffices(env, X, env.auths[p]) ==> p in X
  }

  // ----- sorting changes no weight

  lemma {:induction false} InsertKeeps(env: Env, X: set<Permission>, f: Factor, fs: seq<Factor>)
    ensures Weight(env, X, Insert(f, fs)) == (if Holds(env, X, f) then f.weight else 0) + Weight(env, X, fs)
    ensures Insert(f, fs) != [] && forall g :: g in Insert(f, fs) ==> g == f || g in fs
  {
    if fs != [] {
      if Before(f, fs[0]) {
        assert ([f] + fs)[1..] == fs;
      } else {
        InsertKeeps(env, X, f, fs[1..]);
        assert ([fs[0]] + Insert(f, fs[1..]))[1..] == Insert(f, fs[1..]);
      }
    }
  }

  lemma {:induction false} WeightLast(env: Env, X: set<Permission>, fs: seq<Factor>)
    requires fs != []
    ensures Weight(env, X, fs) == Weight(env, X, fs[..|fs| - 1])
                                + (if Holds(env, X, fs[|fs| - 1]) then fs[|fs| - 1].weight else 0)
  {
    if |fs| > 1 {
      WeightLast(env, X, fs[1..]);
      assert fs[..|fs| - 1][1..] == fs[1..][..|fs| - 2];
    }
  }

  lemma {:induction false} SortedKeeps(env: Env, X: set<Permission>, fs: seq<Factor>)
    ensures Weight(env, X, Sorted(fs)) == Weight(env, X, fs)
    ensures Sorted(fs) == [] <==> fs == []
    ensures forall g :: g in Sorted(fs) ==> g in fs
  {
    if fs != [] {
      var last, rest := fs[|fs| - 1], fs[..|fs| - 1];
      SortedKeeps(env, X, rest);
      InsertKeeps(env, X, last, Sorted(rest));
      WeightLast(env, X, fs);
    }
  }

  ghost predicate Ordered(fs: seq<Factor>) {
    forall i, j :: 0 <= i < j < |fs| ==> !Before(fs[j], fs[i])
  }

  /** The factors tried are the authority's, heaviest first; equal weights put waits before keys
      before accounts. */
  lemma {:induction false} SortedInOrder(fs: seq<Factor>)
    ensures multiset(Sorted(fs)) == multiset(fs) && Ordered(Sorted(fs))
  {
    if fs != [] {
      var last, rest := fs[|fs| - 1], fs[..|fs| - 1];
      SortedInOrder(rest);
      InsertPermutes(last, Sorted(rest));
      InsertInOrder(last, Sorted(rest));
      assert fs == rest + [last];
    }
  }

  lemma {:induction false} InsertPermutes(f: Factor, fs: seq<Factor>)
    ensures multiset(Insert(f, fs)) == multiset(fs) + multiset{f}
  {
    if fs != [] && !Before(f, fs[0]) {
      InsertPermutes(f, fs[1..]);
      assert fs == [fs[0]] + fs[1..];
    }
  }

  lemma {:induction false} InsertInOrder(f: Factor, fs: seq<Factor>)
    requires Ordered(fs)
    ensures Ordered(Insert(f, fs)) && forall g :: g in Insert(f, fs) ==> g == f || g in fs
  {
    if fs != [] && !Before(f, fs[0]) {
      var rest := Insert(f, fs[1..]);
      InsertInOrder(f, fs[1..]);
      forall j | 0 <= j < |rest| ensures !Before(rest[j], fs[0]) {
        if rest[j] in fs[1..] {
          var k :| 0 <= k < |fs[1..]| && fs[1..][k] == rest[j];
          assert fs[k + 1] == rest[j];
        }
      }
    }
  }

  // ----- soundness

  ghost predicate CacheSound(X: set<Permission>, cache: map<Permission, Status>) {
    forall p :: p in cache && cache[p] == Satisfied ==> p in X
  }

  lemma {:induction false} CheckSound(env: Env, provided: set<Permission>, X: set<Permission>, a: Auth, st: State,
                                      depth: nat)
    requires depth <= env.limit && Closed(env, provided, X) && CacheSound(X, st.cache)
    ensures var (ok, st') := Check(env, a, st, depth); CacheSound(X, st'.cache) && (ok ==> Suffices(env, X, a))
    decreases env.limit - depth, 2
  {
    ScanSound(env, provided, X, Sorted(Factors(a)), a.threshold, 0, st, depth);
    SortedKeeps(env, X, Factors(a));
  }

  lemma {:induction false} ScanSound(env: Env, provided: set<Permission>, X: set<Permission>, fs: seq<Factor>,
                                     threshold: nat, total: nat, st: State, depth: nat)
    requires depth <= env.limit && Closed(env, provided, X) && CacheSound(X, st.cache)
    ensures var (ok, st') := Scan(env, fs, threshold, total, st, depth);
            CacheSound(X, st'.cache) && (ok ==> fs != [] && total + Weight(env, X, fs) >= threshold)
    decreases env.limit - depth, 1, |fs|
  {
    if fs != [] {
      VisitSound(env, provided, X, fs[0], st, depth);
      var (w, st') := Visit(env, fs[0], st, depth);
      if total + w < threshold { ScanSound(env, provided, X, fs[1..], threshold, total + w, st', depth); }
    }
  }

  lemma {:induction false} VisitSound(env: Env, provided: set<Permission>, X: set<Permission>, f: Factor, st: State,
                                      depth: nat)
    requires depth <= env.limit && Closed(env, provided, X) && CacheSound(X, st.cache)
    ensures var (w, st') := Visit(env, f, st, depth);
            CacheSound(X, st'.cache) && w <= (if Holds(env, X, f) then f.weight else 0)
    decreases env.limit - depth, 0
  {
    if f.Account? && StatusInCache(st.cache, f.permission).None? && depth < env.limit && f.permission in env.auths {
      var p := f.permission;
      CheckSound(env, provided, X, env.auths[p], Mark(st, p, BeingEvaluated), depth + 1);
    }
  }

  /** Whatever is found satisfied is derivable: it holds in every set of permissions closed under the
      authorities, in particular in the least one. */
  lemma {:induction false} SatisfiedIsDerivable(env: Env, provided: set<Permission>, X: set<Permission>, a: Auth)
    requires Closed(env, provided, X) && Check(env, a, State({}, Initial(provided)), 0).0
    ensures Suffices(env, X, a)
  {
    CheckSound(env, provided, X, a, State({}, Initial(provided)), 0);
  }

  // ----- the used keys

  lemma {:induction false} CheckKeys(env: Env, a: Auth, st: State, depth: nat)
    requires depth <= env.limit && st.used <= env.keys
    ensures var (ok, st') := Check(env, a, st, depth); st.used <= st'.used <= env.keys && (!ok ==> st'.used == st.used)
    decreases env.limit - depth, 2
  {
    ScanKeys(env, Sorted(Factors(a)), a.threshold, 0, st, depth);
  }

  lemma {:induction false} ScanKeys(env: Env, fs: seq<Factor>, threshold: nat, total: nat, st: State, depth: nat)
    requires depth <= env.limit && st.used <= env.keys
    ensures st.used <= Scan(env, fs, threshold, total, st, depth).1.used <= env.keys
    decreases env.limit - depth, 1, |fs|
  {
    if fs != [] {
      VisitKeys(env, fs[0], st, depth);
      var (w, st') := Visit(env, fs[0], st, depth);
      if total + w < threshold { ScanKeys(env, fs[1..], threshold, total + w, st', depth); }
    }
  }

  lemma {:induction false} VisitKeys(env: Env, f: Factor, st: State, depth: nat)
    requires depth <= env.limit && st.used <= env.keys
    ensures var (w, st') := Visit(env, f, st, depth);
            st.used <= st'.used <= env.keys && (w < f.weight ==> st'.used == st.used)
    decreases env.limit - depth, 0
  {
    if f.Account? && StatusInCache(st.cache, f.permission).None? && depth < env.limit && f.permission in env.auths {
      CheckKeys(env, env.auths[f.permission], Mark(st, f.permission, BeingEvaluated), depth + 1);
    }
  }

  // ----- the cache only grows

  /** Statuses already in the cache stay, and no evaluation is left open. */
  ghost predicate Grows(before: map<Permission, Status>, after: map<Permission, Status>) {
    && (forall p :: p in before ==> p in after && after[p] == before[p])
    && (forall p :: p in after && p !in before ==> after[p] != BeingEvaluated)
  }

  lemma {:induction false} CheckGrows(env: Env, a: Auth, st: State, depth: nat)
    requires depth <= env.limit
    ensures Grows(st.cache, Check(env, a, st, depth).1.cache)
    decreases env.limit - depth, 2
  {
    ScanGrows(env, Sorted(Factors(a)), a.threshold, 0, st, depth);
  }

  lemma {:induction false} ScanGrows(env: Env, fs: seq<Factor>, threshold: nat, total: nat, st: State, depth: nat)
    requires depth <= env.limit
    ensures Grows(st.cache, Scan(env, fs, threshold, total, st, depth).1.cache)
    decreases env.limit - depth, 1, |fs|
  {
    if fs != [] {
      VisitGrows(env, fs[0], st, depth);
      var (w, st') := Visit(env, fs[0], st, depth);
      if total + w < threshold { ScanGrows(env, fs[1..], threshold, total + w, st', depth); }
    }
  }

  lemma {:induction false} VisitGrows(env: Env, f: Factor, st: State, depth: nat)
    requires depth <= env.limit
    ensures Grows(st.cache, Visit(env, f, st, depth).1.cache)
    decreases env.limit - depth, 0
  {
    if f.Account? && StatusInCache(st.cache, f.permission).None? && depth < env.limit && f.permission in env.auths {
      CheckGrows(env, env.auths[f.permission], Mark(st, f.permission, BeingEvaluated), depth + 1);
    }
  }

  // ----- exactness without cycles

  /** `X` is a solution: a permission is granted exactly when provided or when its authority suffices. */
  ghost predicate Solution(env: Env, provided: set<Permission>, X: set<Permission>) {
    forall p :: p in X <==> p in provided || (p in env.auths && Suffices(env, X, env.auths[p]))
  }

  ghost predicate Named(env: Env) {
    forall p :: p in env.auths ==> p.name != Name("")
  }

  /** Permissions are named, and each counts only permissions of smaller height, below the limit. */
  ghost predicate Layered(env: Env, height: map<Permission, nat>) {
    && Named(env)
    && (forall p :: p in env.auths ==> p in height && height[p] < env.limit)
    && (forall p, f :: p in env.auths && f in Factors(env.auths[p]) ==> Below(env, height, f, height[p]))
  }

  ghost predicate Below(env: Env, height: map<Permission, nat>, f: Factor, b: nat) {
    f.Account? && f.permission in env.auths && f.permission in height ==> height[f.permission] < b
  }

  /** The cache tells the truth about `X`, and what is being evaluated is at height `b` or above. */
  ghost predicate CacheExact(env: Env, provided: set<Permission>, X: set<Permission>, height: map<Permission, nat>,
                             b: nat, cache: map<Permission, Status>)
  {
    && (forall p :: p in provided ==> p in cache && cache[p] == Satisfied)
    && (forall p :: p in cache ==> p in provided || p in env.auths)
    && (forall p :: p in cache ==> match cache[p]
          case Satisfied => p in X
          case Unsatisfied => p !in X && Wildcard(p) !in provided
          case BeingEvaluated => p in env.auths && p in height && b <= height[p] && Wildcard(p) !in provided)
  }

  lemma {:induction false} CheckExact(env: Env, provided: set<Permission>, X: set<Permission>,
                                      height: map<Permission, nat>, b: nat, a: Auth, st: State, depth: nat)
    requires Layered(env, height) && Solution(env, provided, X) && CacheExact(env, provided, X, height, b, st.cache)
    requires (forall f :: f in Factors(a) ==> Below(env, height, f, b)) && depth + b <= env.limit
    ensures var (ok, st') := Check(env, a, st, depth);
            CacheExact(env, provided, X, height, b, st'.cache) && (ok <==> Suffices(env, X, a))
    decreases env.limit - depth, 2
  {
    SortedKeeps(env, X, Factors(a));
    ScanExact(env, provided, X, height, b, Sorted(Factors(a)), a.threshold, 0, st, depth);
  }

  lemma {:induction false} ScanExact(env: Env, provided: set<Permission>, X: set<Permission>,
                                     height: map<Permission, nat>, b: nat, fs: seq<Factor>, threshold: nat, total: nat,
                                     st: State, depth: nat)
    requires Layered(env, height) && Solution(env, provided, X) && CacheExact(env, provided, X, height, b, st.cache)
    requires (forall f :: f in fs ==> Below(env, height, f, b)) && depth + b <= env.limit
    ensures var (ok, st') := Scan(env, fs, threshold, total, st, depth);
            && CacheExact(env, provided, X, height, b, st'.cache)
            && (ok <==> fs != [] && total + Weight(env, X, fs) >= threshold)
    decreases env.limit - depth, 1, |fs|
  {
    if fs != [] {
      VisitExact(env, provided, X, height, b, fs[0], st, depth);
      var (w, st') := Visit(env, fs[0], st, depth);
      if total + w < threshold { ScanExact(env, provided, X, height, b, fs[1..], threshold, total + w, st', depth); }
    }
  }

  lemma {:induction false} VisitExact(env: Env, provided: set<Permission>, X: set<Permission>,
                                      height: map<Permission, nat>, b: nat, f: Factor, st: State, depth: nat)
    requires Layered(env, height) && Solution(env, provided, X) && CacheExact(env, provided, X, height, b, st.cache)
    requires Below(env, height, f, b) && depth + b <= env.limit
    ensures var (w, st') := Visit(env, f, st, depth);
            CacheExact(env, provided, X, height, b, st'.cache) && w == (if Holds(env, X, f) then f.weight else 0)
    decreases env.limit - depth, 0, 1
  {
    if f.Account? {
      var p := f.permission;
      assert Wildcard(p) !in env.auths && Wildcard(Wildcard(p)) == Wildcard(p);
      if StatusInCache(st.cache, p).None? && p in env.auths {
        EvaluateExact(env, provided, X, height, b, p, st, depth);
      }
    }
  }

  lemma {:induction false} EvaluateExact(env: Env, provided: set<Permission>, X: set<Permission>,
                                         height: map<Permission, nat>, b: nat, p: Permission, st: State, depth: nat)
    requires Layered(env, height) && Solution(env, provided, X) && CacheExact(env, provided, X, height, b, st.cache)
    requires p in env.auths && height[p] < b && depth + b <= env.limit && StatusInCache(st.cache, p).None?
    ensures var (ok, st') := Check(env, env.auths[p], Mark(st, p, BeingEvaluated), depth + 1);
            && (ok <==> p in X)
            && CacheExact(env, provided, X, height, b, Mark(st', p, if ok then Satisfied else Unsatisfied).cache)
    ensures Granted(X, p) <==> p in X
    decreases env.limit - depth, 0, 0
  {
    hide Factors, Suffices;
    var start := Mark(st, p, BeingEvaluated);
    assert Wildcard(p) !in env.auths;
    assert forall f :: f in Factors(env.auths[p]) ==> Below(env, height, f, height[p]);
    CheckExact(env, provided, X, height, height[p], env.auths[p], start, depth + 1);
    CheckGrows(env, env.auths[p], start, depth + 1);
    var (ok, st') := Check(env, env.auths[p], start, depth + 1);
    hide Check, Layered;
    Reopened(env, provided, X, height, b, p, st.cache, st'.cache, if ok then Satisfied else Unsatisfied);
  }

  /** Recording the outcome restores the caller's view of the cache. */
  lemma {:induction false} Reopened(env: Env, provided: set<Permission>, X: set<Permission>,
                                    height: map<Permission, nat>, b: nat, p: Permission,
                                    before: map<Permission, Status>, after: map<Permission, Status>, s: Status)
    requires CacheExact(env, provided, X, height, b, before) && p !in before && Wildcard(p) !in before
        && p in env.auths && p in height
    requires CacheExact(env, provided, X, height, height[p], after) && Grows(before[p := BeingEvaluated], after)
    requires s == if p in X then Satisfied else Unsatisfied
    ensures CacheExact(env, provided, X, height, b, after[p := s])
  {
    assert p !in provided && Wildcard(p) !in provided;
  }

  // ----- and there is a solution: granting layer by layer

  ghost function Layer(env: Env, provided: set<Permission>, height: map<Permission, nat>, n: nat): set<Permission> {
    if n == 0 then provided
    else
      var X := Layer(env, provided, height, n - 1);
      X + set p | p in env.auths && p in height && height[p] == n - 1 && Suffices(env, X, env.auths[p])
  }

  /** A permission's place is settled at its own layer. */
  lemma {:induction false} LayerStable(env: Env, provided: set<Permission>, height: map<Permission, nat>,
                                       p: Permission, m: nat, n: nat)
    requires m <= n && (p in env.auths && p in height ==> height[p] < m)
    ensures p in Layer(env, provided, height, m) <==> p in Layer(env, provided, height, n)
    decreases n
  {
    hide Suffices;
    if m < n { LayerStable(env, provided, height, p, m, n - 1); }
  }

  lemma {:induction false} WeightAgrees(env: Env, X: set<Permission>, Y: set<Permission>, fs: seq<Factor>)
    requires forall f :: f in fs ==> (Holds(env, X, f) <==> Holds(env, Y, f))
    ensures Weight(env, X, fs) == Weight(env, Y, fs)
  {
    if fs != [] { WeightAgrees(env, X, Y, fs[1..]); }
  }

  /** What a permission's authority counts is settled below its layer. */
  lemma {:induction false} SufficesStable(env: Env, provided: set<Permission>, height: map<Permission, nat>,
                                          p: Permission, n: nat)
    requires Layered(env, height) && p in env.auths && height[p] <= n
    ensures Suffices(env, Layer(env, provided, height, height[p]), env.auths[p])
       <==> Suffices(env, Layer(env, provided, height, n), env.auths[p])
  {
    hide Layer, Factors;
    var X, Y, fs := Layer(env, provided, height, height[p]), Layer(env, provided, height, n), Factors(env.auths[p]);
    forall f | f in fs ensures Holds(env, X, f) <==> Holds(env, Y, f) {
      assert Below(env, height, f, height[p]);
      if f.Account? {
        LayerStable(env, provided, height, f.permission, height[p], n);
        LayerStable(env, provided, height, Wildcard(f.permission), height[p], n);
      }
    }
    WeightAgrees(env, X, Y, fs);
  }

  lemma {:induction false} LayersSolve(env: Env, provided: set<Permission>, height: map<Permission, nat>)
    requires Layered(env, height)
    ensures Solution(env, provided, Layer(env, provided, height, env.limit))
  {
    hide Suffices, Factors;
    var X := Layer(env, provided, height, env.limit);
    forall p ensures p in X <==> p in provided || (p in env.auths && Suffices(env, X, env.auths[p])) {
      if p in env.auths {
        SufficesStable(env, provided, height, p, env.limit);
        LayerStable(env, provided, height, p, height[p] + 1, env.limit);
        ProvidedBelow(env, provided, height, p, height[p]);
      } else {
        LayerStable(env, provided, height, p, 0, env.limit);
      }
    }
  }

  /** Below its own layer a permission is granted only if provided. */
  lemma {:induction false} ProvidedBelow(env: Env, provided: set<Permission>, height: map<Permission, nat>,
                                         p: Permission, n: nat)
    requires p in env.auths && p in height && n <= height[p]
    ensures p in Layer(env, provided, height, n) <==> p in provided
  {
    hide Suffices;
    if n > 0 { ProvidedBelow(env, provided, height, p, n - 1); }
  }
}
