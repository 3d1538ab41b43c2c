/** The authority check without its cache: every permission is evaluated where it is counted.  The
    check refines this plain form when no permission is counted twice, and then the keys it marks as
    used are enough on their own. */
module AuthorityPlain {
  import opened Lists
  import opened Authority
  import opened AuthorityLaws

  // ----- the plain form

  function Plain(env: Env, provided: set<Permission>, a: Auth, d: nat): (bool, set<Key>)
    decreases d, 2
  {
    PlainScan(env, provided, Sorted(Factors(a)), a.threshold, 0, d)
  }

  /** Keys count as used only if the threshold is reached. */
  function PlainScan(env: Env, provided: set<Permission>, fs: seq<Factor>, threshold: nat, total: nat, d: nat)
    : (bool, set<Key>)
    decreases d, 1, |fs|
  {
    if fs == [] then (false, {})
    else
      var (w, ks) := PlainVisit(env, provided, fs[0], d);
      if total + w >= threshold then (true, ks)
      else
        var (ok, more) := PlainScan(env, provided, fs[1..], threshold, total + w, d);
        (ok, if ok then ks + more else {})
  }

  function PlainVisit(env: Env, provided: set<Permission>, f: Factor, d: nat): (nat, set<Key>)
    decreases d, 0
  {
    match f
    case Wait(seconds, w) => (if env.delay >= seconds then w else 0, {})
    case HasKey(key, w) => if key in env.keys then (w, {key}) else (0, {})
    case Account(p, w) =>
      if Granted(provided, p) then (w, {})
      else if d > 0 && p in env.auths then
        var (ok, ks) := Plain(env, provided, env.auths[p], d - 1);
        (if ok then w else 0, ks)
      else (0, {})
  }

  /** The permissions with an authority that are counted, directly or through others, down to depth
      `d`; one entry for each time. */
  function Counted(env: Env, provided: set<Permission>, fs: seq<Factor>, d: nat): seq<Permission>
    decreases d, |fs|
  {
    if fs == [] then [] else CountedBy(env, provided, fs[0], d) + Counted(env, provided, fs[1..], d)
  }

  function CountedBy(env: Env, provided: set<Permission>, f: Factor, d: nat): seq<Permission>
    decreases d, 0
  {
    if !f.Account? || Granted(provided, f.permission) || f.permission !in env.auths then []
    else if d == 0 then [f.permission]
    else [f.permission] + Counted(env, provided, Sorted(Factors(env.auths[f.permission])), d - 1)
  }

  // ----- the used keys of the plain form are enough

  /** More keys never hurt, and the keys marked as used are as good as all of them. */
  lemma {:induction false} PlainKeysSuffice(env: Env, provided: set<Permission>, keys: set<Key>, a: Auth, d: nat)
    requires Plain(env, provided, a, d).0 && Plain(env, provided, a, d).1 <= keys
    ensures Plain(env.(keys := keys), provided, a, d).0
    decreases d, 2
  {
    ScanKeysSuffice(env, provided, keys, Sorted(Factors(a)), a.threshold, 0, 0, d);
  }

  lemma {:induction false} ScanKeysSuffice(env: Env, provided: set<Permission>, keys: set<Key>, fs: seq<Factor>,
                                           threshold: nat, total: nat, total': nat, d: nat)
    requires PlainScan(env, provided, fs, threshold, total, d).0 && total <= total'
    requires PlainScan(env, provided, fs, threshold, total, d).1 <= keys
    ensures PlainScan(env.(keys := keys), provided, fs, threshold, total', d).0
    decreases d, 1, |fs|
  {
    var (w, ks) := PlainVisit(env, provided, fs[0], d);
    VisitKeysSuffice(env, provided, keys, fs[0], d);
    var w' := PlainVisit(env.(keys := keys), provided, fs[0], d).0;
    if total + w < threshold && total' + w' < threshold {
      ScanKeysSuffice(env, provided, keys, fs[1..], threshold, total + w, total' + w', d);
    }
  }

  lemma {:induction false} VisitKeysSuffice(env: Env, provided: set<Permission>, keys: set<Key>, f: Factor, d: nat)
    requires PlainVisit(env, provided, f, d).1 <= keys
    ensures PlainVisit(env, provided, f, d).0 <= PlainVisit(env.(keys := keys), provided, f, d).0
    decreases d, 0
  {
    if f.Account? && d > 0 && f.permission in env.auths {
      var a := env.auths[f.permission];
      if Plain(env, provided, a, d - 1).0 && Plain(env, provided, a, d - 1).1 <= keys {
        PlainKeysSuffice(env, provided, keys, a, d - 1);
      }
    }
  }

  // ----- the check refines the plain form

  /** Provided permissions are satisfied; the others in the cache are ones that had to be evaluated. */
  ghost predicate Evaluated(env: Env, provided: set<Permission>, cache: map<Permission, Status>) {
    && (forall p :: p in provided ==> p in cache && cache[p] == Satisfied)
    && (forall p :: p in cache && p !in provided ==> p in env.auths && Wildcard(p) !in provided)
  }

  ghost predicate Fresh(counted: seq<Permission>, cache: map<Permission, Status>) {
    NoDup(counted) && forall p :: p in counted ==> p !in cache
  }

  /** `after` has only counted permissions that `before` has not. */
  ghost predicate Adds(before: map<Permission, Status>, counted: seq<Permission>, after: map<Permission, Status>) {
    forall p :: p in after ==> p in before || p in counted
  }

  lemma {:induction false} CheckIsPlain(env: Env, provided: set<Permission>, a: Auth, st: State, depth: nat)
    requires depth <= env.limit && Named(env) && Evaluated(env, provided, st.cache)
    requires Fresh(Counted(env, provided, Sorted(Factors(a)), env.limit - depth), st.cache)
    ensures var (ok, st') := Check(env, a, st, depth);
            var (ok', ks) := Plain(env, provided, a, env.limit - depth);
            && ok == ok' && st'.used == st.used + ks && Evaluated(env, provided, st'.cache)
            && Adds(st.cache, Counted(env, provided, Sorted(Factors(a)), env.limit - depth), st'.cache)
    decreases env.limit - depth, 2
  {
    ScanIsPlain(env, provided, Sorted(Factors(a)), a.threshold, 0, st, depth);
  }

  lemma {:induction false} ScanIsPlain(env: Env, provided: set<Permission>, fs: seq<Factor>, threshold: nat,
                                       total: nat, st: State, depth: nat)
    requires depth <= env.limit && Named(env) && Evaluated(env, provided, st.cache)
    requires Fresh(Counted(env, provided, fs, env.limit - depth), st.cache)
    ensures var (ok, st') := Scan(env, fs, threshold, total, st, depth);
            var (ok', ks) := PlainScan(env, provided, fs, threshold, total, env.limit - depth);
            && ok == ok' && (ok ==> st'.used == st.used + ks) && (!ok ==> ks == {})
            && Evaluated(env, provided, st'.cache)
            && Adds(st.cache, Counted(env, provided, fs, env.limit - depth), st'.cache)
    decreases env.limit - depth, 1, |fs|
  {
    if fs != [] {
      var d := env.limit - depth;
      var first, rest := CountedBy(env, provided, fs[0], d), Counted(env, provided, fs[1..], d);
      Apart(first, rest);
      VisitIsPlain(env, provided, fs[0], st, depth);
      var (w, st') := Visit(env, fs[0], st, depth);
      if total + w < threshold {
        ScanIsPlain(env, provided, fs[1..], threshold, total + w, st', depth);
      }
    }
  }

  lemma {:induction false} Apart(s: seq<Permission>, t: seq<Permission>)
    requires NoDup(s + t)
    ensures NoDup(s) && NoDup(t) && forall p :: p in s ==> p !in t
  {
    assert s == (s + t)[..|s|] && t == (s + t)[|s|..];
  }

  lemma {:induction false} VisitIsPlain(env: Env, provided: set<Permission>, f: Factor, st: State, depth: nat)
    requires depth <= env.limit && Named(env) && Evaluated(env, provided, st.cache)
    requires Fresh(CountedBy(env, provided, f, env.limit - depth), st.cache)
    ensures var (w, st') := Visit(env, f, st, depth);
            var (w', ks) := PlainVisit(env, provided, f, env.limit - depth);
            && w == w' && st'.used == st.used + ks && Evaluated(env, provided, st'.cache)
            && Adds(st.cache, CountedBy(env, provided, f, env.limit - depth), st'.cache)
    decreases env.limit - depth, 0
  {
    if f.Account? {
      var p := f.permission;
      assert Wildcard(p) !in env.auths;
      if !Granted(provided, p) && p in env.auths && depth < env.limit {
        var start := Mark(st, p, BeingEvaluated);
        Apart([p], Counted(env, provided, Sorted(Factors(env.auths[p])), env.limit - depth - 1));
        CheckIsPlain(env, provided, env.auths[p], start, depth + 1);
      }
    }
  }

  // ----- a whole call, with a fresh cache

  lemma {:induction false} CountedIsUnprovided(env: Env, provided: set<Permission>, fs: seq<Factor>, d: nat)
    ensures forall p :: p in Counted(env, provided, fs, d) ==> p !in provided
    decreases d, |fs|
  {
    if fs != [] {
      CountedByIsUnprovided(env, provided, fs[0], d);
      CountedIsUnprovided(env, provided, fs[1..], d);
    }
  }

  lemma {:induction false} CountedByIsUnprovided(env: Env, provided: set<Permission>, f: Factor, d: nat)
    ensures forall p :: p in CountedBy(env, provided, f, d) ==> p !in provided
    decreases d, 0
  {
    if f.Account? && f.permission in env.auths && d > 0 {
      CountedIsUnprovided(env, provided, Sorted(Factors(env.auths[f.permission])), d - 1);
    }
  }

  /** No permission is counted twice on the way from `a` down to the depth limit. */
  ghost predicate CountedOnce(env: Env, provided: set<Permission>, a: Auth) {
    NoDup(Counted(env, provided, Sorted(Factors(a)), env.limit))
  }

  /** Then the cache and the reverting of keys make no difference: the outcome and the keys marked
      as used are those of the plain form. */
  lemma {:induction false} RefinesPlain(env: Env, provided: set<Permission>, a: Auth, used: set<Key>)
    requires Named(env) && CountedOnce(env, provided, a)
    ensures var (ok, st) := Check(env, a, State(used, Initial(provided)), 0);
            (ok, st.used) == (Plain(env, provided, a, env.limit).0, used + Plain(env, provided, a, env.limit).1)
  {
    CountedIsUnprovided(env, provided, Sorted(Factors(a)), env.limit);
    CheckIsPlain(env, provided, a, State(used, Initial(provided)), 0);
  }

  /** The keys marked as used are enough: with them alone, or with any more, the authority is
      satisfied again. */
  lemma {:induction false} UsedKeysSuffice(env: Env, provided: set<Permission>, a: Auth, used: set<Key>, keys: set<Key>)
    requires Named(env) && CountedOnce(env, provided, a)
    requires var (ok, st) := Check(env, a, State(used, Initial(provided)), 0); ok && st.used <= keys
    ensures Check(env.(keys := keys), a, State({}, Initial(provided)), 0).0
  {
    hide Check, Plain;
    RefinesPlain(env, provided, a, used);
    PlainKeysSuffice(env, provided, keys, a, env.limit);
    CountedKeyless(env, provided, keys, Sorted(Factors(a)), env.limit);
    RefinesPlain(env.(keys := keys), provided, a, {});
  }

  /** What is counted does not depend on the keys. */
  lemma {:induction false} CountedKeyless(env: Env, provided: set<Permission>, keys: set<Key>, fs: seq<Factor>, d: nat)
    ensures Counted(env.(keys := keys), provided, fs, d) == Counted(env, provided, fs, d)
    decreases d, |fs|
  {
    if fs != [] {
      CountedByKeyless(env, provided, keys, fs[0], d);
      CountedKeyless(env, provided, keys, fs[1..], d);
    }
  }

  lemma {:induction false} CountedByKeyless(env: Env, provided: set<Permission>, keys: set<Key>, f: Factor, d: nat)
    ensures CountedBy(env.(keys := keys), provided, f, d) == CountedBy(env, provided, f, d)
    decreases d, 0
  {
    if f.Account? && f.permission in env.auths && d > 0 {
      CountedKeyless(env, provided, keys, Sorted(Factors(env.auths[f.permission])), d - 1);
    }
  }

  // ----- which keys they are

  /** The weight that `fs` add together. */
  function PlainWeight(env: Env, provided: set<Permission>, fs: seq<Factor>, d: nat): nat {
    if fs == [] then 0 else PlainVisit(env, provided, fs[0], d).0 + PlainWeight(env, provided, fs[1..], d)
  }

  /** The keys that `fs` use together. */
  function PlainKeys(env: Env, provided: set<Permission>, fs: seq<Factor>, d: nat): set<Key> {
    if fs == [] then {} else PlainVisit(env, provided, fs[0], d).1 + PlainKeys(env, provided, fs[1..], d)
  }

  lemma {:induction false} PlainCons(env: Env, provided: set<Permission>, fs: seq<Factor>, d: nat, n: nat)
    requires 0 < n <= |fs|
    ensures PlainWeight(env, provided, fs[..n], d)
         == PlainVisit(env, provided, fs[0], d).0 + PlainWeight(env, provided, fs[1..][..n - 1], d)
    ensures PlainKeys(env, provided, fs[..n], d)
         == PlainVisit(env, provided, fs[0], d).1 + PlainKeys(env, provided, fs[1..][..n - 1], d)
  {
    hide PlainVisit;
    assert fs[..n][0] == fs[0] && fs[..n][1..] == fs[1..][..n - 1];
  }

  lemma {:induction false} PlainScanExact(env: Env, provided: set<Permission>, fs: seq<Factor>, threshold: nat,
                                          total: nat, d: nat) returns (n: nat)
    requires PlainScan(env, provided, fs, threshold, total, d).0
    ensures 0 < n <= |fs|
    ensures PlainScan(env, provided, fs, threshold, total, d).1 == PlainKeys(env, provided, fs[..n], d)
    ensures total + PlainWeight(env, provided, fs[..n], d) >= threshold
    ensures n > 1 ==> total + PlainWeight(env, provided, fs[..n - 1], d) < threshold
    decreases |fs|
  {
    hide PlainVisit;
    var (w, ks) := PlainVisit(env, provided, fs[0], d);
    if total + w >= threshold {
      n := 1;
    } else {
      n := PlainScanExact(env, provided, fs[1..], threshold, total + w, d);
      PlainCons(env, provided, fs, d, n);
      n := n + 1;
    }
    PlainCons(env, provided, fs, d, n);
  }

  /** The keys marked as used are exactly those of the shortest run of factors, heaviest first, that
      reaches the threshold: its provided keys, and those its satisfied permissions use themselves. */
  lemma {:induction false} UsedKeysExactly(env: Env, provided: set<Permission>, a: Auth, used: set<Key>)
    returns (n: nat)
    requires Named(env) && CountedOnce(env, provided, a) && Check(env, a, State(used, Initial(provided)), 0).0
    ensures var fs := Sorted(Factors(a));
            && 0 < n <= |fs|
            && Check(env, a, State(used, Initial(provided)), 0).1.used
               == used + PlainKeys(env, provided, fs[..n], env.limit)
            && PlainWeight(env, provided, fs[..n], env.limit) >= a.threshold
            && (n > 1 ==> PlainWeight(env, provided, fs[..n - 1], env.limit) < a.threshold)
  {
    hide Check, PlainScan, PlainKeys, PlainWeight;
    RefinesPlain(env, provided, a, used);
    n := PlainScanExact(env, provided, Sorted(Factors(a)), a.threshold, 0, env.limit);
  }

  ghost function KeysOf(fs: seq<Factor>): set<Key> {
    if fs == [] then {} else (if fs[0].HasKey? then {fs[0].key} else {}) + KeysOf(fs[1..])
  }

  /** Factors other than accounts are what they seem. */
  lemma {:induction false} DirectIsPlain(env: Env, fs: seq<Factor>, d: nat)
    requires forall f :: f in fs ==> !f.Account?
    ensures PlainWeight(env, {}, fs, d) == Weight(env, {}, fs) && PlainKeys(env, {}, fs, d) == KeysOf(fs) * env.keys
  {
    if fs != [] { DirectIsPlain(env, fs[1..], d); }
  }

  lemma {:induction false} DirectScan(env: Env, fs: seq<Factor>, threshold: nat, total: nat, st: State, depth: nat)
    requires depth <= env.limit && forall f :: f in fs ==> !f.Account?
    ensures var (ok, st') := Scan(env, fs, threshold, total, st, depth);
            var (ok', ks) := PlainScan(env, {}, fs, threshold, total, env.limit - depth);
            ok == ok' && (ok ==> st'.used == st.used + ks)
    decreases |fs|
  {
    if fs != [] {
      var (w, st') := Visit(env, fs[0], st, depth);
      if total + w < threshold { DirectScan(env, fs[1..], threshold, total + w, st', depth); }
    }
  }

  /** In particular, without accounts: the provided keys of that run, whatever is in the cache. */
  lemma {:induction false} DirectKeysExact(env: Env, a: Auth, st: State, depth: nat) returns (n: nat)
    requires depth <= env.limit && a.accounts == [] && Check(env, a, st, depth).0
    ensures var fs := Sorted(Factors(a));
            && 0 < n <= |fs|
            && Check(env, a, st, depth).1.used == st.used + KeysOf(fs[..n]) * env.keys
            && Weight(env, {}, fs[..n]) >= a.threshold
            && (n > 1 ==> Weight(env, {}, fs[..n - 1]) < a.threshold)
  {
    hide PlainScan, Scan, PlainKeys, PlainWeight, KeysOf, Weight;
    var fs, d := Sorted(Factors(a)), env.limit - depth;
    SortedKeeps(env, {}, Factors(a));
    assert forall f :: f in Factors(a) ==> !f.Account?;
    DirectScan(env, fs, a.threshold, 0, st, depth);
    n := PlainScanExact(env, {}, fs, a.threshold, 0, d);
    DirectIsPlain(env, fs[..n], d);
    DirectIsPlain(env, fs[..n - 1], d);
  }

  // ----- the required keys of a transaction

  lemma {:induction false} GrantIsPlain(env: Env, provided: set<Permission>, p: Permission, used: set<Key>)
    requires Named(env) && NoDup(CountedBy(env, provided, Account(p, 1), env.limit))
    ensures var (w, ks) := PlainVisit(env, provided, Account(p, 1), env.limit);
            Grant(env, provided, p, used) == (w > 0, used + ks)
    ensures used <= env.keys ==> Grant(env, provided, p, used).1 <= env.keys
  {
    if used <= env.keys { VisitKeys(env, Account(p, 1), State(used, Initial(provided)), 0); }
    CountedByIsUnprovided(env, provided, Account(p, 1), env.limit);
    VisitIsPlain(env, provided, Account(p, 1), State(used, Initial(provided)), 0);
  }

  /** The keys returned as required are among the candidates and authorize the transaction: signing
      with them, or with any more, every declared authorization is granted again. */
  lemma {:induction false} RequiredKeysSuffice(env: Env, ps: seq<Permission>, used: set<Key>, used': set<Key>,
                                               keys: set<Key>)
    requires Named(env) && forall p :: p in ps ==> NoDup(CountedBy(env, {}, Account(p, 1), env.limit))
    requires Required(env, ps, used).Some? && Required(env, ps, used).value <= keys
    ensures used <= Required(env, ps, used).value && (used <= env.keys ==> Required(env, ps, used).value <= env.keys)
    ensures Required(env.(keys := keys), ps, used').Some?
  {
    hide Grant, Visit, Plain, CountedBy;
    if ps != [] {
      var p, env' := ps[0], env.(keys := keys);
      GrantIsPlain(env, {}, p, used);
      var more, more' := Grant(env, {}, p, used).1, Grant(env', {}, p, used').1;
      RequiredKeysSuffice(env, ps[1..], more, more', keys);
      VisitKeysSuffice(env, {}, keys, Account(p, 1), env.limit);
      CountedByKeyless(env, {}, keys, Account(p, 1), env.limit);
      GrantIsPlain(env', {}, p, used');
    }
  }

  // ----- the answer does not depend on the keys used before

  ghost function Using(used: set<Key>, st: State): State {
    st.(used := used + st.used)
  }

  lemma {:induction false} CheckUsing(env: Env, used: set<Key>, a: Auth, st: State, depth: nat)
    requires depth <= env.limit
    ensures var (ok, st') := Check(env, a, st, depth); Check(env, a, Using(used, st), depth) == (ok, Using(used, st'))
    decreases env.limit - depth, 2
  {
    ScanUsing(env, used, Sorted(Factors(a)), a.threshold, 0, st, depth);
  }

  lemma {:induction false} ScanUsing(env: Env, used: set<Key>, fs: seq<Factor>, threshold: nat, total: nat,
                                     st: State, depth: nat)
    requires depth <= env.limit
    ensures var (ok, st') := Scan(env, fs, threshold, total, st, depth);
            Scan(env, fs, threshold, total, Using(used, st), depth) == (ok, Using(used, st'))
    decreases env.limit - depth, 1, |fs|
  {
    if fs != [] {
      VisitUsing(env, used, fs[0], st, depth);
      var (w, st') := Visit(env, fs[0], st, depth);
      if total + w < threshold { ScanUsing(env, used, fs[1..], threshold, total + w, st', depth); }
    }
  }

  lemma {:induction false} VisitUsing(env: Env, used: set<Key>, f: Factor, st: State, depth: nat)
    requires depth <= env.limit
    ensures var (w, st') := Visit(env, f, st, depth); Visit(env, f, Using(used, st), depth) == (w, Using(used, st'))
    decreases env.limit - depth, 0
  {
    match f
    case Wait(_, _) =>
    case HasKey(key, _) => assert used + (st.used + {key}) == used + st.used + {key};
    case Account(p, _) =>
      if StatusInCache(st.cache, p).None? && depth < env.limit && p in env.auths {
        CheckUsing(env, used, env.auths[p], Mark(st, p, BeingEvaluated), depth + 1);
      }
  }

  lemma {:induction false} GrantUsing(env: Env, provided: set<Permission>, p: Permission, used: set<Key>)
    ensures Grant(env, provided, p, used).0 == Grant(env, provided, p, {}).0
    ensures Grant(env, provided, p, used).1 == used + Grant(env, provided, p, {}).1
  {
    VisitUsing(env, used, Account(p, 1), State({}, Initial(provided)), 0);
    assert Using(used, State({}, Initial(provided))) == State(used, Initial(provided));
  }

  /** The required keys of a transaction: there are some exactly when every declared authorization is
      granted on its own, and then they are the keys these grants use. */
  lemma {:induction false} RequiredExactly(env: Env, ps: seq<Permission>, used: set<Key>)
    ensures Required(env, ps, used).Some? <==> forall p :: p in ps ==> Grant(env, {}, p, {}).0
    ensures Required(env, ps, used).Some? ==>
              forall k :: k in Required(env, ps, used).value <==>
                          k in used || exists p :: p in ps && k in Grant(env, {}, p, {}).1
  {
    hide Grant;
    if ps != [] {
      GrantUsing(env, {}, ps[0], used);
      RequiredExactly(env, ps[1..], Grant(env, {}, ps[0], used).1);
      assert forall p :: p in ps <==> p == ps[0] || p in ps[1..];
    }
  }
}
