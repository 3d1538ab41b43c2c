/** What the order of the factors and the empty permission name mean for the outcome, said by
    weights, kinds of factor and names alone. */
module AuthorityOrder {
  import opened Lists
  import opened Authority
  import opened AuthorityLaws
  import opened AuthorityPlain

  // ----- what an authority asks for

  /** The waits that the delay covers. */
  ghost function WaitWeight(delay: nat, waits: seq<(nat, nat)>): nat {
    if waits == [] then 0 else (if waits[0].0 <= delay then waits[0].1 else 0) + WaitWeight(delay, waits[1..])
  }

  ghost function KeyWeight(provided: set<Key>, keys: seq<(Key, nat)>): nat {
    if keys == [] then 0 else (if keys[0].0 in provided then keys[0].1 else 0) + KeyWeight(provided, keys[1..])
  }

  /** A permission is granted by itself or by the actor's permission with the empty name. */
  ghost function AccountWeight(X: set<Permission>, accounts: seq<(Permission, nat)>): nat {
    if accounts == [] then 0
    else
      var p := accounts[0].0;
      (if p in X || Permission(p.actor, Name("")) in X then accounts[0].1 else 0) + AccountWeight(X, accounts[1..])
  }

  lemma {:induction false} WaitsWeigh(env: Env, X: set<Permission>, waits: seq<(nat, nat)>, fs: seq<Factor>)
    requires |fs| == |waits| && forall i :: 0 <= i < |fs| ==> fs[i] == Wait(waits[i].0, waits[i].1)
    ensures Weight(env, X, fs) == WaitWeight(env.delay, waits)
  {
    if fs != [] { WaitsWeigh(env, X, waits[1..], fs[1..]); }
  }

  lemma {:induction false} KeysWeigh(env: Env, X: set<Permission>, keys: seq<(Key, nat)>, fs: seq<Factor>)
    requires |fs| == |keys| && forall i :: 0 <= i < |fs| ==> fs[i] == HasKey(keys[i].0, keys[i].1)
    ensures Weight(env, X, fs) == KeyWeight(env.keys, keys)
  {
    if fs != [] { KeysWeigh(env, X, keys[1..], fs[1..]); }
  }

  lemma {:induction false} AccountsWeigh(env: Env, X: set<Permission>, accounts: seq<(Permission, nat)>,
                                         fs: seq<Factor>)
    requires |fs| == |accounts| && forall i :: 0 <= i < |fs| ==> fs[i] == Account(accounts[i].0, accounts[i].1)
    ensures Weight(env, X, fs) == AccountWeight(X, accounts)
  {
    if fs != [] { AccountsWeigh(env, X, accounts[1..], fs[1..]); }
  }

  /** An authority suffices when the weights of its covered waits, provided keys and granted accounts
      reach the threshold together; one that lists nothing never does. */
  lemma {:induction false} SufficesByParts(env: Env, X: set<Permission>, a: Auth)
    ensures Suffices(env, X, a) <==>
            && (a.waits != [] || a.keys != [] || a.accounts != [])
            && WaitWeight(env.delay, a.waits) + KeyWeight(env.keys, a.keys) + AccountWeight(X, a.accounts)
               >= a.threshold
  {
    var n, m, fs := |a.waits|, |a.waits| + |a.keys|, Factors(a);
    assert fs == fs[..n] + fs[n..m] + fs[m..];
    WeightConcat(env, X, fs[..n] + fs[n..m], fs[m..]);
    WeightConcat(env, X, fs[..n], fs[n..m]);
    WaitsWeigh(env, X, a.waits, fs[..n]);
    KeysWeigh(env, X, a.keys, fs[n..m]);
    AccountsWeigh(env, X, a.accounts, fs[m..]);
  }

  // ----- the order

  /** Heavier factors are tried first; of equal weight, waits before keys before accounts. */
  lemma {:induction false} TriedInOrder(fs: seq<Factor>, i: nat, j: nat)
    requires i < j < |Sorted(fs)|
    ensures var f, g := Sorted(fs)[i], Sorted(fs)[j];
            && f.weight >= g.weight
            && (f.weight == g.weight && f.Account? ==> g.Account?)
            && (f.weight == g.weight && f.HasKey? ==> !g.Wait?)
  {
    SortedInOrder(fs);
  }

  predicate Alike(f: Factor, g: Factor) {
    f.weight == g.weight && f.Wait? == g.Wait? && f.HasKey? == g.HasKey? && f.Account? == g.Account?
  }

  function Those(fs: seq<Factor>, g: Factor): seq<Factor> {
    if fs == [] then [] else (if Alike(fs[0], g) then [fs[0]] else []) + Those(fs[1..], g)
  }

  /** Factors of the same weight and kind keep the order in which the authority lists them. */
  lemma {:induction false} AlikeInOrder(fs: seq<Factor>, g: Factor)
    ensures Those(Sorted(fs), g) == Those(fs, g)
  {
    if fs != [] {
      var last, rest := fs[|fs| - 1], fs[..|fs| - 1];
      assert Sorted(fs) == Insert(last, Sorted(rest)) && fs == rest + [last];
      hide Those, Alike, Sorted, Insert, Ordered;
      AlikeInOrder(rest, g);
      SortedInOrder(rest);
      InsertLast(last, Sorted(rest), g);
      ThoseConcat(rest, [last], g);
      ThoseOne(last, g);
    }
  }

  lemma {:induction false} ThoseOne(f: Factor, g: Factor)
    ensures Those([f], g) == if Alike(f, g) then [f] else []
  {
    assert [f][1..] == [];
  }

  lemma {:induction false} ThoseConcat(s: seq<Factor>, t: seq<Factor>, g: Factor)
    ensures Those(s + t, g) == Those(s, g) + Those(t, g)
  {
    if s == [] {
      assert s + t == t;
    } else {
      var head := if Alike(s[0], g) then [s[0]] else [];
      assert (s + t)[1..] == s[1..] + t;
      ThoseConcat(s[1..], t, g);
      assert head + (Those(s[1..], g) + Those(t, g)) == head + Those(s[1..], g) + Those(t, g);
    }
  }

  lemma {:induction false} InsertLast(f: Factor, fs: seq<Factor>, g: Factor)
    requires Ordered(fs)
    ensures Those(Insert(f, fs), g) == Those(fs, g) + if Alike(f, g) then [f] else []
  {
    hide Those, Alike;
    var end := if Alike(f, g) then [f] else [];
    if fs == [] {
      assert Insert(f, fs) == [f];
      ThoseOne(f, g);
      ThoseConcat([], [f], g);
      assert [] + [f] == [f];
    } else if Before(f, fs[0]) {
      assert Insert(f, fs) == [f] + fs;
      if Alike(f, g) { NoneAlike(f, fs, g); }
      ThoseOne(f, g);
      ThoseConcat([f], fs, g);
    } else {
      assert Insert(f, fs) == [fs[0]] + Insert(f, fs[1..]) && fs == [fs[0]] + fs[1..];
      InsertLast(f, fs[1..], g);
      hide Insert, Before, Ordered;
      var head, rest := Those([fs[0]], g), Those(fs[1..], g);
      ThoseConcat([fs[0]], fs[1..], g);
      ThoseConcat([fs[0]], Insert(f, fs[1..]), g);
      assert head + (rest + end) == head + rest + end;
    }
  }

  /** A factor that goes before the first of an ordered list has none like it there. */
  lemma {:induction false} NoneAlike(f: Factor, fs: seq<Factor>, g: Factor)
    requires fs != [] && Ordered(fs) && Before(f, fs[0]) && Alike(f, g)
    ensures Those(fs, g) == []
  {
    if |fs| > 1 {
      assert !Before(fs[1], fs[0]);
      NoneAlike(f, fs[1..], g);
    }
  }

  // ----- keys before accounts

  ghost predicate AccountsLightest(fs: seq<Factor>) {
    forall f, g :: f in fs && g in fs && f.Account? && !g.Account? ==> f.weight <= g.weight
  }

  lemma {:induction false} WeightConcat(env: Env, X: set<Permission>, s: seq<Factor>, t: seq<Factor>)
    ensures Weight(env, X, s + t) == Weight(env, X, s) + Weight(env, X, t)
  {
    if s == [] {
      assert s + t == t;
    } else {
      assert (s + t)[1..] == s[1..] + t;
      WeightConcat(env, X, s[1..], t);
    }
  }

  /** Once the first account is reached, only accounts are left. */
  lemma {:induction false} Split(env: Env, fs: seq<Factor>) returns (m: nat)
    requires AccountsLightest(fs)
    ensures var gs := Sorted(fs);
            && m <= |gs| && (forall f :: f in gs[..m] ==> !f.Account?)
            && Weight(env, {}, gs) == Weight(env, {}, gs[..m])
  {
    hide Sorted, Weight;
    var gs := Sorted(fs);
    SortedKeeps(env, {}, fs);
    m := 0;
    while m < |gs| && !gs[m].Account?
      invariant m <= |gs| && forall i :: 0 <= i < m ==> !gs[i].Account?
    {
      m := m + 1;
    }
    forall j | m <= j < |gs| ensures gs[j].Account? {
      if m < j { TriedInOrder(fs, m, j); }
    }
    assert gs == gs[..m] + gs[m..];
    WeightConcat(env, {}, gs[..m], gs[m..]);
    AccountsWeighNothing(env, gs[m..]);
  }

  lemma {:induction false} AccountsWeighNothing(env: Env, fs: seq<Factor>)
    requires forall f :: f in fs ==> f.Account?
    ensures Weight(env, {}, fs) == 0
  {
    if fs != [] {
      assert fs[0] in fs;
      AccountsWeighNothing(env, fs[1..]);
    }
  }

  /** Waits and keys alone: the scan by what they weigh together, and with the cache untouched. */
  lemma {:induction false} ScanDirect(env: Env, s: seq<Factor>, t: seq<Factor>, threshold: nat, total: nat,
                                      st: State, depth: nat)
    requires depth <= env.limit && total < threshold <= total + Weight(env, {}, s)
    requires forall f :: f in s ==> !f.Account?
    ensures var (ok, st') := Scan(env, s, threshold, total, st, depth);
            ok && st'.cache == st.cache && Scan(env, s + t, threshold, total, st, depth) == (ok, st')
    decreases |s|
  {
    var (w, st') := Visit(env, s[0], st, depth);
    assert w == (if Holds(env, {}, s[0]) then s[0].weight else 0);
    assert (s + t)[1..] == s[1..] + t;
    if total + w < threshold { ScanDirect(env, s[1..], t, threshold, total + w, st', depth); }
  }

  /** If accounts weigh no more than waits and keys, and these suffice, then no permission is looked
      at, and the used keys are the provided ones of the shortest sufficient run of waits and keys. */
  lemma {:induction false} KeysBeforeAccounts(env: Env, a: Auth, st: State, depth: nat) returns (n: nat)
    requires depth <= env.limit && AccountsLightest(Factors(a)) && 0 < a.threshold <= Weight(env, {}, Factors(a))
    ensures var (ok, st') := Check(env, a, st, depth);
            ok && st'.cache == st.cache && n <= |Sorted(Factors(a))|
            && st'.used == st.used + KeysOf(Sorted(Factors(a))[..n]) * env.keys
            && (forall f :: f in Sorted(Factors(a))[..n] ==> !f.Account?)
            && Weight(env, {}, Sorted(Factors(a))[..n]) >= a.threshold
            && (n > 1 ==> Weight(env, {}, Sorted(Factors(a))[..n - 1]) < a.threshold)
  {
    hide Factors, KeysOf, PlainScan, PlainKeys, PlainWeight;
    var gs, d := Sorted(Factors(a)), env.limit - depth;
    SortedKeeps(env, {}, Factors(a));
    var m := Split(env, Factors(a));
    var s := gs[..m];
    assert gs == s + gs[m..];
    ScanDirect(env, s, gs[m..], a.threshold, 0, st, depth);
    DirectScan(env, s, a.threshold, 0, st, depth);
    n := PlainScanExact(env, {}, s, a.threshold, 0, d);
    DirectIsPlain(env, s[..n], d);
    DirectIsPlain(env, s[..n - 1], d);
    assert s[..n] == gs[..n] && s[..n - 1] == gs[..n - 1];
  }

  lemma {:induction false} KeysOfMembers(fs: seq<Factor>, k: Key)
    ensures k in KeysOf(fs) <==> exists f :: f in fs && f.HasKey? && f.key == k
  {
    if fs != [] {
      KeysOfMembers(fs[1..], k);
      assert fs[0] in fs;
    }
  }

  /** Without provided keys among them, factors weigh what they weigh without any key. */
  lemma {:induction false} KeylessWeight(env: Env, fs: seq<Factor>)
    requires KeysOf(fs) * env.keys == {}
    ensures Weight(env, {}, fs) == Weight(env.(keys := {}), {}, fs)
  {
    if fs != [] {
      assert fs[0].HasKey? ==> fs[0].key in KeysOf(fs);
      KeylessWeight(env, fs[1..]);
    }
  }

  /** In particular, if a single key is provided and needed, it is the only key used: an account of
      the same weight is not tried before it. */
  lemma {:induction false} OnlyKeyUsed(env: Env, a: Auth, st: State, depth: nat, k: Key)
    requires depth <= env.limit && AccountsLightest(Factors(a)) && 0 < a.threshold <= Weight(env, {}, Factors(a))
    requires KeysOf(Factors(a)) * env.keys == {k} && Weight(env.(keys := {}), {}, Factors(a)) < a.threshold
    ensures Check(env, a, st, depth).0 && Check(env, a, st, depth).1.used == st.used + {k}
  {
    hide Factors, Check, KeysOf;
    var n := KeysBeforeAccounts(env, a, st, depth);
    var fs, gs := Factors(a), Sorted(Factors(a));
    var bare := env.(keys := {});
    SortedKeeps(bare, {}, fs);
    assert gs == gs[..n] + gs[n..];
    WeightConcat(bare, {}, gs[..n], gs[n..]);
    forall x | x in KeysOf(gs[..n]) ensures x in KeysOf(fs) {
      KeysOfMembers(gs[..n], x);
      KeysOfMembers(fs, x);
    }
    if k !in KeysOf(gs[..n]) {
      assert forall x :: x in KeysOf(gs[..n]) * env.keys ==> x in KeysOf(fs) * env.keys;
      KeylessWeight(env, gs[..n]);
    }
  }

  // ----- the empty permission name

  /** A permission of an account is granted without looking if it is provided itself, or if the
      account's permission with the empty name is; nothing is used or remembered. */
  lemma {:induction false} ProvidedIsGranted(env: Env, provided: set<Permission>, actor: Name, name: Name,
                                             used: set<Key>)
    requires Permission(actor, name) in provided || Permission(actor, Name("")) in provided
    ensures Grant(env, provided, Permission(actor, name), used) == (true, used)
  {}

  /** Without an authority of its own, a permission is granted only so. */
  lemma {:induction false} UnknownGrantedExactly(env: Env, provided: set<Permission>, actor: Name, name: Name,
                                                 used: set<Key>)
    requires Permission(actor, name) !in env.auths
    ensures Grant(env, provided, Permission(actor, name), used).0 <==>
            Permission(actor, name) in provided || Permission(actor, Name("")) in provided
  {}
}
