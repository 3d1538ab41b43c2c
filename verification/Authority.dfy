/** `authority_checker`: whether keys, a delay and already granted permissions satisfy an authority,
    where an authority may count other permissions, checked recursively up to a depth limit with a
    cache of the permissions met so far. */
module Authority {
  import opened Lists

  datatype Key = Key(id: nat)

  datatype Permission = Permission(actor: Name, name: Name)

  /** A weighted factor of an authority. */
  datatype Factor = Wait(seconds: nat, weight: nat) | HasKey(key: Key, weight: nat)
                  | Account(permission: Permission, weight: nat)

  datatype Auth = Auth(threshold: nat, waits: seq<(nat, nat)>, keys: seq<(Key, nat)>, accounts: seq<(Permission, nat)>)

  /** `auths` is `permission_to_authority`; a permission without an entry makes it throw. */
  datatype Env = Env(auths: map<Permission, Auth>, keys: set<Key>, delay: nat, limit: nat)

  datatype Status = BeingEvaluated | Unsatisfied | Satisfied

  datatype State = State(used: set<Key>, cache: map<Permission, Status>)

  // ----- the order in which factors are tried

  function Rank(f: Factor): nat {
    match f case Wait(_, _) => 2 case HasKey(_, _) => 1 case Account(_, _) => 0
  }

  /** `meta_permission_comparator`: heavier first, then waits, keys, accounts. */
  predicate Before(f: Factor, g: Factor) {
    f.weight > g.weight || (f.weight == g.weight && Rank(f) > Rank(g))
  }

  /** Insertion after the factors that rank the same. */
  function Insert(f: Factor, fs: seq<Factor>): seq<Factor> {
    if fs == [] then [f]
    else if Before(f, fs[0]) then [f] + fs
    else [fs[0]] + Insert(f, fs[1..])
  }

  function Sorted(fs: seq<Factor>): seq<Factor> {
    if fs == [] then [] else Insert(fs[|fs| - 1], Sorted(fs[..|fs| - 1]))
  }

  function Factors(a: Auth): seq<Factor> {
    seq(|a.waits|, i requires 0 <= i < |a.waits| => Wait(a.waits[i].0, a.waits[i].1))
    + seq(|a.keys|, i requires 0 <= i < |a.keys| => HasKey(a.keys[i].0, a.keys[i].1))
    + seq(|a.accounts|, i requires 0 <= i < |a.accounts| => Account(a.accounts[i].0, a.accounts[i].1))
  }

  // ----- the check

  /** A permission of the actor with the empty name stands for all the actor's permissions. */
  function Wildcard(p: Permission): Permission {
    p.(name := Name(""))
  }

  function StatusInCache(cache: map<Permission, Status>, p: Permission): Option<Status> {
    if p in cache then Some(cache[p])
    else if Wildcard(p) in cache then Some(cache[Wildcard(p)])
    else None
  }

  /** Keys used on the way are kept only if the authority is satisfied. */
  function Check(env: Env, a: Auth, st: State, depth: nat): (bool, State)
    requires depth <= env.limit
    decreases env.limit - depth, 2
  {
    var (ok, st') := Scan(env, Sorted(Factors(a)), a.threshold, 0, st, depth);
    (ok, if ok then st' else st'.(used := st.used))
  }

  /** Factors are tried in order until the total reaches the threshold. */
  function Scan(env: Env, fs: seq<Factor>, threshold: nat, total: nat, st: State, depth: nat): (bool, State)
    requires depth <= env.limit
    decreases env.limit - depth, 1, |fs|
  {
    if fs == [] then (false, st)
    else
      var (w, st') := Visit(env, fs[0], st, depth);
      if total + w >= threshold then (true, st') else Scan(env, fs[1..], threshold, total + w, st', depth)
  }

  /** The weight one factor adds. */
  function Visit(env: Env, f: Factor, st: State, depth: nat): (nat, State)
    requires depth <= env.limit
    decreases env.limit - depth, 0
  {
    match f
    case Wait(seconds, w) => (if env.delay >= seconds then w else 0, st)
    case HasKey(key, w) => if key in env.keys then (w, st.(used := st.used + {key})) else (0, st)
    case Account(p, w) =>
      match StatusInCache(st.cache, p)
      case Some(status) => (if status == Satisfied then w else 0, st)
      case None =>
        if depth < env.limit && p in env.auths then
          var (ok, st') := Check(env, env.auths[p], Mark(st, p, BeingEvaluated), depth + 1);
          (if ok then w else 0, Mark(st', p, if ok then Satisfied else Unsatisfied))
        else (0, st)
  }

  function Mark(st: State, p: Permission, status: Status): State {
    st.(cache := st.cache[p := status])
  }

  /** A fresh cache: the provided permissions are satisfied. */
  function Initial(provided: set<Permission>): map<Permission, Status> {
    map p | p in provided :: Satisfied
  }

  /** `satisfied` of a permission, with a fresh cache: it counts for a weight of one. */
  function Grant(env: Env, provided: set<Permission>, p: Permission, used: set<Key>): (bool, set<Key>) {
    var (w, st) := Visit(env, Account(p, 1), State(used, Initial(provided)), 0);
    (w > 0, st.used)
  }

  /** `permission_cache_type`, passed by reference through the recursion. */
  class Cache {
    var statuses: map<Permission, Status>

    constructor (provided: set<Permission>)
      ensures statuses == Initial(provided)
    {
      statuses := Initial(provided);
    }
  }

  /** Only the used keys outlive a call from outside. */
  class Checker {
    const env: Env
    const provided: set<Permission>
    var used: set<Key>

    constructor (env: Env, provided: set<Permission>)
      ensures this.env == env && this.provided == provided && used == {}
    {
      this.env, this.provided, used := env, provided, {};
    }

    ghost function Contents(cache: Cache): State
      reads this, cache
    {
      State(used, cache.statuses)
    }

    method IsSatisfied(a: Auth) returns (ok: bool)
      modifies this
      ensures var (ok', st) := Check(env, a, State(old(used), Initial(provided)), 0); ok == ok' && used == st.used
    {
      var cache := new Cache(provided);
      ok := Evaluate(a, cache, 0);
    }

    method IsGranted(p: Permission) returns (ok: bool)
      modifies this
      ensures (ok, used) == Grant(env, provided, p, old(used))
    {
      var cache := new Cache(provided);
      var w := Tally(Account(p, 1), cache, 0);
      ok := w > 0;
    }

    method Evaluate(a: Auth, cache: Cache, depth: nat) returns (ok: bool)
      requires depth <= env.limit
      modifies this, cache
      ensures (ok, Contents(cache)) == Check(env, a, old(Contents(cache)), depth)
      decreases env.limit - depth, 2
    {
      var saved := used;
      var factors := Sorted(Factors(a));
      var total: nat, i: nat := 0, 0;
      while i < |factors|
        invariant 0 <= i <= |factors|
        invariant Scan(env, factors[i..], a.threshold, total, Contents(cache), depth)
               == Scan(env, factors, a.threshold, 0, old(Contents(cache)), depth)
        decreases |factors| - i
      {
        var w := Tally(factors[i], cache, depth);
        total := total + w;
        if total >= a.threshold {
          return true;
        }
        assert factors[i..][1..] == factors[i + 1..];
        i := i + 1;
      }
      used := saved;
      ok := false;
    }

    /** `weight_tally_visitor` */
    method Tally(f: Factor, cache: Cache, depth: nat) returns (w: nat)
      requires depth <= env.limit
      modifies this, cache
      ensures (w, Contents(cache)) == Visit(env, f, old(Contents(cache)), depth)
      decreases env.limit - depth, 0
    {
      w := 0;
      match f
      case Wait(seconds, weight) =>
        if env.delay >= seconds { w := weight; }
      case HasKey(key, weight) =>
        if key in env.keys {
          used := used + {key};
          w := weight;
        }
      case Account(p, weight) =>
        var status := StatusInCache(cache.statuses, p);
        if status.None? {
          if depth < env.limit {
            if p !in env.auths { return; }
            cache.statuses := cache.statuses[p := BeingEvaluated];
            var r := Evaluate(env.auths[p], cache, depth + 1);
            if r {
              w := weight;
              cache.statuses := cache.statuses[p := Satisfied];
            } else {
              cache.statuses := cache.statuses[p := Unsatisfied];
            }
          }
        } else if status.value == Satisfied {
          w := weight;
        }
    }
  }

  /** The keys used by granting all of `ps` one after the other; none if one is refused. */
  function Required(env: Env, ps: seq<Permission>, used: set<Key>): Option<set<Key>> {
    if ps == [] then Some(used)
    else
      var (ok, used') := Grant(env, {}, ps[0], used);
      if ok then Required(env, ps[1..], used') else None
  }

  /** `get_required_keys`, for the authorizations a transaction declares. */
  method RequiredKeys(env: Env, ps: seq<Permission>) returns (r: Option<set<Key>>)
    ensures r == Required(env, ps, {})
  {
    var checker := new Checker(env, {});
    var i: nat := 0;
    while i < |ps|
      invariant 0 <= i <= |ps| && fresh(checker) && checker.env == env && checker.provided == {}
      invariant Required(env, ps[i..], checker.used) == Required(env, ps, {})
    {
      var ok := checker.IsGranted(ps[i]);
      if !ok { return None; }
      assert ps[i..][1..] == ps[i + 1..];
      i := i + 1;
    }
    return Some(checker.used);
  }
}
