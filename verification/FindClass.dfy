/** `find_class`: resolution of a possibly qualified name through children, aliases and the inherited
    class.  The code recurses without a guard on aliases, so it may not terminate; the model finds
    out exactly when. */
module FindClass {
  import opened Lists

  /** A scoped name split at `::`; never empty. */
  type Path = p: seq<Name> | |p| > 0 witness [Name("")]

  /** `ignoreId` marks a chainbase object. */
  datatype Node = Node(name: Name, fields: seq<Name>, ignoreId: bool, children: seq<Node>,
                       usings: map<Name, Path>, inherit: Option<Node>)

  /** The `children` dictionary: a later child replaces an earlier one of the same name. */
  function Child(cs: seq<Node>, x: Name): (r: Option<Node>)
    ensures r.Some? ==> r.value in cs && r.value.name == x
    ensures r.None? ==> forall c :: c in cs ==> c.name != x
  {
    if cs == [] then None
    else if cs[|cs| - 1].name == x then Some(cs[|cs| - 1])
    else Child(cs[..|cs| - 1], x)
  }

  function Inherited(n: Node, x: Name): Option<Node> {
    if n.inherit.Some? then Child(n.inherit.value.children, x) else None
  }

  datatype Config = Call(n: Node, path: Path) | Return(r: Option<Node>)

  /** One activation of `find_class`: it returns, or calls itself in tail position.  A qualified name
      is never a key of the inherited children, so line 163 cannot be taken. */
  function Step(c: Config): Config {
    if c.Return? then c
    else
      var x, child := c.path[0], Child(c.n.children, c.path[0]);
      if |c.path| > 1 then (if child.Some? then Call(child.value, c.path[1..]) else Return(None))
      else if child.Some? then Return(child)
      else if x in c.n.usings then Call(c.n, c.n.usings[x])
      else Return(Inherited(c.n, x))
  }

  function Steps(c: Config, k: nat): Config
    decreases k
  {
    if k == 0 then c else Steps(Step(c), k - 1)
  }

  ghost predicate Terminates(n: Node, path: Path) {
    exists k: nat :: Steps(Call(n, path), k).Return?
  }

  datatype Answer = Resolved(r: Option<Node>) | Loops

  /** Resolution that remembers the aliases followed in the current scope. */
  function Resolve(n: Node, path: Path, seen: set<Name>): Answer
    decreases n, n.usings.Keys - seen
  {
    var x, child := path[0], Child(n.children, path[0]);
    if |path| > 1 then (if child.Some? then Resolve(child.value, path[1..], {}) else Resolved(None))
    else if child.Some? then Resolved(child)
    else if x in n.usings then (if x in seen then Loops else Resolve(n, n.usings[x], seen + {x}))
    else Resolved(Inherited(n, x))
  }

  lemma {:induction false} StepsAdd(c: Config, j: nat, k: nat)
    ensures Steps(c, j + k) == Steps(Steps(c, j), k)
    decreases j
  {
    if j > 0 { StepsAdd(Step(c), j - 1, k); }
  }

  lemma {:induction false} ReturnStays(r: Option<Node>, k: nat)
    ensures Steps(Return(r), k) == Return(r)
  {
    if k > 0 { ReturnStays(r, k - 1); }
  }

  /** If resolution gives an answer, the code returns it. */
  lemma {:induction false} ResolvedReturns(n: Node, path: Path, seen: set<Name>) returns (k: nat)
    requires Resolve(n, path, seen).Resolved?
    ensures Steps(Call(n, path), k) == Return(Resolve(n, path, seen).r)
    decreases n, n.usings.Keys - seen
  {
    match Step(Call(n, path))
    case Return(r) =>
      k := 1;
      assert Steps(Call(n, path), 1) == Steps(Return(r), 0);
    case Call(n', path') =>
      k := ResolvedReturns(n', path', if |path| > 1 then {} else seen + {path[0]});
      k := k + 1;
  }

  /** Every alias in `seen` leads to the present call. */
  ghost predicate Trail(n: Node, path: Path, seen: set<Name>) {
    forall y :: y in seen ==> exists j: nat :: LeadsTo(n, y, path, j)
  }

  ghost predicate LeadsTo(n: Node, y: Name, path: Path, j: nat) {
    j > 0 && Steps(Call(n, [y]), j) == Call(n, path)
  }

  /** If resolution meets an alias again, the code comes back to the same call. */
  lemma {:induction false} LoopRecurs(n: Node, path: Path, seen: set<Name>) returns (k: nat, m: nat, c: Config)
    requires Resolve(n, path, seen) == Loops && Trail(n, path, seen)
    ensures Steps(Call(n, path), k) == c && c.Call? && Steps(c, m + 1) == c
    decreases n, n.usings.Keys - seen
  {
    var x := path[0];
    if |path| == 1 && x in seen {
      assert path == [x];
      var j: nat :| LeadsTo(n, x, path, j);
      k, m, c := 0, j - 1, Call(n, path);
    } else {
      var next := Step(Call(n, path));
      var seen' := if |path| > 1 then {} else seen + {x};
      assert Steps(Call(n, path), 1) == next by { assert Steps(next, 0) == next; }
      forall y | y in seen' ensures exists j: nat :: LeadsTo(next.n, y, next.path, j) {
        if y == x {
          assert path == [x];
          assert LeadsTo(n, x, next.path, 1);
        } else {
          var j: nat :| LeadsTo(n, y, path, j);
          StepsAdd(Call(n, [y]), j, 1);
          assert LeadsTo(n, y, next.path, j + 1);
        }
      }
      k, m, c := LoopRecurs(next.n, next.path, seen');
      k := k + 1;
    }
  }

  /** A call that recurs never returns. */
  lemma {:induction false} RecurringNeverReturns(c: Config, m: nat, k: nat)
    requires c.Call? && Steps(c, m + 1) == c
    ensures Steps(c, k).Call?
    decreases k
  {
    if k > m {
      StepsAdd(c, m + 1, k - m - 1);
      RecurringNeverReturns(c, m, k - m - 1);
    } else if Steps(c, k).Return? {
      StepsAdd(c, k, m + 1 - k);
      ReturnStays(Steps(c, k).r, m + 1 - k);
    }
  }

  /** `find_class` returns exactly when resolution does not meet an alias twice in one scope, and
      then returns what resolution finds. */
  lemma {:induction false} TerminatesExactly(n: Node, path: Path)
    ensures Terminates(n, path) <==> Resolve(n, path, {}).Resolved?
    ensures forall k: nat :: Steps(Call(n, path), k).Return? ==>
              Resolve(n, path, {}) == Resolved(Steps(Call(n, path), k).r)
  {
    var c := Call(n, path);
    if Resolve(n, path, {}).Resolved? {
      var k := ResolvedReturns(n, path, {});
      forall j | Steps(c, j).Return? ensures Resolve(n, path, {}) == Resolved(Steps(c, j).r) {
        StepsAdd(c, j, k);
        StepsAdd(c, k, j);
        ReturnStays(Steps(c, j).r, k);
        ReturnStays(Steps(c, k).r, j);
      }
    } else {
      var k, m, d := LoopRecurs(n, path, {});
      forall j ensures Steps(c, j).Call? {
        if Steps(c, j).Return? {
          StepsAdd(c, j, k);
          StepsAdd(c, k, j);
          ReturnStays(Steps(c, j).r, k);
          RecurringNeverReturns(d, m, j);
        }
      }
    }
  }

  /** An alias that lookup follows: a child of the same name hides it. */
  ghost predicate Followed(n: Node, x: Name) {
    x in n.usings && Child(n.children, x).None?
  }

  /** The followed aliases of a scope can be ranked so that each leads down. */
  ghost predicate Ranks(n: Node, rank: map<Name, nat>) {
    forall x :: Followed(n, x) ==>
      && x in rank
      && (|n.usings[x]| == 1 && Followed(n, n.usings[x][0]) && n.usings[x][0] in rank ==>
            rank[n.usings[x][0]] < rank[x])
  }

  /** So in a scope and in every scope below it that lookup can enter. */
  ghost predicate Tame(n: Node) {
    (exists rank :: Ranks(n, rank)) && forall c :: c in n.children && Child(n.children, c.name) == Some(c) ==> Tame(c)
  }

  lemma {:induction false} TameResolves(n: Node, path: Path, seen: set<Name>, rank: map<Name, nat>)
    requires Tame(n) && Ranks(n, rank)
    requires |path| == 1 && Followed(n, path[0]) ==>
               forall y :: y in seen ==> Followed(n, y) && rank[path[0]] < rank[y]
    ensures Resolve(n, path, seen).Resolved?
    decreases n, n.usings.Keys - seen
  {
    var x, child := path[0], Child(n.children, path[0]);
    if |path| > 1 {
      if child.Some? {
        var r :| Ranks(child.value, r);
        TameResolves(child.value, path[1..], {}, r);
      }
    } else if child.None? && x in n.usings {
      assert Followed(n, x);
      TameResolves(n, n.usings[x], seen + {x}, rank);
    }
  }

  /** The number of steps until the return. */
  ghost function Length(c: Config, k: nat): nat
    requires Steps(c, k).Return?
    decreases k
  {
    if c.Return? then 0 else 1 + Length(Step(c), k - 1)
  }

  lemma {:induction false} LengthUnique(c: Config, j: nat, k: nat)
    requires Steps(c, j).Return? && Steps(c, k).Return?
    ensures Length(c, j) == Length(c, k)
    decreases j
  {
    if c.Call? { LengthUnique(Step(c), j - 1, k - 1); }
  }

  ghost function Cost(n: Node, path: Path): nat
    requires Terminates(n, path)
  {
    var k: nat :| Steps(Call(n, path), k).Return?;
    Length(Call(n, path), k)
  }

  lemma {:induction false} CostIsLength(n: Node, path: Path, k: nat)
    requires Steps(Call(n, path), k).Return?
    ensures Cost(n, path) == Length(Call(n, path), k)
  {
    forall j: nat | Steps(Call(n, path), j).Return? ensures Length(Call(n, path), j) == Length(Call(n, path), k) {
      LengthUnique(Call(n, path), j, k);
    }
  }

  /** An alias costs one step more than what it stands for. */
  lemma {:induction false} AliasCosts(n: Node, x: Name)
    requires Followed(n, x) && Terminates(n, [x]) && Terminates(n, n.usings[x])
    ensures Cost(n, [x]) == 1 + Cost(n, n.usings[x])
  {
    var c, c' := Call(n, [x]), Call(n, n.usings[x]);
    var k: nat :| Steps(c', k).Return?;
    assert Step(c) == c' && Steps(c, k + 1).Return?;
    CostIsLength(n, [x], k + 1);
    CostIsLength(n, n.usings[x], k);
  }

  lemma {:induction false} TotalIsTame(n: Node)
    requires forall path :: Terminates(n, path)
    ensures Tame(n)
  {
    var rank := map x | x in n.usings :: Cost(n, [x]);
    forall x | Followed(n, x)
      ensures |n.usings[x]| == 1 && Followed(n, n.usings[x][0]) ==> rank[n.usings[x][0]] < rank[x]
    {
      if |n.usings[x]| == 1 {
        assert n.usings[x] == [n.usings[x][0]];
        AliasCosts(n, x);
      }
    }
    assert Ranks(n, rank);
    forall c | c in n.children && Child(n.children, c.name) == Some(c) ensures Tame(c) {
      forall path: Path ensures Terminates(c, path) {
        var path': Path := [c.name] + path;
        assert Terminates(n, path');
        var k: nat :| Steps(Call(n, path'), k).Return?;
        assert path'[1..] == path && Steps(Call(c, path), k - 1).Return?;
      }
      TotalIsTame(c);
    }
  }

  /** Every lookup below a scope terminates exactly when, in each scope that lookup can enter, the
      aliases that it can follow do not run in a circle. */
  lemma {:induction false} TotalExactly(n: Node)
    ensures (forall path :: Terminates(n, path)) <==> Tame(n)
  {
    if Tame(n) {
      var rank :| Ranks(n, rank);
      forall path ensures Terminates(n, path) {
        TameResolves(n, path, {}, rank);
        TerminatesExactly(n, path);
      }
    }
    if forall path :: Terminates(n, path) { TotalIsTame(n); }
  }

  /** An alias for itself: the code does not return. */
  lemma {:induction false} SelfAliasLoops(n: Node, x: Name)
    requires Child(n.children, x).None? && x in n.usings && n.usings[x] == [x]
    ensures !Terminates(n, [x])
  {
    var c := Call(n, [x]);
    assert Steps(c, 1) == c by { assert Steps(Step(c), 0) == Step(c); }
    forall k: nat ensures Steps(c, k).Call? { RecurringNeverReturns(c, 0, k); }
  }

  // ----- where the result comes from

  /** A scope below `n`, or `n` itself. */
  ghost predicate Within(n: Node, m: Node) {
    m == n || exists c :: c in n.children && Within(c, m)
  }

  /** A class that `m` has or inherits under the name `x`. */
  ghost predicate Offers(m: Node, x: Name, r: Node) {
    r.name == x && (r in m.children || (m.inherit.Some? && r in m.inherit.value.children))
  }

  lemma {:induction false} WalkStaysWithin(n: Node, path: Path, j: nat)
    ensures var c := Steps(Call(n, path), j); c.Call? ==> Within(n, c.n)
    decreases j
  {
    if j > 0 {
      match Step(Call(n, path))
      case Return(r) => ReturnStays(r, j - 1);
      case Call(n', path') => WalkStaysWithin(n', path', j - 1);
    }
  }

  /** Whatever the code returns was found in a scope on its walk: it made a call there, for the name
      of the result alone, and the scope has the result among its children or inherits it. */
  lemma {:induction false} ReturnedOnWalk(n: Node, path: Path, k: nat) returns (j: nat)
    requires Steps(Call(n, path), k).Return? && Steps(Call(n, path), k).r.Some?
    ensures var r, c := Steps(Call(n, path), k).r.value, Steps(Call(n, path), j);
            j < k && c.Call? && c.path == [r.name] && Offers(c.n, r.name, r) && Within(n, c.n)
    decreases k
  {
    match Step(Call(n, path))
    case Return(r) =>
      j := 0;
      ReturnStays(r, k - 1);
    case Call(n', path') =>
      j := ReturnedOnWalk(n', path', k - 1);
      j := j + 1;
      WalkStaysWithin(n, path, j);
  }

  // ----- what a call does, by the lists of children alone

  /** `r` is the last of `cs` with the name `x`, if there is one. */
  ghost predicate LastNamed(cs: seq<Node>, x: Name, r: Option<Node>) {
    match r
    case None => forall c :: c in cs ==> c.name != x
    case Some(c) =>
      c.name == x && exists i :: 0 <= i < |cs| && cs[i] == c && forall j :: i < j < |cs| ==> cs[j].name != x
  }

  lemma {:induction false} ChildIsLast(cs: seq<Node>, x: Name)
    ensures LastNamed(cs, x, Child(cs, x))
  {
    if cs != [] {
      var n := |cs| - 1;
      if cs[n].name != x {
        ChildIsLast(cs[..n], x);
        if Child(cs, x).Some? {
          var i :| 0 <= i < n && cs[..n][i] == Child(cs, x).value && forall j :: i < j < n ==> cs[..n][j].name != x;
          assert cs[i] == Child(cs, x).value && forall j :: i < j < |cs| ==> cs[j].name != x;
        }
      }
    }
  }

  ghost predicate HasChild(n: Node, x: Name) {
    exists c :: c in n.children && c.name == x
  }

  /** A call for a single name: the last child of that name; or, without one, on to what the name is
      an alias for; or, without an alias, the last child of that name in the inherited class. */
  lemma {:induction false} SingleNameExactly(m: Node, x: Name)
    ensures var next := Steps(Call(m, [x]), 1);
            if HasChild(m, x) then next.Return? && next.r.Some? && LastNamed(m.children, x, next.r)
            else if x in m.usings then next == Call(m, m.usings[x])
            else next.Return? && LastNamed(if m.inherit.Some? then m.inherit.value.children else [], x, next.r)
  {
    var c := Call(m, [x]);
    assert Steps(c, 1) == Step(c) by { assert Steps(Step(c), 0) == Step(c); }
    ChildIsLast(m.children, x);
    if m.inherit.Some? { ChildIsLast(m.inherit.value.children, x); }
  }

  /** A call for a qualified name: on to the last child of the first name, or nothing. */
  lemma {:induction false} QualifiedNameExactly(m: Node, x: Name, rest: Path)
    ensures var next := Steps(Call(m, [x] + rest), 1);
            if HasChild(m, x) then next.Call? && LastNamed(m.children, x, Some(next.n)) && next.path == rest
            else next == Return(None)
  {
    var c := Call(m, [x] + rest);
    assert Steps(c, 1) == Step(c) by { assert Steps(Step(c), 0) == Step(c); }
    ChildIsLast(m.children, x);
    assert ([x] + rest)[1..] == rest;
  }

  /** Nothing is returned only where a call finds nothing: its scope has no child of the first name
      asked for, and, if that is the only name, no alias and no inherited child either. */
  lemma {:induction false} NothingOnWalk(n: Node, path: Path, k: nat) returns (j: nat)
    requires Steps(Call(n, path), k) == Return(None)
    ensures var c := Steps(Call(n, path), j);
            && j < k && c.Call? && !HasChild(c.n, c.path[0])
            && (|c.path| == 1 ==>
                  && c.path[0] !in c.n.usings
                  && (c.n.inherit.Some? ==> forall b :: b in c.n.inherit.value.children ==> b.name != c.path[0]))
    decreases k
  {
    match Step(Call(n, path))
    case Return(r) =>
      j := 0;
      ReturnStays(r, k - 1);
    case Call(n', path') =>
      j := NothingOnWalk(n', path', k - 1);
      j := j + 1;
  }
}
