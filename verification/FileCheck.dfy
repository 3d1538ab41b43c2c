/** The check of a whole file: the scopes are read, the reflected name is looked up among them, and
    the fields of the class found are compared with what the file reflects. */
module FileCheck {
  import opened Lists
  import opened FindClass
  import opened ScopeRoundTrip
  import opened Validation
  import Collector
  import Matcher
  import Scopes

  // ----- names as written

  predicate SeparatorAt(t: string, k: nat) {
    k + 1 < |t| && t[k] == ':' && t[k + 1] == ':'
  }

  /** Where the first `::` is, or the length. */
  function Separator(t: string): (i: nat)
    ensures i == |t| || SeparatorAt(t, i)
    ensures forall k: nat :: k < i ==> !SeparatorAt(t, k)
  {
    if t == [] || SeparatorAt(t, 0) then 0
    else
      var j := Separator(t[1..]);
      assert forall k: nat {:trigger SeparatorAt(t, k)} :: SeparatorAt(t, k) ==> k > 0 && SeparatorAt(t[1..], k - 1);
      j + 1
  }

  /** A scoped name, split at its separators. */
  function Split(t: string): Path {
    var i := Separator(t);
    if i == |t| then [Name(t)] else [Name(t[..i])] + Split(t[i + 2..])
  }

  function Join(path: Path): string {
    if |path| == 1 then path[0].text else path[0].text + "::" + Join(path[1..])
  }

  lemma {:induction false} SeparatorText(t: string, before: string, after: string)
    requires t == before + "::" + after
    ensures SeparatorAt(t, |before|)
  {}

  lemma {:induction false} NoSeparatorBefore(t: string)
    ensures forall k: nat :: !SeparatorAt(t[..Separator(t)], k)
  {
    var i := Separator(t);
    assert forall k: nat :: SeparatorAt(t[..i], k) ==> SeparatorAt(t, k);
  }

  /** Splitting loses nothing and leaves no `::` in any part. */
  lemma {:induction false} SplitJoins(t: string)
    ensures Join(Split(t)) == t
    ensures forall x, before, after :: x in Split(t) ==> x.text != before + "::" + after
  {
    var i := Separator(t);
    NoSeparatorBefore(t);
    assert i == |t| ==> t[..i] == t;
    forall before, after ensures t[..i] != before + "::" + after {
      if t[..i] == before + "::" + after { SeparatorText(t[..i], before, after); }
    }
    if i < |t| {
      SplitJoins(t[i + 2..]);
      assert Split(t)[1..] == Split(t[i + 2..]);
      assert t == t[..i] + "::" + t[i + 2..];
    }
  }

  // ----- the scopes read, as `find_class` sees them

  /** `chainbase::object$` or `^object$`, in the base class as written. */
  predicate IgnoresId(inherits: Option<Name>) {
    inherits.Some? && var t := inherits.value.text;
      t == "object" || (|t| >= 17 && t[|t| - 17..] == "chainbase::object")
  }

  /** A chainbase object, by its base class as written. */
  ghost predicate ChainbaseObject(inherits: Option<Name>) {
    inherits.Some? &&
      (inherits.value.text == "object" || exists before :: inherits.value.text == before + "chainbase::object")
  }

  lemma {:induction false} IgnoresIdExactly(inherits: Option<Name>)
    ensures IgnoresId(inherits) <==> ChainbaseObject(inherits)
  {
    if inherits.Some? {
      var t := inherits.value.text;
      if IgnoresId(inherits) && t != "object" {
        assert t == t[..|t| - 17] + "chainbase::object";
      }
      if exists before :: t == before + "chainbase::object" {
        var before :| t == before + "chainbase::object";
        assert t[|t| - 17..] == "chainbase::object";
      }
    }
  }

  /** `n` is the scope that was read, whatever its aliases and its base class. */
  ghost predicate Represents(n: Node, s: Scopes.Scope)
    decreases s, 0
  {
    && n.name == s.name && n.fields == s.fields && n.ignoreId == IgnoresId(s.inherits)
    && RepresentAll(n.children, s.children)
  }

  ghost predicate RepresentAll(ns: seq<Node>, ss: seq<Scopes.Scope>)
    decreases ss, 1
  {
    |ns| == |ss| && forall i :: 0 <= i < |ns| ==> Represents(ns[i], ss[i])
  }

  // ----- the scopes written

  datatype Declaration = Declaration(kind: Scopes.Kind, header: Scopes.Header, body: seq<Item>)

  /** The last scope written under a name directly in a scope of this kind. */
  function Declared(kind: Scopes.Kind, items: seq<Item>, x: Name): Option<Declaration> {
    if items == [] then None
    else
      var item, later := items[0], Declared(kind, items[1..], x);
      if later.Some? then later
      else if item.Block? && BlockKind(kind, item.header) != Scopes.Empty && item.header.value.name == x
      then Some(Declaration(BlockKind(kind, item.header), item.header.value, item.body))
      else None
  }

  /** The scope written under a path. */
  function Located(kind: Scopes.Kind, items: seq<Item>, path: Path): Option<Declaration>
    decreases |path|
  {
    var d := Declared(kind, items, path[0]);
    if |path| == 1 || d.None? then d else Located(d.value.kind, d.value.body, path[1..])
  }

  // ----- what is found is what was written

  ghost predicate Mirrors(ns: seq<Node>, kind: Scopes.Kind, items: seq<Item>, at: nat) {
    var r := DirectChildren(kind, items, at);
    r.Ok? && RepresentAll(ns, r.value)
  }

  ghost predicate Renders(n: Node, d: Declaration) {
    && n.fields == DirectFields(d.kind, d.body) && n.ignoreId == IgnoresId(d.header.inherits)
    && exists at: nat :: Mirrors(n.children, d.kind, d.body, at)
  }

  lemma {:induction false} ChildOfTwo(cs: seq<Node>, ds: seq<Node>, x: Name)
    ensures Child(cs + ds, x) == if Child(ds, x).Some? then Child(ds, x) else Child(cs, x)
  {
    if ds == [] {
      assert cs + ds == cs;
    } else {
      assert (cs + ds)[..|cs + ds| - 1] == cs + ds[..|ds| - 1];
      ChildOfTwo(cs, ds[..|ds| - 1], x);
    }
  }

  lemma {:induction false} DeclaredIsChild(ns: seq<Node>, kind: Scopes.Kind, items: seq<Item>, at: nat, x: Name)
    requires Mirrors(ns, kind, items, at)
    ensures match Declared(kind, items, x)
            case None => Child(ns, x) == None
            case Some(d) => Child(ns, x).Some? && Renders(Child(ns, x).value, d)
    decreases |items|
  {
    hide Renders;
    if items != [] {
      if !items[0].Block? {
        DeclaredIsChild(ns, kind, items[1..], at + 1, x);
      } else {
        var first, later, at' := Unfold(ns, kind, items, at);
        hide Mirrors;
        DeclaredIsChild(later, kind, items[1..], at', x);
        FirstChild(first, kind, items[0], at, x);
        ChildOfTwo(first, later, x);
      }
    }
  }

  /** The child for the first block, if it is kept, and those for the rest. */
  lemma {:induction false} Unfold(ns: seq<Node>, kind: Scopes.Kind, items: seq<Item>, at: nat)
    returns (first: seq<Node>, later: seq<Node>, at': nat)
    requires items != [] && items[0].Block? && Mirrors(ns, kind, items, at)
    ensures ns == first + later && Mirrors(later, kind, items[1..], at') && BlockBody(kind, items[0], at).Ok?
    ensures RepresentAll(first, Scopes.Retained(kind, items[0].header, at, BlockBody(kind, items[0], at).value))
  {
    ChildrenUnfold(kind, items, at);
    hide BlockBody, Scopes.Retained, DirectChildren, RepresentAll;
    var b := BlockBody(kind, items[0], at).value;
    at' := b.end + 1;
    var kept, ss := Scopes.Retained(kind, items[0].header, at, b), DirectChildren(kind, items[1..], at').value;
    RepresentSplit(ns, kept, ss);
    first, later := ns[..|kept|], ns[|kept|..];
  }

  lemma {:induction false} RepresentSplit(ns: seq<Node>, kept: seq<Scopes.Scope>, ss: seq<Scopes.Scope>)
    requires RepresentAll(ns, kept + ss)
    ensures |ns| == |kept| + |ss| && RepresentAll(ns[..|kept|], kept) && RepresentAll(ns[|kept|..], ss)
  {
    hide Represents;
    var later := ns[|kept|..];
    forall i | 0 <= i < |later| ensures Represents(later[i], ss[i]) {
      assert later[i] == ns[i + |kept|] && ss[i] == (kept + ss)[i + |kept|];
    }
  }

  lemma {:induction false} FirstChild(ns: seq<Node>, kind: Scopes.Kind, item: Item, at: nat, x: Name)
    requires item.Block? && BlockBody(kind, item, at).Ok?
    requires RepresentAll(ns, Scopes.Retained(kind, item.header, at, BlockBody(kind, item, at).value))
    ensures var k := Scopes.ChildKind(kind, item.header);
            if k != Scopes.Empty && item.header.value.name == x
            then Child(ns, x).Some? && Renders(Child(ns, x).value, Declaration(k, item.header.value, item.body))
            else Child(ns, x) == None
  {
    var k := Scopes.ChildKind(kind, item.header);
    if k != Scopes.Empty {
      assert ns == [ns[0]] && ns[..0] == [] && Child([], x) == None;
      assert Represents(ns[0], Scopes.Retained(kind, item.header, at, BlockBody(kind, item, at).value)[0]);
      assert Mirrors(ns[0].children, k, item.body, at + 1);
    }
  }

  /** A scope written under a path is found under it, in as many steps as the path is long, whatever
      the aliases and base classes on the way. */
  lemma {:induction false} FindsLocated(n: Node, kind: Scopes.Kind, items: seq<Item>, at: nat, path: Path)
    returns (m: Node)
    requires Mirrors(n.children, kind, items, at) && Located(kind, items, path).Some?
    ensures Steps(Call(n, path), |path|) == Return(Some(m)) && Renders(m, Located(kind, items, path).value)
    decreases |path|
  {
    var d := Declared(kind, items, path[0]).value;
    DeclaredIsChild(n.children, kind, items, at, path[0]);
    m := Child(n.children, path[0]).value;
    if |path| > 1 {
      var at': nat :| Mirrors(m.children, d.kind, d.body, at');
      m := FindsLocated(m, d.kind, d.body, at', path[1..]);
    } else {
      assert Steps(Return(Some(m)), 0) == Return(Some(m));
    }
  }

  /** The check of a file, from what is written to the verdict: for a reflected name under which a
      scope is written, `find_class` finds that scope, and the class is accepted exactly when its
      direct fields, as written, match what the file reflects of it. */
  lemma {:induction false} FileVerdict(items: seq<Item>, es: seq<Collector.Entry>, c: Name, global: Node)
    returns (m: Node)
    requires Scopes.ReadFile(Print(items)).Ok?
    requires RepresentAll(global.children, Scopes.ReadFile(Print(items)).value.children)
    requires Located(Scopes.Namespace, items, Split(c.text)).Some? && Collector.Collect(map[], es).1 == Collector.Done
    ensures Steps(Call(global, Split(c.text)), |Split(c.text)|) == Return(Some(m))
    ensures var r := Collector.Lookup(Collector.Collect(map[], es).0, c);
            var d := Located(Scopes.Namespace, items, Split(c.text)).value;
            Matcher.Verify(m.fields, r.fields, r.swapped, WithId(r, m.ignoreId)) == Matcher.Accepted <==>
            Acceptable(DirectFields(d.kind, d.body), Collector.AskedFor(es, c), ChainbaseObject(d.header.inherits))
  {
    hide Scopes.ReadFile, DirectChildren, Located, Split, Steps, Matcher.Verify, Acceptable, Collector.Collect;
    FileRoundTrip(items);
    assert Mirrors(global.children, Scopes.Namespace, items, 1);
    m := FindsLocated(global, Scopes.Namespace, items, 1, Split(c.text));
    IgnoresIdExactly(Located(Scopes.Namespace, items, Split(c.text)).value.header.inherits);
    CollectedVerdict(es, c, m.fields, m.ignoreId);
  }
}
