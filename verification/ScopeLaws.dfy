/** The scope reader, token by token, and what follows: brace matching is exact, and the recorded
    scopes nest in source order. */
module ScopeLaws {
  import opened Lists
  import opened Scopes

  // ----- the reader consumes one token at a time

  predicate Plain(t: Token) {
    !t.Open? && !t.Close?
  }

  lemma {:induction false} LookPlain(content: Content, kind: Kind, current: nat)
    requires current + 2 < |content| && Plain(content[current]) && FindClose(content, current) < |content|
    ensures var f := FieldsOf(content[current], kind);
            Look(content, kind, current) == match Look(content, kind, current + 1)
              case NoScope(rest) => NoScope(f + rest)
              case Brace(open, rest) => Brace(open, f + rest)
  {
    assert FindClose(content, current) == FindClose(content, current + 1);
    var limit := Limit(content, current);
    assert FindOpen(content, current, limit) == FindOpen(content, current + 1, limit);
  }

  lemma {:induction false} PlainStep(content: Content, kind: Kind, file: bool, current: nat, fields: seq<Name>,
                                     children: seq<Scope>)
    requires current < |content| && Plain(content[current]) && FindClose(content, current) < |content|
    ensures ReadBody(content, kind, file, current, fields, children)
         == ReadBody(content, kind, file, current + 1, fields + FieldsOf(content[current], kind), children)
  {
    hide ReadBody;
    var f := FieldsOf(content[current], kind);
    if current + 2 < |content| {
      LookPlain(content, kind, current);
      hide Look;
      match Look(content, kind, current + 1)
      case NoScope(rest) =>
        ReadStop(content, kind, file, current, fields, children);
        ReadStop(content, kind, file, current + 1, fields + f, children);
        assert fields + (f + rest) == fields + f + rest;
        ConcludePlain(content, file, current, fields + f + rest, children);
      case Brace(open, rest) =>
        ReadStep(content, kind, file, current, fields, children);
        ReadStep(content, kind, file, current + 1, fields + f, children);
        assert fields + (f + rest) == fields + f + rest;
    } else {
      LastPlainStep(content, kind, file, current, fields, children);
    }
  }

  lemma {:induction false} LastPlainStep(content: Content, kind: Kind, file: bool, current: nat, fields: seq<Name>,
                                         children: seq<Scope>)
    requires |content| - 2 <= current < |content| && Plain(content[current]) && FindClose(content, current) < |content|
    ensures ReadBody(content, kind, file, current, fields, children)
         == ReadBody(content, kind, file, current + 1, fields + FieldsOf(content[current], kind), children)
  {
    hide ReadBody;
    var f := FieldsOf(content[current], kind);
    CloseStep(content, kind, file, current + 1, fields + f, children);
    assert FieldsIn(content, kind, current, current + 1) == f + [] == f;
    ReadStop(content, kind, file, current, fields, children);
  }

  lemma {:induction false} ConcludePlain(content: Content, file: bool, current: nat, fields: seq<Name>,
                                         children: seq<Scope>)
    requires current < |content| && Plain(content[current])
    ensures Conclude(content, file, current, fields, children) == Conclude(content, file, current + 1, fields, children)
  {}

  lemma {:induction false} CloseStep(content: Content, kind: Kind, file: bool, current: nat, fields: seq<Name>,
                                     children: seq<Scope>)
    requires current < |content| && content[current] == Close
    ensures ReadBody(content, kind, file, current, fields, children)
         == Ok(Body(if file then |content| - 1 else current, fields, children))
  {
    hide ReadBody;
    if current + 1 < |content| {
      assert Look(content, kind, current) == NoScope([]);
      ReadStop(content, kind, file, current, fields, children);
      assert fields + [] == fields;
    } else {
      ReadEnd(content, kind, file, current, fields, children);
    }
  }

  lemma {:induction false} OpenStep(content: Content, kind: Kind, file: bool, current: nat, fields: seq<Name>,
                                    children: seq<Scope>)
    requires current + 1 < |content| && content[current].Open?
    ensures var h := content[current].header;
            ReadBody(content, kind, file, current, fields, children) ==
            if !Admissible(kind, h) then Err(NamespaceInherits)
            else match ReadBody(content, ChildKind(kind, h), false, current + 1, [], [])
              case Err(e) => Err(e)
              case Ok(b) => ReadBody(content, kind, file, b.end + 1, fields, children + Retained(kind, h, current, b))
  {
    hide ReadBody;
    assert Look(content, kind, current) == Brace(current, []);
    ReadStep(content, kind, file, current, fields, children);
    assert fields + [] == fields;
  }

  lemma {:induction false} NoCloseIsUnclosed(content: Content, kind: Kind, current: nat, fields: seq<Name>,
                                             children: seq<Scope>)
    requires 0 < |content| && current <= |content| && FindClose(content, current) == |content|
    ensures ReadBody(content, kind, false, current, fields, children).Err?
    ensures kind == Empty ==> ReadBody(content, kind, false, current, fields, children) == Err(Unclosed)
    decreases |content| - current
  {
    hide ReadBody;
    if current + 1 < |content| {
      match Look(content, kind, current)
      case NoScope(_) => ReadStop(content, kind, false, current, fields, children);
      case Brace(open, _) =>
        ReadStep(content, kind, false, current, fields, children);
        assert FindClose(content, open + 1) == |content|;
        NoCloseIsUnclosed(content, ChildKind(kind, content[open].header), open + 1, [], []);
    } else {
      ReadEnd(content, kind, false, current, fields, children);
    }
  }

  // ----- brace matching

  /** A depth counter run to the right until it drops below its start: the reference for brace
      matching, with no recursion into scopes. */
  function Skip(content: Content, i: nat, depth: nat): (r: Option<nat>)
    requires i <= |content|
    decreases |content| - i
  {
    if i == |content| then None
    else match content[i]
      case Open(_) => Skip(content, i + 1, depth + 1)
      case Close => if depth == 0 then Some(i) else Skip(content, i + 1, depth - 1)
      case _ => Skip(content, i + 1, depth)
  }

  /** Leaving `a + b + 1` levels is leaving `a` of them and then the other `b + 1`. */
  lemma {:induction false} SkipNest(content: Content, i: nat, a: nat, b: nat)
    requires i <= |content|
    ensures Skip(content, i, a).Some? ==> Skip(content, i, a).value < |content|
    ensures Skip(content, i, a + b + 1) == match Skip(content, i, a)
              case None => None
              case Some(e) => Skip(content, e + 1, b)
    decreases |content| - i
  {
    if i < |content| {
      match content[i]
      case Open(_) => SkipNest(content, i + 1, a + 1, b);
      case Close => if a > 0 { SkipNest(content, i + 1, a - 1, b); }
      case _ => SkipNest(content, i + 1, a, b);
    }
  }

  /** Reading a scope ends at the matching brace, and fails as unclosed only if there is none; an
      anonymous scope fails in no other way. */
  lemma {:induction false} ReadMatchesBraces(content: Content, kind: Kind, current: nat, fields: seq<Name>,
                                             children: seq<Scope>)
    requires 0 < |content| && current <= |content|
    ensures match ReadBody(content, kind, false, current, fields, children)
              case Ok(b) => Skip(content, current, 0) == Some(b.end)
              case Err(e) => (e == Unclosed ==> Skip(content, current, 0) == None) && (kind == Empty ==> e == Unclosed)
    decreases |content| - current
  {
    hide ReadBody;
    if FindClose(content, current) == |content| {
      NoCloseIsUnclosed(content, kind, current, fields, children);
      NoCloseNoSkip(content, current, 0);
    } else if content[current] == Close {
      CloseStep(content, kind, false, current, fields, children);
    } else if content[current].Open? {
      var h := content[current].header;
      OpenStep(content, kind, false, current, fields, children);
      SkipNest(content, current + 1, 0, 0);
      if Admissible(kind, h) {
        ReadMatchesBraces(content, ChildKind(kind, h), current + 1, [], []);
        match ReadBody(content, ChildKind(kind, h), false, current + 1, [], [])
        case Err(_) =>
        case Ok(b) => ReadMatchesBraces(content, kind, b.end + 1, fields, children + Retained(kind, h, current, b));
      }
    } else {
      PlainStep(content, kind, false, current, fields, children);
      ReadMatchesBraces(content, kind, current + 1, fields + FieldsOf(content[current], kind), children);
    }
  }

  lemma {:induction false} NoCloseNoSkip(content: Content, i: nat, depth: nat)
    requires i <= |content| && FindClose(content, i) == |content|
    ensures Skip(content, i, depth) == None
    decreases |content| - i
  {
    if i < |content| {
      NoCloseNoSkip(content, i + 1, if content[i].Open? then depth + 1 else depth);
    }
  }

  /** Nesting depth gained over `content[i..k]`. */
  ghost function Depth(content: Content, i: nat, k: nat): int
    requires i <= k <= |content|
    decreases k - i
  {
    if i == k then 0
    else (if content[i].Open? then 1 else if content[i].Close? then -1 else 0) + Depth(content, i + 1, k)
  }

  /** `e` is the first index at which the depth, counted from `d` at `i`, drops below zero. */
  ghost predicate Leaves(content: Content, i: nat, d: nat, e: nat) {
    && i <= e < |content|
    && d + Depth(content, i, e + 1) == -1
    && forall k :: i <= k <= e ==> d + Depth(content, i, k) >= 0
  }

  lemma {:induction false} SkipExact(content: Content, i: nat, d: nat, e: nat)
    requires i <= |content|
    ensures Skip(content, i, d) == Some(e) <==> Leaves(content, i, d, e)
    decreases |content| - i
  {
    if i < |content| {
      var d' := d + Depth(content, i, i + 1);
      assert Depth(content, i, i + 1)
          == (if content[i].Open? then 1 else if content[i].Close? then -1 else 0) + Depth(content, i + 1, i + 1);
      if d' >= 0 {
        SkipExact(content, i + 1, d', e);
        LeavesStep(content, i, d, e);
      } else {
        assert !(d + Depth(content, i, i + 1) >= 0);
      }
    }
  }

  lemma {:induction false} LeavesStep(content: Content, i: nat, d: nat, e: nat)
    requires i < |content| && d + Depth(content, i, i + 1) >= 0
    ensures Leaves(content, i, d, e) <==> Leaves(content, i + 1, d + Depth(content, i, i + 1), e)
  {
    var d', j := d + Depth(content, i, i + 1), i + 1;
    assert Depth(content, j, j) == 0;
    assert forall k :: j <= k <= |content| ==> d + Depth(content, i, k) == d' + Depth(content, j, k);
    if Leaves(content, j, d', e) {
      forall k | i <= k <= e ensures d + Depth(content, i, k) >= 0 {
        if k > i { assert d' + Depth(content, j, k) >= 0; }
      }
    }
    if Leaves(content, i, d, e) {
      assert e > i;
      forall k | j <= k <= e ensures d' + Depth(content, j, k) >= 0 {
        assert d + Depth(content, i, k) >= 0;
      }
    }
  }

  /** Reading an anonymous scope from an opening brace succeeds exactly when a matching closing brace
      exists, and ends at the first index where the nesting depth returns to that of the brace. */
  lemma {:induction false} AnonymousScopeExact(content: Content, after: nat)
    requires 0 < after <= |content|
    ensures var r := ReadBody(content, Empty, false, after, [], []);
            && (r.Ok? <==> exists e: nat :: Leaves(content, after, 0, e))
            && (r.Ok? ==> Leaves(content, after, 0, r.value.end))
            && (r.Err? ==> r.error == Unclosed)
  {
    hide ReadBody;
    ReadMatchesBraces(content, Empty, after, [], []);
    match ReadBody(content, Empty, false, after, [], [])
    case Ok(b) => SkipExact(content, after, 0, b.end);
    case Err(_) =>
      forall e: nat ensures !Leaves(content, after, 0, e) {
        SkipExact(content, after, 0, e);
      }
  }

  // ----- geometry

  ghost predicate Headed(content: Content, c: Scope) {
    && c.start < c.end < |content|
    && content[c.start].Open? && content[c.start].header.Some?
    && var h := content[c.start].header.value;
       && h.name == c.name && h.inherits == c.inherits
       && c.kind == (match h.word case NamespaceWord => Namespace case ClassWord => Class case EnumWord => Enum)
  }

  /** A recorded scope runs from its header's brace to the matching brace, and its children lie
      strictly inside it, disjoint and in source order, and are themselves well nested. */
  ghost predicate WellNested(content: Content, c: Scope)
    decreases c, 1
  {
    && Headed(content, c)
    && Skip(content, c.start + 1, 0) == Some(c.end)
    && InOrder(content, c.start + 1, c.end, c.children)
  }

  ghost predicate InOrder(content: Content, lo: nat, hi: nat, cs: seq<Scope>)
    decreases cs, 0
  {
    cs == [] ||
    var c := cs[|cs| - 1];
    c.end < hi && lo <= c.start && WellNested(content, c) && InOrder(content, lo, c.start, cs[..|cs| - 1])
  }

  lemma {:induction false} ReadNests(content: Content, kind: Kind, file: bool, lo: nat, current: nat,
                                     fields: seq<Name>, children: seq<Scope>)
    requires 0 < |content| && lo <= current <= |content| && InOrder(content, lo, current, children)
    ensures var r := ReadBody(content, kind, file, current, fields, children);
            r.Ok? ==> InOrder(content, lo, if file then |content| else r.value.end, r.value.children)
    decreases |content| - current, 1
  {
    hide ReadBody, WellNested;
    if current + 1 < |content| {
      match Look(content, kind, current)
      case NoScope(_) => ReadStop(content, kind, file, current, fields, children);
      case Brace(open, before) =>
        hide Look;
        ReadStep(content, kind, file, current, fields, children);
        var h := content[open].header;
        if Admissible(kind, h) {
          ChildNests(content, kind, lo, current, open, children);
          match ReadBody(content, ChildKind(kind, h), false, open + 1, [], [])
          case Err(_) =>
          case Ok(b) => ReadNests(content, kind, file, lo, b.end + 1, fields + before,
                                  children + Retained(kind, h, open, b));
        }
    } else {
      ReadEnd(content, kind, file, current, fields, children);
    }
  }

  lemma {:induction false} ChildNests(content: Content, kind: Kind, lo: nat, current: nat, open: nat,
                                      children: seq<Scope>)
    requires lo <= current <= open < |content| && InOrder(content, lo, current, children)
    requires content[open].Open? && Admissible(kind, content[open].header)
    ensures var h := content[open].header;
            match ReadBody(content, ChildKind(kind, h), false, open + 1, [], [])
            case Err(_) => true
            case Ok(b) => InOrder(content, lo, b.end + 1, children + Retained(kind, h, open, b))
    decreases |content| - open, 0
  {
    hide ReadBody;
    var h := content[open].header;
    ReadMatchesBraces(content, ChildKind(kind, h), open + 1, [], []);
    ReadNests(content, ChildKind(kind, h), false, open + 1, open + 1, [], []);
    match ReadBody(content, ChildKind(kind, h), false, open + 1, [], [])
    case Err(_) =>
    case Ok(b) =>
      var kept := Retained(kind, h, open, b);
      if kept != [] {
        assert WellNested(content, kept[0]);
        assert (children + kept)[..|children + kept| - 1] == children;
      } else {
        assert children + kept == children;
      }
  }

  /** Every scope recorded for a file is well nested, to any depth. */
  lemma {:induction false} FileNests(tokens: Content)
    ensures ReadFile(tokens).Ok? ==> InOrder([Other] + tokens, 1, |tokens| + 1, ReadFile(tokens).value.children)
  {
    ReadNests([Other] + tokens, Namespace, true, 1, 1, [], []);
  }
}
