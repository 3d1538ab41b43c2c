/** Reading the printed form of a forest of scopes gives back, for every named scope that is not
    inside an anonymous one, its direct fields and its direct named children, in order. */
module ScopeRoundTrip {
  import opened Lists
  import opened Scopes
  import opened ScopeLaws

  /** A forest of scopes as a programmer writes it. */
  datatype Item = Text | Member(name: Name, enumerator: bool) | Block(header: Option<Header>, body: seq<Item>)

  function Print(items: seq<Item>): seq<Token>
    decreases items, 0
  {
    if items == [] then [] else PrintItem(items[0]) + Print(items[1..])
  }

  function PrintItem(item: Item): seq<Token>
    decreases item, 1
  {
    match item
    case Text => [Other]
    case Member(name, enumerator) => [Field(name, enumerator)]
    case Block(header, body) => [Open(header)] + Print(body) + [Close]
  }

  /** The names of the members, or of the enumerators, directly among the items. */
  ghost function Members(items: seq<Item>, enumerators: bool): seq<Name> {
    if items == [] then []
    else match items[0]
      case Member(name, e) => (if e == enumerators then [name] else []) + Members(items[1..], enumerators)
      case _ => Members(items[1..], enumerators)
  }

  /** The fields of a scope: the members of a class or a namespace, the enumerators of an enum. */
  ghost function DirectFields(kind: Kind, items: seq<Item>): seq<Name> {
    match kind
    case Class => Members(items, false)
    case Namespace => Members(items, false)
    case Enum => Members(items, true)
    case Empty => []
  }

  /** What a block is read as: a namespace only where namespaces are looked for, and nothing inside
      an anonymous block. */
  function BlockKind(kind: Kind, header: Option<Header>): Kind {
    match header
    case None => Empty
    case Some(Header(ClassWord, _, _)) => if kind == Empty then Empty else Class
    case Some(Header(EnumWord, _, _)) => if kind == Empty then Empty else Enum
    case Some(Header(NamespaceWord, _, _)) => if kind == Namespace then Namespace else Empty
  }

  /** The named scopes directly in a scope of this kind, printed from position `at`. */
  ghost function DirectChildren(kind: Kind, items: seq<Item>, at: nat): Result<seq<Scope>>
    decreases items
  {
    if items == [] then Ok([])
    else if !items[0].Block? then DirectChildren(kind, items[1..], at + 1)
    else
      var h, k := items[0].header, BlockKind(kind, items[0].header);
      if k == Namespace && h.value.inherits.Some? then Err(NamespaceInherits)
      else match BlockBody(kind, items[0], at)
        case Err(e) => Err(e)
        case Ok(b) => match DirectChildren(kind, items[1..], b.end + 1)
          case Err(e) => Err(e)
          case Ok(rest) =>
            if k == Empty then Ok(rest)
            else Ok([Scope(k, h.value.name, h.value.inherits, at, b.end, b.fields, b.children)] + rest)
  }

  ghost function BlockBody(kind: Kind, item: Item, at: nat): (r: Result<Body>)
    requires item.Block?
    decreases item
  {
    var k := BlockKind(kind, item.header);
    match DirectChildren(k, item.body, at + 1)
    case Err(e) => Err(e)
    case Ok(cs) => Ok(Body(at + 1 + |Print(item.body)|, DirectFields(k, item.body), cs))
  }

  lemma {:induction false} KindAgrees(kind: Kind, header: Option<Header>)
    ensures ChildKind(kind, header) == BlockKind(kind, header)
  {}

  lemma {:induction false} ChildrenUnfold(kind: Kind, items: seq<Item>, at: nat)
    requires items != [] && items[0].Block?
    ensures DirectChildren(kind, items, at) ==
            if !Admissible(kind, items[0].header) then Err(NamespaceInherits)
            else match BlockBody(kind, items[0], at)
              case Err(e) => Err(e)
              case Ok(b) => match DirectChildren(kind, items[1..], b.end + 1)
                case Err(e) => Err(e)
                case Ok(rest) => Ok(Retained(kind, items[0].header, at, b) + rest)
  {
    KindAgrees(kind, items[0].header);
    hide BlockBody, ChildKind, BlockKind;
    if BlockBody(kind, items[0], at).Ok? {
      match DirectChildren(kind, items[1..], BlockBody(kind, items[0], at).value.end + 1)
      case Err(_) =>
      case Ok(rest) => assert [] + rest == rest;
    }
  }

  ghost predicate At(content: Content, i: nat, tokens: seq<Token>) {
    i + |tokens| <= |content| && content[i..i + |tokens|] == tokens
  }

  lemma {:induction false} AtSplit(content: Content, i: nat, s: seq<Token>, t: seq<Token>)
    ensures At(content, i, s + t) <==> At(content, i, s) && At(content, i + |s|, t)
  {
    if At(content, i, s + t) {
      assert s == (s + t)[..|s|] == content[i..i + |s|];
      assert t == (s + t)[|s|..] == content[i + |s|..i + |s| + |t|];
    }
    if At(content, i, s) && At(content, i + |s|, t) {
      assert content[i..i + |s + t|] == content[i..i + |s|] + content[i + |s|..i + |s| + |t|];
    }
  }

  /** A closing brace follows every item that is not a block. */
  ghost predicate ClosesLater(content: Content, end: nat, items: seq<Item>)
    requires end <= |content|
  {
    items == [] || items[|items| - 1].Block? || FindClose(content, end) < |content|
  }

  lemma {:induction false} PrintEndsInClose(items: seq<Item>)
    requires items != [] && items[|items| - 1].Block?
    ensures |Print(items)| > 0 && Print(items)[|Print(items)| - 1] == Close
  {
    if |items| > 1 {
      PrintEndsInClose(items[1..]);
    }
  }

  lemma {:induction false} CloseAhead(content: Content, current: nat, items: seq<Item>)
    requires items != [] && At(content, current, Print(items))
    requires ClosesLater(content, current + |Print(items)|, items)
    ensures FindClose(content, current) < |content|
  {
    var end := current + |Print(items)|;
    if items[|items| - 1].Block? {
      PrintEndsInClose(items);
      assert content[end - 1] == content[current..end][|Print(items)| - 1];
    } else {
      assert content[FindClose(content, end)] == Close;
    }
  }

  /** Where reading the printed items should lead. */
  ghost function Past(content: Content, kind: Kind, file: bool, current: nat, fields: seq<Name>, children: seq<Scope>,
                      items: seq<Item>): Result<Body>
    requires 0 < |content| && current + |Print(items)| <= |content|
  {
    match DirectChildren(kind, items, current)
    case Err(e) => Err(e)
    case Ok(cs) => ReadBody(content, kind, file, current + |Print(items)|, fields + DirectFields(kind, items),
                            children + cs)
  }

  /** The reader over the printed items, whatever comes before and after. */
  lemma {:induction false} Replay(content: Content, kind: Kind, file: bool, current: nat, fields: seq<Name>,
                                  children: seq<Scope>, items: seq<Item>)
    requires 0 < |content| && At(content, current, Print(items))
    requires ClosesLater(content, current + |Print(items)|, items)
    ensures ReadBody(content, kind, file, current, fields, children)
         == Past(content, kind, file, current, fields, children, items)
    decreases items, 1
  {
    hide *;
    if items == [] {
      PastNothing(content, kind, file, current, fields, children);
    } else {
      Head(content, current, items);
      if items[0].Block? {
        ReplayFirstBlock(content, kind, file, current, fields, children, items);
      } else {
        CloseAhead(content, current, items);
        PlainStep(content, kind, file, current, fields, children);
        Replay(content, kind, file, current + 1, fields + FieldsOf(content[current], kind), children, items[1..]);
        PastPlain(content, kind, file, current, fields, children, items);
      }
    }
  }

  lemma {:induction false} PastNothing(content: Content, kind: Kind, file: bool, current: nat, fields: seq<Name>,
                                       children: seq<Scope>)
    requires 0 < |content| && At(content, current, Print([]))
    ensures |Print([])| == 0
    ensures Past(content, kind, file, current, fields, children, [])
         == ReadBody(content, kind, file, current, fields, children)
  {
    hide ReadBody;
    assert fields + [] == fields && children + [] == children;
  }

  /** The first item and the rest, where they stand. */
  lemma {:induction false} Head(content: Content, current: nat, items: seq<Item>)
    requires items != [] && At(content, current, Print(items))
    requires ClosesLater(content, current + |Print(items)|, items)
    ensures At(content, current, PrintItem(items[0])) && At(content, current + |PrintItem(items[0])|, Print(items[1..]))
    ensures |Print(items)| == |PrintItem(items[0])| + |Print(items[1..])| && current < |content|
    ensures PrintItem(items[0]) != [] && content[current] == PrintItem(items[0])[0]
    ensures items[0].Block? ==> content[current] == Open(items[0].header) && current + 1 < |content|
    ensures !items[0].Block? ==> Plain(content[current]) && |PrintItem(items[0])| == 1
    ensures ClosesLater(content, current + |Print(items)|, items[1..])
  {
    AtSplit(content, current, PrintItem(items[0]), Print(items[1..]));
    assert content[current] == content[current..current + |PrintItem(items[0])|][0];
  }

  lemma {:induction false} ReplayFirstBlock(content: Content, kind: Kind, file: bool, current: nat, fields: seq<Name>,
                                            children: seq<Scope>, items: seq<Item>)
    requires 0 < |content| && At(content, current, Print(items))
    requires ClosesLater(content, current + |Print(items)|, items)
    requires items != [] && items[0].Block?
    ensures ReadBody(content, kind, file, current, fields, children)
         == Past(content, kind, file, current, fields, children, items)
    decreases items, 0
  {
    hide *;
    var item := items[0];
    Head(content, current, items);
    ReplayBlock(content, kind, current, item);
    OpenStep(content, kind, file, current, fields, children);
    PastBlock(content, kind, file, current, fields, children, items);
    if Admissible(kind, item.header) && BlockBody(kind, item, current).Ok? {
      var b := BlockBody(kind, item, current).value;
      BlockEnds(kind, item, current);
      Replay(content, kind, file, b.end + 1, fields, children + Retained(kind, item.header, current, b), items[1..]);
    }
  }

  lemma {:induction false} BlockEnds(kind: Kind, item: Item, at: nat)
    requires item.Block? && BlockBody(kind, item, at).Ok?
    ensures BlockBody(kind, item, at).value.end + 1 == at + |PrintItem(item)|
  {}

  lemma {:induction false} PlainUnfold(kind: Kind, items: seq<Item>, at: nat)
    requires items != [] && !items[0].Block?
    ensures |PrintItem(items[0])| == 1 && |Print(items)| == 1 + |Print(items[1..])|
    ensures DirectFields(kind, items) == FieldsOf(PrintItem(items[0])[0], kind) + DirectFields(kind, items[1..])
    ensures DirectChildren(kind, items, at) == DirectChildren(kind, items[1..], at + 1)
  {}

  lemma {:induction false} PastPlain(content: Content, kind: Kind, file: bool, current: nat, fields: seq<Name>,
                                     children: seq<Scope>, items: seq<Item>)
    requires items != [] && !items[0].Block? && current < |content| && current + |Print(items)| <= |content|
    requires content[current] == PrintItem(items[0])[0]
    ensures Past(content, kind, file, current, fields, children, items)
         == Past(content, kind, file, current + 1, fields + FieldsOf(content[current], kind), children, items[1..])
  {
    hide ReadBody, DirectFields, DirectChildren, Print, PrintItem, FieldsOf;
    PlainUnfold(kind, items, current);
    var f, more := FieldsOf(content[current], kind), DirectFields(kind, items[1..]);
    assert fields + (f + more) == fields + f + more;
  }

  lemma {:induction false} PastBlock(content: Content, kind: Kind, file: bool, current: nat, fields: seq<Name>,
                                     children: seq<Scope>, items: seq<Item>)
    requires items != [] && items[0].Block? && 0 < |content| && current + |Print(items)| <= |content|
    ensures Past(content, kind, file, current, fields, children, items) ==
            if !Admissible(kind, items[0].header) then Err(NamespaceInherits)
            else match BlockBody(kind, items[0], current)
              case Err(e) => Err(e)
              case Ok(b) => Past(content, kind, file, b.end + 1, fields,
                                 children + Retained(kind, items[0].header, current, b), items[1..])
  {
    hide ReadBody, Admissible, Retained, ChildKind, BlockKind, DirectChildren, BlockBody;
    ChildrenUnfold(kind, items, current);
    var h, rest := items[0].header, items[1..];
    assert DirectFields(kind, items) == DirectFields(kind, rest);
    assert |Print(items)| == |PrintItem(items[0])| + |Print(rest)|;
    hide DirectFields, Print, PrintItem;
    if Admissible(kind, h) && BlockBody(kind, items[0], current).Ok? {
      var b := BlockBody(kind, items[0], current).value;
      BlockEnds(kind, items[0], current);
      var kept := Retained(kind, h, current, b);
      match DirectChildren(kind, rest, b.end + 1)
      case Err(_) =>
      case Ok(cs) => assert children + (kept + cs) == children + kept + cs;
    }
  }

  lemma {:induction false} ReplayBlock(content: Content, kind: Kind, current: nat, item: Item)
    requires 0 < |content| && item.Block? && At(content, current, PrintItem(item))
    ensures ReadBody(content, ChildKind(kind, item.header), false, current + 1, [], [])
         == BlockBody(kind, item, current)
    decreases item, 0
  {
    hide ReadBody, ChildKind, BlockKind, DirectChildren, DirectFields, Print, Past;
    var k, close := ChildKind(kind, item.header), current + 1 + |Print(item.body)|;
    KindAgrees(kind, item.header);
    AtSplit(content, current, [Open(item.header)] + Print(item.body), [Close]);
    AtSplit(content, current, [Open(item.header)], Print(item.body));
    assert content[close] == content[close..close + 1][0];
    Replay(content, k, false, current + 1, [], [], item.body);
    PastFrom(content, k, false, current + 1, item.body);
    if DirectChildren(k, item.body, current + 1).Ok? {
      var cs := DirectChildren(k, item.body, current + 1).value;
      CloseStep(content, k, false, close, DirectFields(k, item.body), cs);
    }
  }

  lemma {:induction false} PastFrom(content: Content, kind: Kind, file: bool, current: nat, items: seq<Item>)
    requires 0 < |content| && current + |Print(items)| <= |content|
    ensures Past(content, kind, file, current, [], [], items) ==
            match DirectChildren(kind, items, current)
            case Err(e) => Err(e)
            case Ok(cs) =>
              ReadBody(content, kind, file, current + |Print(items)|, DirectFields(kind, items), cs)
  {
    hide ReadBody, DirectChildren, DirectFields, Print;
    match DirectChildren(kind, items, current)
    case Err(_) =>
    case Ok(cs) => assert [] + DirectFields(kind, items) == DirectFields(kind, items) && [] + cs == cs;
  }

  /** A scope's body, wherever it is printed: reading it from just after its brace gives exactly its
      direct fields and its direct named children, and ends at its closing brace. */
  lemma {:induction false} BodyRoundTrip(before: seq<Token>, kind: Kind, items: seq<Item>, after: seq<Token>)
    ensures ReadBody(before + (Print(items) + ([Close] + after)), kind, false, |before|, [], []) ==
            match DirectChildren(kind, items, |before|)
            case Err(e) => Err(e)
            case Ok(cs) => Ok(Body(|before| + |Print(items)|, DirectFields(kind, items), cs))
  {
    hide ReadBody, DirectChildren, DirectFields, Print, Past;
    var content, end := before + (Print(items) + ([Close] + after)), |before| + |Print(items)|;
    assert content[|before|..end] == Print(items);
    assert content[end] == Close;
    Replay(content, kind, false, |before|, [], [], items);
    PastFrom(content, kind, false, |before|, items);
    if DirectChildren(kind, items, |before|).Ok? {
      var cs := DirectChildren(kind, items, |before|).value;
      CloseStep(content, kind, false, end, DirectFields(kind, items), cs);
    }
  }

  /** How many items there are up to and including the last block. */
  ghost function ThroughLastBlock(items: seq<Item>): (n: nat)
    ensures n <= |items| && (n > 0 ==> items[n - 1].Block?) && forall i :: n <= i < |items| ==> !items[i].Block?
  {
    if items == [] || items[|items| - 1].Block? then |items| else ThroughLastBlock(items[..|items| - 1])
  }

  lemma {:induction false} PrintConcat(s: seq<Item>, t: seq<Item>)
    ensures Print(s + t) == Print(s) + Print(t)
  {
    hide PrintItem;
    if s == [] {
      assert s + t == t;
    } else {
      var head, rest := PrintItem(s[0]), Print(s[1..]);
      assert Print(s + t) == head + (rest + Print(t)) by {
        assert (s + t)[1..] == s[1..] + t;
        PrintConcat(s[1..], t);
      }
      assert head + (rest + Print(t)) == head + rest + Print(t);
    }
  }

  lemma {:induction false} PlainTail(items: seq<Item>)
    requires forall i :: 0 <= i < |items| ==> !items[i].Block?
    ensures forall i :: 0 <= i < |Print(items)| ==> Plain(Print(items)[i])
    ensures forall kind, at :: DirectChildren(kind, items, at) == Ok([])
  {
    if items != [] {
      PlainTail(items[1..]);
    }
  }

  lemma {:induction false} ChildrenIgnoreTail(kind: Kind, s: seq<Item>, t: seq<Item>, at: nat)
    requires forall i :: 0 <= i < |t| ==> !t[i].Block?
    ensures DirectChildren(kind, s + t, at) == DirectChildren(kind, s, at)
    decreases |s|
  {
    if s == [] {
      PlainTail(t);
      assert s + t == t;
    } else {
      assert (s + t)[1..] == s[1..] + t;
      if !s[0].Block? {
        ChildrenIgnoreTail(kind, s[1..], t, at + 1);
      } else if Admissible(kind, s[0].header) && BlockBody(kind, s[0], at).Ok? {
        ChildrenIgnoreTail(kind, s[1..], t, BlockBody(kind, s[0], at).value.end + 1);
      }
    }
  }

  /** No brace ahead: the file scope is done, and drops the fields it has not passed yet. */
  lemma {:induction false} FileTail(content: Content, current: nat, fields: seq<Name>, children: seq<Scope>)
    requires 0 < current <= |content| && forall i :: current <= i < |content| ==> Plain(content[i])
    ensures ReadBody(content, Namespace, true, current, fields, children) == Ok(Body(|content| - 1, fields, children))
  {
    hide ReadBody;
    if current + 1 < |content| {
      assert Look(content, Namespace, current) == NoScope([]);
      ReadStop(content, Namespace, true, current, fields, children);
      assert fields + [] == fields;
    } else {
      ReadEnd(content, Namespace, true, current, fields, children);
    }
  }

  /** A whole file: its named children come back at every level.  At file level, and only there, the
      fields after the last scope are dropped. */
  lemma {:induction false} FileRoundTrip(items: seq<Item>)
    ensures ReadFile(Print(items)) ==
            match DirectChildren(Namespace, items, 1)
            case Err(e) => Err(e)
            case Ok(cs) => Ok(Body(|Print(items)|, DirectFields(Namespace, items[..ThroughLastBlock(items)]), cs))
  {
    hide ReadBody, Print, DirectChildren, DirectFields, ThroughLastBlock, Past;
    var n := ThroughLastBlock(items);
    var lead, tail := items[..n], items[n..];
    assert items == lead + tail;
    PrintConcat(lead, tail);
    PlainTail(tail);
    ChildrenIgnoreTail(Namespace, lead, tail, 1);
    var content, mid := [Other] + Print(items), 1 + |Print(lead)|;
    assert content[1..mid] == Print(lead);
    assert forall i :: mid <= i < |content| ==> content[i] == Print(tail)[i - mid];
    Replay(content, Namespace, true, 1, [], [], lead);
    PastFrom(content, Namespace, true, 1, lead);
    if DirectChildren(Namespace, lead, 1).Ok? {
      FileTail(content, mid, DirectFields(Namespace, lead), DirectChildren(Namespace, lead, 1).value);
    }
  }
}
