/** The scope reader (`EmptyScope`, `ClassStruct`, `Namespace`): a recursive-descent reader of
    nested braces.  The regular expressions are abstracted to tokens; everything the reader does
    with its cursor, its end, its fields and its children is kept. */
module Scopes {
  import opened Lists

  datatype Keyword = NamespaceWord | ClassWord | EnumWord   // `struct` and `class` are read alike

  datatype Header = Header(word: Keyword, name: Name, inherits: Option<Name>)

  /** An opening brace carries the header that ends at it, if any. */
  datatype Token = Other | Field(name: Name, enumerator: bool) | Open(header: Option<Header>) | Close

  datatype Kind = Empty | Class | Enum | Namespace

  datatype Scope = Scope(kind: Kind, name: Name, inherits: Option<Name>, start: nat, end: nat,
                         fields: seq<Name>, children: seq<Scope>)

  datatype Error = Unclosed | NamespaceInherits

  datatype Body = Body(end: nat, fields: seq<Name>, children: seq<Scope>)

  datatype Result<+T> = Ok(value: T) | Err(error: Error)

  type Content = seq<Token>

  /** `content.find("}", i)`, with the length of the content for "not found". */
  function FindClose(content: Content, i: nat): (r: nat)
    requires i <= |content|
    ensures i <= r <= |content|
    ensures r < |content| ==> content[r] == Close
    ensures forall k :: i <= k < r ==> content[k] != Close
    decreases |content| - i
  {
    if i == |content| || content[i] == Close then i else FindClose(content, i + 1)
  }

  /** `content.find("{", i, limit)`, with `limit` for "not found". */
  function FindOpen(content: Content, i: nat, limit: nat): (r: nat)
    requires i <= limit <= |content|
    ensures i <= r <= limit
    ensures r < limit ==> content[r].Open?
    ensures forall k :: i <= k < r ==> !content[k].Open?
    decreases limit - i
  {
    if i == limit || content[i].Open? then i else FindOpen(content, i + 1, limit)
  }

  /** The end of the searched slice: the next closing brace, or (Python's -1) all but the last. */
  function Limit(content: Content, i: nat): (r: nat)
    requires i < |content|
    ensures r < |content|
    ensures i + 1 < |content| ==> i <= r
  {
    var c := FindClose(content, i);
    if c < |content| then c else |content| - 1
  }

  /** The fields that a scope of this kind recognises in a slice. */
  function FieldsIn(content: Content, kind: Kind, lo: nat, hi: nat): seq<Name>
    requires lo <= hi <= |content|
    decreases hi - lo
  {
    if lo == hi then [] else FieldsOf(content[lo], kind) + FieldsIn(content, kind, lo + 1, hi)
  }

  function FieldsOf(t: Token, kind: Kind): seq<Name> {
    if t.Field? && kind != Empty && t.enumerator == (kind == Enum) then [t.name] else []
  }

  /** The kind of scope a brace opens: nothing is named inside an anonymous scope, and a class does
      not recognise the `namespace` keyword. */
  function ChildKind(kind: Kind, header: Option<Header>): Kind {
    if header.None? || kind == Empty then Empty
    else match header.value.word
      case NamespaceWord => if kind == Namespace then Namespace else Empty
      case ClassWord => Class
      case EnumWord => Enum
  }

  predicate Admissible(kind: Kind, header: Option<Header>) {
    ChildKind(kind, header) == Namespace ==> header.value.inherits.None?
  }

  /** Children other than anonymous scopes are kept. */
  function Retained(kind: Kind, header: Option<Header>, start: nat, b: Body): seq<Scope> {
    var k := ChildKind(kind, header);
    if k == Empty then [] else [Scope(k, header.value.name, header.value.inherits, start, b.end, b.fields, b.children)]
  }

  /** What `next_scope` sees from the cursor: an opening brace before the next closing one, or none;
      with the fields in between. */
  datatype Sight = NoScope(fields: seq<Name>) | Brace(open: nat, fields: seq<Name>)

  function Look(content: Content, kind: Kind, current: nat): (s: Sight)
    requires current + 1 < |content|
    ensures s.Brace? ==> current <= s.open < |content| - 1 && content[s.open].Open?
  {
    var limit := Limit(content, current);
    var open := FindOpen(content, current, limit);
    if open < limit then Brace(open, FieldsIn(content, kind, current, open))
    else if FindClose(content, current) < |content| then NoScope(FieldsIn(content, kind, current, limit))
    else NoScope([])
  }

  /** The rest of `read` from the cursor on, given what has been gathered so far; `file` is the scope
      that starts at 0, whose end is fixed in advance. */
  function ReadBody(content: Content, kind: Kind, file: bool, current: nat, fields: seq<Name>,
                    children: seq<Scope>): (r: Result<Body>)
    requires 0 < |content| && current <= |content|
    ensures r.Ok? && !file ==> current <= r.value.end < |content|
    decreases |content| - current
  {
    if current + 1 < |content| then
      match Look(content, kind, current)
      case NoScope(last) => Conclude(content, file, current, fields + last, children)
      case Brace(open, before) =>
        var h := content[open].header;
        if !Admissible(kind, h) then Err(NamespaceInherits)
        else match ReadBody(content, ChildKind(kind, h), false, open + 1, [], [])
          case Err(e) => Err(e)
          case Ok(b) => ReadBody(content, kind, file, b.end + 1, fields + before, children + Retained(kind, h, open, b))
    else
      Conclude(content, file, current, fields, children)
  }

  function Conclude(content: Content, file: bool, current: nat, fields: seq<Name>, children: seq<Scope>): Result<Body>
    requires 0 < |content| && current <= |content|
  {
    if file then Ok(Body(|content| - 1, fields, children))
    else
      var c := FindClose(content, current);
      if c < |content| then Ok(Body(c, fields, children)) else Err(Unclosed)
  }

  /** One call of `next_scope` that finds a brace. */
  lemma {:induction false} ReadStep(content: Content, kind: Kind, file: bool, current: nat, fields: seq<Name>,
                                    children: seq<Scope>)
    requires current + 1 < |content| && Look(content, kind, current).Brace?
    ensures var Brace(open, before) := Look(content, kind, current);
            var h := content[open].header;
            ReadBody(content, kind, file, current, fields, children) ==
            if !Admissible(kind, h) then Err(NamespaceInherits)
            else match ReadBody(content, ChildKind(kind, h), false, open + 1, [], [])
              case Err(e) => Err(e)
              case Ok(b) => ReadBody(content, kind, file, b.end + 1, fields + before,
                                     children + Retained(kind, h, open, b))
  {
    hide Look, Admissible, ChildKind, Retained, Conclude;
  }

  lemma {:induction false} ReadStop(content: Content, kind: Kind, file: bool, current: nat, fields: seq<Name>,
                                    children: seq<Scope>)
    requires current + 1 < |content| && Look(content, kind, current).NoScope?
    ensures ReadBody(content, kind, file, current, fields, children)
         == Conclude(content, file, current, fields + Look(content, kind, current).fields, children)
  {
    hide Look, Admissible, ChildKind, Retained, Conclude;
  }

  lemma {:induction false} ReadEnd(content: Content, kind: Kind, file: bool, current: nat, fields: seq<Name>,
                                   children: seq<Scope>)
    requires 0 < |content| && |content| - 1 <= current <= |content|
    ensures ReadBody(content, kind, file, current, fields, children)
         == Conclude(content, file, current, fields, children)
  {}

  /** `validate_file` prepends a newline, so that no scope but the file itself starts at 0. */
  function ReadFile(tokens: Content): Result<Body> {
    ReadBody([Other] + tokens, Namespace, true, 1, [], [])
  }

  datatype Outcome = Pass | Fail(error: Error)

  /** A scope being read: cursor, end, fields and children change as `Read` proceeds.  A child is
      frozen into a `Scope` value when its own reading is done. */
  class Reader {
    const content: Content
    const kind: Kind
    const start: nat
    var current: nat
    var end: nat
    var fields: seq<Name>
    var children: seq<Scope>

    constructor (kind: Kind, start: nat, content: Content)
      requires start < |content|
      ensures this.kind == kind && this.start == start && this.content == content
      ensures current == start + 1 && fields == [] && children == [] && (start == 0 ==> end == |content| - 1)
    {
      this.kind, this.start, this.content := kind, start, content;
      current, fields, children := start + 1, [], [];
      end := if start == 0 then |content| - 1 else 0;
    }

    ghost predicate Matches(r: Result<Body>, o: Outcome)
      reads this
    {
      match r
      case Ok(b) => o == Pass && end == b.end && fields == b.fields && children == b.children
      case Err(e) => o == Fail(e)
    }

    method Read() returns (o: Outcome)
      requires 1 <= current <= |content| && (start == 0 ==> end == |content| - 1)
      modifies this
      ensures Matches(ReadBody(content, kind, start == 0, old(current), old(fields), old(children)), o)
      decreases |content| - current, 1
    {
      ghost var whole := ReadBody(content, kind, start == 0, current, fields, children);
      while current < |content| - 1
        invariant old(current) <= current <= |content| && (start == 0 ==> end == |content| - 1)
        invariant whole == ReadBody(content, kind, start == 0, current, fields, children)
        decreases |content| - current
      {
        var more;
        o, more := NextScope();
        if o.Fail? { return; }
        if !more { break; }
      }
      assert whole == Conclude(content, start == 0, current, fields, children);
      o := Pass;
      if start != 0 {
        end := FindClose(content, current);
        if end == |content| { return Fail(Unclosed); }
      }
    }

    method NextScope() returns (o: Outcome, more: bool)
      requires 1 <= current < |content| - 1
      modifies this
      ensures old(current) <= current <= |content| && end == old(end)
      ensures o.Fail? ==>
        ReadBody(content, kind, start == 0, old(current), old(fields), old(children)) == Err(o.error)
      ensures o == Pass && more ==>
        && current > old(current)
        && ReadBody(content, kind, start == 0, old(current), old(fields), old(children))
           == ReadBody(content, kind, start == 0, current, fields, children)
      ensures o == Pass && !more ==>
        && current == old(current)
        && ReadBody(content, kind, start == 0, current, old(fields), old(children))
           == Conclude(content, start == 0, current, fields, children)
      decreases |content| - current, 0
    {
      hide ReadBody, Conclude;
      var limit := Limit(content, current);
      var open := FindOpen(content, current, limit);
      if open == limit {
        ReadStop(content, kind, start == 0, current, fields, children);
        if FindClose(content, current) < |content| {
          fields := fields + FieldsIn(content, kind, current, limit);
        }
        assert old(fields) + [] == old(fields);
        return Pass, false;
      }
      ReadStep(content, kind, start == 0, current, fields, children);
      var header := content[open].header;
      if !Admissible(kind, header) { return Fail(NamespaceInherits), false; }
      var child := new Reader(ChildKind(kind, header), open, content);
      fields := fields + FieldsIn(content, kind, current, open);
      o := child.Read();
      if o.Fail? { return o, false; }
      current := child.end + 1;
      children := children + Retained(kind, header, open, Body(child.end, child.fields, child.children));
      more := true;
    }
  }

  /** The global namespace of `validate_file`. */
  method LoadFile(tokens: Content) returns (r: Result<Body>)
    ensures r == ReadFile(tokens)
  {
    var reader := new Reader(Namespace, 0, [Other] + tokens);
    var o := reader.Read();
    r := match o
      case Pass => Ok(Body(reader.end, reader.fields, reader.children))
      case Fail(e) => Err(e);
  }
}
