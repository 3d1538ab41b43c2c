/** `Reflections`: the dictionary of reflected classes that the FC_REFLECT macros and the
    `@ignore`/`@swap` comments fill, one name at a time. */
module Collector {
  import opened Lists

  datatype Reflection = Reflection(fields: seq<Name>, ignored: seq<Name>, swapped: seq<Name>)

  /** What one name in the file asks for; `Touch` is `find_or_add` on its own. */
  datatype Request = Field | Ignore | Swap | Touch
  datatype Entry = Entry(cls: Name, request: Request, name: Name)

  datatype Problem = RepeatedField | RepeatedDirective | IgnoredAndSwapped

  datatype Outcome = Done | Failed(problem: Problem)

  type Book = map<Name, Reflection>

  const EMPTY := Reflection([], [], [])

  function Lookup(book: Book, c: Name): Reflection {
    if c in book then book[c] else EMPTY
  }

  /** The assertion that an entry trips, in the order the source makes them. */
  function Objection(r: Reflection, e: Entry): Outcome {
    match e.request
    case Field => if e.name in r.fields then Failed(RepeatedField) else Done
    case Ignore =>
      if e.name in r.ignored then Failed(RepeatedDirective)
      else if e.name in r.swapped then Failed(IgnoredAndSwapped)
      else Done
    case Swap =>
      if e.name in r.swapped then Failed(RepeatedDirective)
      else if e.name in r.ignored then Failed(IgnoredAndSwapped)
      else Done
    case Touch => Done
  }

  function Extend(r: Reflection, e: Entry): Reflection {
    match e.request
    case Field => r.(fields := r.fields + [e.name])
    case Ignore => r.(ignored := r.ignored + [e.name])
    case Swap => r.(swapped := r.swapped + [e.name])
    case Touch => r
  }

  /** The book after an entry: the class is there even when the entry itself is refused. */
  function Write(book: Book, e: Entry): Book {
    var r := Lookup(book, e.cls);
    book[e.cls := if Objection(r, e) == Done then Extend(r, e) else r]
  }

  /** Entries are taken until one is refused. */
  function Collect(book: Book, es: seq<Entry>): (Book, Outcome)
    decreases |es|
  {
    if es == [] then (book, Done)
    else
      var o := Objection(Lookup(book, es[0].cls), es[0]);
      if o == Done then Collect(Write(book, es[0]), es[1..]) else (Write(book, es[0]), o)
  }

  ghost predicate WellFormed(r: Reflection) {
    NoDup(r.fields) && NoDup(r.ignored) && NoDup(r.swapped) && Disjoint(r.ignored, r.swapped)
  }

  ghost predicate BookValid(book: Book) {
    forall c :: c in book ==> WellFormed(book[c])
  }

  lemma {:induction false} ExtendKeeps(r: Reflection, e: Entry)
    requires WellFormed(r)
    ensures Objection(r, e) == Done <==> WellFormed(Extend(r, e))
  {
    AppendKeeps(r.fields, e.name);
    AppendKeeps(r.ignored, e.name);
    AppendKeeps(r.swapped, e.name);
  }

  lemma {:induction false} AppendKeeps(s: seq<Name>, x: Name)
    requires NoDup(s)
    ensures NoDup(s + [x]) <==> x !in s
  {
    if x in s {
      var i :| 0 <= i < |s| && s[i] == x;
      assert (s + [x])[i] == (s + [x])[|s|];
    }
  }

  /** No entry, accepted or refused, breaks a well-formed book. */
  lemma {:induction false} WriteKeeps(book: Book, e: Entry)
    requires BookValid(book)
    ensures BookValid(Write(book, e))
  {
    ExtendKeeps(Lookup(book, e.cls), e);
  }

  /** Classes in the order of their first entries. */
  function Noted(order: seq<Name>, es: seq<Entry>): seq<Name>
    decreases |es|
  {
    if es == [] then order else Noted(if es[0].cls in order then order else order + [es[0].cls], es[1..])
  }

  class Reflections {
    var classes: Book
    var order: seq<Name>   // the insertion order of the OrderedDict

    ghost predicate Valid()
      reads this
    {
      BookValid(classes) && NoDup(order) && (forall c :: c in order <==> c in classes)
    }

    constructor ()
      ensures Valid() && classes == map[] && order == []
    {
      classes, order := map[], [];
    }

    method FindOrAdd(c: Name)
      requires Valid()
      modifies this
      ensures Valid()
      ensures classes == old(classes)[c := Lookup(old(classes), c)]
      ensures order == if c in old(classes) then old(order) else old(order) + [c]
    {
      if c !in classes {
        classes := classes[c := EMPTY];
        order := order + [c];
      }
    }

    method Add(e: Entry) returns (o: Outcome)
      requires Valid()
      modifies this
      ensures Valid()
      ensures o == Objection(Lookup(old(classes), e.cls), e)
      ensures classes == Write(old(classes), e)
      ensures order == if e.cls in old(classes) then old(order) else old(order) + [e.cls]
    {
      FindOrAdd(e.cls);
      WriteKeeps(classes, e);
      var r := classes[e.cls];
      o := Objection(r, e);
      if o == Done {
        classes := classes[e.cls := Extend(r, e)];
      }
    }

    /** `add_ignore_swaps`, and `add_fields` with its final `find_or_add`: a loop over the names of
        one comment or macro, left by exception at the first refused name. */
    method AddAll(es: seq<Entry>) returns (o: Outcome)
      requires Valid()
      modifies this
      ensures Valid()
      ensures (classes, o) == Collect(old(classes), es)
      ensures old(order) <= order && (o == Done ==> order == Noted(old(order), es))
    {
      o := Done;
      var i := 0;
      while i < |es|
        invariant i <= |es| && Valid() && old(order) <= order
        invariant o == Done && Collect(classes, es[i..]) == Collect(old(classes), es)
        invariant Noted(order, es[i..]) == Noted(old(order), es)
      {
        assert es[i..][0] == es[i] && es[i..][1..] == es[i + 1..];
        o := Add(es[i]);
        if o != Done { return; }
        i := i + 1;
      }
    }
  }

  // ----- what a whole file collects

  /** The names that entries ask for, for one class and one list, in file order. */
  ghost function Asked(es: seq<Entry>, c: Name, q: Request): seq<Name> {
    if es == [] then []
    else (if es[0].cls == c && es[0].request == q then [es[0].name] else []) + Asked(es[1..], c, q)
  }

  ghost function AskedFor(es: seq<Entry>, c: Name): Reflection {
    Reflection(Asked(es, c, Field), Asked(es, c, Request.Ignore), Asked(es, c, Swap))
  }

  ghost function Append(r: Reflection, s: Reflection): Reflection {
    Reflection(r.fields + s.fields, r.ignored + s.ignored, r.swapped + s.swapped)
  }

  /** A file is collected without error exactly when every class's lists come out well formed, and
      then every class has exactly the names asked for, in file order, however the entries of
      different classes interleave. */
  lemma {:induction false} CollectExactly(book: Book, es: seq<Entry>)
    requires BookValid(book)
    ensures Collect(book, es).1 == Done <==> forall c :: WellFormed(Append(Lookup(book, c), AskedFor(es, c)))
    ensures Collect(book, es).1 == Done ==>
              forall c :: Lookup(Collect(book, es).0, c) == Append(Lookup(book, c), AskedFor(es, c))
    ensures Collect(book, es).1 == Done ==>
              forall c :: c in Collect(book, es).0 <==> c in book || exists e :: e in es && e.cls == c
    ensures BookValid(Collect(book, es).0)
    decreases |es|
  {
    if es == [] {
      forall c ensures Append(Lookup(book, c), AskedFor(es, c)) == Lookup(book, c) {}
    } else {
      WriteKeeps(book, es[0]);
      var k, e := es[0].cls, es[0];
      if Objection(Lookup(book, k), e) == Done {
        CollectExactly(Write(book, e), es[1..]);
        assert forall d :: d in es <==> d == e || d in es[1..];
        forall c
          ensures Append(Lookup(Write(book, e), c), AskedFor(es[1..], c)) == Append(Lookup(book, c), AskedFor(es, c))
        {
          AskedStep(book, es, c);
        }
      } else {
        ExtendKeeps(Lookup(book, k), e);
        RefusedStays(Lookup(book, k), es);
      }
    }
  }

  lemma {:induction false} AskedStep(book: Book, es: seq<Entry>, c: Name)
    requires es != [] && Objection(Lookup(book, es[0].cls), es[0]) == Done
    ensures Append(Lookup(Write(book, es[0]), c), AskedFor(es[1..], c)) == Append(Lookup(book, c), AskedFor(es, c))
  {
    hide Asked;
    var r := Lookup(book, c);
    AskedUnfold(r.fields, es, c, Field);
    AskedUnfold(r.ignored, es, c, Request.Ignore);
    AskedUnfold(r.swapped, es, c, Swap);
  }

  lemma {:induction false} AskedUnfold(s: seq<Name>, es: seq<Entry>, c: Name, q: Request)
    requires es != []
    ensures s + Asked(es, c, q) ==
            (if es[0].cls == c && es[0].request == q then s + [es[0].name] else s) + Asked(es[1..], c, q)
  {}

  /** A refused name leaves its class's lists ill formed whatever follows. */
  lemma {:induction false} RefusedStays(r: Reflection, es: seq<Entry>)
    requires es != [] && WellFormed(r) && !WellFormed(Extend(r, es[0]))
    ensures !WellFormed(Append(r, AskedFor(es, es[0].cls)))
  {
    var c := es[0].cls;
    var all, part := Append(r, AskedFor(es, c)), Extend(r, es[0]);
    AskedUnfold(r.fields, es, c, Field);
    AskedUnfold(r.ignored, es, c, Request.Ignore);
    AskedUnfold(r.swapped, es, c, Swap);
    Prefix(part.fields, all.fields);
    Prefix(part.ignored, all.ignored);
    Prefix(part.swapped, all.swapped);
  }

  lemma {:induction false} Prefix(s: seq<Name>, t: seq<Name>)
    requires s <= t
    ensures NoDup(t) ==> NoDup(s)
    ensures forall x :: x in s ==> x in t
  {
    assert s == t[..|s|];
  }

  // ----- which problem a refused name has

  /** A field already reflected; a directive already given for the name; or the other directive. */
  ghost predicate Offends(r: Reflection, e: Entry, p: Problem) {
    match p
    case RepeatedField => e.request == Field && e.name in r.fields
    case RepeatedDirective => (e.request == Ignore && e.name in r.ignored) || (e.request == Swap && e.name in r.swapped)
    case IgnoredAndSwapped => (e.request == Ignore && e.name in r.swapped) || (e.request == Swap && e.name in r.ignored)
  }

  /** Collecting stops at the first name that offends against the names asked for before it, and
      reports a problem that the name has; for well-formed lists it is the only one. */
  lemma {:induction false} FailsAtFirstOffence(book: Book, es: seq<Entry>) returns (i: nat)
    requires BookValid(book) && Collect(book, es).1.Failed?
    ensures i < |es| && Collect(book, es[..i]).1 == Done
    ensures var r, p := Append(Lookup(book, es[i].cls), AskedFor(es[..i], es[i].cls)), Collect(book, es).1.problem;
            WellFormed(r) && Offends(r, es[i], p) && forall q :: Offends(r, es[i], q) ==> q == p
    decreases |es|
  {
    hide Asked, AskedFor, Append;
    var e := es[0];
    WriteKeeps(book, e);
    if Objection(Lookup(book, e.cls), e) == Done {
      var j := FailsAtFirstOffence(Write(book, e), es[1..]);
      i := j + 1;
      assert es[..i][0] == e && es[..i][1..] == es[1..][..j] && es[1..][j] == es[i];
      AskedStep(book, es[..i], es[i].cls);
    } else {
      i := 0;
      AskedNothing(Lookup(book, e.cls), es[..0], e.cls);
    }
  }

  lemma {:induction false} AskedNothing(r: Reflection, es: seq<Entry>, c: Name)
    requires es == []
    ensures Append(r, AskedFor(es, c)) == r
  {}
}
