/** `permission_visitor`: a list of permissions with nested undo, kept as one append-only log and a
    stack of sizes.  It refines a stack of full copies of the list. */
module UndoLog {
  import opened Lists

  // ----- the simple form: every open session keeps a full copy

  datatype Snapshots<P> = Snapshots(current: seq<P>, saved: seq<seq<P>>)

  datatype Op<P> = Record(p: P) | Push | Pop | Squash

  function Restore<P>(s: Snapshots<P>, op: Op<P>): Option<Snapshots<P>> {
    var top := |s.saved| - 1;
    match op
    case Record(p) => Some(s.(current := s.current + [p]))
    case Push => Some(s.(saved := s.saved + [s.current]))
    case Pop => if top < 0 then None else Some(Snapshots(s.saved[top], s.saved[..top]))
    case Squash => if top < 0 then None else Some(s.(saved := s.saved[..top]))
  }

  // ----- the fast form

  datatype Log<P> = Log(permissions: seq<P>, marks: seq<nat>)

  /** Marks never decrease and never pass the end of the log. */
  ghost predicate Valid<P>(log: Log<P>) {
    && (forall i, j :: 0 <= i <= j < |log.marks| ==> log.marks[i] <= log.marks[j])
    && (forall i :: 0 <= i < |log.marks| ==> log.marks[i] <= |log.permissions|)
  }

  /** Mark `k` stands for the copy `permissions[..marks[k]]`. */
  ghost function View<P>(log: Log<P>): Snapshots<P>
    requires Valid(log)
  {
    Snapshots(log.permissions, seq(|log.marks|, i requires 0 <= i < |log.marks| => log.permissions[..log.marks[i]]))
  }

  /** `None` is a failed assertion, or a pop from an empty stack. */
  function Apply<P>(log: Log<P>, op: Op<P>): Option<Log<P>> {
    var top := |log.marks| - 1;
    match op
    case Record(p) => Some(log.(permissions := log.permissions + [p]))
    case Push => Some(log.(marks := log.marks + [|log.permissions|]))
    case Pop =>
      if top < 0 || log.marks[top] > |log.permissions| then None
      else Some(Log(log.permissions[..log.marks[top]], log.marks[..top]))
    case Squash => if top < 0 then None else Some(log.(marks := log.marks[..top]))
  }

  class PermissionVisitor<P> {
    var permissions: seq<P>
    var sizeStack: seq<nat>

    ghost function Contents(): Log<P>
      reads this
    {
      Log(permissions, sizeStack)
    }

    constructor ()
      ensures Contents() == Log([], []) && Valid(Contents())
    {
      permissions, sizeStack := [], [];
    }

    method Visit(p: P)
      requires Valid(Contents())
      modifies this
      ensures Valid(Contents()) && View(Contents()) == Restore(old(View(Contents())), Record(p)).value
    {
      Refines(Contents(), Record(p));
      permissions := permissions + [p];
    }

    method PushUndo()
      requires Valid(Contents())
      modifies this
      ensures Valid(Contents()) && View(Contents()) == Restore(old(View(Contents())), Push).value
    {
      Refines(Contents(), Push);
      sizeStack := sizeStack + [|permissions|];
    }

    /** The source reads the top of the stack before it checks that there is one, so a caller must
        have an open session; the rest of its assertion then always holds. */
    method PopUndo() returns (ok: bool)
      requires Valid(Contents()) && |sizeStack| >= 1
      modifies this
      ensures ok && Valid(Contents()) && View(Contents()) == Restore(old(View(Contents())), Pop).value
    {
      Refines(Contents(), Pop);
      var top := |sizeStack| - 1;
      ok := sizeStack[top] <= |permissions| && |sizeStack| >= 1;
      if !ok { return; }
      permissions := permissions[..sizeStack[top]];
      sizeStack := sizeStack[..top];
    }

    method SquashUndo() returns (ok: bool)
      requires Valid(Contents())
      modifies this
      ensures Valid(Contents()) && ok == (|old(sizeStack)| >= 1)
      ensures View(Contents()) == if ok then Restore(old(View(Contents())), Squash).value else old(View(Contents()))
    {
      Refines(Contents(), Squash);
      ok := |sizeStack| >= 1;
      if ok { sizeStack := sizeStack[..|sizeStack| - 1]; }
    }
  }

  /** Each operation on the log is the operation on the copies. */
  lemma {:induction false} Refines<P>(log: Log<P>, op: Op<P>)
    requires Valid(log)
    ensures match Apply(log, op)
            case None => Restore(View(log), op) == None
            case Some(log') => Valid(log') && Restore(View(log), op) == Some(View(log'))
  {
    match op
    case Record(p) => SavedSame(log, Apply(log, op).value);
    case Push => PushRefines(log);
    case Pop => if log.marks != [] { DropTop(log, Apply(log, op).value); }
    case Squash => if log.marks != [] { DropTop(log, Apply(log, op).value); }
  }

  lemma {:induction false} SavedSame<P>(log: Log<P>, log': Log<P>)
    requires Valid(log) && log.permissions <= log'.permissions && log'.marks == log.marks
    ensures Valid(log') && View(log').saved == View(log).saved
  {
    forall i | 0 <= i < |log.marks| ensures View(log').saved[i] == View(log).saved[i] {}
  }

  lemma {:induction false} PushRefines<P>(log: Log<P>)
    requires Valid(log)
    ensures var log' := Apply(log, Push).value; Valid(log') && View(log').saved == View(log).saved + [log.permissions]
  {
    var log' := Apply(log, Push).value;
    assert View(log').saved[|log.marks|] == log.permissions;
    forall i | 0 <= i < |log.marks| ensures View(log').saved[i] == View(log).saved[i] {}
  }

  lemma {:induction false} DropTop<P>(log: Log<P>, log': Log<P>)
    requires Valid(log) && log.marks != [] && log'.marks == log.marks[..|log.marks| - 1]
    requires log'.permissions == log.permissions || log'.permissions == log.permissions[..log.marks[|log.marks| - 1]]
    ensures Valid(log') && View(log').saved == View(log).saved[..|log.marks| - 1]
  {
    forall i | 0 <= i < |log'.marks| ensures View(log').saved[i] == View(log).saved[i] {
      assert log'.permissions[..log.marks[i]] == log.permissions[..log.marks[i]];
    }
  }

  // ----- whole runs

  function Run<P>(log: Log<P>, ops: seq<Op<P>>): Option<Log<P>>
    decreases |ops|
  {
    if ops == [] then Some(log)
    else match Apply(log, ops[0])
      case None => None
      case Some(log') => Run(log', ops[1..])
  }

  function RunCopies<P>(s: Snapshots<P>, ops: seq<Op<P>>): Option<Snapshots<P>>
    decreases |ops|
  {
    if ops == [] then Some(s)
    else match Restore(s, ops[0])
      case None => None
      case Some(s') => RunCopies(s', ops[1..])
  }

  /** Pops and squashes never outnumber the open sessions and pushes before them. */
  predicate Legal<P>(ops: seq<Op<P>>, open: nat)
    decreases |ops|
  {
    ops == [] || match ops[0]
      case Record(_) => Legal(ops[1..], open)
      case Push => Legal(ops[1..], open + 1)
      case _ => open > 0 && Legal(ops[1..], open - 1)
  }

  /** A run on the log is the run on the copies; it fails exactly when some pop or squash has no open
      session, never on the size assertion. */
  lemma {:induction false} RunRefines<P>(log: Log<P>, ops: seq<Op<P>>)
    requires Valid(log)
    ensures Run(log, ops).Some? <==> Legal(ops, |log.marks|)
    ensures match Run(log, ops)
            case None => RunCopies(View(log), ops) == None
            case Some(log') => Valid(log') && RunCopies(View(log), ops) == Some(View(log'))
    decreases |ops|
  {
    if ops != [] {
      Refines(log, ops[0]);
      if Apply(log, ops[0]).Some? { RunRefines(Apply(log, ops[0]).value, ops[1..]); }
    }
  }

  /** A run that closes every session it opens and no other, started with `open` of its own. */
  predicate Balanced<P>(ops: seq<Op<P>>, open: nat)
    decreases |ops|
  {
    if ops == [] then open == 0
    else match ops[0]
      case Record(_) => Balanced(ops[1..], open)
      case Push => Balanced(ops[1..], open + 1)
      case _ => open > 0 && Balanced(ops[1..], open - 1)
  }

  /** How many more sessions are opened than closed. */
  ghost function Opened<P>(ops: seq<Op<P>>): int {
    if ops == [] then 0 else (match ops[0] case Record(_) => 0 case Push => 1 case _ => -1) + Opened(ops[1..])
  }

  lemma {:induction false} BalancedExactly<P>(ops: seq<Op<P>>, open: nat)
    ensures Balanced(ops, open) <==> Legal(ops, open) && open + Opened(ops) == 0
    decreases |ops|
  {
    if ops != [] {
      match ops[0]
      case Record(_) => BalancedExactly(ops[1..], open);
      case Push => BalancedExactly(ops[1..], open + 1);
      case _ => if open > 0 { BalancedExactly(ops[1..], open - 1); }
    }
  }

  /** The marks and permissions below an open session survive any balanced run. */
  lemma {:induction false} BalancedKeeps<P>(log: Log<P>, h: nat, ops: seq<Op<P>>)
    requires Valid(log) && 0 < h <= |log.marks| && Balanced(ops, |log.marks| - h)
    ensures var r := Run(log, ops);
            && r.Some? && Valid(r.value) && r.value.marks == log.marks[..h]
            && r.value.permissions[..log.marks[h - 1]] == log.permissions[..log.marks[h - 1]]
    decreases |ops|
  {
    if ops != [] {
      Refines(log, ops[0]);
      var log' := Apply(log, ops[0]).value;
      assert log'.marks[..h] == log.marks[..h];
      assert log'.permissions[..log.marks[h - 1]] == log.permissions[..log.marks[h - 1]];
      BalancedKeeps(log', h, ops[1..]);
    }
  }

  lemma {:induction false} RunConcat<P>(log: Log<P>, a: seq<Op<P>>, b: seq<Op<P>>)
    ensures Run(log, a + b) == match Run(log, a) case None => None case Some(l) => Run(l, b)
    decreases |a|
  {
    if a == [] {
      assert a + b == b;
    } else {
      assert (a + b)[1..] == a[1..] + b;
      if Apply(log, a[0]).Some? { RunConcat(Apply(log, a[0]).value, a[1..], b); }
    }
  }

  /** A session around a balanced run, up to its closing operation. */
  lemma {:induction false} Bracket<P>(log: Log<P>, ops: seq<Op<P>>, close: Op<P>) returns (end: Log<P>)
    requires Valid(log) && Balanced(ops, 0)
    ensures Run(log, [Push] + ops + [close]) == Apply(end, close)
    ensures Run(Log(log.permissions, log.marks + [|log.permissions|]), ops) == Some(end)
    ensures end.marks == log.marks + [|log.permissions|] && |log.permissions| <= |end.permissions|
    ensures end.permissions[..|log.permissions|] == log.permissions
  {
    hide Run;
    var started := Apply(log, Push).value;
    var h := |started.marks|;
    Refines(log, Push);
    BalancedKeeps(started, h, ops);
    end := Run(started, ops).value;
    assert started.marks[..h] == started.marks && started.marks[h - 1] == |log.permissions|;
    assert log.permissions[..|log.permissions|] == log.permissions;
    RunAround(log, ops, close);
  }

  lemma {:induction false} RunAround<P>(log: Log<P>, ops: seq<Op<P>>, close: Op<P>)
    ensures Run(log, [Push] + ops + [close]) ==
            match Run(Apply(log, Push).value, ops) case None => None case Some(l) => Apply(l, close)
  {
    var started := Apply(log, Push).value;
    assert [Push] + ops + [close] == [Push] + (ops + [close]);
    assert ([Push] + (ops + [close]))[1..] == ops + [close];
    RunConcat(started, ops, [close]);
    if Run(started, ops).Some? {
      assert Run(Run(started, ops).value, [close]) == Apply(Run(started, ops).value, close);
    }
  }

  /** Undo: a session that is popped leaves no trace, whatever balanced run it held. */
  lemma {:induction false} PopUndoesSession<P>(log: Log<P>, ops: seq<Op<P>>)
    requires Valid(log) && Balanced(ops, 0)
    ensures Run(log, [Push] + ops + [Pop]) == Some(log)
  {
    var end := Bracket(log, ops, Pop);
    assert end.marks[..|log.marks|] == log.marks;
  }

  /** Commit: a session that is squashed is as if it had never been opened. */
  lemma {:induction false} SquashForgetsSession<P>(log: Log<P>, ops: seq<Op<P>>)
    requires Valid(log) && Balanced(ops, 0)
    ensures Run(log, [Push] + ops + [Squash]) == Run(log, ops)
  {
    var end := Bracket(log, ops, Squash);
    assert end.marks[..|log.marks|] == log.marks;
    var marks := log.marks + [|log.permissions|];
    assert log.marks + [] == log.marks && marks + [] == marks;
    Refines(log, Push);
    ExtraMark(log.permissions, log.marks, |log.permissions|, [], ops);
  }

  /** A mark below the sessions that a balanced run opens makes no difference to it. */
  lemma {:induction false} ExtraMark<P>(permissions: seq<P>, below: seq<nat>, m: nat, above: seq<nat>, ops: seq<Op<P>>)
    requires Valid(Log(permissions, below + [m] + above)) && Balanced(ops, |above|)
    ensures var with, without := Run(Log(permissions, below + [m] + above), ops),
                                 Run(Log(permissions, below + above), ops);
            && with.Some? && without.Some?
            && with.value == Log(without.value.permissions, below + [m]) && without.value.marks == below
    decreases |ops|
  {
    var log, bare := Log(permissions, below + [m] + above), Log(permissions, below + above);
    if ops == [] {
      assert below + [m] + [] == below + [m] && below + [] == below;
    } else {
      Refines(log, ops[0]);
      match ops[0]
      case Record(p) => ExtraMark(permissions + [p], below, m, above, ops[1..]);
      case Push =>
        var above' := above + [|permissions|];
        assert log.marks + [|permissions|] == below + [m] + above' && bare.marks + [|permissions|] == below + above';
        ExtraMark(permissions, below, m, above', ops[1..]);
      case Pop =>
        TopMark(below, m, above);
        assert log.marks[|log.marks| - 1] <= |permissions|;
        ExtraMark(permissions[..above[|above| - 1]], below, m, above[..|above| - 1], ops[1..]);
      case Squash =>
        TopMark(below, m, above);
        ExtraMark(permissions, below, m, above[..|above| - 1], ops[1..]);
    }
  }

  lemma {:induction false} TopMark(below: seq<nat>, m: nat, above: seq<nat>)
    requires above != []
    ensures var with, bare, top := below + [m] + above, below + above, |above| - 1;
            && with[|with| - 1] == above[top] == bare[|bare| - 1]
            && with[..|with| - 1] == below + [m] + above[..top] && bare[..|bare| - 1] == below + above[..top]
  {}

  // ----- what a whole run leaves

  /** Reading the operations backwards, with `d` sessions to be undone: the records outside all popped
      sessions, and, for `d > 0`, before the session that the `d`-th of them opened. */
  ghost function Surviving<P>(ops: seq<Op<P>>, d: nat): seq<P>
    decreases |ops|
  {
    if ops == [] then []
    else
      var before := ops[..|ops| - 1];
      match ops[|ops| - 1]
      case Record(p) => Surviving(before, d) + (if d == 0 then [p] else [])
      case Push => Surviving(before, if d == 0 then 0 else d - 1)
      case Pop => Surviving(before, d + 1)
      case Squash => Surviving(before, if d == 0 then 0 else d + 1)
  }

  /** The current list, or the `d`-th saved copy from the top. */
  ghost function Copy<P>(s: Snapshots<P>, d: nat): seq<P>
    requires d <= |s.saved|
  {
    if d == 0 then s.current else s.saved[|s.saved| - d]
  }

  lemma {:induction false} RestoreCopy<P>(s: Snapshots<P>, op: Op<P>, d: nat)
    requires Restore(s, op).Some? && d <= |Restore(s, op).value.saved|
    ensures Copy(Restore(s, op).value, d) ==
            match op
            case Record(p) => Copy(s, d) + (if d == 0 then [p] else [])
            case Push => Copy(s, if d == 0 then 0 else d - 1)
            case Pop => Copy(s, d + 1)
            case Squash => Copy(s, if d == 0 then 0 else d + 1)
  {}

  lemma {:induction false} RunCopiesLast<P>(s: Snapshots<P>, ops: seq<Op<P>>, op: Op<P>)
    ensures RunCopies(s, ops + [op]) == match RunCopies(s, ops) case None => None case Some(t) => Restore(t, op)
    decreases |ops|
  {
    hide Restore;
    if ops == [] {
      assert ops + [op] == [op] && [op][1..] == [];
    } else {
      assert (ops + [op])[1..] == ops[1..] + [op];
      if Restore(s, ops[0]).Some? { RunCopiesLast(Restore(s, ops[0]).value, ops[1..], op); }
    }
  }

  lemma {:induction false} CopiesSurvive<P>(ops: seq<Op<P>>, d: nat)
    requires var r := RunCopies(Snapshots([], []), ops); r.Some? && d <= |r.value.saved|
    ensures Copy(RunCopies(Snapshots([], []), ops).value, d) == Surviving(ops, d)
    decreases |ops|
  {
    if ops != [] {
      var before, op := ops[..|ops| - 1], ops[|ops| - 1];
      assert ops == before + [op];
      RunCopiesLast(Snapshots([], []), before, op);
      var s := RunCopies(Snapshots([], []), before).value;
      RestoreCopy(s, op, d);
      hide Copy, RunCopies;
      match op
      case Record(_) => CopiesSurvive(before, d);
      case Push => CopiesSurvive(before, if d == 0 then 0 else d - 1);
      case Pop => CopiesSurvive(before, d + 1);
      case Squash => CopiesSurvive(before, if d == 0 then 0 else d + 1);
    }
  }

  /** From the start, a run leaves exactly the permissions recorded outside popped sessions, in order. */
  lemma {:induction false} RunLeavesSurvivors<P>(ops: seq<Op<P>>)
    requires Legal(ops, 0)
    ensures Run(Log([], []), ops).Some? && Run(Log([], []), ops).value.permissions == Surviving(ops, 0)
  {
    var empty: Log<P> := Log([], []);
    RunRefines(empty, ops);
    assert View(empty) == Snapshots([], []);
    CopiesSurvive(ops, 0);
  }
}
