/** Python-list operations used by the reflection checker, and the facts about order and
    multiplicity that its correctness statements are phrased in. */
module Lists {

  /** An identifier of the checked C++ file. */
  datatype Name = Name(text: string)

  datatype Option<+T> = None | Some(value: T)

  ghost predicate NoDup<T>(s: seq<T>) {
    forall i, j :: 0 <= i < j < |s| ==> s[i] != s[j]
  }

  ghost predicate Disjoint<T>(s: seq<T>, t: seq<T>) {
    forall x :: x in s ==> x !in t
  }

  /** `list.remove`: drops the first occurrence of `x`. */
  function Remove<T(==)>(s: seq<T>, x: T): (r: seq<T>)
    requires x in s
    ensures |r| == |s| - 1
  {
    if s[0] == x then s[1..] else [s[0]] + Remove(s[1..], x)
  }

  ghost function Elements<T>(s: seq<T>): set<T> {
    set x | x in s
  }

  // ----- multiplicity, one name at a time

  ghost function Unit(b: bool): nat {
    if b then 1 else 0
  }

  ghost function Count<T>(s: seq<T>, x: T): nat {
    if s == [] then 0 else Unit(s[0] == x) + Count(s[1..], x)
  }

  lemma {:induction false} CountIsMultiplicity<T>(s: seq<T>, x: T)
    ensures Count(s, x) == multiset(s)[x]
  {
    if s != [] {
      CountIsMultiplicity(s[1..], x);
      assert s == [s[0]] + s[1..];
    }
  }

  lemma {:induction false} CountSuffix<T>(s: seq<T>, i: nat, x: T)
    requires i < |s|
    ensures Count(s[i..], x) == Unit(s[i] == x) + Count(s[i + 1..], x)
  {}

  lemma {:induction false} CountConcat<T>(s: seq<T>, t: seq<T>, x: T)
    ensures Count(s + t, x) == Count(s, x) + Count(t, x)
  {
    if s == [] {
      assert s + t == t;
    } else {
      CountConcat(s[1..], t, x);
      assert (s + t)[1..] == s[1..] + t;
    }
  }

  lemma {:induction false} CountRemove<T>(s: seq<T>, y: T, x: T)
    requires y in s
    ensures Count(Remove(s, y), x) == Count(s, x) - Unit(y == x)
  {
    if s[0] != y {
      CountRemove(s[1..], y, x);
    }
  }

  lemma {:induction false} CountMembers<T>(s: seq<T>, x: T)
    ensures x in s <==> Count(s, x) > 0
  {
    if s != [] {
      CountMembers(s[1..], x);
    }
  }

  lemma {:induction false} CountSplit<T>(s: seq<T>, i: nat, x: T)
    requires i <= |s|
    ensures Count(s, x) == Count(s[..i], x) + Count(s[i..], x)
  {
    assert s == s[..i] + s[i..];
    CountConcat(s[..i], s[i..], x);
  }

  /** A name counted at most once has at most one position. */
  lemma {:induction false} Once<T>(s: seq<T>, i: nat, j: nat)
    requires i < |s| && j < |s| && s[i] == s[j] && Count(s, s[i]) <= 1
    ensures i == j
  {
    var a := if i <= j then i else j;
    CountSplit(s, a, s[a]);
    CountSuffix(s, a, s[a]);
    CountMembers(s[a + 1..], s[a]);
    assert forall k :: a < k < |s| ==> s[k] == s[a + 1..][k - a - 1];
  }

  lemma {:induction false} NoDupCount<T>(s: seq<T>, x: T)
    requires NoDup(s)
    ensures Count(s, x) == Unit(x in s)
  {
    if x in s {
      var i :| 0 <= i < |s| && s[i] == x;
      CountSplit(s, i, x);
      CountSuffix(s, i, x);
      CountMembers(s[..i], x);
      CountMembers(s[i + 1..], x);
    } else {
      CountMembers(s, x);
    }
  }

  lemma {:induction false} CountsGiveNoDup<T>(s: seq<T>)
    requires forall x :: Count(s, x) <= 1
    ensures NoDup(s)
  {
    forall i, j | 0 <= i < j < |s| ensures s[i] != s[j] {
      if s[i] == s[j] {
        Once(s, i, j);
      }
    }
  }

  // ----- order

  /** The elements of `s` that are not in `drop`, in order. */
  ghost function Kept<T>(s: seq<T>, drop: set<T>): (r: seq<T>) {
    if s == [] then [] else (if s[0] in drop then [] else [s[0]]) + Kept(s[1..], drop)
  }

  lemma {:induction false} KeptSuffix<T>(s: seq<T>, i: nat, drop: set<T>)
    requires i < |s|
    ensures Kept(s[i..], drop) == (if s[i] in drop then [] else [s[i]]) + Kept(s[i + 1..], drop)
  {}

  lemma {:induction false} KeptConcat<T>(s: seq<T>, t: seq<T>, drop: set<T>)
    ensures Kept(s + t, drop) == Kept(s, drop) + Kept(t, drop)
  {
    if s == [] {
      assert s + t == t;
    } else {
      var head, rest := if s[0] in drop then [] else [s[0]], Kept(s[1..], drop);
      calc {
        Kept(s + t, drop);
        { assert (s + t)[1..] == s[1..] + t; }
        head + Kept(s[1..] + t, drop);
        { KeptConcat(s[1..], t, drop); }
        head + (rest + Kept(t, drop));
        head + rest + Kept(t, drop);
      }
    }
  }

  lemma {:induction false} KeptMembers<T>(s: seq<T>, drop: set<T>, x: T)
    ensures x in Kept(s, drop) <==> x in s && x !in drop
  {
    if s != [] {
      KeptMembers(s[1..], drop, x);
    }
  }

  lemma {:induction false} KeptNothing<T>(s: seq<T>, drop: set<T>)
    requires forall x :: x in s ==> x in drop
    ensures Kept(s, drop) == []
  {
    if s != [] {
      KeptNothing(s[1..], drop);
    }
  }

  /** Two filtered suffixes that agree, both standing on a kept element, stand on the same one. */
  lemma {:induction false} HeadsAgree<T>(s: seq<T>, i: nat, d: set<T>, t: seq<T>, j: nat, e: set<T>)
    requires i < |s| && j <= |t| && s[i] !in d && (j < |t| ==> t[j] !in e)
    requires Kept(s[i..], d) == Kept(t[j..], e)
    ensures j < |t| && s[i] == t[j] && Kept(s[i + 1..], d) == Kept(t[j + 1..], e)
  {
    KeptSuffix(s, i, d);
    assert Kept(s[i..], d)[0] == s[i] && Kept(s[i..], d)[1..] == Kept(s[i + 1..], d);
    if j < |t| {
      KeptSuffix(t, j, e);
      assert Kept(t[j..], e)[0] == t[j] && Kept(t[j..], e)[1..] == Kept(t[j + 1..], e);
    }
  }

  lemma {:induction false} AllZero<T>(s: seq<T>)
    requires forall x :: Count(s, x) == 0
    ensures s == []
  {
    if s != [] {
      assert Count(s, s[0]) > 0;
    }
  }

  lemma {:induction false} PrefixStep<T>(s: seq<T>, i: nat, x: T)
    requires i < |s|
    ensures x in s[..i + 1] <==> x in s[..i] || x == s[i]
  {
    assert s[..i + 1] == s[..i] + [s[i]];
  }
}
