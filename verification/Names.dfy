/** `name_suffix` on the 64-bit value of an account name: the symbols after the last actual dot. */
module Names {
  import opened Lists
  import opened NameBits

  // ----- the suffix, on symbols

  /** A dot with a symbol other than a dot somewhere after it. */
  ghost predicate ActualDot(s: seq<bv64>, d: nat) {
    d < |s| && s[d] == 0 && exists e :: d < e < |s| && s[e] != 0
  }

  ghost predicate LastActualDot(s: seq<bv64>, d: nat) {
    ActualDot(s, d) && forall d': nat :: d < d' ==> !ActualDot(s, d')
  }

  /** The symbols after the last actual dot, moved to the front; all of them if there is none. */
  ghost predicate IsSuffix(s: seq<bv64>, r: seq<bv64>) {
    && ((forall d: nat :: !ActualDot(s, d)) ==> r == s)
    && forall d: nat :: LastActualDot(s, d) ==> r == s[d + 1..] + Dots(d + 1)
  }

  /** What the loop has seen of the first `i` symbols: the last dot, and the last dot that a
      non-dot follows; both as positions. */
  ghost function LastDot(s: seq<bv64>, i: nat): (r: Option<nat>)
    requires i <= |s|
    ensures r.Some? ==> r.value < i
  {
    if i == 0 then None else if s[i - 1] == 0 then Some(i - 1) else LastDot(s, i - 1)
  }

  ghost function LastBeforeText(s: seq<bv64>, i: nat): (r: Option<nat>)
    requires i <= |s|
    ensures r.Some? ==> r.value + 1 < i
  {
    if i == 0 then None else if s[i - 1] != 0 then LastDot(s, i - 1) else LastBeforeText(s, i - 1)
  }

  lemma {:induction false} LastDotExact(s: seq<bv64>, i: nat)
    requires i <= |s|
    ensures match LastDot(s, i)
            case None => forall k :: 0 <= k < i ==> s[k] != 0
            case Some(d) => d < i && s[d] == 0 && forall k :: d < k < i ==> s[k] != 0
  {
    if i > 0 { LastDotExact(s, i - 1); }
  }

  lemma {:induction false} LastBeforeTextExact(s: seq<bv64>, i: nat)
    requires i <= |s|
    ensures match LastBeforeText(s, i)
            case None => forall d: nat :: !ActualDot(s[..i], d)
            case Some(d) => LastActualDot(s[..i], d)
  {
    if i > 0 {
      LastBeforeTextExact(s, i - 1);
      LastDotExact(s, i - 1);
      var p, q := s[..i - 1], s[..i];
      assert q == p + [s[i - 1]];
      if s[i - 1] == 0 {
        forall d: nat ensures ActualDot(q, d) <==> ActualDot(p, d) {
          if ActualDot(q, d) { var e :| d < e < |q| && q[e] != 0; assert p[e] != 0; }
          if ActualDot(p, d) { var e :| d < e < |p| && p[e] != 0; assert q[e] != 0; }
        }
      } else {
        forall d: nat ensures ActualDot(q, d) <==> d < i && s[d] == 0 {
          assert q[i - 1] != 0;
        }
      }
    }
  }

  ghost function BitsAfter(o: Option<nat>): (k: bv64)
    requires o.Some? ==> o.value < 12
    ensures k == 0 <==> o.None?
  {
    if o.Some? then Bits(o.value) else 0
  }

  ghost function Suffix(n: bv64): bv64 {
    var dot := LastBeforeText(Symbols(n), 13);
    if dot.Some? then SuffixAt(n, Bits(dot.value)) else n
  }

  /** The scan of `name_suffix`: the bits after the last actual dot, 0 if there is none. */
  method ScanDots(n: bv64) returns (remaining: bv64)
    ensures remaining == BitsAfter(LastBeforeText(Symbols(n), 13))
  {
    hide Symbols, Bits, Low, Shr;
    ghost var s := Symbols(n);
    var tmp: bv64 := 0;
    remaining := 0;
    var i := 0;
    while i < 12
      invariant i <= 12
      invariant tmp == BitsAfter(LastDot(s, i)) && remaining == BitsAfter(LastBeforeText(s, i))
    {
      SymbolByShift(n, i);
      if Low(Shr(n, Bits(i)), 0x1F) == 0 {
        tmp := Bits(i);
      } else {
        remaining := tmp;
      }
      i := i + 1;
    }
    LastSymbol(n);
    if Low(n, 0x0F) != 0 {
      remaining := tmp;
    }
  }

  /** `name_suffix`: its scan, then its mask and its two shifts. */
  method NameSuffix(n: bv64) returns (r: bv64)
    ensures r == Suffix(n)
    ensures IsSuffix(Symbols(n), Symbols(r))
  {
    hide Symbols, Bits, IsSuffix, LastBeforeText, Combine;
    var remaining := ScanDots(n);
    SuffixIsSuffix(n);
    if remaining == 0 {
      return n;
    }
    var thirteenth := n & 0x0F;
    var mask := (1 << remaining) - 16;
    var shift := 64 - remaining;
    r := Combine(n, thirteenth, mask, shift);
  }

  lemma {:induction false} SuffixIsSuffix(n: bv64)
    ensures IsSuffix(Symbols(n), Symbols(Suffix(n)))
  {
    hide Symbols, Bits, SuffixAt;
    var s := Symbols(n);
    LastBeforeTextExact(s, 13);
    assert s[..13] == s;
    match LastBeforeText(s, 13)
    case None =>
    case Some(d) =>
      SuffixSymbols(n, d);
      assert forall d': nat :: LastActualDot(s, d') ==> d' == d;
  }

  /** A dot in front of text in the moved symbols is a later such dot of the original. */
  lemma {:induction false} MovedDot(s: seq<bv64>, d: nat, k: nat)
    requires d < |s| && ActualDot(s[d + 1..] + Dots(d + 1), k)
    ensures ActualDot(s, d + 1 + k)
  {
    var r := s[d + 1..] + Dots(d + 1);
    var e :| k < e < |r| && r[e] != 0;
    assert r[e] == s[d + 1 + e] && r[k] == s[d + 1 + k];
  }

  /** No dot of a suffix has text after it, so taking the suffix again changes nothing. */
  lemma {:induction false} SuffixIsIdempotent(n: bv64)
    ensures forall d: nat :: !ActualDot(Symbols(Suffix(n)), d)
    ensures Suffix(Suffix(n)) == Suffix(n)
  {
    hide Symbols, Bits, SuffixAt, ActualDot;
    var s, r := Symbols(n), Symbols(Suffix(n));
    SuffixIsSuffix(n);
    LastBeforeTextExact(s, 13);
    assert s[..13] == s && r[..13] == r;
    LastBeforeTextExact(r, 13);
    match LastBeforeText(s, 13)
    case None =>
    case Some(d) =>
      forall k: nat ensures !ActualDot(r, k) {
        if ActualDot(r, k) { MovedDot(s, d, k); }
      }
  }
}
