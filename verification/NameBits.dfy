/** A 64-bit account name as twelve 5-bit symbols and one 4-bit symbol, most significant first. */
module NameBits {

  datatype Word<T> = Word(c0: T, c1: T, c2: T, c3: T, c4: T, c5: T, c6: T, c7: T, c8: T, c9: T, c10: T, c11: T, c12: T)

  function Split(n: bv64): Word<bv64> {
    Word((n >> 59) & 0x1F, (n >> 54) & 0x1F, (n >> 49) & 0x1F, (n >> 44) & 0x1F, (n >> 39) & 0x1F,
         (n >> 34) & 0x1F, (n >> 29) & 0x1F, (n >> 24) & 0x1F, (n >> 19) & 0x1F, (n >> 14) & 0x1F,
         (n >> 9) & 0x1F, (n >> 4) & 0x1F, n & 0xF)
  }

  function Get<T>(w: Word<T>, i: nat): T
    requires i < 13
  {
    if i == 0 then w.c0 else if i == 1 then w.c1 else if i == 2 then w.c2 else if i == 3 then w.c3
    else if i == 4 then w.c4 else if i == 5 then w.c5 else if i == 6 then w.c6 else if i == 7 then w.c7
    else if i == 8 then w.c8 else if i == 9 then w.c9 else if i == 10 then w.c10 else if i == 11 then w.c11 else w.c12
  }

  function Listing<T>(w: Word<T>): (s: seq<T>)
    ensures |s| == 13
  {
    seq(13, i requires 0 <= i < 13 => Get(w, i))
  }

  /** The thirteen symbols of a name; 0 is the dot. */
  function Symbols(n: bv64): (s: seq<bv64>)
    ensures |s| == 13
  {
    Listing(Split(n))
  }

  lemma {:induction false} SymbolsDetermineName(a: bv64, b: bv64)
    requires Symbols(a) == Symbols(b)
    ensures a == b
  {
    var s, t, v, w := Symbols(a), Symbols(b), Split(a), Split(b);
    hide Split;
    forall i | 0 <= i < 13 ensures Get(v, i) == Get(w, i) {
      assert s[i] == Get(v, i) && t[i] == Get(w, i);
    }
    assert Get(v, 0) == Get(w, 0) && Get(v, 1) == Get(w, 1) && Get(v, 2) == Get(w, 2) && Get(v, 3) == Get(w, 3);
    assert Get(v, 4) == Get(w, 4) && Get(v, 5) == Get(w, 5) && Get(v, 6) == Get(w, 6) && Get(v, 7) == Get(w, 7);
    assert Get(v, 8) == Get(w, 8) && Get(v, 9) == Get(w, 9) && Get(v, 10) == Get(w, 10) && Get(v, 11) == Get(w, 11);
    assert Get(v, 12) == Get(w, 12);
    SplitDeterminesName(a, b);
  }

  lemma {:induction false} SplitDeterminesName(a: bv64, b: bv64)
    requires Split(a) == Split(b)
    ensures a == b
  {}

  lemma {:induction false} ListingGet<T>(w: Word<T>, i: nat)
    requires i < 13
    ensures Listing(w)[i] == Get(w, i)
  {}

  lemma {:induction false} SymbolBound(n: bv64, i: nat)
    requires i < 13
    ensures Symbols(n)[i] < if i == 12 then 16 else 32
  {
    ListingGet(Split(n), i);
    hide Listing;
  }

  /** The number of bits after symbol `i`: 59, 54, ..., 4. */
  function Bits(i: nat): (k: bv64)
    requires i < 12
    ensures 4 <= k <= 59
  {
    if i == 0 then 59 else if i == 1 then 54 else if i == 2 then 49 else if i == 3 then 44
    else if i == 4 then 39 else if i == 5 then 34 else if i == 6 then 29 else if i == 7 then 24
    else if i == 8 then 19 else if i == 9 then 14 else if i == 10 then 9 else 4
  }

  lemma {:induction false} BitsCountDown(i: nat)
    requires i < 12
    ensures Bits(i) as nat == 59 - 5 * i
  {}

  function Shr(x: bv64, k: bv64): bv64
    requires k <= 64
  {
    x >> k
  }

  function Low(x: bv64, mask: bv64): bv64 {
    x & mask
  }

  lemma {:induction false} SymbolByShift(n: bv64, i: nat)
    requires i < 12
    ensures Low(Shr(n, Bits(i)), 0x1F) == Symbols(n)[i]
  {
    assert Symbols(n)[i] == Get(Split(n), i);
    hide Listing;
    if
    case i == 0 =>
    case i == 1 =>
    case i == 2 =>
    case i == 3 =>
    case i == 4 =>
    case i == 5 =>
    case i == 6 =>
    case i == 7 =>
    case i == 8 =>
    case i == 9 =>
    case i == 10 =>
    case i == 11 =>
  }

  lemma {:induction false} LastSymbol(n: bv64)
    ensures Symbols(n)[12] == Low(n, 0x0F)
  {
    assert Symbols(n)[12] == Get(Split(n), 12);
  }

  // ----- what name_suffix computes for a last dot with `k` bits after it

  function SuffixAt(n: bv64, k: bv64): bv64
    requires 4 <= k <= 59
  {
    Combine(n, n & 0x0F, (1 << k) - 16, 64 - k)
  }

  /** The symbols under the mask, and the thirteenth symbol widened to five bits, moved up. */
  function Combine(n: bv64, thirteenth: bv64, mask: bv64, shift: bv64): (r: bv64)
    requires 1 <= shift <= 64
  {
    ((n & mask) << shift) + (thirteenth << (shift - 1))
  }

  lemma {:induction false} SuffixAfterFirst(n: bv64)
    ensures var w := Split(n);
            Split(SuffixAt(n, 59)) == Word(w.c1, w.c2, w.c3, w.c4, w.c5, w.c6, w.c7, w.c8, w.c9, w.c10, w.c11, w.c12, 0)
  {}

  /** Moving the dot one symbol to the right shifts the result by one symbol. */
  lemma {:induction false} SuffixLadder(n: bv64, i: nat)
    requires i < 11
    ensures SuffixAt(n, Bits(i + 1)) == SuffixAt(n, Bits(i)) << 5
  {
    hide SuffixAt;
    Ladder(n, Bits(i));
  }

  lemma {:induction false} Ladder(n: bv64, k: bv64)
    requires k == 59 || k == 54 || k == 49 || k == 44 || k == 39 || k == 34 || k == 29 || k == 24 || k == 19
          || k == 14 || k == 9
    ensures SuffixAt(n, k - 5) == SuffixAt(n, k) << 5
  {
    hide SuffixAt;
    if k >= 34 { UpperLadder(n, k); } else { LowerLadder(n, k); }
  }

  lemma {:induction false} UpperLadder(n: bv64, k: bv64)
    requires k == 59 || k == 54 || k == 49 || k == 44 || k == 39 || k == 34
    ensures SuffixAt(n, k - 5) == SuffixAt(n, k) << 5
  {
    if
    case k == 59 =>
    case k == 54 =>
    case k == 49 =>
    case k == 44 =>
    case k == 39 =>
    case k == 34 =>
  }

  lemma {:induction false} LowerLadder(n: bv64, k: bv64)
    requires k == 29 || k == 24 || k == 19 || k == 14 || k == 9
    ensures SuffixAt(n, k - 5) == SuffixAt(n, k) << 5
  {
    if
    case k == 29 =>
    case k == 24 =>
    case k == 19 =>
    case k == 14 =>
    case k == 9 =>
  }

  lemma {:induction false} ShiftSymbol(n: bv64)
    requires n & 0xF == 0
    ensures var w := Split(n);
            Split(n << 5) == Word(w.c1, w.c2, w.c3, w.c4, w.c5, w.c6, w.c7, w.c8, w.c9, w.c10, w.c11, 0, 0)
  {}

  function Dots(k: nat): seq<bv64> {
    seq(k, _ => 0)
  }

  /** The symbols after position `d`, moved to the front and padded with dots. */
  lemma {:induction false} SuffixSymbols(n: bv64, d: nat)
    requires d < 12
    ensures Symbols(SuffixAt(n, Bits(d))) == Symbols(n)[d + 1..] + Dots(d + 1)
  {
    hide Split, SuffixAt;
    if d == 0 {
      SuffixAfterFirst(n);
    } else {
      var m := SuffixAt(n, Bits(d - 1));
      SuffixSymbols(n, d - 1);
      SuffixLadder(n, d - 1);
      hide Bits, Symbols;
      assert Symbols(m)[12] == Dots(d)[d - 1];
      ShiftedSymbols(m);
      ShiftDots(Symbols(n), Symbols(m), d);
    }
  }

  lemma {:induction false} ShiftDots(s: seq<bv64>, t: seq<bv64>, d: nat)
    requires |s| == 13 && 0 < d < 12 && t == s[d..] + Dots(d)
    ensures t[1..12] + [0, 0] == s[d + 1..] + Dots(d + 1)
  {
    assert forall i :: 1 <= i < 13 - d ==> t[i] == s[d + i];
    assert forall i :: 13 - d <= i < 13 ==> t[i] == Dots(d)[i - (13 - d)];
  }

  lemma {:induction false} ShiftedSymbols(m: bv64)
    requires Symbols(m)[12] == 0
    ensures Symbols(m << 5) == Symbols(m)[1..12] + [0, 0]
  {
    assert m & 0xF == 0;
    ShiftSymbol(m);
    hide Split;
  }

  /** The masked part and the thirteenth symbol do not overlap, so their sum carries nothing. */
  lemma {:induction false} PartsAreDisjoint(n: bv64, d: nat)
    requires d < 12
    ensures var k := Bits(d); ((n & ((1 << k) - 16)) << (64 - k)) & ((n & 0x0F) << (64 - k - 1)) == 0
  {
    var k := Bits(d);
    if
    case k == 59 =>
    case k == 54 =>
    case k == 49 =>
    case k == 44 =>
    case k == 39 =>
    case k == 34 =>
    case k == 29 =>
    case k == 24 =>
    case k == 19 =>
    case k == 14 =>
    case k == 9 =>
    case k == 4 =>
  }

  // ----- writing one symbol into an empty place

  function Place(v: bv64, c: bv64, k: bv64): bv64
    requires k <= 64
  {
    v | (c << k)
  }

  function Put<T>(w: Word<T>, i: nat, c: T): Word<T>
    requires i < 13
  {
    if i == 0 then w.(c0 := c) else if i == 1 then w.(c1 := c) else if i == 2 then w.(c2 := c)
    else if i == 3 then w.(c3 := c) else if i == 4 then w.(c4 := c) else if i == 5 then w.(c5 := c)
    else if i == 6 then w.(c6 := c) else if i == 7 then w.(c7 := c) else if i == 8 then w.(c8 := c)
    else if i == 9 then w.(c9 := c) else if i == 10 then w.(c10 := c)
    else if i == 11 then w.(c11 := c) else w.(c12 := c)
  }

  lemma {:induction false} ListingPut<T>(w: Word<T>, i: nat, c: T)
    requires i < 13
    ensures Listing(Put(w, i, c)) == Listing(w)[i := c]
  {
    forall j | 0 <= j < 13 ensures Listing(Put(w, i, c))[j] == Listing(w)[i := c][j] {
      GetPut(w, i, c, j);
    }
  }

  lemma {:induction false} GetPut<T>(w: Word<T>, i: nat, c: T, j: nat)
    requires i < 13 && j < 13
    ensures Get(Put(w, i, c), j) == if j == i then c else Get(w, j)
  {
    if
    case i == 0 =>
    case i == 1 =>
    case i == 2 =>
    case i == 3 =>
    case i == 4 =>
    case i == 5 =>
    case i == 6 =>
    case i == 7 =>
    case i == 8 =>
    case i == 9 =>
    case i == 10 =>
    case i == 11 =>
    case i == 12 =>
  }

  lemma {:induction false} WriteSymbol(v: bv64, i: nat, c: bv64)
    requires i < 12 && c < 32 && Symbols(v)[i] == 0
    ensures Symbols(Place(v, c, Bits(i))) == Symbols(v)[i := c]
  {
    ListingGet(Split(v), i);
    ListingPut(Split(v), i, c);
    hide Listing;
    WriteWord(v, i, c);
  }

  lemma {:induction false} WriteWord(v: bv64, i: nat, c: bv64)
    requires i < 12 && c < 32 && Get(Split(v), i) == 0
    ensures Split(Place(v, c, Bits(i))) == Put(Split(v), i, c)
  {
    if
    case i == 0 =>
    case i == 1 =>
    case i == 2 =>
    case i == 3 =>
    case i == 4 =>
    case i == 5 =>
    case i == 6 =>
    case i == 7 =>
    case i == 8 =>
    case i == 9 =>
    case i == 10 =>
    case i == 11 =>
  }

  function PlaceLast(v: bv64, c: bv64): bv64 {
    v | (c & 0x0F)
  }

  lemma {:induction false} WriteLastSymbol(v: bv64, c: bv64)
    requires Symbols(v)[12] == 0
    ensures Symbols(PlaceLast(v, c)) == Symbols(v)[12 := Low(c, 0x0F)]
  {
    ListingPut(Split(v), 12, Low(c, 0x0F));
    assert Split(v).c12 == Symbols(v)[12];
    hide Listing;
    WriteLastWord(v, c);
  }

  lemma {:induction false} WriteLastWord(v: bv64, c: bv64)
    requires Split(v).c12 == 0
    ensures Split(PlaceLast(v, c)) == Split(v).(c12 := Low(c, 0x0F))
  {
  }
}
