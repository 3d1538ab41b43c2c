/** The text form of a name: decoding a 64-bit value and encoding a text, symbol by symbol. */
module NameText {
  import opened Lists
  import opened NameBits
  import opened Names

  const CHARMAP := ".12345abcdefghijklmnopqrstuvwxyz"

  /** `char_to_symbol`. */
  function Symbol(c: char): (k: nat)
    ensures k < 32
  {
    if 'a' <= c <= 'z' then c as int - 'a' as int + 6
    else if '1' <= c <= '5' then c as int - '1' as int + 1
    else 0
  }

  lemma {:induction false} CharmapEntry(k: nat)
    requires k < 32
    ensures CHARMAP[k] == if k == 0 then '.' else if k <= 5 then (k - 1 + '1' as int) as char
        else (k - 6 + 'a' as int) as char
  {}

  lemma {:induction false} SymbolOfEntry(k: nat)
    requires k < 32
    ensures Symbol(CHARMAP[k]) == k
    ensures CHARMAP[k] == '.' <==> k == 0
  {
    CharmapEntry(k);
  }

  lemma {:induction false} EntryOfSymbol(c: char)
    ensures c in CHARMAP <==> CHARMAP[Symbol(c)] == c
  {
    if c in CHARMAP {
      var k :| 0 <= k < |CHARMAP| && CHARMAP[k] == c;
      SymbolOfEntry(k);
    }
  }

  // ----- codes: the symbols of a name as numbers

  ghost function Codes(n: bv64): (s: seq<nat>)
    ensures |s| == 13
  {
    seq(13, i requires 0 <= i < 13 => Symbols(n)[i] as nat)
  }

  lemma {:induction false} CodeBound(n: bv64, i: nat)
    requires i < 13
    ensures Codes(n)[i] < if i == 12 then 16 else 32
  {
    SymbolBound(n, i);
    hide Symbols;
    NatBound(Symbols(n)[i]);
  }

  lemma {:induction false} NatBound(x: bv64)
    ensures x < 32 ==> x as nat < 32
    ensures x < 16 ==> x as nat < 16
  {}

  lemma {:induction false} CodesDetermineName(a: bv64, b: bv64)
    requires Codes(a) == Codes(b)
    ensures a == b
  {
    hide Symbols;
    forall i | 0 <= i < 13 ensures Symbols(a)[i] == Symbols(b)[i] {
      assert Codes(a)[i] == Codes(b)[i];
      NatInjective(Symbols(a)[i], Symbols(b)[i]);
    }
    SymbolsDetermineName(a, b);
  }

  lemma {:induction false} NatInjective(x: bv64, y: bv64)
    requires x as nat == y as nat
    ensures x == y
  {
    BackAndForth(x);
    BackAndForth(y);
  }

  lemma {:induction false} BackAndForth(x: bv64)
    ensures (x as nat) as bv64 == x
  {}

  // ----- decoding: `name::operator string`

  /** `trim_right_if` of dots. */
  function Trim(s: string): (r: string)
    ensures r <= s && (r == "" || r[|r| - 1] != '.')
    ensures forall i :: |r| <= i < |s| ==> s[i] == '.'
  {
    if s == "" || s[|s| - 1] != '.' then s else Trim(s[..|s| - 1])
  }

  lemma {:induction false} TrimUnique(s: string, m: nat)
    requires m <= |s| && (m == 0 || s[m - 1] != '.') && forall i :: m <= i < |s| ==> s[i] == '.'
    ensures Trim(s) == s[..m]
  {
    var r := Trim(s);
    assert r == s[..|r|];
    assert m < |r| ==> s[|r| - 1] == '.';
  }

  ghost function Letters(codes: seq<nat>): (s: string)
    requires forall i :: 0 <= i < |codes| ==> codes[i] < 32
    ensures |s| == |codes|
  {
    seq(|codes|, i requires 0 <= i < |codes| => CHARMAP[codes[i]])
  }

  ghost predicate Small(codes: seq<nat>) {
    forall i :: 0 <= i < |codes| ==> codes[i] < 32
  }

  lemma {:induction false} CodesSmall(n: bv64)
    ensures Small(Codes(n)) && Codes(n)[12] < 16
  {
    forall i | 0 <= i < 13 ensures Codes(n)[i] < 32 {
      CodeBound(n, i);
    }
    CodeBound(n, 12);
  }

  /** The text of a name: its thirteen letters without the trailing dots. */
  ghost function Text(n: bv64): string {
    CodesSmall(n);
    Trim(Letters(Codes(n)))
  }

  /** What is left of the name after `i` shifts of the decoding loop. */
  ghost function Rest(n: bv64, i: nat): bv64 {
    if i == 0 then n else if i == 1 then Shr(n, 4) else Shr(Rest(n, i - 1), 5)
  }

  lemma {:induction false} RestShift(n: bv64, i: nat)
    requires 1 <= i <= 12
    ensures Rest(n, i) == Shr(n, Bits(12 - i))
  {
    hide Shr;
    if i > 1 {
      RestShift(n, i - 1);
      TwoShifts(n, 12 - i);
      hide Bits;
    }
  }

  lemma {:induction false} TwoShifts(n: bv64, i: nat)
    requires i < 11
    ensures Shr(Shr(n, Bits(i + 1)), 5) == Shr(n, Bits(i))
  {
    if
    case i == 0 =>
    case i == 1 =>
    case i == 2 =>
    case i == 3 =>
    case i == 4 =>
    case i == 5 =>
    case i == 6 =>
    case i == 7 =>
    case i == 8 =>
    case i == 9 =>
    case i == 10 =>
  }

  lemma {:induction false} RestSymbol(n: bv64, i: nat)
    requires i <= 12
    ensures Low(Rest(n, i), if i == 0 then 0x0F else 0x1F) as nat == Codes(n)[12 - i]
  {
    hide Symbols, Bits, Low, Shr;
    if i == 0 {
      LastSymbol(n);
    } else {
      hide Rest;
      RestShift(n, i);
      SymbolByShift(n, 12 - i);
    }
  }

  method ToText(n: bv64) returns (s: string)
    ensures s == Text(n)
  {
    hide Symbols, Trim, Codes, Low, Shr;
    CodesSmall(n);
    ghost var letters := Letters(Codes(n));
    s := seq(13, _ => '.');
    var tmp := n;
    var i := 0;
    while i <= 12
      invariant i <= 13 && tmp == Rest(n, i) && |s| == 13
      invariant forall j :: 13 - i <= j < 13 ==> s[j] == letters[j]
    {
      RestSymbol(n, i);
      s := s[12 - i := CHARMAP[Low(tmp, if i == 0 then 0x0F else 0x1F) as nat]];
      tmp := Shr(tmp, if i == 0 then 4 else 5);
      i := i + 1;
    }
    assert s == letters;
    s := Trim(s);
  }

  // ----- encoding: `string_to_name`

  function SymbolBits(c: char): bv64 {
    Low(Symbol(c) as bv64, 0x1F)
  }

  lemma {:induction false} SymbolBitsValue(c: char)
    ensures SymbolBits(c) < 32 && SymbolBits(c) as nat == Symbol(c)
  {
    FiveBits(Symbol(c));
  }

  lemma {:induction false} FiveBits(k: nat)
    requires k < 32
    ensures Low(k as bv64, 0x1F) < 32 && Low(k as bv64, 0x1F) as nat == k
    ensures k < 16 ==> Low(k as bv64, 0x0F) as nat == k
  {
    hide Low;
    SmallBits(k);
    MaskKeeps(k as bv64);
    ThereAndBack(k);
  }

  lemma {:induction false} MaskKeeps(x: bv64)
    ensures x < 32 ==> Low(x, 0x1F) == x
    ensures x < 16 ==> Low(x, 0x0F) == x
  {}

  lemma {:induction false} ThereAndBack(k: nat)
    requires k < 32
    ensures (k as bv64) as nat == k
  {
    var x := BitsOf(k);
    BackAndForth(x);
  }

  /** Bits that count to `k`. */
  lemma {:induction false} BitsOf(k: nat) returns (x: bv64)
    requires k < 32
    ensures x < 32 && x as nat == k
  {
    if k == 0 {
      x := 0;
    } else {
      x := BitsOf(k - 1);
      NextBits(x);
      x := x + 1;
      assert x < 32 by { NatBelow(x); }
    }
  }

  lemma {:induction false} NatBelow(x: bv64)
    ensures x as nat < 32 ==> x < 32
  {}

  lemma {:induction false} NextBits(x: bv64)
    requires x < 32
    ensures (x + 1) as nat == x as nat + 1
  {}

  lemma {:induction false} SmallBits(k: nat)
    requires k < 32
    ensures (k as bv64) < 32 && (k < 16 ==> (k as bv64) < 16)
  {}

  /** The value after the first `i` characters. */
  ghost function Packed(s: string, i: nat): bv64
    requires i <= |s| && i <= 12
  {
    if i == 0 then 0 else Place(Packed(s, i - 1), SymbolBits(s[i - 1]), Bits(i - 1))
  }

  /** The thirteenth character, or the terminator of a shorter string. */
  function Thirteenth(s: string): bv64 {
    if |s| > 12 then Symbol(s[12]) as bv64 else 0
  }

  ghost function NameOf(s: string): bv64 {
    if |s| < 12 then Packed(s, |s|) else PlaceLast(Packed(s, 12), Thirteenth(s))
  }

  method StringToName(s: string) returns (v: bv64)
    ensures v == NameOf(s)
  {
    hide Bits, Place, PlaceLast, SymbolBits;
    v := 0;
    var i := 0;
    while i < |s| && i < 12
      invariant i <= |s| && i <= 12 && v == Packed(s, i)
    {
      v := Place(v, SymbolBits(s[i]), Bits(i));
      i := i + 1;
    }
    if i == 12 {
      v := PlaceLast(v, Thirteenth(s));
    }
  }

  ghost function SymbolsOf(s: string, i: nat): (r: seq<bv64>)
    requires i <= |s| && i <= 12
    ensures |r| == 13
  {
    seq(13, j requires 0 <= j < 13 => if j < i then SymbolBits(s[j]) else 0)
  }

  lemma {:induction false} PackedSymbols(s: string, i: nat)
    requires i <= |s| && i <= 12
    ensures Symbols(Packed(s, i)) == SymbolsOf(s, i)
  {
    hide Bits, Place, SymbolBits;
    if i == 0 {
      Zeros();
    } else {
      hide Symbols;
      PackedSymbols(s, i - 1);
      SymbolBitsValue(s[i - 1]);
      WriteSymbol(Packed(s, i - 1), i - 1, SymbolBits(s[i - 1]));
      assert SymbolsOf(s, i) == SymbolsOf(s, i - 1)[i - 1 := SymbolBits(s[i - 1])];
    }
  }

  lemma {:induction false} Zeros()
    ensures Symbols(0) == seq(13, j requires 0 <= j < 13 => 0)
  {
    assert Split(0) == Word(0, 0, 0, 0, 0, 0, 0, 0, 0, 0, 0, 0, 0);
    hide Split;
  }

  /** What encoding a string leaves in each place. */
  lemma {:induction false} EncodedCodes(s: string, j: nat)
    requires j < 13
    ensures j >= |s| ==> Codes(NameOf(s))[j] == 0
    ensures j < |s| && (j < 12 || Symbol(s[j]) < 16) ==> Codes(NameOf(s))[j] == Symbol(s[j])
  {
    hide Symbols, Bits, Place, PlaceLast, Packed, SymbolBits;
    var m := if |s| < 12 then |s| else 12;
    PackedSymbols(s, m);
    var p := Packed(s, m);
    assert Symbols(p)[j] == if j < m then SymbolBits(s[j]) else 0;
    if j < m { SymbolBitsValue(s[j]); }
    if m == 12 {
      assert Symbols(p)[12] == 0;
      WriteLastSymbol(p, Thirteenth(s));
      if |s| > 12 { FiveBits(Symbol(s[12])); } else { FiveBits(0); }
    }
  }
}
