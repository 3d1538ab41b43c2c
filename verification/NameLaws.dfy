/** Laws of names as text: decoding and encoding are inverse, `name::set` accepts exactly the normal
    texts, and the suffix of a name is the text after its last dot. */
module NameLaws {
  import opened Lists
  import opened NameBits
  import opened Names
  import opened NameText

  /** The texts `name::set` is meant for. */
  ghost predicate Normal(s: string) {
    && |s| <= 13
    && (forall i :: 0 <= i < |s| ==> s[i] in CHARMAP)
    && (s != "" ==> s[|s| - 1] != '.')
    && (|s| == 13 ==> Symbol(s[12]) < 16)
  }

  /** `name::set`: a length check, then a check that decoding the encoded value gives the text. */
  ghost predicate SetAccepts(s: string) {
    |s| <= 13 && Text(NameOf(s)) == s
  }

  /** The letters of a name, and the dots that the text drops. */
  lemma {:induction false} TextFacts(n: bv64)
    ensures var t, c := Text(n), Codes(n);
            && |t| <= 13 && Small(c) && c[12] < 16
            && (forall i :: 0 <= i < |t| ==> t[i] == CHARMAP[c[i]])
            && (forall i :: |t| <= i < 13 ==> c[i] == 0)
            && (t == "" || t[|t| - 1] != '.')
  {
    hide Codes;
    CodesSmall(n);
    var c := Codes(n);
    forall i | |Text(n)| <= i < 13 ensures c[i] == 0 {
      assert Letters(c)[i] == '.';
      SymbolOfEntry(c[i]);
    }
  }

  lemma {:induction false} TextIsNormal(n: bv64)
    ensures Normal(Text(n))
  {
    hide Codes, Text;
    TextFacts(n);
    if |Text(n)| == 13 { SymbolOfEntry(Codes(n)[12]); }
  }

  /** Encoding the text of a name gives the name back, for every 64-bit value. */
  lemma {:induction false} NameRoundTrip(n: bv64)
    ensures NameOf(Text(n)) == n
  {
    hide Codes, Text, NameOf;
    TextFacts(n);
    var t, c := Text(n), Codes(n);
    forall j | 0 <= j < 13 ensures Codes(NameOf(t))[j] == c[j] {
      EncodedCodes(t, j);
      if j < |t| { SymbolOfEntry(c[j]); }
    }
    CodesDetermineName(NameOf(t), n);
  }

  /** A text is accepted exactly when it is normal, and then it is the text of its value. */
  lemma {:induction false} SetExact(s: string)
    ensures SetAccepts(s) <==> Normal(s)
  {
    hide Codes, NameOf;
    if SetAccepts(s) {
      TextIsNormal(NameOf(s));
    }
    if Normal(s) {
      var c := Codes(NameOf(s));
      CodesSmall(NameOf(s));
      forall j | 0 <= j < 13 ensures Letters(c)[j] == if j < |s| then s[j] else '.' {
        EncodedCodes(s, j);
        if j < |s| { EntryOfSymbol(s[j]); } else { SymbolOfEntry(0); }
      }
      TrimUnique(Letters(c), |s|);
      assert Letters(c)[..|s|] == s;
    }
  }

  method SetName(s: string) returns (r: Option<bv64>)
    ensures r.Some? <==> Normal(s)
    ensures r.Some? ==> Text(r.value) == s
  {
    SetExact(s);
    if |s| > 13 { return None; }
    var v := StringToName(s);
    var t := ToText(v);
    if t != s { return None; }
    return Some(v);
  }

  // ----- the suffix as text

  /** The piece of a text after its last dot; all of it if there is no dot. */
  function AfterLastDot(t: string): string {
    if '.' in t then AfterLastDot(t[1..]) else t
  }

  lemma {:induction false} AfterLastDotAt(t: string, d: nat)
    requires d < |t| && t[d] == '.' && '.' !in t[d + 1..]
    ensures AfterLastDot(t) == t[d + 1..]
  {
    if d > 0 {
      assert t[1..][d - 1] == '.';
      assert t[1..][d..] == t[d + 1..];
      AfterLastDotAt(t[1..], d - 1);
    } else {
      assert t[1..] == t[d + 1..];
    }
  }

  lemma {:induction false} DotsAreZeros(n: bv64, i: nat)
    requires i < 13
    ensures Symbols(n)[i] == 0 <==> Codes(n)[i] == 0
  {
    hide Symbols;
    ZeroBits(Symbols(n)[i]);
  }

  lemma {:induction false} ZeroBits(x: bv64)
    ensures x == 0 <==> x as nat == 0
  {
    BackAndForth(x);
  }

  /** The dots with text after them are the dots of the trimmed text. */
  lemma {:induction false} TextDot(n: bv64, i: nat)
    ensures ActualDot(Symbols(n), i) <==> i < |Text(n)| && Text(n)[i] == '.'
  {
    hide Symbols, Codes, Text;
    TextFacts(n);
    var s, c, t := Symbols(n), Codes(n), Text(n);
    if ActualDot(s, i) {
      var e :| i < e < 13 && s[e] != 0;
      DotsAreZeros(n, e);
      DotsAreZeros(n, i);
      SymbolOfEntry(0);
    }
    if i < |t| && t[i] == '.' {
      SymbolOfEntry(c[i]);
      SymbolOfEntry(c[|t| - 1]);
      DotsAreZeros(n, i);
      DotsAreZeros(n, |t| - 1);
    }
  }

  /** Moving symbols to the front moves the text to the front. */
  lemma {:induction false} MovedText(n: bv64, m: bv64, d: nat)
    requires d < 13 && Symbols(m) == Symbols(n)[d + 1..] + Dots(d + 1) && d + 1 < |Text(n)|
    ensures Text(m) == Text(n)[d + 1..]
  {
    hide Symbols, Codes;
    TextFacts(n);
    CodesSmall(m);
    var t, c, letters := Text(n), Codes(n), Letters(Codes(m));
    forall j | 0 <= j < 13 ensures Codes(m)[j] == if j + d + 1 < 13 then c[j + d + 1] else 0 {
      MovedCode(n, m, d, j);
    }
    SymbolOfEntry(0);
    assert forall j :: 0 <= j < |t| - d - 1 ==> letters[j] == t[j + d + 1];
    TrimUnique(letters, |t| - d - 1);
    assert letters[..|t| - d - 1] == t[d + 1..];
  }

  lemma {:induction false} MovedCode(n: bv64, m: bv64, d: nat, j: nat)
    requires d < 13 && j < 13 && Symbols(m) == Symbols(n)[d + 1..] + Dots(d + 1)
    ensures Codes(m)[j] == if j + d + 1 < 13 then Codes(n)[j + d + 1] else 0
  {
    hide Symbols;
    ZeroBits(0);
  }

  /** The suffix of a name, read as text, is what follows the last dot of the name's text. */
  lemma {:induction false} SuffixText(n: bv64)
    ensures Text(Suffix(n)) == AfterLastDot(Text(n))
  {
    hide Symbols, Codes, Text, SuffixAt;
    var s, t := Symbols(n), Text(n);
    SuffixIsSuffix(n);
    LastBeforeTextExact(s, 13);
    assert s[..13] == s;
    forall i: nat ensures ActualDot(s, i) <==> i < |t| && t[i] == '.' {
      TextDot(n, i);
    }
    match LastBeforeText(s, 13)
    case None =>
      hide ActualDot;
      forall i | 0 <= i < |t| ensures t[i] != '.' {
        assert !ActualDot(s, i);
      }
    case Some(d) =>
      hide ActualDot;
      LastDotOfText(n, d);
      AfterLastDotAt(t, d);
      MovedText(n, Suffix(n), d);
  }

  lemma {:induction false} LastDotOfText(n: bv64, d: nat)
    requires LastActualDot(Symbols(n), d)
    ensures d + 1 < |Text(n)| && Text(n)[d] == '.' && '.' !in Text(n)[d + 1..]
  {
    hide Symbols, Codes, Text, ActualDot;
    var t := Text(n);
    TextDot(n, d);
    TextFacts(n);
    forall i | d < i < |t| ensures t[i] != '.' {
      TextDot(n, i);
    }
  }
}
