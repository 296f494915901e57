/** Which Latin letter each Persian letter goes back to, and how the two
    directions compose. */
module ReverseFacts {
  import opened OrderedDict
  import opened Replace
  import opened Classify
  import opened CharMap
  import opened ForwardScan
  import opened ForwardFacts
  import opened ReverseScan

  /** A Persian value is a key of the inverse exactly when some entry of
      `char_map` has it. */
  lemma {:induction false} ReverseHasKey(v: string)
    ensures Lookup(Reverse(), v).Some? <==> exists i :: 0 <= i < |Table36| && Table36[i].1 == v
  {
    ForwardIsTable36();
    InvertHasKey(Table36, v);
  }

  /** Of the letters sharing a value, the inverse keeps the last written. */
  lemma {:induction false} ReverseLastWins(i: nat)
    requires i < |Table36|
    requires forall j :: i < j < |Table36| ==> Table36[j].1 != Table36[i].1
    ensures Lookup(Reverse(), Table36[i].1) == Some(Table36[i].0)
  {
    ForwardIsTable36();
    InvertLastWins(Table36, i);
  }

  /** What the inverse gives for a Persian value, `char_map` maps back to
      that value. */
  lemma {:induction false} ReverseSound(v: string)
    requires Lookup(Reverse(), v).Some?
    ensures Lookup(Forward(), Lookup(Reverse(), v).value) == Some(v)
  {
    FromPairsDistinct(Literal);
    InvertSound(Forward(), v);
  }

  /** Vav is written for `u`, `v` and `w`; `w` is kept. */
  lemma {:induction false} ReverseVav()
    ensures Lookup(Reverse(), [Vav]) == Some("w")
  {
    assert Table36[26] == ("w", [Vav]);
    ReverseLastWins(26);
  }

  /** Farsi yeh is written for `i` and `y`; `y` is kept. */
  lemma {:induction false} ReverseYeh()
    ensures Lookup(Reverse(), [FarsiYeh]) == Some("y")
  {
    assert Table36[28] == ("y", [FarsiYeh]);
    ReverseLastWins(28);
  }

  /** Se is written for `c` and `S`; `S` is kept. */
  lemma {:induction false} ReverseSe()
    ensures Lookup(Reverse(), [Se]) == Some("S")
  {
    assert Table36[21] == ("S", [Se]);
    ReverseLastWins(21);
  }

  /** Khe is written for `x` and `kh`; `kh` is kept. */
  lemma {:induction false} ReverseKhe()
    ensures Lookup(Reverse(), [Khe]) == Some("kh")
  {
    assert Table36[34] == ("kh", [Khe]);
    ReverseLastWins(34);
  }

  /** Qaf is written for `q` and `gh`; `gh` is kept. */
  lemma {:induction false} ReverseQaf()
    ensures Lookup(Reverse(), [Qaf]) == Some("gh")
  {
    assert Table36[35] == ("gh", [Qaf]);
    ReverseLastWins(35);
  }

  /** Zal and za were overwritten in `char_map` before the inversion, so
      they have no Latin letter and are copied. */
  lemma {:induction false} ReverseDropsZalZa()
    ensures Lookup(Reverse(), [Zal]) == None
    ensures Lookup(Reverse(), [Za]) == None
  {
    ZResolution();
    ForwardIsTable36();
    ReverseHasKey([Zal]);
    ReverseHasKey([Za]);
  }

  /** One character goes to its image under the inverse. */
  lemma {:induction false} ToFinglishChar(c: char)
    ensures ToFinglish([c]) == CharImage(Reverse(), c)
  {
    ToFinglishCharwise([c]);
    assert SubstituteChars(Reverse(), [c]) == CharImage(Reverse(), c) + [];
  }

  /** A Persian letter the inverse maps, taken to Latin and back, is the
      same letter. */
  lemma {:induction false} CharRoundTrip(c: char)
    requires Lookup(Reverse(), [c]).Some?
    ensures ToFarsi(ToFinglish([c])) == [c]
  {
    ToFinglishChar(c);
    ReverseSound([c]);
    ToFarsiKey(Lookup(Reverse(), [c]).value, [c]);
  }

  /** Alef goes back to `a`. */
  lemma {:induction false} ReverseAlef()
    ensures Lookup(Reverse(), [Alef]) == Some("a")
  {
    Table36AlefOnce();
    ReverseLastWins(0);
  }

  /** Kasra alone is in no entry. */
  lemma {:induction false} ReverseKasra()
    ensures Lookup(Reverse(), [Kasra]) == None
  {
    Table36NoKasra();
    ReverseHasKey([Kasra]);
  }

  /** Alef with kasra, the value of `E`, comes back as `a` followed by the
      kasra itself. */
  lemma {:induction false} KasraExample()
    ensures ToFinglish([Alef, Kasra]) == ['a', Kasra]
  {
    ToFinglishCharwise([Alef, Kasra]);
    ReverseAlef();
    ReverseKasra();
    assert SubstituteChars(Reverse(), [Alef, Kasra]) == CharImage(Reverse(), Alef) + SubstituteChars(Reverse(), [Kasra]);
  }

  lemma {:induction false} ReverseSin()
    ensures Lookup(Reverse(), [Sin]) == Some("s")
  {
    assert Table36[20] == ("s", [Sin]);
    ReverseLastWins(20);
  }

  lemma {:induction false} ReverseHe()
    ensures Lookup(Reverse(), [He]) == Some("h")
  {
    assert Table36[11] == ("h", [He]);
    ReverseLastWins(11);
  }

  lemma {:induction false} ReverseLam()
    ensures Lookup(Reverse(), [Lam]) == Some("l")
  {
    assert Table36[14] == ("l", [Lam]);
    ReverseLastWins(14);
  }

  lemma {:induction false} ReverseMim()
    ensures Lookup(Reverse(), [Mim]) == Some("m")
  {
    assert Table36[15] == ("m", [Mim]);
    ReverseLastWins(15);
  }

  lemma {:induction false} SalamWith(t: Table)
    requires Lookup(t, [Sin]) == Some("s") && Lookup(t, [Alef]) == Some("a")
    requires Lookup(t, [Lam]) == Some("l") && Lookup(t, [Mim]) == Some("m")
    ensures SubstituteChars(t, [Sin, Alef, Lam, Alef, Mim]) == "salam"
  {
    assert SubstituteChars(t, [Mim]) == "m";
    assert SubstituteChars(t, [Alef, Mim]) == "am";
    assert SubstituteChars(t, [Lam, Alef, Mim]) == "lam";
    assert SubstituteChars(t, [Alef, Lam, Alef, Mim]) == "alam";
  }

  /** The Persian word for hello goes back to `salam`. */
  lemma {:induction false} SalamBack(p: string)
    requires p == [Sin, Alef, Lam, Alef, Mim]
    ensures ToFinglish(p) == "salam"
  {
    ReverseSin();
    ReverseAlef();
    ReverseLam();
    ReverseMim();
    ToFinglishCharwise(p);
    SalamWith(Reverse());
  }

  lemma {:induction false} SinHeWith(t: Table)
    requires Lookup(t, [Sin]) == Some("s") && Lookup(t, [He]) == Some("h")
    ensures SubstituteChars(t, [Sin, He]) == "sh"
  {
    assert SubstituteChars(t, [He]) == "h";
  }

  /** Text to Latin and back is not the identity: sin followed by he goes
      to `s` `h`, which the forward direction reads as the digraph `sh`,
      shin. */
  lemma {:induction false} SinHeMerges()
    ensures ToFinglish([Sin, He]) == "sh"
    ensures ToFarsi(ToFinglish([Sin, He])) == [Shin]
  {
    ReverseSin();
    ReverseHe();
    ToFinglishCharwise([Sin, He]);
    SinHeWith(Reverse());
    ShExample();
  }

  lemma {:induction false} VavBack(v: string)
    requires v == [Vav]
    ensures ToFinglish(v) == "w"
  {
    ToFinglishChar(Vav);
    ReverseVav();
  }

  /** `u` goes to vav and vav comes back as `w`: Latin to Persian and back
      is not the identity. */
  lemma {:induction false} URoundTrip(u: string)
    requires u == "u"
    ensures ToFarsi(u) == [Vav]
    ensures ToFinglish(ToFarsi(u)) == "w"
  {
    UExample();
    VavBack(ToFarsi(u));
  }
}
