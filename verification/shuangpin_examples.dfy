/**
 * Worked conversions under the Microsoft layout. Each example is first proved
 * for any string `s` spelled with the example's letters, so that the verifier
 * reasons about those letters one at a time instead of evaluating every
 * definition on a literal, and is then stated for the literal itself.
 */
module ShuangpinExamples {
  import opened Wrappers
  import opened ShuangpinConverter

  // ---------------------------------------------------------------------------
  // Inputs given by their letters
  // ---------------------------------------------------------------------------

  /**
   * `s` has the letters of `w`, one by one. This is `s == w` (`SpelledIsEquality`),
   * spelt out letter by letter so that proofs need not evaluate `w` as a literal.
   */
  predicate Spelled(s: string, w: string) {
    |s| == |w| && forall i :: 0 <= i < |s| ==> s[i] == w[i]
  }

  /** Having the same letters is being the same string. */
  lemma SpelledIsEquality(s: string, w: string)
    ensures Spelled(s, w) <==> s == w
  {
  }

  /** The two pieces of a spelled string are spelled by the two pieces of its spelling. */
  lemma SpelledPieces(s: string, w: string, k: nat, front: string, back: string)
    requires Spelled(s, w) && k <= |w| && w[..k] == front && w[k..] == back
    ensures Spelled(s[..k], front) && Spelled(s[k..], back)
  {
  }

  /** A letter missing from the spelling is missing from the string. */
  lemma SpelledWithout(s: string, w: string, c: char)
    requires Spelled(s, w) && c !in w
    ensures c !in s
  {
  }

  // ---------------------------------------------------------------------------
  // Facts about the `mspy` table
  // ---------------------------------------------------------------------------

  /** The key `mspy` names the Microsoft layout. */
  lemma MspyRegistered()
    ensures "mspy" in Schemes && Schemes["mspy"] == Mspy
  {
  }

  /** Every value of the `mspy` final table is a single keystroke. */
  lemma MspyValuesAreSingle()
    ensures forall v :: v in MspyFinals.Values ==> |v| == 1
  {
    forall v | v in MspyFinals.Values
      ensures |v| == 1
    {
      var f :| f in MspyFinals && MspyFinals[f] == v;
      MspyFinalKeysAreSingle(f);
    }
  }

  /** No final of the `mspy` table contains `h`. */
  lemma MspyFinalsWithoutH(f: string)
    requires f in MspyFinals
    ensures 'h' !in f
  {
  }

  /** No final and no key code of the `mspy` table contains `ü`. */
  lemma MspyFinalsWithoutUmlaut(f: string)
    requires f in MspyFinals
    ensures 'ü' !in f && 'ü' !in MspyFinals[f]
  {
  }

  /** A vowel does not begin an initial consonant. */
  lemma VowelIsNoInitialLetter(c: char)
    requires c in {'a', 'e', 'o', 'i', 'u', 'v', 'ü'}
    ensures c !in InitialLetters
  {
  }

  /** The empty part and any part holding `ü` are neither a final nor a key code. */
  lemma UnknownFinalPart(part: string)
    requires part == [] || 'ü' in part
    ensures !IsKnownFinal(part, MspyFinals)
  {
    if part in MspyFinals.Values {
      var f :| f in MspyFinals && MspyFinals[f] == part;
      MspyFinalsWithoutUmlaut(f);
      MspyFinalKeysAreSingle(f);
    }
    if part in MspyFinals {
      MspyFinalsWithoutUmlaut(part);
    }
  }

  /** No initial consonant contains `ü`. */
  lemma UmlautInNoInitial()
    ensures forall j :: 0 <= j < |Initials| ==> 'ü' !in Initials[j]
  {
    InitialShapes();
    VowelIsNoInitialLetter('ü');
  }

  /**
   * Segmentation runs before `ü` is spelt `v`, and neither the finals nor the key
   * letters of the table hold `ü`, so the only syllable holding `ü` that
   * `splitPinyin` emits is `"ü"` on its own.
   */
  lemma SplitIsolatesUmlaut(s: string)
    ensures forall p :: p in Split(s, MspyFinals) && 'ü' in p ==> p == "ü"
  {
    forall f | f in MspyFinals
      ensures 'ü' !in f && 'ü' !in MspyFinals[f]
    {
      MspyFinalsWithoutUmlaut(f);
    }
    UmlautInNoInitial();
    SplitIsolatesLetter(s, MspyFinals, 'ü');
  }

  // ---------------------------------------------------------------------------
  // Segmentation, step by step
  // ---------------------------------------------------------------------------

  /** A candidate whose remainder has an `h` after its first letter is not accepted. */
  lemma RejectedRemainder(c: string, j: nat)
    requires 1 <= j < |FinalOf(c)| && FinalOf(c)[j] == 'h'
    ensures !Accepts(c, MspyFinals)
  {
    if FinalOf(c) in MspyFinals {
      MspyFinalsWithoutH(FinalOf(c));
    }
    MspyValuesAreSingle();
  }

  /** One segmentation step, when the longest accepted candidate is known. */
  lemma SplitStep(s: string, k: nat)
    requires 1 <= k <= Min(6, |s|) && AcceptsPrefix(s, k, MspyFinals)
    requires forall m :: k < m <= Min(6, |s|) ==> !AcceptsPrefix(s, m, MspyFinals)
    ensures Split(s, MspyFinals) == [s[..k]] + Split(s[k..], MspyFinals)
  {
    var j := LongestAccepted(s, Min(6, |s|), MspyFinals);
    assert j == k;
  }

  /** One segmentation step when no candidate is accepted: the first character alone. */
  lemma SplitFallback(s: string, finals: map<string, string>)
    requires s != []
    requires forall m :: 1 <= m <= Min(6, |s|) ==> !AcceptsPrefix(s, m, finals)
    ensures Split(s, finals) == [s[..1]] + Split(s[1..], finals)
  {
    var n := Min(6, |s|);
    var j := LongestAccepted(s, n, finals);
    assert j == 0;
  }

  // ---------------------------------------------------------------------------
  // Codes, step by step
  // ---------------------------------------------------------------------------

  /** `s` is read as an initial spelled `initial` in its first `k` letters, then a final spelled `final`. */
  predicate ReadAs(s: string, k: nat, initial: string, final: string) {
    k <= |s| && InitialOf(s) == Some(s[..k]) && Spelled(s[..k], initial) && Spelled(s[k..], final)
  }

  /** Under `scheme`, the initial `initial` has key `initialKey` and the final `final` has key `finalKey`. */
  predicate KeysAre(scheme: Scheme, initial: string, final: string, initialKey: string, finalKey: string) {
    InitialKey(initial, scheme) == initialKey && final in scheme.finals && scheme.finals[final] == finalKey
  }

  /** The encoding of a syllable read as an initial and a final, once both keys are known. */
  lemma EncodeOfPieces(s: string, k: nat, scheme: Scheme, initial: string, final: string, initialKey: string, finalKey: string)
    requires ReadAs(s, k, initial, final) && KeysAre(scheme, initial, final, initialKey, finalKey)
    ensures EncodeSyllable(s, scheme) == initialKey + finalKey
  {
    SpelledIsEquality(s[..k], initial);
    SpelledIsEquality(s[k..], final);
    assert |s[..k]| == k;
  }

  /** As `EncodeOfPieces`, for a syllable spelled without `ü`. */
  lemma CodeOfPieces(s: string, k: nat, scheme: Scheme, initial: string, final: string, initialKey: string, finalKey: string)
    requires 'ü' !in s && ReadAs(s, k, initial, final) && KeysAre(scheme, initial, final, initialKey, finalKey)
    ensures ConvertSyllable(s, scheme) == initialKey + finalKey
  {
    EncodeOfPieces(s, k, scheme, initial, final, initialKey, finalKey);
  }

  /** A syllable with an initial whose remainder is not a final is echoed in brackets. */
  lemma BracketOfPieces(s: string, k: nat, scheme: Scheme)
    requires 'ü' !in s && k <= |s| && InitialOf(s) == Some(s[..k]) && s[k..] !in scheme.finals
    ensures ConvertSyllable(s, scheme) == "[" + s + "]"
  {
    assert |s[..k]| == k;
  }

  /**
   * A syllable spelled `w` without `ü`, starting with an initial letter other than
   * `zh`, `ch`, `sh`, is read as that one-letter initial and the rest.
   */
  lemma SingleInitialReadAs(s: string, w: string, initial: string, final: string)
    requires |w| >= 1 && w[0] in InitialLetters && !(|w| >= 2 && w[0] in "zcs" && w[1] == 'h')
    requires Spelled(s, w) && 'ü' !in w && w[..1] == initial && w[1..] == final
    ensures 'ü' !in s && ReadAs(s, 1, initial, final)
  {
    InitialOfSingle(s);
    SpelledWithout(s, w, 'ü');
    SpelledPieces(s, w, 1, initial, final);
  }

  /** A syllable without an initial, spelled without `ü`, under a fixed zero-initial key. */
  lemma CodeWithoutInitial(s: string, scheme: Scheme, final: string, key: string, finalKey: string)
    requires 'ü' !in s && InitialOf(s) == None && Spelled(s, final)
    requires scheme.zeroInitialRule == Fixed(key) && final in scheme.finals && scheme.finals[final] == finalKey
    ensures ConvertSyllable(s, scheme) == key + finalKey
  {
    SpelledIsEquality(s, final);
  }

  // ---------------------------------------------------------------------------
  // Joining codes
  // ---------------------------------------------------------------------------

  /** The `mspy` conversion of a non-empty input is the join of the codes of its segments. */
  lemma ConvertsAs(s: string)
    requires s != []
    ensures ToShuangpin(s, "mspy") == Some(Concat(Codes(Split(s, MspyFinals), Mspy)))
  {
    MspyRegistered();
  }

  /** The `mspy` conversion of an input whose segments and joined codes are known. */
  lemma ConvertsTo(s: string, parts: seq<string>, code: string)
    requires s != [] && Split(s, MspyFinals) == parts && Concat(Codes(parts, Mspy)) == code
    ensures ToShuangpin(s, "mspy") == Some(code)
  {
    ConvertsAs(s);
  }

  /** The joined code of one syllable is its code. */
  lemma JoinedCodesOfOne(a: string, codeA: string, scheme: Scheme)
    requires ConvertSyllable(a, scheme) == codeA
    ensures Concat(Codes([a], scheme)) == codeA
  {
    var codes := Codes([a], scheme);
    assert codes == [codeA];
    assert Concat([codeA]) == codeA by { assert [codeA][1..] == [] && codeA + [] == codeA; }
  }

  /** The codes of a syllable followed by more syllables. */
  lemma CodesCons(p: string, parts: seq<string>, scheme: Scheme)
    ensures Codes([p] + parts, scheme) == [ConvertSyllable(p, scheme)] + Codes(parts, scheme)
  {
    assert ([p] + parts)[1..] == parts;
  }

  /** The joined codes of three syllables. */
  lemma JoinedCodesOfThree(a: string, b: string, c: string, codeA: string, codeB: string, codeC: string, scheme: Scheme)
    requires ConvertSyllable(a, scheme) == codeA && ConvertSyllable(b, scheme) == codeB
    requires ConvertSyllable(c, scheme) == codeC
    ensures Concat(Codes([a, b, c], scheme)) == codeA + codeB + codeC
  {
    JoinedCodesOfTwo(b, c, codeB, codeC, scheme);
    assert [a, b, c] == [a] + [b, c];
    CodesCons(a, [b, c], scheme);
    ConcatCons(codeA, Codes([b, c], scheme));
  }

  /** The joined codes of two syllables. */
  lemma JoinedCodesOfTwo(a: string, b: string, codeA: string, codeB: string, scheme: Scheme)
    requires ConvertSyllable(a, scheme) == codeA && ConvertSyllable(b, scheme) == codeB
    ensures Concat(Codes([a, b], scheme)) == codeA + codeB
  {
    var codes := Codes([a, b], scheme);
    assert codes == [codeA, codeB];
    assert Concat([codeB]) == codeB by { assert [codeB][1..] == [] && codeB + [] == codeB; }
    assert [codeA, codeB][1..] == [codeB];
  }

  // ---------------------------------------------------------------------------
  // "nihao"
  // ---------------------------------------------------------------------------

  lemma NihaoRejects(s: string, k: nat)
    requires Spelled(s, "nihao") && 3 <= k <= 5
    ensures !AcceptsPrefix(s, k, MspyFinals)
  {
    FinalOfByLetters(s[..k]);
    RejectedRemainder(s[..k], 1);
  }

  lemma NihaoAccepts(s: string)
    requires Spelled(s, "nihao")
    ensures AcceptsPrefix(s, 2, MspyFinals)
  {
    FinalOfByLetters(s[..2]);
    assert s[..2][1..] == "i";
    assert "i" in MspyFinals;
  }

  lemma NihaoFirst(s: string)
    requires Spelled(s, "nihao")
    ensures Split(s, MspyFinals) == [s[..2]] + Split(s[2..], MspyFinals)
  {
    NihaoRejects(s, 5);
    NihaoRejects(s, 4);
    NihaoRejects(s, 3);
    NihaoAccepts(s);
    SplitStep(s, 2);
  }

  lemma HaoAccepts(s: string)
    requires Spelled(s, "hao")
    ensures AcceptsPrefix(s, 3, MspyFinals)
  {
    FinalOfByLetters(s[..3]);
    assert s[..3][1..] == "ao";
    assert "ao" in MspyFinals;
  }

  lemma HaoWhole(s: string)
    requires Spelled(s, "hao")
    ensures Split(s, MspyFinals) == [s]
  {
    HaoAccepts(s);
    SplitStep(s, 3);
    assert s[..3] == s && s[3..] == [];
  }

  lemma NihaoPieces(s: string)
    requires Spelled(s, "nihao")
    ensures Split(s, MspyFinals) == [s[..2], s[2..]]
  {
    NihaoFirst(s);
    SpelledPieces(s, "nihao", 2, "ni", "hao");
    HaoWhole(s[2..]);
  }

  /** "nihao" segments as "ni" + "hao": "nihao", "niha" and "nih" are rejected. */
  lemma NihaoSplit()
    ensures Split("nihao", MspyFinals) == ["ni", "hao"]
  {
    NihaoPieces("nihao");
    assert "nihao"[..2] == "ni" && "nihao"[2..] == "hao";
  }


  lemma NiKeys()
    ensures KeysAre(Mspy, "n", "i", "n", "i")
  {
  }

  lemma NiSpelled(s: string)
    requires Spelled(s, "ni")
    ensures ConvertSyllable(s, Mspy) == "ni"
  {
    SingleInitialReadAs(s, "ni", "n", "i");
    NiKeys();
    CodeOfPieces(s, 1, Mspy, "n", "i", "n", "i");
  }

  /** "ni": initial `n` keeps its own key, final `i` is key `i`. */
  lemma NiCode()
    ensures ConvertSyllable("ni", Mspy) == "ni"
  {
    NiSpelled("ni");
  }


  lemma HaoKeys()
    ensures KeysAre(Mspy, "h", "ao", "h", "k")
  {
  }

  lemma HaoSpelled(s: string)
    requires Spelled(s, "hao")
    ensures ConvertSyllable(s, Mspy) == "hk"
  {
    SingleInitialReadAs(s, "hao", "h", "ao");
    HaoKeys();
    CodeOfPieces(s, 1, Mspy, "h", "ao", "h", "k");
  }

  /** "hao": final `ao` is key `k`. */
  lemma HaoCode()
    ensures ConvertSyllable("hao", Mspy) == "hk"
  {
    HaoSpelled("hao");
  }

  lemma NihaoCodes(s: string)
    requires Spelled(s, "nihao")
    ensures ConvertSyllable(s[..2], Mspy) == "ni" && ConvertSyllable(s[2..], Mspy) == "hk"
  {
    SpelledPieces(s, "nihao", 2, "ni", "hao");
    NiSpelled(s[..2]);
    HaoSpelled(s[2..]);
  }

  lemma NihaoSpelled(s: string)
    requires Spelled(s, "nihao")
    ensures ToShuangpin(s, "mspy") == Some("nihk")
  {
    NihaoPieces(s);
    NihaoCodes(s);
    JoinedCodesOfTwo(s[..2], s[2..], "ni", "hk", Mspy);
    ConvertsAs(s);
    assert "ni" + "hk" == "nihk";
  }

  /** End to end: "nihao" converts to "nihk" under `mspy`. */
  lemma NihaoToShuangpin()
    ensures ToShuangpin("nihao", "mspy") == Some("nihk")
  {
    NihaoSpelled("nihao");
  }

  // ---------------------------------------------------------------------------
  // "zhang", "ai", "lüe": a two-letter initial, no initial, and `ü`
  // ---------------------------------------------------------------------------

  lemma ZhangReadAs(s: string)
    requires Spelled(s, "zhang")
    ensures 'ü' !in s && ReadAs(s, 2, "zh", "ang")
  {
    InitialOfRetroflex(s);
    SpelledWithout(s, "zhang", 'ü');
    SpelledPieces(s, "zhang", 2, "zh", "ang");
  }

  lemma ZhangKeys()
    ensures KeysAre(Mspy, "zh", "ang", "v", "h")
  {
  }

  lemma ZhangSpelled(s: string)
    requires Spelled(s, "zhang")
    ensures ConvertSyllable(s, Mspy) == "vh"
  {
    ZhangReadAs(s);
    ZhangKeys();
    CodeOfPieces(s, 2, Mspy, "zh", "ang", "v", "h");
  }

  /** "zhang": the two-letter initial `zh` is key `v`, final `ang` is key `h`. */
  lemma ZhangCode()
    ensures ConvertSyllable("zhang", Mspy) == "vh"
  {
    ZhangSpelled("zhang");
  }

  lemma AiKeys()
    ensures Mspy.zeroInitialRule == Fixed("o") && "ai" in Mspy.finals && Mspy.finals["ai"] == "l"
  {
  }

  lemma AiSpelled(s: string)
    requires Spelled(s, "ai")
    ensures ConvertSyllable(s, Mspy) == "ol"
  {
    VowelIsNoInitialLetter(s[0]);
    InitialOfNone(s);
    SpelledWithout(s, "ai", 'ü');
    AiKeys();
    CodeWithoutInitial(s, Mspy, "ai", "o", "l");
  }

  /** "ai": no initial, so the fixed zero-initial key `o`, then final `ai` as `l`. */
  lemma AiCode()
    ensures ConvertSyllable("ai", Mspy) == "ol"
  {
    AiSpelled("ai");
  }

  /** In "lüe" the `ü` is the second letter, and it becomes `v`. */
  lemma LveReplaced(s: string)
    requires Spelled(s, "lüe")
    ensures Spelled(ReplaceFirst(s, 'ü', 'v'), "lve")
  {
    assert s[0] != 'ü' && s[1..][0] == 'ü';
    assert ReplaceFirst(s[1..], 'ü', 'v') == ['v'] + s[2..];
    assert ReplaceFirst(s, 'ü', 'v') == [s[0]] + (['v'] + s[2..]);
  }


  lemma LveKeys()
    ensures KeysAre(Mspy, "l", "ve", "l", "t")
  {
  }

  lemma LveSpelled(s: string)
    requires Spelled(s, "lüe")
    ensures ConvertSyllable(s, Mspy) == "lt"
  {
    var r := ReplaceFirst(s, 'ü', 'v');
    LveReplaced(s);
    SingleInitialReadAs(r, "lve", "l", "ve");
    LveKeys();
    EncodeOfPieces(r, 1, Mspy, "l", "ve", "l", "t");
  }

  /** "lüe": `ü` is spelled `v` first, so the final is `ve`, key `t`. */
  lemma LveCode()
    ensures ConvertSyllable("lüe", Mspy) == "lt"
  {
    LveSpelled("lüe");
  }

  // ---------------------------------------------------------------------------
  // "bl": a key code taken for a final
  // ---------------------------------------------------------------------------

  lemma BlAccepts(s: string)
    requires Spelled(s, "bl")
    ensures AcceptsPrefix(s, 2, MspyFinals)
  {
    FinalOfByLetters(s[..2]);
    assert s[..2][1..] == "l";
    assert "ai" in MspyFinals && MspyFinals["ai"] == "l";
  }

  /** `l` is a key of the table but not one of its finals. */
  lemma BlFinalMissing(f: string)
    requires Spelled(f, "l")
    ensures f !in MspyFinals
  {
    SpelledIsEquality(f, "l");
  }

  lemma BlReadAs(s: string)
    requires Spelled(s, "bl")
    ensures 'ü' !in s && |s| == 2 && InitialOf(s) == Some(s[..1]) && s[1..] !in MspyFinals
  {
    InitialOfSingle(s);
    SpelledWithout(s, "bl", 'ü');
    SpelledPieces(s, "bl", 1, "b", "l");
    BlFinalMissing(s[1..]);
  }

  lemma BlSpelled(s: string)
    requires Spelled(s, "bl")
    ensures Split(s, MspyFinals) == [s]
    ensures ConvertSyllable(s, Mspy) == "[" + s + "]"
  {
    BlAccepts(s);
    SplitStep(s, 2);
    assert s[..2] == s && s[2..] == [];
    BlReadAs(s);
    BracketOfPieces(s, 1, Mspy);
  }

  /**
   * The segmenter also accepts key codes as finals: in "bl" the part after `b`
   * is `l`, the key of the final `ai`, so "bl" is one syllable; yet `l` is not
   * a final, so the syllable is echoed in brackets.
   */
  lemma KeyCodeAcceptedButNotEncoded()
    ensures Split("bl", MspyFinals) == ["bl"]
    ensures ConvertSyllable("bl", Mspy) == "[bl]"
    ensures ToShuangpin("bl", "mspy") == Some("[bl]")
  {
    BlSpelled("bl");
    assert "[" + "bl" + "]" == "[bl]";
    JoinedCodesOfOne("bl", "[bl]", Mspy);
    ConvertsAs("bl");
  }

  // ---------------------------------------------------------------------------
  // "lüe" end to end: segmented before `ü` is spelled `v`
  // ---------------------------------------------------------------------------

  lemma LveRejects(s: string, m: nat)
    requires Spelled(s, "lüe") && 1 <= m <= 3
    ensures !AcceptsPrefix(s, m, MspyFinals)
  {
    FinalOfByLetters(s[..m]);
    var f := FinalOf(s[..m]);
    assert f == s[1..m];
    if m >= 2 {
      assert f[0] == 'ü';
    }
    UnknownFinalPart(f);
  }

  lemma UmlautRejects(s: string, m: nat)
    requires Spelled(s, "üe") && 1 <= m <= 2
    ensures !AcceptsPrefix(s, m, MspyFinals)
  {
    FinalOfByLetters(s[..m]);
    var f := FinalOf(s[..m]);
    assert f == s[..m] && f[0] == 'ü';
    UnknownFinalPart(f);
  }

  lemma EAccepts(s: string)
    requires Spelled(s, "e")
    ensures AcceptsPrefix(s, 1, MspyFinals)
  {
    var c := s[..1];
    assert c[0] == 'e';
    VowelIsNoInitialLetter(c[0]);
    FinalOfByLetters(c);
    assert c == "e";
  }

  lemma EWhole(s: string)
    requires Spelled(s, "e")
    ensures Split(s, MspyFinals) == [s]
  {
    EAccepts(s);
    SplitStep(s, 1);
    assert s[..1] == s && s[1..] == [];
  }

  lemma UmlautEFirst(s: string)
    requires Spelled(s, "üe")
    ensures Split(s, MspyFinals) == [s[..1]] + Split(s[1..], MspyFinals)
  {
    forall m | 1 <= m <= Min(6, |s|)
      ensures !AcceptsPrefix(s, m, MspyFinals)
    {
      UmlautRejects(s, m);
    }
    SplitFallback(s, MspyFinals);
  }

  lemma LveFirst(s: string)
    requires Spelled(s, "lüe")
    ensures Split(s, MspyFinals) == [s[..1]] + Split(s[1..], MspyFinals)
  {
    forall m | 1 <= m <= Min(6, |s|)
      ensures !AcceptsPrefix(s, m, MspyFinals)
    {
      LveRejects(s, m);
    }
    SplitFallback(s, MspyFinals);
  }

  /** The first letter and the rest of the tail of `s`, as slices of `s`. */
  lemma TailPieces(s: string)
    requires |s| >= 2
    ensures s[1..][..1] == s[1..2] && s[1..][1..] == s[2..]
  {
  }

  lemma UmlautEPieces(t: string)
    requires Spelled(t, "üe")
    ensures Split(t, MspyFinals) == [t[..1], t[1..]]
  {
    UmlautEFirst(t);
    SpelledPieces(t, "üe", 1, "ü", "e");
    EWhole(t[1..]);
  }

  lemma LvePieces(s: string)
    requires Spelled(s, "lüe")
    ensures Split(s, MspyFinals) == [s[..1], s[1..2], s[2..]]
  {
    LveFirst(s);
    SpelledPieces(s, "lüe", 1, "l", "üe");
    UmlautEPieces(s[1..]);
    TailPieces(s);
  }

  lemma UmlautSpelled(s: string)
    requires Spelled(s, "ü")
    ensures ConvertSyllable(s, Mspy) == "oy"
  {
    var r := ReplaceFirst(s, 'ü', 'v');
    assert s[0] == 'ü' && s[1..] == [];
    assert r == ['v'] + s[1..];
    assert r == "v";
    InitialOfNone(r);
    assert "v" in MspyFinals && MspyFinals["v"] == "y";
  }

  lemma LBracket(s: string)
    requires Spelled(s, "l")
    ensures ConvertSyllable(s, Mspy) == "[" + s + "]"
  {
    InitialOfSingle(s);
    SpelledWithout(s, "l", 'ü');
    assert s[1..] == [] && s[..1] == s;
    UnknownFinalPart(s[1..]);
    BracketOfPieces(s, 1, Mspy);
  }

  lemma BracketedL(s: string)
    requires Spelled(s, "l")
    ensures "[" + s + "]" == "[l]"
  {
    SpelledIsEquality(s, "l");
  }

  lemma LSpelled(s: string)
    requires Spelled(s, "l")
    ensures ConvertSyllable(s, Mspy) == "[l]"
  {
    LBracket(s);
    BracketedL(s);
  }

  lemma ESpelled(s: string)
    requires Spelled(s, "e")
    ensures ConvertSyllable(s, Mspy) == "oe"
  {
    VowelIsNoInitialLetter(s[0]);
    InitialOfNone(s);
    SpelledWithout(s, "e", 'ü');
    CodeWithoutInitial(s, Mspy, "e", "o", "e");
  }

  lemma LveJoin()
    ensures "[l]" + "oy" + "oe" == "[l]oyoe"
  {
  }

  lemma LveCodes(s: string)
    requires Spelled(s, "lüe")
    ensures Concat(Codes([s[..1], s[1..2], s[2..]], Mspy)) == "[l]oyoe"
  {
    SpelledPieces(s, "lüe", 1, "l", "üe");
    SpelledPieces(s[1..], "üe", 1, "ü", "e");
    TailPieces(s);
    LSpelled(s[..1]);
    UmlautSpelled(s[1..2]);
    ESpelled(s[2..]);
    JoinedCodesOfThree(s[..1], s[1..2], s[2..], "[l]", "oy", "oe", Mspy);
    LveJoin();
  }

  lemma LveEndToEnd(s: string)
    requires Spelled(s, "lüe")
    ensures ToShuangpin(s, "mspy") == Some("[l]oyoe")
  {
    LvePieces(s);
    LveCodes(s);
    ConvertsTo(s, [s[..1], s[1..2], s[2..]], "[l]oyoe");
  }

  /**
   * The whole input is segmented before `ü` is spelled `v`, and no candidate
   * holding `ü` is accepted: "lüe" splits as "l", "ü", "e" and converts to
   * "[l]oyoe", not to the "lt" its single syllable gives.
   */
  lemma UmlautSegmentedBeforeSpelling()
    ensures Split("lüe", MspyFinals) == ["l", "ü", "e"]
    ensures ToShuangpin("lüe", "mspy") == Some("[l]oyoe")
  {
    LvePieces("lüe");
    assert "lüe"[..1] == "l" && "lüe"[1..2] == "ü" && "lüe"[2..] == "e";
    LveEndToEnd("lüe");
  }

  // ---------------------------------------------------------------------------
  // "xiaoheshuangpin": four syllables, one of them with `sh` inside the input
  // ---------------------------------------------------------------------------

  /** The piece of a spelled string between `i` and `j` is spelled by that piece of its spelling. */
  lemma SpelledSlice(s: string, w: string, i: nat, j: nat, piece: string)
    requires Spelled(s, w) && i <= j <= |w| && w[i..j] == piece
    ensures Spelled(s[i..j], piece)
  {
  }

  lemma XiaoRejects(s: string, k: nat)
    requires |s| >= 6 && Spelled(s[..6], "xiaohe") && 5 <= k <= 6
    ensures !AcceptsPrefix(s, k, MspyFinals)
  {
    assert s[0] == 'x' && s[4] == 'h';
    FinalOfByLetters(s[..k]);
    RejectedRemainder(s[..k], 3);
  }

  lemma XiaoAccepts(s: string)
    requires |s| >= 6 && Spelled(s[..6], "xiaohe")
    ensures AcceptsPrefix(s, 4, MspyFinals)
  {
    assert s[0] == 'x';
    FinalOfByLetters(s[..4]);
    assert s[..4][1..] == "iao";
    assert "iao" in MspyFinals;
  }

  lemma XiaoFirst(s: string)
    requires |s| >= 6 && Spelled(s[..6], "xiaohe")
    ensures Split(s, MspyFinals) == [s[..4]] + Split(s[4..], MspyFinals)
  {
    assert Min(6, |s|) == 6;
    forall m | 4 < m <= Min(6, |s|)
      ensures !AcceptsPrefix(s, m, MspyFinals)
    {
      XiaoRejects(s, m);
    }
    XiaoAccepts(s);
    SplitStep(s, 4);
  }

  lemma HeRejects(s: string, k: nat)
    requires |s| >= 6 && Spelled(s[..6], "heshua") && 4 <= k <= 6
    ensures !AcceptsPrefix(s, k, MspyFinals)
  {
    assert s[0] == 'h' && s[3] == 'h';
    FinalOfByLetters(s[..k]);
    RejectedRemainder(s[..k], 2);
  }

  /** `es` is neither a final nor a key code. */
  lemma EsUnknown(f: string)
    requires Spelled(f, "es")
    ensures !IsKnownFinal(f, MspyFinals)
  {
    SpelledIsEquality(f, "es");
    MspyValuesAreSingle();
  }

  lemma HesRejects(s: string)
    requires |s| >= 6 && Spelled(s[..6], "heshua")
    ensures !AcceptsPrefix(s, 3, MspyFinals)
  {
    assert s[0] == 'h';
    assert s[1] == 'e' && s[2] == 's';
    FinalOfByLetters(s[..3]);
    assert Spelled(s[..3][1..], "es");
    EsUnknown(s[..3][1..]);
  }

  lemma HeAccepts(s: string)
    requires |s| >= 2 && s[0] == 'h' && s[1] == 'e'
    ensures AcceptsPrefix(s, 2, MspyFinals)
  {
    FinalOfByLetters(s[..2]);
    assert s[..2][1..] == "e";
    assert "e" in MspyFinals;
  }

  lemma HeFirst(s: string)
    requires |s| >= 6 && Spelled(s[..6], "heshua") && s[0] == 'h' && s[1] == 'e'
    ensures Split(s, MspyFinals) == [s[..2]] + Split(s[2..], MspyFinals)
  {
    assert Min(6, |s|) == 6;
    forall m | 2 < m <= Min(6, |s|)
      ensures !AcceptsPrefix(s, m, MspyFinals)
    {
      if m == 3 {
        HesRejects(s);
      } else {
        HeRejects(s, m);
      }
    }
    HeAccepts(s);
    SplitStep(s, 2);
  }

  lemma ShuangAccepts(s: string)
    requires |s| >= 6 && Spelled(s[..6], "shuang")
    ensures AcceptsPrefix(s, 6, MspyFinals)
  {
    assert s[0] == 's' && s[1] == 'h';
    FinalOfByLetters(s[..6]);
    assert s[..6][2..] == "uang";
    assert "uang" in MspyFinals;
  }

  lemma ShuangFirst(s: string)
    requires |s| >= 6 && Spelled(s[..6], "shuang")
    ensures Split(s, MspyFinals) == [s[..6]] + Split(s[6..], MspyFinals)
  {
    ShuangAccepts(s);
    assert Min(6, |s|) == 6;
    SplitStep(s, 6);
  }

  lemma PinWhole(s: string)
    requires Spelled(s, "pin")
    ensures Split(s, MspyFinals) == [s]
  {
    assert s[0] == 'p';
    FinalOfByLetters(s[..3]);
    assert s[..3][1..] == "in";
    assert "in" in MspyFinals;
    SplitStep(s, 3);
    assert s[..3] == s && s[3..] == [];
  }

  lemma ShuangpinPieces(s: string)
    requires Spelled(s, "shuangpin")
    ensures Split(s, MspyFinals) == [s[..6], s[6..]]
  {
    SpelledPieces(s, "shuangpin", 6, "shuang", "pin");
    ShuangFirst(s);
    PinWhole(s[6..]);
  }

  lemma HeshuangpinWindows(s: string)
    requires Spelled(s, "heshuangpin")
    ensures |s| == 11 && Spelled(s[..6], "heshua") && Spelled(s[2..], "shuangpin")
    ensures s[0] == 'h' && s[1] == 'e'
  {
    SpelledSlice(s, "heshuangpin", 0, 6, "heshua");
    assert s[0..6] == s[..6];
    SpelledPieces(s, "heshuangpin", 2, "he", "shuangpin");
  }

  /** A first syllable of length `k` followed by two more. */
  lemma PiecesOfThree(s: string, k: nat, j: nat, finals: map<string, string>)
    requires k + j <= |s|
    requires Split(s, finals) == [s[..k]] + Split(s[k..], finals)
    requires Split(s[k..], finals) == [s[k..][..j], s[k..][j..]]
    ensures Split(s, finals) == [s[..k], s[k..k + j], s[k + j..]]
  {
    assert s[k..][..j] == s[k..k + j] && s[k..][j..] == s[k + j..];
  }

  /** A first syllable of length `k` followed by three more. */
  lemma PiecesOfFour(s: string, k: nat, j: nat, i: nat, finals: map<string, string>)
    requires k + j + i <= |s|
    requires Split(s, finals) == [s[..k]] + Split(s[k..], finals)
    requires Split(s[k..], finals) == [s[k..][..j], s[k..][j..j + i], s[k..][j + i..]]
    ensures Split(s, finals) == [s[..k], s[k..k + j], s[k + j..k + j + i], s[k + j + i..]]
  {
    assert s[k..][..j] == s[k..k + j];
    assert s[k..][j..j + i] == s[k + j..k + j + i];
    assert s[k..][j + i..] == s[k + j + i..];
  }

  lemma HeshuangpinPieces(s: string)
    requires Spelled(s, "heshuangpin")
    ensures Split(s, MspyFinals) == [s[..2], s[2..8], s[8..]]
  {
    HeshuangpinWindows(s);
    HeFirst(s);
    ShuangpinPieces(s[2..]);
    PiecesOfThree(s, 2, 6, MspyFinals);
  }

  lemma XiaoheshuangpinWindows(s: string)
    requires Spelled(s, "xiaoheshuangpin")
    ensures |s| == 15 && Spelled(s[..6], "xiaohe") && Spelled(s[4..], "heshuangpin")
  {
    SpelledSlice(s, "xiaoheshuangpin", 0, 6, "xiaohe");
    assert s[0..6] == s[..6];
    SpelledPieces(s, "xiaoheshuangpin", 4, "xiao", "heshuangpin");
  }

  lemma XiaoheshuangpinPieces(s: string)
    requires Spelled(s, "xiaoheshuangpin")
    ensures Split(s, MspyFinals) == [s[..4], s[4..6], s[6..12], s[12..]]
  {
    XiaoheshuangpinWindows(s);
    XiaoFirst(s);
    HeshuangpinPieces(s[4..]);
    PiecesOfFour(s, 4, 2, 6, MspyFinals);
  }

  lemma XiaoKeys()
    ensures KeysAre(Mspy, "x", "iao", "x", "c")
  {
  }

  lemma XiaoSpelled(s: string)
    requires Spelled(s, "xiao")
    ensures ConvertSyllable(s, Mspy) == "xc"
  {
    SingleInitialReadAs(s, "xiao", "x", "iao");
    XiaoKeys();
    CodeOfPieces(s, 1, Mspy, "x", "iao", "x", "c");
  }

  lemma HeKeys()
    ensures KeysAre(Mspy, "h", "e", "h", "e")
  {
  }

  lemma HeSpelled(s: string)
    requires Spelled(s, "he")
    ensures ConvertSyllable(s, Mspy) == "he"
  {
    SingleInitialReadAs(s, "he", "h", "e");
    HeKeys();
    CodeOfPieces(s, 1, Mspy, "h", "e", "h", "e");
  }

  lemma ShuangKeys()
    ensures KeysAre(Mspy, "sh", "uang", "u", "d")
  {
  }

  lemma ShuangSpelled(s: string)
    requires Spelled(s, "shuang")
    ensures ConvertSyllable(s, Mspy) == "ud"
  {
    InitialOfRetroflex(s);
    SpelledWithout(s, "shuang", 'ü');
    SpelledPieces(s, "shuang", 2, "sh", "uang");
    ShuangKeys();
    CodeOfPieces(s, 2, Mspy, "sh", "uang", "u", "d");
  }

  lemma PinKeys()
    ensures KeysAre(Mspy, "p", "in", "p", "n")
  {
  }

  lemma PinSpelled(s: string)
    requires Spelled(s, "pin")
    ensures ConvertSyllable(s, Mspy) == "pn"
  {
    SingleInitialReadAs(s, "pin", "p", "in");
    PinKeys();
    CodeOfPieces(s, 1, Mspy, "p", "in", "p", "n");
  }

  /** The joined codes of four syllables. */
  lemma JoinedCodesOfFour(a: string, b: string, c: string, d: string, codeA: string, codeB: string, codeC: string, codeD: string, scheme: Scheme)
    requires ConvertSyllable(a, scheme) == codeA && ConvertSyllable(b, scheme) == codeB
    requires ConvertSyllable(c, scheme) == codeC && ConvertSyllable(d, scheme) == codeD
    ensures Concat(Codes([a, b, c, d], scheme)) == codeA + (codeB + codeC + codeD)
  {
    JoinedCodesOfThree(b, c, d, codeB, codeC, codeD, scheme);
    assert [a, b, c, d] == [a] + [b, c, d];
    CodesCons(a, [b, c, d], scheme);
    ConcatCons(codeA, Codes([b, c, d], scheme));
  }

  lemma XiaoheshuangpinJoin()
    ensures "xc" + ("he" + "ud" + "pn") == "xcheudpn"
  {
  }

  lemma XiaoheshuangpinCodes(s: string)
    requires Spelled(s, "xiaoheshuangpin")
    ensures Concat(Codes([s[..4], s[4..6], s[6..12], s[12..]], Mspy)) == "xcheudpn"
  {
    SpelledSlice(s, "xiaoheshuangpin", 0, 4, "xiao");
    SpelledSlice(s, "xiaoheshuangpin", 4, 6, "he");
    SpelledSlice(s, "xiaoheshuangpin", 6, 12, "shuang");
    SpelledSlice(s, "xiaoheshuangpin", 12, 15, "pin");
    assert s[0..4] == s[..4] && s[12..15] == s[12..];
    XiaoSpelled(s[..4]);
    HeSpelled(s[4..6]);
    ShuangSpelled(s[6..12]);
    PinSpelled(s[12..]);
    JoinedCodesOfFour(s[..4], s[4..6], s[6..12], s[12..], "xc", "he", "ud", "pn", Mspy);
    XiaoheshuangpinJoin();
  }

  lemma XiaoheshuangpinWords(s: string)
    requires Spelled(s, "xiaoheshuangpin")
    ensures s[..4] == "xiao" && s[4..6] == "he" && s[6..12] == "shuang" && s[12..] == "pin"
  {
    SpelledSlice(s, "xiaoheshuangpin", 0, 4, "xiao");
    SpelledSlice(s, "xiaoheshuangpin", 4, 6, "he");
    SpelledSlice(s, "xiaoheshuangpin", 6, 12, "shuang");
    SpelledSlice(s, "xiaoheshuangpin", 12, 15, "pin");
    assert s[0..4] == s[..4] && s[12..15] == s[12..];
    SpelledIsEquality(s[..4], "xiao");
    SpelledIsEquality(s[4..6], "he");
    SpelledIsEquality(s[6..12], "shuang");
    SpelledIsEquality(s[12..], "pin");
  }

  lemma XiaoheshuangpinSpelled(s: string)
    requires Spelled(s, "xiaoheshuangpin")
    ensures Split(s, MspyFinals) == ["xiao", "he", "shuang", "pin"]
    ensures ToShuangpin(s, "mspy") == Some("xcheudpn")
  {
    XiaoheshuangpinPieces(s);
    XiaoheshuangpinCodes(s);
    ConvertsTo(s, [s[..4], s[4..6], s[6..12], s[12..]], "xcheudpn");
    XiaoheshuangpinWords(s);
  }

  /**
   * The default vocabulary item: "xiaoheshuangpin" segments as "xiao", "he",
   * "shuang", "pin" (the `h` of "he" and of "shuang" stops each longer
   * candidate) and converts to "xcheudpn".
   */
  lemma XiaoheshuangpinToShuangpin()
    ensures Split("xiaoheshuangpin", MspyFinals) == ["xiao", "he", "shuang", "pin"]
    ensures ToShuangpin("xiaoheshuangpin", "mspy") == Some("xcheudpn")
  {
    XiaoheshuangpinSpelled("xiaoheshuangpin");
  }
}
