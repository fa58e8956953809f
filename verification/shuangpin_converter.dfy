/**
 * The Shuangpin conversion engine of src/composables/useShuangpinConverter.js:
 * the registered scheme table, the ordered list of initial consonants, the
 * greedy longest-first syllable segmenter, the per-syllable encoder and the
 * end-to-end converter.
 *
 * Strings are `seq<char>`; one `char` stands for one JavaScript string unit.
 */
module ShuangpinConverter {
  import opened Wrappers

  // ---------------------------------------------------------------------------
  // Scheme registry
  // ---------------------------------------------------------------------------

  /** How a syllable without an initial consonant gets the key of its initial slot. */
  datatype ZeroInitialRule =
    | Fixed(key: string)                   // `type: 'fixed'`: always `key`
    | FirstLetter                          // `type: 'first_letter'`: the final's first letter
    | Hybrid(retainedFinals: seq<string>)  // `type: 'hybrid'`: pass-through, doubling, or first letter
    | Unrecognised                         // any other `type`: the initial slot stays empty

  /** One Shuangpin layout: key tables for initials and finals and a zero-initial rule. */
  datatype Scheme = Scheme(
    name: string,
    initials: map<string, string>,
    finals: map<string, string>,
    zeroInitialRule: ZeroInitialRule)

  /** The final table of the Microsoft Shuangpin layout (`mspy`). */
  const MspyFinals: map<string, string> := map[
    "a" := "a", "o" := "o", "e" := "e", "ai" := "l", "ei" := "z", "ao" := "k", "ou" := "b",
    "an" := "j", "en" := "f", "er" := "r", "ang" := "h", "eng" := "g", "ong" := "s",
    "i" := "i", "ia" := "w", "iao" := "c", "ie" := "x", "iu" := "q", "ian" := "m",
    "in" := "n", "iang" := "d", "ing" := ";", "u" := "u", "ua" := "w", "uo" := "o",
    "uai" := "y", "ui" := "v", "uan" := "r", "un" := "p", "uang" := "d", "v" := "y", "ve" := "t"
  ]

  /** The Microsoft Shuangpin layout: only `ch`, `sh` and `zh` have their own keys. */
  const Mspy: Scheme := Scheme(
    "微软双拼",
    map["ch" := "i", "sh" := "u", "zh" := "v"],
    MspyFinals,
    Fixed("o"))

  /** The registered schemes, by key. The full-spelling key "quanpin" is deliberately absent. */
  const Schemes: map<string, Scheme> := map["mspy" := Mspy]

  /** Initial consonants in lookup order: `zh`, `ch`, `sh` come before `z`, `c`, `s`. */
  const Initials: seq<string> := [
    "b", "p", "m", "f", "d", "t", "n", "l", "g", "k", "h", "j", "q", "x",
    "zh", "ch", "sh", "r", "z", "c", "s", "y", "w"
  ]

  function Min(a: int, b: int): int { if a < b then a else b }

  // ---------------------------------------------------------------------------
  // Initial and final of a syllable
  // ---------------------------------------------------------------------------

  /** Index of the first entry of `list` that is a prefix of `s` (`Array.prototype.find`). */
  function FirstPrefixIndex(list: seq<string>, s: string): (r: Option<nat>)
    ensures r.Some? ==> r.value < |list| && list[r.value] <= s
    ensures r.Some? ==> forall j :: 0 <= j < r.value ==> !(list[j] <= s)
    ensures r.None? ==> forall j :: 0 <= j < |list| ==> !(list[j] <= s)
  {
    if list == [] then None
    else if list[0] <= s then Some(0)
    else match FirstPrefixIndex(list[1..], s)
      case None => None
      case Some(k) => Some(k + 1)
  }

  /** The initial consonant of a syllable: the first entry of `Initials` it starts with. */
  function InitialOf(syllable: string): (r: Option<string>)
    ensures r.Some? ==> r.value in Initials && r.value <= syllable
    ensures r.None? <==> forall ini :: ini in Initials ==> !(ini <= syllable)
  {
    match FirstPrefixIndex(Initials, syllable)
    case None => None
    case Some(k) => Some(Initials[k])
  }

  /** What is left of a syllable once its initial (if any) is stripped. */
  function FinalOf(syllable: string): string {
    FinalAfter(Initials, syllable)
  }

  /** What is left of `s` once the first entry of `list` that prefixes it is cut off. */
  function FinalAfter(list: seq<string>, s: string): string {
    if list == [] then s
    else if list[0] <= s then s[|list[0]|..]
    else FinalAfter(list[1..], s)
  }

  /** `FinalAfter` cuts off exactly the entry the prefix search finds. */
  lemma {:induction false} FinalAfterCutsFirstPrefix(list: seq<string>, s: string)
    ensures FinalAfter(list, s) ==
      match FirstPrefixIndex(list, s)
      case None => s
      case Some(k) => s[|list[k]|..]
  {
    if list != [] && !(list[0] <= s) {
      FinalAfterCutsFirstPrefix(list[1..], s);
    }
  }

  /** The final of a syllable is what follows its initial, or the whole syllable without one. */
  lemma FinalOfAfterInitial(syllable: string)
    ensures FinalOf(syllable) ==
      match InitialOf(syllable)
      case None => syllable
      case Some(ini) => syllable[|ini|..]
  {
    FinalAfterCutsFirstPrefix(Initials, syllable);
  }

  /** No entry of `list` is shadowed by an earlier entry that is a proper prefix of it. */
  ghost predicate ShadowFree(list: seq<string>) {
    forall i, j :: 0 <= i < j < |list| ==> !(list[i] < list[j])
  }

  /** In a shadow-free list, the first entry that prefixes `s` is the longest one that does. */
  lemma FirstPrefixIsLongest(list: seq<string>, s: string, j: nat)
    requires ShadowFree(list)
    requires j < |list| && list[j] <= s
    ensures FirstPrefixIndex(list, s).Some?
    ensures |list[j]| <= |list[FirstPrefixIndex(list, s).value]|
  {
    var k := FirstPrefixIndex(list, s).value;
    if k < j && |list[k]| <= |list[j]| {
      assert list[k] == s[..|list[k]|] == list[j][..|list[k]|];
      assert list[k] <= list[j];
    }
  }

  /** Every initial has one or two letters; the two-letter ones sit at positions 14 to 16. */
  lemma InitialLengths()
    ensures forall k :: 0 <= k < |Initials| ==>
      |Initials[k]| == 1 || (14 <= k < 17 && |Initials[k]| == 2)
  {
    forall k | 0 <= k < |Initials|
      ensures |Initials[k]| == 1 || (14 <= k < 17 && |Initials[k]| == 2)
    {
      if k < 14 {
        assert Initials[k] in Initials[..14];
      } else if k >= 17 {
        assert Initials[k] in Initials[17..];
      }
    }
  }

  /** `z`, `c` and `s` appear only after `zh`, `ch` and `sh`. */
  lemma RetroflexBeforeSibilants()
    ensures forall k :: 0 <= k < 17 ==> Initials[k] !in {"z", "c", "s"}
    ensures forall k :: 14 <= k < 17 ==> Initials[k][..1] in {"z", "c", "s"}
  {
    forall k | 0 <= k < 17
      ensures Initials[k] !in {"z", "c", "s"}
    {
      assert Initials[k] in Initials[..17];
    }
    forall k | 14 <= k < 17
      ensures Initials[k][..1] in {"z", "c", "s"}
    {
      assert Initials[k] in Initials[14..17];
      assert Initials[k] == "zh" || Initials[k] == "ch" || Initials[k] == "sh";
      assert "zh"[..1] == "z" && "ch"[..1] == "c" && "sh"[..1] == "s";
    }
  }

  /** The order of `Initials` is load-bearing: no initial shadows a longer one. */
  lemma InitialsShadowFree()
    ensures ShadowFree(Initials)
  {
    InitialLengths();
    RetroflexBeforeSibilants();
    forall i, j | 0 <= i < j < |Initials|
      ensures !(Initials[i] < Initials[j])
    {
      if |Initials[j]| == 2 && |Initials[i]| == 1 {
        assert Initials[j][..1] != Initials[i];
      }
    }
  }

  /** The initial found by `InitialOf` is the longest initial consonant the syllable starts with. */
  lemma InitialIsLongest(syllable: string, ini: string)
    requires ini in Initials && ini <= syllable
    ensures InitialOf(syllable).Some?
    ensures |ini| <= |InitialOf(syllable).value|
  {
    InitialsShadowFree();
    var j :| 0 <= j < |Initials| && Initials[j] == ini;
    FirstPrefixIsLongest(Initials, syllable, j);
  }

  /** The letters that begin an initial consonant. */
  const InitialLetters: string := "bpmfdtnlgkhjqxrzcsyw"

  /** An initial consonant is one of those letters, or `z`, `c` or `s` followed by `h`. */
  predicate InitialShape(ini: string) {
    || (|ini| == 1 && ini[0] in InitialLetters)
    || (|ini| == 2 && ini[0] in "zcs" && ini[1] == 'h')
  }

  lemma InitialShapes()
    ensures forall k :: 0 <= k < |Initials| ==> InitialShape(Initials[k])
  {
  }

  lemma SingleLetterInitial(c: char)
    requires c in InitialLetters
    ensures [c] in Initials
  {
  }

  lemma InitialOfRetroflex(s: string)
    requires |s| >= 2 && s[0] in "zcs" && s[1] == 'h'
    ensures InitialOf(s) == Some(s[..2])
  {
    InitialShapes();
    var j := if s[0] == 'z' then 14 else if s[0] == 'c' then 15 else 16;
    assert Initials[j] == s[..2];
    InitialIsLongest(s, Initials[j]);
    var found := InitialOf(s).value;
    var k :| 0 <= k < |Initials| && Initials[k] == found;
    assert InitialShape(Initials[k]);
    assert |found| == 2 && found == s[..|found|];
  }

  lemma InitialOfSingle(s: string)
    requires |s| >= 1 && s[0] in InitialLetters && !(|s| >= 2 && s[0] in "zcs" && s[1] == 'h')
    ensures InitialOf(s) == Some(s[..1])
  {
    SingleLetterInitial(s[0]);
    assert [s[0]] == s[..1];
    InitialIsLongest(s, s[..1]);
    InitialShapes();
    var found := InitialOf(s).value;
    var k :| 0 <= k < |Initials| && Initials[k] == found;
    assert InitialShape(Initials[k]);
    assert found == s[..|found|];
  }

  lemma InitialOfNone(s: string)
    requires !(|s| >= 1 && s[0] in InitialLetters)
    ensures InitialOf(s) == None
  {
    InitialShapes();
    forall ini | ini in Initials
      ensures !(ini <= s)
    {
      var k :| 0 <= k < |Initials| && Initials[k] == ini;
      assert InitialShape(Initials[k]);
    }
  }

  /**
   * Reference definition of the initial by spelling: `zh`, `ch` or `sh` when the
   * syllable starts with one, else its first letter when that begins an initial,
   * else none.
   */
  lemma InitialOfByLetters(s: string)
    ensures InitialOf(s) ==
      if |s| >= 2 && s[0] in "zcs" && s[1] == 'h' then Some(s[..2])
      else if |s| >= 1 && s[0] in InitialLetters then Some(s[..1])
      else None
  {
    if |s| >= 2 && s[0] in "zcs" && s[1] == 'h' {
      InitialOfRetroflex(s);
    } else if |s| >= 1 && s[0] in InitialLetters {
      InitialOfSingle(s);
    } else {
      InitialOfNone(s);
    }
  }

  /** Reference definition of the final by spelling, matching `InitialOfByLetters`. */
  lemma FinalOfByLetters(s: string)
    ensures FinalOf(s) ==
      if |s| >= 2 && s[0] in "zcs" && s[1] == 'h' then s[2..]
      else if |s| >= 1 && s[0] in InitialLetters then s[1..]
      else s
  {
    FinalOfAfterInitial(s);
    InitialOfByLetters(s);
  }

  // ---------------------------------------------------------------------------
  // Segmentation
  // ---------------------------------------------------------------------------

  /**
   * The segmenter's acceptance oracle: a final part is recognised when it is a
   * key (a Pinyin final) or a value (a key code) of the final table. The converter
   * always passes the `mspy` table here, whatever scheme it converts to.
   */
  predicate IsKnownFinal(part: string, finals: map<string, string>) {
    part in finals.Values || part in finals.Keys
  }

  /** A candidate substring is accepted as a syllable when its final part is recognised. */
  predicate Accepts(candidate: string, finals: map<string, string>) {
    IsKnownFinal(FinalOf(candidate), finals)
  }

  /** The candidate of length `m` at the front of `rest` is accepted. */
  predicate AcceptsPrefix(rest: string, m: nat, finals: map<string, string>)
    requires m <= |rest|
  {
    Accepts(rest[..m], finals)
  }

  /** The longest accepted prefix of `rest` of length at most `n`, or 0 when there is none. */
  function LongestAccepted(rest: string, n: nat, finals: map<string, string>): (k: nat)
    requires n <= |rest|
    ensures k <= n
    ensures k > 0 ==> AcceptsPrefix(rest, k, finals)
    ensures forall m :: k < m <= n ==> !AcceptsPrefix(rest, m, finals)
  {
    if n == 0 then 0
    else if AcceptsPrefix(rest, n, finals) then n
    else LongestAccepted(rest, n - 1, finals)
  }

  /** The length of the syllable emitted at the front of `rest`: the longest accepted one, else 1. */
  function StepLength(rest: string, finals: map<string, string>): (k: nat)
    requires rest != []
    ensures 1 <= k <= Min(6, |rest|)
  {
    var k := LongestAccepted(rest, Min(6, |rest|), finals);
    if k == 0 then 1 else k
  }

  /** The segmentation `splitPinyin` computes, as a function. */
  function Split(s: string, finals: map<string, string>): seq<string>
    decreases |s|
  {
    if s == [] then []
    else
      var k := StepLength(s, finals);
      [s[..k]] + Split(s[k..], finals)
  }

  /** Concatenation of a sequence of strings. */
  function Concat(parts: seq<string>): string {
    if parts == [] then [] else parts[0] + Concat(parts[1..])
  }

  /**
   * Independent description of one greedy step: `syllable` is a prefix of `rest`
   * of length 1..6, it is accepted or is the single-character fallback, and no
   * longer candidate of length up to `min(6, |rest|)` is accepted.
   */
  ghost predicate GreedyChoice(rest: string, syllable: string, finals: map<string, string>) {
    && 1 <= |syllable| <= Min(6, |rest|)
    && syllable <= rest
    && (Accepts(syllable, finals) || |syllable| == 1)
    && forall m :: |syllable| < m <= Min(6, |rest|) ==> !AcceptsPrefix(rest, m, finals)
  }

  /** `parts` cuts `s` from left to right, each cut a greedy choice. */
  ghost predicate GreedySegmentation(s: string, parts: seq<string>, finals: map<string, string>)
    decreases |parts|
  {
    if parts == [] then s == []
    else GreedyChoice(s, parts[0], finals) && GreedySegmentation(s[|parts[0]|..], parts[1..], finals)
  }

  /** At most one syllable is a greedy choice at any position. */
  lemma GreedyChoiceUnique(rest: string, a: string, b: string, finals: map<string, string>)
    requires GreedyChoice(rest, a, finals) && GreedyChoice(rest, b, finals)
    ensures a == b
  {
    assert a == rest[..|a|] && b == rest[..|b|];
    assert |a| < |b| ==> AcceptsPrefix(rest, |b|, finals);
    assert |b| < |a| ==> AcceptsPrefix(rest, |a|, finals);
  }

  /** The syllable `Split` emits at the front is the greedy choice. */
  lemma StepIsGreedy(rest: string, finals: map<string, string>)
    requires rest != []
    ensures GreedyChoice(rest, rest[..StepLength(rest, finals)], finals)
  {
  }

  /** `Split` is exactly the greedy segmentation: it is one, and it is the only one. */
  lemma {:induction false} SplitIsGreedySegmentation(s: string, parts: seq<string>, finals: map<string, string>)
    ensures GreedySegmentation(s, parts, finals) <==> parts == Split(s, finals)
    decreases |s|
  {
    if s == [] {
      if parts != [] {
        assert !GreedySegmentation(s, parts, finals);
      }
    } else {
      var k := StepLength(s, finals);
      StepIsGreedy(s, finals);
      SplitIsGreedySegmentation(s[k..], Split(s[k..], finals), finals);
      assert GreedySegmentation(s, Split(s, finals), finals);
      if GreedySegmentation(s, parts, finals) {
        GreedyChoiceUnique(s, parts[0], s[..k], finals);
        SplitIsGreedySegmentation(s[k..], parts[1..], finals);
        assert parts == [parts[0]] + parts[1..];
      }
    }
  }

  /** Segmentation consumes its whole input: the syllables concatenate back to it. */
  lemma {:induction false} SplitConcat(s: string, finals: map<string, string>)
    ensures Concat(Split(s, finals)) == s
    decreases |s|
  {
    if s != [] {
      var k := SplitFirst(s, finals);
      SplitConcat(s[k..], finals);
      ConcatCons(s[..k], Split(s[k..], finals));
      assert s[..k] + s[k..] == s;
    }
  }

  /** A non-empty input splits into a first syllable of some length `k` and the split of the rest. */
  lemma SplitFirst(s: string, finals: map<string, string>) returns (k: nat)
    requires s != []
    ensures 1 <= k <= |s| && Split(s, finals) == [s[..k]] + Split(s[k..], finals)
  {
    k := StepLength(s, finals);
  }

  /** Joining a list with one more piece in front puts that piece in front. */
  lemma ConcatCons(piece: string, parts: seq<string>)
    ensures Concat([piece] + parts) == piece + Concat(parts)
  {
    assert ([piece] + parts)[1..] == parts;
  }

  /** Every emitted syllable is between 1 and 6 characters long. */
  lemma {:induction false} SplitSyllableLengths(s: string, finals: map<string, string>)
    ensures forall p :: p in Split(s, finals) ==> 1 <= |p| <= 6
    decreases |s|
  {
    if s != [] {
      var k := StepLength(s, finals);
      SplitSyllableLengths(s[k..], finals);
    }
  }

  /** A letter that no entry of `list` contains survives cutting off the first entry that prefixes `s`. */
  lemma {:induction false} FinalAfterKeepsLetter(list: seq<string>, s: string, c: char)
    requires forall j :: 0 <= j < |list| ==> c !in list[j]
    requires c in s
    ensures c in FinalAfter(list, s)
    decreases |list|
  {
    if list != [] {
      if list[0] <= s {
        var i :| 0 <= i < |s| && s[i] == c;
        assert s[|list[0]|..][i - |list[0]|] == c;
      } else {
        FinalAfterKeepsLetter(list[1..], s, c);
      }
    }
  }

  /**
   * When no final and no key letter of the table contains `c`, segmentation
   * never emits a syllable holding `c` other than the one-character fallback `[c]`:
   * an accepted candidate's final part would have to contain it.
   */
  lemma {:induction false} SplitIsolatesLetter(s: string, finals: map<string, string>, c: char)
    requires forall f :: f in finals ==> c !in f && c !in finals[f]
    requires forall j :: 0 <= j < |Initials| ==> c !in Initials[j]
    ensures forall p :: p in Split(s, finals) && c in p ==> p == [c]
    decreases |s|
  {
    if s != [] {
      var k := StepLength(s, finals);
      SplitIsolatesLetter(s[k..], finals, c);
      if c in s[..k] && LongestAccepted(s, Min(6, |s|), finals) > 0 {
        FinalAfterKeepsLetter(Initials, s[..k], c);
        assert false;
      }
      assert Split(s, finals) == [s[..k]] + Split(s[k..], finals);
    }
  }

  /** One step of `Split` at position `current` of `s`, phrased on `s` itself. */
  lemma SplitAt(s: string, current: nat, k: nat, finals: map<string, string>)
    requires current < |s| && k == StepLength(s[current..], finals)
    ensures current + k <= |s|
    ensures Split(s[current..], finals) == [s[current..current + k]] + Split(s[current + k..], finals)
  {
    var rest := s[current..];
    assert rest[..k] == s[current..current + k];
    assert rest[k..] == s[current + k..];
  }

  /** The loop invariant of `SplitPinyin` holds before the first syllable. */
  lemma SplitPinyinStart(s: string, finals: map<string, string>)
    ensures [] + Split(s[0..], finals) == Split(s, finals)
  {
    assert s[0..] == s;
  }

  /** Once the cursor reaches the end, the syllables emitted are the whole segmentation. */
  lemma SplitPinyinDone(s: string, done: seq<string>, current: nat, finals: map<string, string>)
    requires current == |s| && done + Split(s[current..], finals) == Split(s, finals)
    ensures done == Split(s, finals)
  {
    assert s[current..] == [];
  }

  /** The loop invariant of `SplitPinyin` survives emitting the next syllable. */
  lemma SplitPinyinStep(s: string, done: seq<string>, current: nat, k: nat, finals: map<string, string>)
    requires current < |s| && k == StepLength(s[current..], finals)
    requires done + Split(s[current..], finals) == Split(s, finals)
    ensures 1 <= k && current + k <= |s|
    ensures (done + [s[current..current + k]]) + Split(s[current + k..], finals) == Split(s, finals)
  {
    SplitAt(s, current, k, finals);
    assert (done + [s[current..current + k]]) + Split(s[current + k..], finals)
        == done + ([s[current..current + k]] + Split(s[current + k..], finals));
  }

  /**
   * The inner loop of `splitPinyin`: candidate lengths from `min(6, rest)` down
   * to 1, stopping at the first whose final part is known; 1 when none is.
   */
  method SyllableLength(pinyin: string, current: nat, finals: map<string, string>) returns (len: nat)
    requires current < |pinyin|
    ensures len == StepLength(pinyin[current..], finals)
  {
    ghost var rest := pinyin[current..];
    len := Min(6, |pinyin| - current);
    while len > 0
      invariant 0 <= len <= Min(6, |rest|)
      invariant LongestAccepted(rest, Min(6, |rest|), finals) == LongestAccepted(rest, len, finals)
      decreases len
    {
      var candidate := pinyin[current..current + len];
      assert candidate == rest[..len];
      var finalPart := FinalOf(candidate);
      if IsKnownFinal(finalPart, finals) {
        return;
      }
      len := len - 1;
    }
    len := 1;
  }

  /** One turn of the outer loop of `splitPinyin`: the length of the syllable at `current`. */
  method NextSyllableLength(pinyin: string, current: nat, ghost done: seq<string>, finals: map<string, string>)
    returns (len: nat)
    requires current < |pinyin| && done + Split(pinyin[current..], finals) == Split(pinyin, finals)
    ensures 1 <= len && current + len <= |pinyin|
    ensures (done + [pinyin[current..current + len]]) + Split(pinyin[current + len..], finals) == Split(pinyin, finals)
  {
    len := SyllableLength(pinyin, current, finals);
    SplitPinyinStep(pinyin, done, current, len, finals);
  }

  /**
   * `splitPinyin`: a cursor over the input that emits one syllable per step.
   * The source always reads the `mspy` final table here (`MspyFinals`); the
   * table is a parameter of the model.
   */
  method SplitPinyin(pinyin: string, finals: map<string, string>) returns (syllables: seq<string>)
    ensures syllables == Split(pinyin, finals)
  {
    syllables := [];
    var current := 0;
    SplitPinyinStart(pinyin, finals);
    while current < |pinyin|
      invariant 0 <= current <= |pinyin|
      invariant syllables + Split(pinyin[current..], finals) == Split(pinyin, finals)
      decreases |pinyin| - current
    {
      var len := NextSyllableLength(pinyin, current, syllables, finals);
      syllables := syllables + [pinyin[current..current + len]];
      current := current + len;
    }
    SplitPinyinDone(pinyin, syllables, current, finals);
  }

  // ---------------------------------------------------------------------------
  // Encoding one syllable
  // ---------------------------------------------------------------------------

  /** `String.prototype.replace` with a one-character pattern: only the first occurrence changes. */
  function ReplaceFirst(s: string, from: char, to: char): (r: string)
    ensures |r| == |s|
    ensures from !in s ==> r == s
  {
    if s == [] then []
    else if s[0] == from then [to] + s[1..]
    else [s[0]] + ReplaceFirst(s[1..], from, to)
  }

  /** Position by position, `ReplaceFirst` changes the first `from` and nothing else. */
  lemma {:induction false} ReplaceFirstChangesFirstOnly(s: string, from: char, to: char, i: nat)
    requires i < |s|
    ensures ReplaceFirst(s, from, to)[i] == (if s[i] == from && from !in s[..i] then to else s[i])
    decreases |s|
  {
    if s[0] == from {
      if i > 0 {
        assert s[..i][0] == from;
      }
    } else if i > 0 {
      ReplaceFirstChangesFirstOnly(s[1..], from, to, i - 1);
      assert s[1..][i - 1] == s[i];
      assert s[..i] == [s[0]] + s[1..][..i - 1];
    }
  }

  /** `final[0]`: the first character, or JavaScript's `undefined` (which prints as such) when empty. */
  function FirstLetterOf(final: string): string {
    if final == [] then "undefined" else final[..1]
  }

  /** Initial key plus final key, or the syllable in brackets when the final has no key. */
  function Compose(syllable: string, initialKey: string, final: string, finals: map<string, string>): string {
    if final in finals then initialKey + finals[final] else "[" + syllable + "]"
  }

  /** `convertSyllable`: the two-key code of one syllable under `scheme`, after `ü` becomes `v`. */
  function ConvertSyllable(syllable: string, scheme: Scheme): string {
    EncodeSyllable(ReplaceFirst(syllable, 'ü', 'v'), scheme)
  }

  /** The code of a syllable already spelt with `v`: by its initial, else by the zero-initial rule. */
  function EncodeSyllable(syl: string, scheme: Scheme): string {
    match InitialOf(syl)
    case Some(ini) => Compose(syl, InitialKey(ini, scheme), syl[|ini|..], scheme.finals)
    case None => ZeroInitialCode(syl, scheme)
  }

  /** The code of a syllable without an initial consonant, by the scheme's zero-initial rule. */
  function ZeroInitialCode(syl: string, scheme: Scheme): string {
    match scheme.zeroInitialRule
    case Fixed(key) => Compose(syl, key, syl, scheme.finals)
    case FirstLetter => Compose(syl, FirstLetterOf(syl), syl, scheme.finals)
    case Hybrid(retained) =>
      if syl in retained then syl
      else if |syl| == 1 && syl in {"a", "o", "e"} then syl + syl
      else Compose(syl, FirstLetterOf(syl), syl, scheme.finals)
    case Unrecognised => Compose(syl, "", syl, scheme.finals)
  }

  /** The key an initial consonant gets under `scheme`: its own entry, else the letters themselves. */
  function InitialKey(ini: string, scheme: Scheme): string {
    if ini in scheme.initials && scheme.initials[ini] != "" then scheme.initials[ini] else ini
  }

  /**
   * A syllable made of its longest initial `ini` and a final `f` encodes as the
   * initial's key followed by the final's key, or in brackets when `f` has no key.
   */
  lemma ConvertWithInitial(ini: string, f: string, scheme: Scheme)
    requires ini in Initials && 'ü' !in ini + f
    requires forall other :: other in Initials && other <= ini + f ==> |other| <= |ini|
    ensures ConvertSyllable(ini + f, scheme) ==
      if f in scheme.finals then InitialKey(ini, scheme) + scheme.finals[f] else "[" + ini + f + "]"
  {
    assert ReplaceFirst(ini + f, 'ü', 'v') == ini + f;
    InitialOfLongest(ini, f);
    EncodeAfterInitial(ini, f, scheme);
  }

  /** Once `ini` is the initial found, the code is its key and the final's key. */
  lemma EncodeAfterInitial(ini: string, f: string, scheme: Scheme)
    requires InitialOf(ini + f) == Some(ini)
    ensures EncodeSyllable(ini + f, scheme) ==
      if f in scheme.finals then InitialKey(ini, scheme) + scheme.finals[f] else "[" + ini + f + "]"
  {
    assert (ini + f)[|ini|..] == f;
  }

  /** The initial found in `ini + f` is `ini` when no longer initial prefixes it. */
  lemma InitialOfLongest(ini: string, f: string)
    requires ini in Initials
    requires forall other :: other in Initials && other <= ini + f ==> |other| <= |ini|
    ensures InitialOf(ini + f) == Some(ini)
  {
    var syl := ini + f;
    assert ini <= syl;
    InitialIsLongest(syl, ini);
    var found := InitialOf(syl).value;
    assert found == syl[..|found|] && ini == syl[..|ini|];
  }

  /** A syllable no initial prefixes is encoded by the scheme's zero-initial rule. */
  lemma ConvertZeroInitial(syl: string, scheme: Scheme)
    requires 'ü' !in syl
    requires forall ini :: ini in Initials ==> !(ini <= syl)
    ensures scheme.zeroInitialRule.Fixed? ==>
      ConvertSyllable(syl, scheme) == Compose(syl, scheme.zeroInitialRule.key, syl, scheme.finals)
    ensures scheme.zeroInitialRule.FirstLetter? ==>
      ConvertSyllable(syl, scheme) == Compose(syl, FirstLetterOf(syl), syl, scheme.finals)
    ensures scheme.zeroInitialRule.Hybrid? && syl in scheme.zeroInitialRule.retainedFinals ==>
      ConvertSyllable(syl, scheme) == syl
    ensures (scheme.zeroInitialRule.Hybrid? && syl !in scheme.zeroInitialRule.retainedFinals
             && syl in {"a", "o", "e"}) ==>
      ConvertSyllable(syl, scheme) == syl + syl
    ensures (scheme.zeroInitialRule.Hybrid? && syl !in scheme.zeroInitialRule.retainedFinals
             && syl !in {"a", "o", "e"}) ==>
      ConvertSyllable(syl, scheme) == Compose(syl, FirstLetterOf(syl), syl, scheme.finals)
    ensures scheme.zeroInitialRule.Unrecognised? ==>
      ConvertSyllable(syl, scheme) == Compose(syl, "", syl, scheme.finals)
  {
    assert ReplaceFirst(syl, 'ü', 'v') == syl;
  }

  // ---------------------------------------------------------------------------
  // The Microsoft layout: two keys per syllable
  // ---------------------------------------------------------------------------

  /** Every key of the `mspy` final table is a single keystroke. */
  lemma MspyFinalKeysAreSingle(f: string)
    requires f in MspyFinals
    ensures |MspyFinals[f]| == 1
  {
  }

  /** Under `mspy` every initial consonant is typed with one key. */
  lemma MspyInitialKeyIsSingle(ini: string)
    requires ini in Initials
    ensures |InitialKey(ini, Mspy)| == 1
  {
    InitialLengths();
    var k :| 0 <= k < |Initials| && Initials[k] == ini;
    if 14 <= k < 17 {
      assert ini in Mspy.initials;
    }
  }

  /** The `mspy` code of a syllable already spelt with `v`, by whether its final has a key. */
  lemma MspyEncode(syl: string)
    requires syl != []
    ensures FinalOf(syl) in MspyFinals ==>
      |EncodeSyllable(syl, Mspy)| == 2 && EncodeSyllable(syl, Mspy)[1..] == MspyFinals[FinalOf(syl)]
    ensures FinalOf(syl) !in MspyFinals ==> EncodeSyllable(syl, Mspy) == "[" + syl + "]"
  {
    FinalOfAfterInitial(syl);
    var f := FinalOf(syl);
    if f in MspyFinals {
      MspyFinalKeysAreSingle(f);
      match InitialOf(syl)
      case Some(ini) =>
        MspyInitialKeyIsSingle(ini);
      case None =>
    }
  }

  /**
   * Under `mspy` a non-empty syllable takes exactly two keystrokes when its final
   * has a key (the second being that key), and otherwise comes out in brackets.
   */
  lemma MspyCode(syllable: string)
    requires syllable != []
    ensures var syl := ReplaceFirst(syllable, 'ü', 'v');
      && (FinalOf(syl) in MspyFinals ==>
            |ConvertSyllable(syllable, Mspy)| == 2
            && ConvertSyllable(syllable, Mspy)[1..] == MspyFinals[FinalOf(syl)])
      && (FinalOf(syl) !in MspyFinals ==> ConvertSyllable(syllable, Mspy) == "[" + syl + "]")
  {
    MspyEncode(ReplaceFirst(syllable, 'ü', 'v'));
  }

  /** Under `mspy` a syllable's code has two characters exactly when its final has a key. */
  lemma MspyTwoKeys(syllable: string)
    requires syllable != []
    ensures |ConvertSyllable(syllable, Mspy)| == 2 <==> FinalOf(ReplaceFirst(syllable, 'ü', 'v')) in MspyFinals
  {
    MspyCode(syllable);
  }

  // ---------------------------------------------------------------------------
  // End-to-end conversion
  // ---------------------------------------------------------------------------

  /** The code of each syllable under `scheme`, in order. */
  function Codes(parts: seq<string>, scheme: Scheme): (r: seq<string>)
    ensures |r| == |parts|
    ensures forall i :: 0 <= i < |parts| ==> r[i] == ConvertSyllable(parts[i], scheme)
  {
    if parts == [] then [] else [ConvertSyllable(parts[0], scheme)] + Codes(parts[1..], scheme)
  }

  /**
   * `toShuangpin`: no result for an empty input, an empty scheme key, the
   * full-spelling key "quanpin" or an unregistered key; otherwise the codes of
   * the segmented syllables, joined. Segmentation always uses the `mspy` finals.
   */
  function ToShuangpin(quanpin: string, schemeKey: string): (r: Option<string>)
    ensures r.None? <==> quanpin == [] || schemeKey !in Schemes
  {
    if quanpin == [] || schemeKey == [] || schemeKey == "quanpin" then None
    else if schemeKey !in Schemes then None
    else Some(Concat(Codes(Split(quanpin, MspyFinals), Schemes[schemeKey])))
  }

  /** Concatenating pieces of two characters each gives twice as many characters, piece by piece. */
  lemma {:induction false} ConcatPairs(parts: seq<string>)
    requires forall i :: 0 <= i < |parts| ==> |parts[i]| == 2
    ensures |Concat(parts)| == 2 * |parts|
    ensures forall k :: 0 <= k < |parts| ==> Concat(parts)[2 * k..2 * k + 2] == parts[k]
  {
    if parts != [] {
      ConcatPairs(parts[1..]);
      var tail := Concat(parts[1..]);
      assert Concat(parts) == parts[0] + tail;
      forall k | 0 <= k < |parts|
        ensures Concat(parts)[2 * k..2 * k + 2] == parts[k]
      {
        if k > 0 {
          assert parts[1..][k - 1] == parts[k];
          assert Concat(parts)[2 * k..2 * k + 2] == tail[2 * (k - 1)..2 * (k - 1) + 2];
        }
      }
    }
  }

  /**
   * When every segmented syllable has a key for its final, the `mspy` output has
   * two keystrokes per syllable, and keystrokes `2k`, `2k+1` encode syllable `k`.
   */
  lemma MspyOutputFraming(quanpin: string)
    requires quanpin != []
    requires forall p :: p in Split(quanpin, MspyFinals) ==> FinalOf(ReplaceFirst(p, 'ü', 'v')) in MspyFinals
    ensures ToShuangpin(quanpin, "mspy").Some?
    ensures |ToShuangpin(quanpin, "mspy").value| == 2 * |Split(quanpin, MspyFinals)|
    ensures forall k :: 0 <= k < |Split(quanpin, MspyFinals)| ==>
      ToShuangpin(quanpin, "mspy").value[2 * k..2 * k + 2] == ConvertSyllable(Split(quanpin, MspyFinals)[k], Mspy)
  {
    var parts := Split(quanpin, MspyFinals);
    SplitSyllableLengths(quanpin, MspyFinals);
    assert ToShuangpin(quanpin, "mspy") == Some(Concat(Codes(parts, Mspy)));
    MspyCodesFraming(parts);
  }

  /** Two keystrokes per syllable, in order, for syllables whose finals all have `mspy` keys. */
  lemma MspyCodesFraming(parts: seq<string>)
    requires forall p :: p in parts ==> p != [] && FinalOf(ReplaceFirst(p, 'ü', 'v')) in MspyFinals
    ensures |Concat(Codes(parts, Mspy))| == 2 * |parts|
    ensures forall k :: 0 <= k < |parts| ==>
      Concat(Codes(parts, Mspy))[2 * k..2 * k + 2] == ConvertSyllable(parts[k], Mspy)
  {
    forall i | 0 <= i < |parts|
      ensures |ConvertSyllable(parts[i], Mspy)| == 2
    {
      assert parts[i] in parts;
      MspyCode(parts[i]);
    }
    CodesFraming(parts, Mspy);
  }

  /** When every syllable's code has two characters, the joined codes are framed in pairs. */
  lemma CodesFraming(parts: seq<string>, scheme: Scheme)
    requires forall i :: 0 <= i < |parts| ==> |ConvertSyllable(parts[i], scheme)| == 2
    ensures |Concat(Codes(parts, scheme))| == 2 * |parts|
    ensures forall k :: 0 <= k < |parts| ==>
      Concat(Codes(parts, scheme))[2 * k..2 * k + 2] == ConvertSyllable(parts[k], scheme)
  {
    ConcatPairs(Codes(parts, scheme));
  }
}
