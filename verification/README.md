# Shuangpin trainer core in Dafny

This project models the two core pieces of a Shuangpin (double-pinyin) typing
trainer written as a Vue application.

- **The converter** (`src/composables/useShuangpinConverter.js`) turns a
  full-spelling Pinyin string such as `nihao` into Shuangpin keystrokes such as
  `nihk`. It has three stages:
  - a registered scheme table, holding the Microsoft layout `mspy`;
  - a greedy longest-first syllable segmenter;
  - a per-syllable encoder. The encoder looks up the initial consonant (in list
    order, so `zh`/`ch`/`sh` win over `z`/`c`/`s`), spells `ü` as `v`, applies
    the scheme's zero-initial rule, and echoes a syllable in brackets when its
    final has no key.
- **The vocabulary store** (`src/stores/vocabularyStore.js`) holds three
  things:
  - the vocabulary items;
  - the practice queue of unmastered items;
  - a cursor into that queue.

  Its actions add, import, update and delete items and record correct and wrong
  answers. An item is mastered by its third consecutive correct answer if that
  answer takes at most 2500 ms.

Modules:

- `ShuangpinConverter` (`shuangpin_converter.dfy`) contains:
  - the scheme table;
  - initial and final extraction, with reference definitions by spelling;
  - the segmenter, both as a function `Split` and as the imperative `SplitPinyin`
    loop proved equal to it, with a characterisation as the unique greedy
    segmentation and the round trip `Concat(Split(s)) == s`;
  - the encoder, with every zero-initial rule;
  - the end-to-end `ToShuangpin`, with its two-keys-per-syllable framing under
    `mspy`.
- `ShuangpinExamples` (`shuangpin_examples.dfy`) holds worked conversions:
  - end to end: `nihao`, the default item `xiaoheshuangpin`, the key-code case
    `bl`, and `lüe`;
  - single syllables: `ni`, `hao`, `zhang`, `ai` and `lüe`.
- `Vocabulary` (`vocabulary.dfy`) is the value side of the store:
  - normalisation of incoming records;
  - the mastery transition of one item and its properties over runs of answers;
  - the import merge;
  - the cursor arithmetic;
  - the consistency of a queue with its vocabulary (`QueueFits`).
- `VocabularyStore` (`vocabulary_store.dfy`) is the store itself, as a class
  `Store` whose methods change its three fields in place. Every method keeps the
  invariant `Valid()`:
  - ids are unique;
  - the queue holds each unmastered item exactly once and nothing else;
  - the cursor is in range.
- `StoreScenarios` (`store_scenarios.dfy`) runs short sessions against a fresh
  store and states what the caller observes.
- `Wrappers` (`wrappers.dfy`) holds the `Option` datatype.

Notes on following the code:

- The run of consecutive correct answers is not capped at the target. Slow
  correct answers keep counting (`Vocabulary.RunIsNotCapped`), so after a slow
  third answer a fourth answer within the limit masters the item
  (`Vocabulary.FourthFastAnswerMasters`).
- The segmenter treats a candidate as a syllable when the part after its
  initial is either a final of the `mspy` table or one of that table's key
  letters. So `bl` is one syllable (`l` is the key of `ai`), yet its code is
  `[bl]` (`ShuangpinExamples.KeyCodeAcceptedButNotEncoded`).
- Segmentation always uses the `mspy` finals, whatever scheme is asked for.
- The whole input is segmented before `ü` is spelt `v`, and no candidate holding
  `ü` is accepted. So the syllable `lüe` alone encodes as `lt`, but the input
  `lüe` splits as `l`, `ü`, `e` and converts to `[l]oyoe`
  (`ShuangpinExamples.UmlautSegmentedBeforeSpelling`). In general, the only
  syllable holding `ü` that segmentation emits is `ü` alone
  (`ShuangpinExamples.SplitIsolatesUmlaut`). The lemmas about
  `convertSyllable` that assume a syllable without `ü` therefore cover every
  other syllable the segmenter emits.

## Model

| member | source | states |
|---|---|---|
| ShuangpinConverter.MspyFinals | src/composables/useShuangpinConverter.js:10-16 | definition: the 32 finals of the Microsoft layout with their keys; properties in `MspyFinalKeysAreSingle`, `MspyValuesAreSingle`, `MspyFinalsWithoutH`, `MspyFinalsWithoutUmlaut` |
| ShuangpinConverter.Mspy | src/composables/useShuangpinConverter.js:7-18 | definition of the `mspy` entry: its name, the initial keys `ch` as `i`, `sh` as `u` and `zh` as `v`, the final table and the fixed zero-initial key `o`; stated by `MspyInitialKeyIsSingle`, `MspyEncode`, `MspyOutputFraming` and the worked examples |
| ShuangpinConverter.Schemes | src/composables/useShuangpinConverter.js:6-20 | definition: `mspy` is the only registered key; `ToShuangpin` states which keys give no result |
| ShuangpinConverter.Initials | src/composables/useShuangpinConverter.js:22 | definition: the 23 initials in lookup order; properties in `InitialLengths`, `RetroflexBeforeSibilants`, `InitialsShadowFree`, `InitialShapes`, `SingleLetterInitial` |
| ShuangpinConverter.FirstPrefixIndex | src/composables/useShuangpinConverter.js:33 | `INITIALS.find(i => s.startsWith(i))`: the result is the first list entry that prefixes `s`; none exactly when no entry prefixes it |
| ShuangpinConverter.InitialOf | src/composables/useShuangpinConverter.js:55 | a found initial is one of the listed initials and prefixes the syllable; there is none exactly when no initial prefixes it |
| ShuangpinConverter.FinalOf | src/composables/useShuangpinConverter.js:56 | definition of the final; stated by `FinalOfAfterInitial` and `FinalOfByLetters` |
| ShuangpinConverter.FinalAfter | src/composables/useShuangpinConverter.js:34 | definition of the cut after the first entry that prefixes a string; stated by `FinalAfterCutsFirstPrefix` and `FinalAfterKeepsLetter` |
| ShuangpinConverter.FinalOfAfterInitial | src/composables/useShuangpinConverter.js:55-56 | the final is the syllable with its initial cut off, or the whole syllable when there is no initial |
| ShuangpinConverter.FinalAfterCutsFirstPrefix | src/composables/useShuangpinConverter.js:33-34 | the remainder after the found initial is exactly what follows the first prefixing entry |
| ShuangpinConverter.FinalAfterKeepsLetter | src/composables/useShuangpinConverter.js:33-34 | a letter that no initial contains is still in the final part after the initial is cut off |
| ShuangpinConverter.FirstPrefixIsLongest | src/composables/useShuangpinConverter.js:22 | in a list where no entry is preceded by a proper prefix of itself, the first match is the longest match |
| ShuangpinConverter.InitialLengths | src/composables/useShuangpinConverter.js:22 | every initial is one letter, except `zh`, `ch`, `sh` at positions 14 to 16, which are two |
| ShuangpinConverter.RetroflexBeforeSibilants | src/composables/useShuangpinConverter.js:22 | `zh`, `ch`, `sh` are listed before `z`, `c`, `s` |
| ShuangpinConverter.InitialsShadowFree | src/composables/useShuangpinConverter.js:22 | no initial is shadowed by an earlier initial that is a proper prefix of it |
| ShuangpinConverter.InitialIsLongest | src/composables/useShuangpinConverter.js:55 | the initial found is at least as long as any initial that prefixes the syllable |
| ShuangpinConverter.InitialShapes | src/composables/useShuangpinConverter.js:22 | every initial is a single initial letter or a letter of `zcs` followed by `h` |
| ShuangpinConverter.SingleLetterInitial | src/composables/useShuangpinConverter.js:22 | every initial letter is, on its own, a listed initial |
| ShuangpinConverter.InitialOfRetroflex | src/composables/useShuangpinConverter.js:55 | a syllable starting `zh`, `ch` or `sh` has that two-letter initial |
| ShuangpinConverter.InitialOfSingle | src/composables/useShuangpinConverter.js:55 | any other syllable starting with an initial letter has that one letter as initial |
| ShuangpinConverter.InitialOfNone | src/composables/useShuangpinConverter.js:55 | a syllable not starting with an initial letter has no initial |
| ShuangpinConverter.InitialOfByLetters | src/composables/useShuangpinConverter.js:55 | the list lookup agrees with a reference definition by spelling, for every string |
| ShuangpinConverter.FinalOfByLetters | src/composables/useShuangpinConverter.js:56 | the final agrees with the matching reference definition by spelling, for every string |
| ShuangpinConverter.IsKnownFinal | src/composables/useShuangpinConverter.js:36 | definition: the acceptance test, a final or a key letter of the `mspy` table; `KeyCodeAcceptedButNotEncoded` and `UnknownFinalPart` show what it accepts and rejects |
| ShuangpinConverter.Accepts | src/composables/useShuangpinConverter.js:32-36 | definition of the candidate test, that the candidate's final part passes `IsKnownFinal`; used by `StepIsGreedy`, `SplitIsGreedySegmentation` and `RejectedRemainder` |
| ShuangpinConverter.AcceptsPrefix | src/composables/useShuangpinConverter.js:32-36 | definition of the test on the candidate of a given length at the current position; used by `LongestAccepted` and `StepIsGreedy` |
| ShuangpinConverter.LongestAccepted | src/composables/useShuangpinConverter.js:31-42 | the inner loop's answer: the longest accepted candidate length up to the bound, or 0 when none is accepted |
| ShuangpinConverter.StepLength | src/composables/useShuangpinConverter.js:31-46 | one outer step consumes between 1 and `min(6, rest)` characters |
| ShuangpinConverter.Split | src/composables/useShuangpinConverter.js:24-50 | definition of the segmentation; characterised by `SplitIsGreedySegmentation`, with `SplitConcat` and `SplitSyllableLengths`, and computed by `SplitPinyin` |
| ShuangpinConverter.Concat | src/composables/useShuangpinConverter.js:88 | definition of `join('')`; `SplitConcat` and `ConcatPairs` state its properties |
| ShuangpinConverter.GreedyChoiceUnique | src/composables/useShuangpinConverter.js:31-46 | the greedy choice at a position is unique |
| ShuangpinConverter.StepIsGreedy | src/composables/useShuangpinConverter.js:31-46 | the step taken is the greedy choice: the longest accepted candidate, or one character when none is accepted |
| ShuangpinConverter.SplitIsGreedySegmentation | src/composables/useShuangpinConverter.js:24-50 | a segmentation is the greedy longest-first one if and only if it is what `Split` returns |
| ShuangpinConverter.SplitConcat | src/composables/useShuangpinConverter.js:24-50 | joining the syllables gives back the input, so no character is lost, added or reordered |
| ShuangpinConverter.SplitSyllableLengths | src/composables/useShuangpinConverter.js:31-46 | every syllable has between 1 and 6 characters |
| ShuangpinConverter.SplitIsolatesLetter | src/composables/useShuangpinConverter.js:24-50 | when no final, key letter or initial contains a letter, the only syllable holding it is that letter alone |
| ShuangpinConverter.SyllableLength | src/composables/useShuangpinConverter.js:30-46 | the inner `for` loop from 6 down: the length consumed equals the step length of the remaining input |
| ShuangpinConverter.NextSyllableLength | src/composables/useShuangpinConverter.js:30-46 | one outer iteration advances by at least 1 within bounds and keeps `done + Split(rest) == Split(input)` |
| ShuangpinConverter.SplitPinyin | src/composables/useShuangpinConverter.js:24-50 | `splitPinyin`: the loop's output equals `Split`, the greedy segmentation |
| ShuangpinConverter.ReplaceFirst | src/composables/useShuangpinConverter.js:54 | `String.replace` with a one-character pattern keeps the length, and a string without the character is unchanged |
| ShuangpinConverter.ReplaceFirstChangesFirstOnly | src/composables/useShuangpinConverter.js:54 | exactly the first occurrence is replaced; every other position is unchanged |
| ShuangpinConverter.ConvertSyllable | src/composables/useShuangpinConverter.js:52-80 | definition of `convertSyllable`; its results are stated by `ConvertWithInitial`, `ConvertZeroInitial`, `MspyCode` and `MspyTwoKeys` |
| ShuangpinConverter.EncodeSyllable | src/composables/useShuangpinConverter.js:55-79 | definition of the encoding after `ü` is spelt `v`; stated by `ConvertWithInitial`, `ConvertZeroInitial` and `MspyEncode` |
| ShuangpinConverter.ZeroInitialCode | src/composables/useShuangpinConverter.js:63-79 | definition of the four zero-initial rules; stated rule by rule by `ConvertZeroInitial` |
| ShuangpinConverter.InitialKey | src/composables/useShuangpinConverter.js:61-62 | definition of the initial's key, falling back to the initial itself; `MspyInitialKeyIsSingle` states it under `mspy` |
| ShuangpinConverter.Compose | src/composables/useShuangpinConverter.js:76-79 | definition of the final lookup and the bracket fallback; stated by `ConvertWithInitial` and `MspyEncode` |
| ShuangpinConverter.FirstLetterOf | src/composables/useShuangpinConverter.js:68 | definition of `final[0]`, giving the text `undefined` for an empty final; used by `ConvertZeroInitial` |
| ShuangpinConverter.ConvertWithInitial | src/composables/useShuangpinConverter.js:52-79 | for a syllable spelt without `ü`, made of its longest initial and a final: the code is the initial's key plus the final's key, or the syllable in brackets when the final has no key |
| ShuangpinConverter.InitialOfLongest | src/composables/useShuangpinConverter.js:55 | an initial that no longer initial prefixes is the one found |
| ShuangpinConverter.ConvertZeroInitial | src/composables/useShuangpinConverter.js:63-79 | for a syllable spelt without `ü` that has no initial, each zero-initial rule gives its own code: `fixed` key, `first_letter`, `hybrid` with retained finals, doubled `a`/`o`/`e` or first letter, and an empty slot for an unknown rule type |
| ShuangpinConverter.MspyFinalKeysAreSingle | src/composables/useShuangpinConverter.js:10-16 | every `mspy` final key is one keystroke |
| ShuangpinConverter.MspyInitialKeyIsSingle | src/composables/useShuangpinConverter.js:9-62 | under `mspy` every initial is typed with one key |
| ShuangpinConverter.MspyEncode | src/composables/useShuangpinConverter.js:55-79 | under `mspy`, a syllable spelt with `v` is two keys ending in its final's key, or itself in brackets |
| ShuangpinConverter.MspyCode | src/composables/useShuangpinConverter.js:52-79 | as `MspyEncode`, after `ü` is spelt `v` |
| ShuangpinConverter.MspyTwoKeys | src/composables/useShuangpinConverter.js:52-79 | under `mspy` a syllable's code has exactly two characters if and only if its final has a key |
| ShuangpinConverter.Codes | src/composables/useShuangpinConverter.js:88 | the `map` over syllables: one code per syllable, each being that syllable's conversion |
| ShuangpinConverter.ToShuangpin | src/composables/useShuangpinConverter.js:82-89 | no result exactly when the input is empty or the scheme key is not registered (empty, `quanpin` or unknown; inherited property names are under Left out) |
| ShuangpinConverter.ConcatPairs | src/composables/useShuangpinConverter.js:88 | joining two-character codes gives keystrokes `2k` and `2k+1` from code `k` |
| ShuangpinConverter.CodesFraming | src/composables/useShuangpinConverter.js:88 | when every code has two characters, the joined output has two keystrokes per syllable, in order |
| ShuangpinConverter.MspyCodesFraming | src/composables/useShuangpinConverter.js:88 | as `CodesFraming` under `mspy`, for syllables whose finals all have keys |
| ShuangpinConverter.MspyOutputFraming | src/composables/useShuangpinConverter.js:82-89 | when every segmented syllable's final has a key, the output has two keystrokes per syllable, and keystrokes `2k`, `2k+1` are syllable `k`'s code |
| ShuangpinExamples.MspyValuesAreSingle | src/composables/useShuangpinConverter.js:10-16 | every key letter of the final table is one character |
| ShuangpinExamples.MspyFinalsWithoutUmlaut | src/composables/useShuangpinConverter.js:10-16 | no final and no key letter of the table contains `ü` |
| ShuangpinExamples.UnknownFinalPart | src/composables/useShuangpinConverter.js:36 | the empty part and every part holding `ü` are rejected by the acceptance test |
| ShuangpinExamples.VowelIsNoInitialLetter | src/composables/useShuangpinConverter.js:22 | no vowel, `v` or `ü` begins an initial |
| ShuangpinExamples.UmlautInNoInitial | src/composables/useShuangpinConverter.js:22 | no initial contains `ü` |
| ShuangpinExamples.SplitIsolatesUmlaut | src/composables/useShuangpinConverter.js:24-50 | the only syllable holding `ü` that segmentation emits is `ü` alone |
| ShuangpinExamples.MspyFinalsWithoutH | src/composables/useShuangpinConverter.js:10-16 | no final of the table contains `h` |
| ShuangpinExamples.RejectedRemainder | src/composables/useShuangpinConverter.js:34-36 | a candidate whose final has an `h` after its first letter is rejected |
| ShuangpinExamples.NihaoSplit | src/composables/useShuangpinConverter.js:24-50 | `nihao` segments as `ni`, `hao` |
| ShuangpinExamples.NiCode | src/composables/useShuangpinConverter.js:52-79 | `ni` converts to `ni` |
| ShuangpinExamples.HaoCode | src/composables/useShuangpinConverter.js:52-79 | `hao` converts to `hk` |
| ShuangpinExamples.NihaoToShuangpin | src/composables/useShuangpinConverter.js:82-89 | `nihao` converts to `nihk` under `mspy` |
| ShuangpinExamples.XiaoheshuangpinToShuangpin | src/composables/useShuangpinConverter.js:82-89 | the default item `xiaoheshuangpin` segments as `xiao`, `he`, `shuang`, `pin` and converts to `xcheudpn` |
| ShuangpinExamples.ZhangCode | src/composables/useShuangpinConverter.js:52-79 | `zhang` converts to `vh`: the two-letter initial `zh` wins over `z` |
| ShuangpinExamples.AiCode | src/composables/useShuangpinConverter.js:17-79 | `ai` converts to `ol` through the fixed zero-initial key `o` |
| ShuangpinExamples.LveCode | src/composables/useShuangpinConverter.js:54-79 | `convertSyllable` on the single syllable `lüe` gives `lt`: `ü` is spelt `v`, giving the final `ve`. The whole input `lüe` does not convert to `lt`; see `UmlautSegmentedBeforeSpelling` |
| ShuangpinExamples.UmlautSegmentedBeforeSpelling | src/composables/useShuangpinConverter.js:82-89 | the input is segmented before `ü` is spelt `v`, and no candidate holding `ü` is accepted, so `lüe` splits as `l`, `ü`, `e` and converts to `[l]oyoe` |
| ShuangpinExamples.KeyCodeAcceptedButNotEncoded | src/composables/useShuangpinConverter.js:36-77 | `bl` is one syllable because `l` is a key letter, yet its code is `[bl]`, and so is the whole conversion |
| Vocabulary.ConsecutiveCorrectTarget | src/stores/vocabularyStore.js:11-14 | definition of the run needed for mastery, 3; stated through `MasteryReached` by `ThirdFastAnswerMasters` and `NoMasteryBeforeTarget` |
| Vocabulary.TimeLimitMs | src/stores/vocabularyStore.js:11-14 | definition of the time limit, 2500 ms; stated through `MasteryReached` by `ThirdFastAnswerMasters`, `FourthFastAnswerMasters` and `SlowAnswersNeverMaster` |
| Vocabulary.DefaultEntry | src/stores/vocabularyStore.js:150-152 | definition of the default record, `小鹤双拼` with `xiaoheshuangpin` and every other property absent; used by `Store.InitializeDefaultVocabulary` |
| Vocabulary.NormalizeWord | src/stores/vocabularyStore.js:30-39 | each property falls back to its default when absent: a missing or zero id takes a fresh id, and only a present `true` masters the item; `NormalizeExportRoundTrip` gives its round trip |
| Vocabulary.Exported | src/composables/useVocabulary.js:60 | definition of the record the export writes for an item, every property present; stated by `NormalizeExportRoundTrip` and `ExportedAll` |
| Vocabulary.NormalizeExportRoundTrip | src/stores/vocabularyStore.js:30-39 | normalising an exported item (every property present) gives the item back, except that an id of 0 is replaced by the fresh id |
| Vocabulary.NormalizeAll | src/stores/vocabularyStore.js:60 | `data.map(normalizeWord)`: one normalised item per record, in order |
| Vocabulary.ApplyUpdate | src/stores/vocabularyStore.js:140 | `Object.assign`: present properties are overwritten, absent ones and the id are kept; its laws are `ApplyEmptyUpdate`, `ApplyUpdateTwice` and `ApplyUpdateIdempotent` |
| Vocabulary.ApplyEmptyUpdate | src/stores/vocabularyStore.js:140 | an update carrying no property leaves the item unchanged |
| Vocabulary.ApplyUpdateTwice | src/stores/vocabularyStore.js:140 | two updates in a row act as one update in which the later property overrides the earlier |
| Vocabulary.ApplyUpdateIdempotent | src/stores/vocabularyStore.js:140 | applying the same update twice is applying it once |
| Vocabulary.MasteryReached | src/stores/vocabularyStore.js:87-88 | definition of the mastery condition, a run of at least 3 and a time of at most 2500 ms; its consequences are `ThirdFastAnswerMasters`, `FourthFastAnswerMasters`, `NoMasteryBeforeTarget` and `SlowAnswersNeverMaster` |
| Vocabulary.CorrectAnswer | src/stores/vocabularyStore.js:83-90 | the run grows by one, one history entry is appended, and the item is mastered if it was or if the run reaches 3 with a time of at most 2500 ms |
| Vocabulary.WrongAnswer | src/stores/vocabularyStore.js:115 | the run restarts at 0 and nothing else changes |
| Vocabulary.CorrectAnswersCount | src/stores/vocabularyStore.js:83-89 | after `k` correct answers the run and the history have grown by `k`, and mastery is never lost |
| Vocabulary.NoMasteryBeforeTarget | src/stores/vocabularyStore.js:11-88 | from a fresh run, fewer than three correct answers never master an item |
| Vocabulary.NoMasteryAfterShortRun | src/stores/vocabularyStore.js:87-88 | a run that cannot reach the target leaves the item unmastered |
| Vocabulary.ThirdFastAnswerMasters | src/stores/vocabularyStore.js:83-90 | from a fresh run, three correct answers master the item if and only if the third took at most 2500 ms |
| Vocabulary.WrongAnswerRestartsRun | src/stores/vocabularyStore.js:83-115 | two right answers, a wrong one and a right one leave a run of 1 |
| Vocabulary.RunIsNotCapped | src/stores/vocabularyStore.js:83-88 | four slow correct answers leave a run of 4 and the item unmastered |
| Vocabulary.CorrectAnswersSnoc | src/stores/vocabularyStore.js:83-90 | one more correct answer after a series is the series extended by that answer |
| Vocabulary.FourthFastAnswerMasters | src/stores/vocabularyStore.js:83-90 | after a slow third answer a fresh item is not mastered, and a fourth correct answer masters it if and only if it is within 2500 ms |
| Vocabulary.SlowAnswersNeverMaster | src/stores/vocabularyStore.js:87-88 | answers all over the time limit never master an item |
| Vocabulary.Ids | src/stores/vocabularyStore.js:80 | the ids of the items, position by position |
| Vocabulary.IndexOf | src/stores/vocabularyStore.js:93-94 | `findIndex`: the first position holding the value, and none exactly when it is absent |
| Vocabulary.RemoveAt | src/stores/vocabularyStore.js:95 | `splice(i, 1)`: one element fewer, earlier elements kept, later ones shifted down, and exactly that element removed from the multiset |
| Vocabulary.MasteredCount | src/stores/vocabularyStore.js:17-19 | `masteredCount` is at most the vocabulary size |
| Vocabulary.UnmasteredIds | src/stores/vocabularyStore.js:42-43 | the filter keeps the unmastered items; with the mastered count it makes up the vocabulary |
| Vocabulary.UnmasteredIdsArePending | src/stores/vocabularyStore.js:42-43 | an id is kept by the filter if and only if an unmastered item has it |
| Vocabulary.UnmasteredIdsNoDuplicates | src/stores/vocabularyStore.js:42-43 | with unique ids, the filtered queue repeats no id |
| Vocabulary.PermutationNoDuplicates | src/stores/vocabularyStore.js:44 | a shuffle of a duplicate-free queue is duplicate-free |
| Vocabulary.RebuiltQueueFits | src/stores/vocabularyStore.js:41-46 | any permutation of the filtered ids holds each unmastered item exactly once and nothing else |
| Vocabulary.FindWord | src/stores/vocabularyStore.js:80-138 | `find`: the position of an item with the id, and none exactly when no item has it |
| Vocabulary.PendingAfterSet | src/stores/vocabularyStore.js:83-140 | changing an item in place keeps ids unique and changes only that item's pending status |
| Vocabulary.PendingAfterAppend | src/stores/vocabularyStore.js:51 | appending an item with a new id keeps ids unique and makes only that item newly pending |
| Vocabulary.PendingAfterRemove | src/stores/vocabularyStore.js:121-124 | removing an item keeps ids unique and makes exactly that item stop being pending |
| Vocabulary.QueueAfterRemove | src/stores/vocabularyStore.js:127-129 | removing one queue entry removes exactly that id and keeps the queue duplicate-free |
| Vocabulary.MasteredCountAfterSet | src/stores/vocabularyStore.js:17-89 | replacing one item changes the mastered count only by that item's own change |
| Vocabulary.Advance | src/stores/vocabularyStore.js:103-106 | one step forward, wrapping to 0 past the end |
| Vocabulary.ClampAfterRemoval | src/stores/vocabularyStore.js:97-99 | an in-range cursor, or any cursor on an empty queue, is kept; on a non-empty queue the result is in range, so only a cursor past the end is reset to 0 |
| Vocabulary.AdvanceInRange | src/stores/vocabularyStore.js:103-106 | advancing keeps the cursor in range |
| Vocabulary.ClampInRange | src/stores/vocabularyStore.js:95-133 | removing an entry and clamping keeps the cursor in range |
| Vocabulary.HasEntry | src/stores/vocabularyStore.js:65-67 | definition of the duplicate test on `(hanzi, pinyin)`; used by `MergeAddsOnlyNew`, `MergeCoversBatch` and `MergeOfKnownPairs` |
| Vocabulary.Merge | src/stores/vocabularyStore.js:64-73 | definition of the import loop; stated by `MergeAppends`, `MergeAddsOnlyNew`, `MergeCoversBatch`, `MergeOfKnownPairs` and `DuplicateInBatchAddedOnce` |
| Vocabulary.MergeAppends | src/stores/vocabularyStore.js:64-73 | importing only appends, at most one item per record |
| Vocabulary.MergeAddsOnlyNew | src/stores/vocabularyStore.js:64-73 | every appended item comes from the batch and repeats no `(hanzi, pinyin)` pair already present |
| Vocabulary.MergeCoversBatch | src/stores/vocabularyStore.js:64-73 | after importing, every record's pair and every old item's pair is in the vocabulary |
| Vocabulary.DuplicateInBatchAddedOnce | src/stores/vocabularyStore.js:64-73 | a pair that occurs twice in one batch is added once |
| Vocabulary.MergeOfKnownPairs | src/stores/vocabularyStore.js:64-73 | a batch whose every pair is already present adds nothing |
| Vocabulary.ExportedAll | src/composables/useVocabulary.js:60 | the export of a vocabulary has one record per item, in order, each with every property present |
| Vocabulary.ReimportAddsNothing | src/composables/useVocabulary.js:37-60 | importing a vocabulary's own export into it adds nothing |
| VocabularyStore.Store.constructor | src/stores/vocabularyStore.js:6-8 | an empty vocabulary, an empty queue and cursor 0 |
| VocabularyStore.Store.PreparePracticeQueue | src/stores/vocabularyStore.js:41-46 | the queue becomes a permutation of the unmastered items and the cursor goes to 0 |
| VocabularyStore.Store.CurrentPracticeWord | src/stores/vocabularyStore.js:21-27 | none on an empty queue; otherwise the entry at the cursor, after a cursor past the end is reset to 0 |
| VocabularyStore.Store.AddWord | src/stores/vocabularyStore.js:49-57 | the normalised item is appended, and also queued unless it arrives mastered |
| VocabularyStore.Store.ImportVocabulary | src/stores/vocabularyStore.js:59-77 | new pairs are appended in order, the count of appended items is returned, and the queue is rebuilt |
| VocabularyStore.Store.SubmitCorrectAnswer | src/stores/vocabularyStore.js:79-110 | an unknown id changes nothing. A mastering answer removes the queue entry and clamps the cursor; any other answer advances the cursor. The result says whether this answer mastered the item, and the mastered count never drops |
| VocabularyStore.Store.SubmitWrongAnswer | src/stores/vocabularyStore.js:112-117 | a known item's run restarts; the queue, the cursor and the mastered count stay |
| VocabularyStore.Store.DeleteWord | src/stores/vocabularyStore.js:119-135 | the item and its queue entry are removed, the cursor is clamped, and the id is gone from both |
| VocabularyStore.Store.UpdateWord | src/stores/vocabularyStore.js:137-146 | present properties are copied onto a known item; the queue is rebuilt exactly when the update carries `isMastered` |
| VocabularyStore.Store.InitializeDefaultVocabulary | src/stores/vocabularyStore.js:149-158 | an empty vocabulary receives the default item, which then makes up the whole queue; otherwise nothing changes |
| StoreScenarios.MasterInThreeAnswers | src/stores/vocabularyStore.js:49-110 | three fast correct answers: the first two do not master the word, the third does and empties the queue |
| StoreScenarios.SlowThirdAnswer | src/stores/vocabularyStore.js:21-110 | a slow third answer does not master the word; it stays current, with a run of 3 |
| StoreScenarios.WrongAnswerInBetween | src/stores/vocabularyStore.js:79-117 | a wrong answer leaves the cursor in place and restarts the run, so the next right answer does not master |
| StoreScenarios.ImportDuplicatePair | src/stores/vocabularyStore.js:59-77 | a batch repeating one pair adds a single item |
| StoreScenarios.DeleteOnlyWord | src/stores/vocabularyStore.js:21-135 | deleting the only word empties the vocabulary and leaves no current word |

## Left out

- User interface, timers, speech, DOM and Vue reactivity are not modelled. `src/composables/usePractice.js` and `src/main.js` are not part of this model. Of `src/composables/useVocabulary.js`, only the export format (`Exported`) and its re-import are modelled; file reading, JSON parsing and the import validation at useVocabulary.js:39 are not.
- The converter's `selectedScheme` ref (useShuangpinConverter.js:4) is UI state and is not modelled.
- Only the `mspy` layout is registered, as in the source. The other zero-initial rule types are modelled for any `Scheme` value.
- Property lookups that JavaScript resolves through the object prototype are not modelled; tables are finite maps. For the initial and final tables this changes nothing on the way through `toShuangpin`. Every initial is a listed consonant, every final is at most 6 characters, and every inherited property name of a plain object is longer.
- ShuangpinConverter.ToShuangpin: a scheme key that names an inherited property (`toString`, `constructor`, `__proto__`) finds a value at the `shuangpinSchemas[schemeKey]` lookup (useShuangpinConverter.js:84). That value has neither `initials` nor `zero_initial_rule`, so for a non-empty input the source throws a `TypeError` at line 62 or line 65. The model returns no result for such keys, as for any other unregistered key, and does not model the thrown error.
- Strings are sequences of `char`, with one `char` per JavaScript string unit. Characters outside the Basic Multilingual Plane are not modelled.
- The worked examples cover `nihao`, `xiaoheshuangpin`, `bl` and `lüe` end to end, and `zhang` and `ai` as single syllables.
- `Date.now()` and `Math.random()` are not modelled. Fresh ids and answer timestamps are parameters (`freshId`, `freshIds`, `now`). The id fallback `Date.now() + Math.random()` is a fraction in the source; ids here are integers.
- `timeTaken` is a number of milliseconds modelled as an integer. Fractional times are not modelled.
- The shuffle `sort(() => Math.random() - 0.5)` is modelled as an arbitrary permutation of the unmastered items. Which order a given random sequence yields is not modelled.
- The queue holds item ids where the source holds shared object references. Changes made through those references show up through the vocabulary here.
- VocabularyStore.Store.AddWord: requires that the normalised item's id be new, and VocabularyStore.Store.ImportVocabulary requires the merged vocabulary's ids to be unique. The source does not check this, and behaves as lookups by first match when ids collide.
- VocabularyStore.Store.UpdateWord: an update cannot change an item's id, and only the five item properties can be updated. Other properties that `Object.assign` would add are not modelled.
- Presence of a property in a record or an update (`'isMastered' in updates`, `word.history || []`) is modelled as `Option`. JavaScript's other falsy values (`''`, `NaN`, `null`) for these properties are not modelled apart from a zero id.
- `normalizeWord`'s `isMastered || false` is modelled for boolean values only.
