/**
 * The value side of src/stores/vocabularyStore.js: vocabulary items, the
 * mastery transition of one item, the import merge, the practice-queue
 * cursor arithmetic and the consistency of a queue with its vocabulary.
 *
 * Identifiers, timestamps and answer times are integers (milliseconds).
 */
module Vocabulary {
  import opened Wrappers

  type Id = int

  // ---------------------------------------------------------------------------
  // Items
  // ---------------------------------------------------------------------------

  /** `MASTERY_CONFIG.CONSECUTIVE_CORRECT_TARGET` */
  const ConsecutiveCorrectTarget: int := 3
  /** `MASTERY_CONFIG.TIME_LIMIT_MS` */
  const TimeLimitMs: int := 2500

  /** One correct answer: how long it took and when it was given. */
  datatype HistoryEntry = HistoryEntry(timeTaken: int, timestamp: int)

  /** A vocabulary item as the store keeps it. */
  datatype Word = Word(
    id: Id,
    hanzi: string,
    pinyin: string,
    isMastered: bool,
    consecutiveCorrect: int,
    history: seq<HistoryEntry>)

  /** A record handed to `addWord` or `importVocabulary`; `None` is an absent property. */
  datatype WordData = WordData(
    id: Option<Id>,
    hanzi: string,
    pinyin: string,
    isMastered: Option<bool>,
    consecutiveCorrect: Option<int>,
    history: Option<seq<HistoryEntry>>)

  /** The properties `updateWord` copies onto an item; `None` is an absent property. */
  datatype WordUpdate = WordUpdate(
    hanzi: Option<string>,
    pinyin: Option<string>,
    isMastered: Option<bool>,
    consecutiveCorrect: Option<int>,
    history: Option<seq<HistoryEntry>>)

  /**
   * `normalizeWord`: every property falls back with JavaScript's `||`. A missing
   * or zero id is replaced by `freshId` (the source draws it from the clock and
   * a random number), and only a present `true` makes the item mastered.
   */
  function NormalizeWord(data: WordData, freshId: Id): (w: Word)
    ensures data.id.Some? && data.id.value != 0 ==> w.id == data.id.value
    ensures data.id.None? || data.id.value == 0 ==> w.id == freshId
    ensures w.hanzi == data.hanzi && w.pinyin == data.pinyin
    ensures w.isMastered <==> data.isMastered == Some(true)
    ensures data.consecutiveCorrect.None? ==> w.consecutiveCorrect == 0
    ensures data.consecutiveCorrect.Some? ==> w.consecutiveCorrect == data.consecutiveCorrect.value
    ensures data.history.None? ==> w.history == []
    ensures data.history.Some? ==> w.history == data.history.value
  {
    Word(
      if data.id.Some? && data.id.value != 0 then data.id.value else freshId,
      data.hanzi,
      data.pinyin,
      data.isMastered == Some(true),
      if data.consecutiveCorrect.Some? then data.consecutiveCorrect.value else 0,
      if data.history.Some? then data.history.value else [])
  }

  /** The one record `initializeDefaultVocabulary` puts into an empty vocabulary. */
  const DefaultEntry := WordData(None, "小鹤双拼", "xiaoheshuangpin", None, None, None)

  /** `data.map(normalizeWord)`, the i-th record taking the i-th fresh id. */
  function NormalizeAll(data: seq<WordData>, freshIds: seq<Id>): (ws: seq<Word>)
    requires |freshIds| == |data|
    ensures |ws| == |data|
    ensures forall i :: 0 <= i < |data| ==> ws[i] == NormalizeWord(data[i], freshIds[i])
  {
    if data == [] then [] else [NormalizeWord(data[0], freshIds[0])] + NormalizeAll(data[1..], freshIds[1..])
  }

  /** `Object.assign(word, updates)` restricted to the properties an update may carry. */
  function ApplyUpdate(w: Word, u: WordUpdate): (r: Word)
    ensures r.id == w.id
    ensures r.hanzi == (if u.hanzi.Some? then u.hanzi.value else w.hanzi)
    ensures r.pinyin == (if u.pinyin.Some? then u.pinyin.value else w.pinyin)
    ensures r.isMastered == (if u.isMastered.Some? then u.isMastered.value else w.isMastered)
    ensures r.consecutiveCorrect ==
      (if u.consecutiveCorrect.Some? then u.consecutiveCorrect.value else w.consecutiveCorrect)
    ensures r.history == (if u.history.Some? then u.history.value else w.history)
  {
    w.(hanzi := if u.hanzi.Some? then u.hanzi.value else w.hanzi)
     .(pinyin := if u.pinyin.Some? then u.pinyin.value else w.pinyin)
     .(isMastered := if u.isMastered.Some? then u.isMastered.value else w.isMastered)
     .(consecutiveCorrect := if u.consecutiveCorrect.Some? then u.consecutiveCorrect.value else w.consecutiveCorrect)
     .(history := if u.history.Some? then u.history.value else w.history)
  }

  /** An item as `JSON.stringify` writes it when the vocabulary is exported: every property present. */
  function Exported(w: Word): WordData {
    WordData(Some(w.id), w.hanzi, w.pinyin, Some(w.isMastered), Some(w.consecutiveCorrect), Some(w.history))
  }

  /**
   * Exporting an item and normalising the record again gives the item back,
   * except that an id of 0 counts as missing and is replaced by the fresh id.
   */
  lemma NormalizeExportRoundTrip(w: Word, freshId: Id)
    ensures w.id != 0 ==> NormalizeWord(Exported(w), freshId) == w
    ensures w.id == 0 ==> NormalizeWord(Exported(w), freshId) == w.(id := freshId)
  {
  }

  /** The later of two optional properties: the second when present, else the first. */
  function Later<T>(first: Option<T>, second: Option<T>): Option<T> {
    if second.Some? then second else first
  }

  /** Two updates as one: each property from `second` when it carries it, else from `first`. */
  function Overlay(first: WordUpdate, second: WordUpdate): WordUpdate {
    WordUpdate(
      Later(first.hanzi, second.hanzi),
      Later(first.pinyin, second.pinyin),
      Later(first.isMastered, second.isMastered),
      Later(first.consecutiveCorrect, second.consecutiveCorrect),
      Later(first.history, second.history))
  }

  /** An update carrying no property leaves the item as it is. */
  lemma ApplyEmptyUpdate(w: Word)
    ensures ApplyUpdate(w, WordUpdate(None, None, None, None, None)) == w
  {
  }

  /** Two updates in a row act as their overlay: a later property overrides an earlier one. */
  lemma ApplyUpdateTwice(w: Word, first: WordUpdate, second: WordUpdate)
    ensures ApplyUpdate(ApplyUpdate(w, first), second) == ApplyUpdate(w, Overlay(first, second))
  {
  }

  /** Applying the same update twice is applying it once. */
  lemma ApplyUpdateIdempotent(w: Word, u: WordUpdate)
    ensures ApplyUpdate(ApplyUpdate(w, u), u) == ApplyUpdate(w, u)
  {
  }

  // ---------------------------------------------------------------------------
  // The mastery transition of one item
  // ---------------------------------------------------------------------------

  /** An answer masters its item when the run reaches the target and the answer was fast enough. */
  predicate MasteryReached(consecutiveCorrect: int, timeTaken: int) {
    consecutiveCorrect >= ConsecutiveCorrectTarget && timeTaken <= TimeLimitMs
  }

  /**
   * The item after a correct answer: one more in the run, one more history
   * entry, and mastered if it already was or this answer reaches mastery.
   * The source does not check whether the item is already mastered.
   */
  function CorrectAnswer(w: Word, timeTaken: int, now: int): (r: Word)
    ensures r.id == w.id && r.hanzi == w.hanzi && r.pinyin == w.pinyin
    ensures r.consecutiveCorrect == w.consecutiveCorrect + 1
    ensures r.history == w.history + [HistoryEntry(timeTaken, now)]
    ensures r.isMastered <==> w.isMastered || MasteryReached(w.consecutiveCorrect + 1, timeTaken)
  {
    var counted := w.(consecutiveCorrect := w.consecutiveCorrect + 1,
                      history := w.history + [HistoryEntry(timeTaken, now)]);
    if MasteryReached(counted.consecutiveCorrect, timeTaken) then counted.(isMastered := true) else counted
  }

  /** The item after a wrong answer: the run restarts, nothing else changes. */
  function WrongAnswer(w: Word): (r: Word)
    ensures r.consecutiveCorrect == 0
    ensures r.(consecutiveCorrect := w.consecutiveCorrect) == w
  {
    w.(consecutiveCorrect := 0)
  }

  /** The item after a series of correct answers with the given times, all at time `now`. */
  function CorrectAnswers(w: Word, times: seq<int>, now: int): Word
    decreases |times|
  {
    if times == [] then w else CorrectAnswers(CorrectAnswer(w, times[0], now), times[1..], now)
  }

  /** After `k` correct answers the run has grown by `k`, and the history by `k` entries. */
  lemma {:induction false} CorrectAnswersCount(w: Word, times: seq<int>, now: int)
    ensures CorrectAnswers(w, times, now).consecutiveCorrect == w.consecutiveCorrect + |times|
    ensures |CorrectAnswers(w, times, now).history| == |w.history| + |times|
    ensures w.isMastered ==> CorrectAnswers(w, times, now).isMastered
    decreases |times|
  {
    if times != [] {
      CorrectAnswersCount(CorrectAnswer(w, times[0], now), times[1..], now);
    }
  }

  /** From a fresh run, fewer than three correct answers never master an item, however fast. */
  lemma {:induction false} NoMasteryBeforeTarget(w: Word, times: seq<int>, now: int)
    requires !w.isMastered && w.consecutiveCorrect == 0 && |times| < ConsecutiveCorrectTarget
    ensures !CorrectAnswers(w, times, now).isMastered
    decreases |times|
  {
    if times != [] {
      var next := CorrectAnswer(w, times[0], now);
      assert !next.isMastered;
      NoMasteryAfterShortRun(next, times[1..], now);
    }
  }

  /** A run that cannot reach the target within the remaining answers leaves the item unmastered. */
  lemma {:induction false} NoMasteryAfterShortRun(w: Word, times: seq<int>, now: int)
    requires !w.isMastered && w.consecutiveCorrect + |times| < ConsecutiveCorrectTarget
    ensures !CorrectAnswers(w, times, now).isMastered
    decreases |times|
  {
    if times != [] {
      NoMasteryAfterShortRun(CorrectAnswer(w, times[0], now), times[1..], now);
    }
  }

  /** From a fresh run, three correct answers master the item when the third is within the limit. */
  lemma ThirdFastAnswerMasters(w: Word, t1: int, t2: int, t3: int, now: int)
    requires !w.isMastered && w.consecutiveCorrect == 0
    ensures CorrectAnswers(w, [t1, t2, t3], now).isMastered <==> t3 <= TimeLimitMs
  {
    var a := CorrectAnswer(w, t1, now);
    var b := CorrectAnswer(a, t2, now);
    var c := CorrectAnswer(b, t3, now);
    assert CorrectAnswers(w, [t1, t2, t3], now) == CorrectAnswers(a, [t2, t3], now) by {
      assert [t1, t2, t3][1..] == [t2, t3];
    }
    assert CorrectAnswers(a, [t2, t3], now) == CorrectAnswers(b, [t3], now) by {
      assert [t2, t3][1..] == [t3];
    }
    assert CorrectAnswers(b, [t3], now) == CorrectAnswers(c, [], now) by {
      assert [t3][1..] == [];
    }
  }

  /**
   * A wrong answer in between restarts the run: whatever the run before, two right,
   * one wrong, one right leaves a run of 1.
   */
  lemma WrongAnswerRestartsRun(w: Word, t1: int, t2: int, t3: int, now: int)
    ensures CorrectAnswer(WrongAnswer(CorrectAnswers(w, [t1, t2], now)), t3, now).consecutiveCorrect == 1
  {
  }

  /**
   * The run is not capped at the target: slow answers keep counting, so four
   * slow correct answers leave a run of 4 and the item unmastered.
   */
  lemma RunIsNotCapped(w: Word, now: int)
    requires !w.isMastered && w.consecutiveCorrect == 0
    ensures CorrectAnswers(w, [3000, 3000, 3000, 3000], now).consecutiveCorrect == 4
    ensures !CorrectAnswers(w, [3000, 3000, 3000, 3000], now).isMastered
  {
    var s := [3000, 3000, 3000, 3000];
    CorrectAnswersCount(w, s, now);
    SlowAnswersNeverMaster(w, s, now);
  }

  /** One more correct answer after a series is the series extended by that answer. */
  lemma {:induction false} CorrectAnswersSnoc(w: Word, times: seq<int>, t: int, now: int)
    ensures CorrectAnswers(w, times + [t], now) == CorrectAnswer(CorrectAnswers(w, times, now), t, now)
    decreases |times|
  {
    if times == [] {
      assert [] + [t] == [t] && [t][1..] == [];
    } else {
      assert (times + [t])[0] == times[0] && (times + [t])[1..] == times[1..] + [t];
      CorrectAnswersSnoc(CorrectAnswer(w, times[0], now), times[1..], t, now);
    }
  }

  /**
   * After a slow third answer a fresh item is not mastered, and a fourth correct
   * answer masters it exactly when that answer is within the time limit.
   */
  lemma FourthFastAnswerMasters(w: Word, t1: int, t2: int, t3: int, t4: int, now: int)
    requires !w.isMastered && w.consecutiveCorrect == 0 && t3 > TimeLimitMs
    ensures !CorrectAnswers(w, [t1, t2, t3], now).isMastered
    ensures CorrectAnswers(w, [t1, t2, t3, t4], now).isMastered <==> t4 <= TimeLimitMs
  {
    ThirdFastAnswerMasters(w, t1, t2, t3, now);
    CorrectAnswersCount(w, [t1, t2, t3], now);
    assert [t1, t2, t3] + [t4] == [t1, t2, t3, t4];
    CorrectAnswersSnoc(w, [t1, t2, t3], t4, now);
  }

  /** Answers all over the time limit never master an unmastered item. */
  lemma {:induction false} SlowAnswersNeverMaster(w: Word, times: seq<int>, now: int)
    requires !w.isMastered
    requires forall i :: 0 <= i < |times| ==> times[i] > TimeLimitMs
    ensures !CorrectAnswers(w, times, now).isMastered
    decreases |times|
  {
    if times != [] {
      SlowAnswersNeverMaster(CorrectAnswer(w, times[0], now), times[1..], now);
    }
  }

  // ---------------------------------------------------------------------------
  // Collections
  // ---------------------------------------------------------------------------

  /** The ids of the items, in order. */
  function Ids(ws: seq<Word>): (r: seq<Id>)
    ensures |r| == |ws|
    ensures forall i :: 0 <= i < |ws| ==> r[i] == ws[i].id
  {
    if ws == [] then [] else [ws[0].id] + Ids(ws[1..])
  }

  /** `find`/`findIndex`: the position of the first occurrence of `x`. */
  function IndexOf<T(==)>(s: seq<T>, x: T): (r: Option<nat>)
    ensures r.Some? ==> r.value < |s| && s[r.value] == x && x !in s[..r.value]
    ensures r.None? <==> x !in s
  {
    if s == [] then None
    else if s[0] == x then Some(0)
    else match IndexOf(s[1..], x)
      case None => None
      case Some(k) =>
        assert s[..k + 1] == [s[0]] + s[1..][..k];
        Some(k + 1)
  }

  /** `splice(i, 1)`: the sequence without its i-th element. */
  function RemoveAt<T>(s: seq<T>, i: nat): (r: seq<T>)
    requires i < |s|
    ensures |r| == |s| - 1
    ensures multiset(r) == multiset(s) - multiset{s[i]}
    ensures forall k :: 0 <= k < i ==> r[k] == s[k]
    ensures forall k :: i <= k < |r| ==> r[k] == s[k + 1]
  {
    assert s == s[..i] + [s[i]] + s[i + 1..];
    s[..i] + s[i + 1..]
  }

  /** `masteredCount`: how many items are mastered. */
  function MasteredCount(ws: seq<Word>): (n: nat)
    ensures n <= |ws|
  {
    if ws == [] then 0 else (if ws[0].isMastered then 1 else 0) + MasteredCount(ws[1..])
  }

  /** The ids of the unmastered items, in vocabulary order (the filter before the shuffle). */
  function UnmasteredIds(ws: seq<Word>): (r: seq<Id>)
    ensures |r| + MasteredCount(ws) == |ws|
  {
    if ws == [] then []
    else if ws[0].isMastered then UnmasteredIds(ws[1..])
    else [ws[0].id] + UnmasteredIds(ws[1..])
  }

  /** No two items share an id. */
  predicate UniqueIds(ws: seq<Word>) {
    forall i, j :: 0 <= i < j < |ws| ==> ws[i].id != ws[j].id
  }

  /** No id occurs twice. */
  predicate NoDuplicates(s: seq<Id>) {
    forall i, j :: 0 <= i < j < |s| ==> s[i] != s[j]
  }

  /** Some unmastered item has this id. */
  predicate Pending(ws: seq<Word>, id: Id) {
    exists i :: 0 <= i < |ws| && ws[i].id == id && !ws[i].isMastered
  }

  /** A queue fits its vocabulary when it holds each unmastered item exactly once and nothing else. */
  ghost predicate QueueFits(ws: seq<Word>, queue: seq<Id>) {
    && NoDuplicates(queue)
    && forall id :: id in queue <==> Pending(ws, id)
  }

  /** The cursor is 0 on an empty queue and a valid position otherwise. */
  predicate CursorInRange(queue: seq<Id>, cursor: nat) {
    if queue == [] then cursor == 0 else cursor < |queue|
  }

  /** An id is in `UnmasteredIds` exactly when it is pending. */
  lemma {:induction false} UnmasteredIdsArePending(ws: seq<Word>, id: Id)
    ensures id in UnmasteredIds(ws) <==> Pending(ws, id)
  {
    if ws != [] {
      UnmasteredIdsArePending(ws[1..], id);
      if Pending(ws[1..], id) {
        var i :| 0 <= i < |ws[1..]| && ws[1..][i].id == id && !ws[1..][i].isMastered;
        assert ws[i + 1] == ws[1..][i];
      }
      if Pending(ws, id) && ws[0].id != id {
        var i :| 0 <= i < |ws| && ws[i].id == id && !ws[i].isMastered;
        assert ws[1..][i - 1] == ws[i];
      }
    }
  }

  /** With unique ids, `UnmasteredIds` repeats no id. */
  lemma {:induction false} UnmasteredIdsNoDuplicates(ws: seq<Word>)
    requires UniqueIds(ws)
    ensures NoDuplicates(UnmasteredIds(ws))
  {
    if ws != [] {
      UnmasteredIdsNoDuplicates(ws[1..]);
      if !ws[0].isMastered {
        var rest := UnmasteredIds(ws[1..]);
        forall k | 0 <= k < |rest|
          ensures rest[k] != ws[0].id
        {
          UnmasteredIdsArePending(ws[1..], rest[k]);
          var i :| 0 <= i < |ws[1..]| && ws[1..][i].id == rest[k] && !ws[1..][i].isMastered;
          assert ws[i + 1].id == rest[k];
        }
      }
    }
  }

  /** An element at two distinct positions occurs at least twice. */
  lemma {:induction false} TwoOccurrences(s: seq<Id>, i: nat, j: nat)
    requires i < j < |s| && s[i] == s[j]
    ensures multiset(s)[s[i]] >= 2
  {
    assert s == [s[0]] + s[1..];
    if i > 0 {
      TwoOccurrences(s[1..], i - 1, j - 1);
    } else {
      assert s[1..][j - 1] == s[j];
    }
  }

  /** In a duplicate-free sequence every element occurs at most once. */
  lemma {:induction false} MultiplicityInDuplicateFree(t: seq<Id>, x: Id)
    requires NoDuplicates(t)
    ensures multiset(t)[x] <= 1
  {
    if t != [] {
      assert t == [t[0]] + t[1..];
      MultiplicityInDuplicateFree(t[1..], x);
      if t[0] == x {
        assert x !in t[1..];
      }
    }
  }

  /** A sequence with the same elements as a duplicate-free one is itself duplicate-free. */
  lemma PermutationNoDuplicates(s: seq<Id>, t: seq<Id>)
    requires multiset(s) == multiset(t) && NoDuplicates(t)
    ensures NoDuplicates(s)
  {
    forall i, j | 0 <= i < j < |s|
      ensures s[i] != s[j]
    {
      if s[i] == s[j] {
        TwoOccurrences(s, i, j);
        MultiplicityInDuplicateFree(t, s[i]);
        assert false;
      }
    }
  }

  /**
   * `preparePracticeQueue`: any ordering of exactly the unmastered items fits
   * the vocabulary.
   */
  lemma RebuiltQueueFits(ws: seq<Word>, queue: seq<Id>)
    requires UniqueIds(ws)
    requires multiset(queue) == multiset(UnmasteredIds(ws))
    ensures QueueFits(ws, queue)
  {
    UnmasteredIdsNoDuplicates(ws);
    PermutationNoDuplicates(queue, UnmasteredIds(ws));
    forall id
      ensures id in queue <==> Pending(ws, id)
    {
      assert id in queue <==> id in multiset(queue);
      assert id in UnmasteredIds(ws) <==> id in multiset(UnmasteredIds(ws));
      UnmasteredIdsArePending(ws, id);
    }
  }

  /** The position of the item with this id, if any. */
  function FindWord(ws: seq<Word>, id: Id): (r: Option<nat>)
    ensures r.Some? ==> r.value < |ws| && ws[r.value].id == id
    ensures r.None? <==> forall i :: 0 <= i < |ws| ==> ws[i].id != id
  {
    var r := IndexOf(Ids(ws), id);
    assert r.None? ==> forall i :: 0 <= i < |ws| ==> Ids(ws)[i] != id;
    r
  }

  /** Replacing an item by one with the same id keeps ids unique and changes only that item's pending status. */
  lemma PendingAfterSet(ws: seq<Word>, i: nat, w: Word, id: Id)
    requires UniqueIds(ws) && i < |ws| && w.id == ws[i].id
    ensures UniqueIds(ws[i := w])
    ensures Pending(ws[i := w], id) <==> if id == w.id then !w.isMastered else Pending(ws, id)
  {
    var vs := ws[i := w];
    if Pending(vs, id) {
      var k :| 0 <= k < |vs| && vs[k].id == id && !vs[k].isMastered;
      if id != w.id {
        assert ws[k] == vs[k];
      }
    }
    if id == w.id && !w.isMastered {
      assert vs[i] == w;
    }
    if id != w.id && Pending(ws, id) {
      var k :| 0 <= k < |ws| && ws[k].id == id && !ws[k].isMastered;
      assert vs[k] == ws[k];
    }
  }

  /** Appending an item with a new id keeps ids unique and makes only that item newly pending. */
  lemma PendingAfterAppend(ws: seq<Word>, w: Word, id: Id)
    requires UniqueIds(ws) && FindWord(ws, w.id).None?
    ensures UniqueIds(ws + [w])
    ensures Pending(ws + [w], id) <==> Pending(ws, id) || (id == w.id && !w.isMastered)
  {
    var vs := ws + [w];
    if Pending(vs, id) {
      var k :| 0 <= k < |vs| && vs[k].id == id && !vs[k].isMastered;
      if k < |ws| {
        assert ws[k] == vs[k];
      }
    }
    if Pending(ws, id) {
      var k :| 0 <= k < |ws| && ws[k].id == id && !ws[k].isMastered;
      assert vs[k] == ws[k];
    }
    if id == w.id && !w.isMastered {
      assert vs[|ws|] == w;
    }
  }

  /** Removing an item keeps ids unique and makes exactly that item stop being pending. */
  lemma PendingAfterRemove(ws: seq<Word>, i: nat, id: Id)
    requires UniqueIds(ws) && i < |ws|
    ensures UniqueIds(RemoveAt(ws, i))
    ensures Pending(RemoveAt(ws, i), id) <==> Pending(ws, id) && id != ws[i].id
  {
    var vs := RemoveAt(ws, i);
    if Pending(vs, id) {
      var k :| 0 <= k < |vs| && vs[k].id == id && !vs[k].isMastered;
      if k < i {
        assert vs[k] == ws[k];
      } else {
        assert vs[k] == ws[k + 1];
      }
    }
    if Pending(ws, id) && id != ws[i].id {
      var k :| 0 <= k < |ws| && ws[k].id == id && !ws[k].isMastered;
      if k < i {
        assert vs[k] == ws[k];
      } else {
        assert vs[k - 1] == ws[k];
      }
    }
  }

  /** Removing one entry of a duplicate-free queue removes exactly that id. */
  lemma QueueAfterRemove(queue: seq<Id>, k: nat, id: Id)
    requires NoDuplicates(queue) && k < |queue|
    ensures NoDuplicates(RemoveAt(queue, k))
    ensures id in RemoveAt(queue, k) <==> id in queue && id != queue[k]
  {
    var r := RemoveAt(queue, k);
    if id in r {
      var j :| 0 <= j < |r| && r[j] == id;
      if j < k {
        assert r[j] == queue[j];
      } else {
        assert r[j] == queue[j + 1];
      }
    }
    if id in queue && id != queue[k] {
      var j :| 0 <= j < |queue| && queue[j] == id;
      if j < k {
        assert r[j] == queue[j];
      } else {
        assert r[j - 1] == queue[j];
      }
    }
  }

  /** Replacing an item changes the mastered count only by that item's own change. */
  lemma {:induction false} MasteredCountAfterSet(ws: seq<Word>, i: nat, w: Word)
    requires i < |ws|
    ensures MasteredCount(ws[i := w]) ==
      MasteredCount(ws) - (if ws[i].isMastered then 1 else 0) + (if w.isMastered then 1 else 0)
  {
    if i == 0 {
      assert ws[i := w][1..] == ws[1..];
    } else {
      MasteredCountAfterSet(ws[1..], i - 1, w);
      assert ws[i := w][1..] == ws[1..][i - 1 := w];
    }
  }

  // ---------------------------------------------------------------------------
  // Cursor arithmetic
  // ---------------------------------------------------------------------------

  /** Moving to the next word: one step forward, back to 0 past the end. */
  function Advance(cursor: nat, length: nat): (r: nat)
    ensures length == 0 ==> r == 0
    ensures cursor < length ==> r == (cursor + 1) % length
  {
    if cursor + 1 >= length then 0 else cursor + 1
  }

  /** After removing one queue entry: back to 0 only when past the end of a non-empty queue. */
  function ClampAfterRemoval(cursor: nat, length: nat): (r: nat)
    ensures r == cursor || r == 0
    ensures cursor < length || length == 0 ==> r == cursor
    ensures length > 0 ==> r < length
  {
    if cursor >= length && length > 0 then 0 else cursor
  }

  /** Advancing keeps the cursor in range. */
  lemma AdvanceInRange(queue: seq<Id>, cursor: nat)
    ensures CursorInRange(queue, Advance(cursor, |queue|))
  {
  }

  /** Removing one entry and clamping keeps an in-range cursor in range. */
  lemma ClampInRange(queue: seq<Id>, cursor: nat, i: nat)
    requires i < |queue| && CursorInRange(queue, cursor)
    ensures CursorInRange(RemoveAt(queue, i), ClampAfterRemoval(cursor, |queue| - 1))
  {
  }

  // ---------------------------------------------------------------------------
  // Import merge
  // ---------------------------------------------------------------------------

  /** Some item has this `(hanzi, pinyin)` pair. */
  predicate HasEntry(ws: seq<Word>, hanzi: string, pinyin: string) {
    exists i :: 0 <= i < |ws| && ws[i].hanzi == hanzi && ws[i].pinyin == pinyin
  }

  /**
   * The vocabulary after importing `incoming` in order: each item is appended
   * unless an item already there, earlier imported ones included, has its pair.
   */
  function Merge(ws: seq<Word>, incoming: seq<Word>): seq<Word>
    decreases |incoming|
  {
    if incoming == [] then ws
    else
      var w := incoming[0];
      Merge(if HasEntry(ws, w.hanzi, w.pinyin) then ws else ws + [w], incoming[1..])
  }

  /** Importing only appends, at most one item per incoming record. */
  lemma {:induction false} MergeAppends(ws: seq<Word>, incoming: seq<Word>)
    ensures ws <= Merge(ws, incoming)
    ensures |Merge(ws, incoming)| <= |ws| + |incoming|
    decreases |incoming|
  {
    if incoming != [] {
      var w := incoming[0];
      var next := if HasEntry(ws, w.hanzi, w.pinyin) then ws else ws + [w];
      MergeAppends(next, incoming[1..]);
    }
  }

  /** Everything appended comes from the batch, and no appended item repeats a pair seen before it. */
  lemma {:induction false} MergeAddsOnlyNew(ws: seq<Word>, incoming: seq<Word>)
    ensures forall j :: |ws| <= j < |Merge(ws, incoming)| ==>
      Merge(ws, incoming)[j] in incoming
      && !HasEntry(Merge(ws, incoming)[..j], Merge(ws, incoming)[j].hanzi, Merge(ws, incoming)[j].pinyin)
    decreases |incoming|
  {
    if incoming != [] {
      var w := incoming[0];
      var next := if HasEntry(ws, w.hanzi, w.pinyin) then ws else ws + [w];
      MergeAddsOnlyNew(next, incoming[1..]);
      MergeAppends(next, incoming[1..]);
      var r := Merge(ws, incoming);
      forall j | |ws| <= j < |r|
        ensures r[j] in incoming && !HasEntry(r[..j], r[j].hanzi, r[j].pinyin)
      {
        if j < |next| {
          assert r[j] == w && r[..j] == ws;
        } else {
          assert r[j] in incoming[1..];
        }
      }
    }
  }

  /** After importing, every record of the batch has its pair in the vocabulary. */
  lemma {:induction false} MergeCoversBatch(ws: seq<Word>, incoming: seq<Word>)
    ensures forall k :: 0 <= k < |incoming| ==>
      HasEntry(Merge(ws, incoming), incoming[k].hanzi, incoming[k].pinyin)
    ensures forall k :: 0 <= k < |ws| ==> HasEntry(Merge(ws, incoming), ws[k].hanzi, ws[k].pinyin)
    decreases |incoming|
  {
    if incoming != [] {
      var w := incoming[0];
      var next := if HasEntry(ws, w.hanzi, w.pinyin) then ws else ws + [w];
      MergeCoversBatch(next, incoming[1..]);
      var r := Merge(ws, incoming);
      assert HasEntry(next, w.hanzi, w.pinyin) by {
        if !HasEntry(ws, w.hanzi, w.pinyin) {
          assert next[|ws|] == w;
        }
      }
      var i :| 0 <= i < |next| && next[i].hanzi == w.hanzi && next[i].pinyin == w.pinyin;
      forall k | 0 <= k < |incoming|
        ensures HasEntry(r, incoming[k].hanzi, incoming[k].pinyin)
      {
        if k > 0 {
          assert incoming[1..][k - 1] == incoming[k];
        }
      }
      forall k | 0 <= k < |ws|
        ensures HasEntry(r, ws[k].hanzi, ws[k].pinyin)
      {
        assert next[k] == ws[k];
      }
    }
  }

  /** Importing the same pair twice into an empty vocabulary adds it once. */
  lemma DuplicateInBatchAddedOnce(a: Word, b: Word)
    requires a.hanzi == b.hanzi && a.pinyin == b.pinyin
    ensures Merge([], [a, b]) == [a]
  {
    assert !HasEntry([], a.hanzi, a.pinyin);
    assert Merge([], [a, b]) == Merge([a], [b]) by { assert [a, b][1..] == [b] && [] + [a] == [a]; }
    assert HasEntry([a], b.hanzi, b.pinyin) by { assert [a][0] == a; }
    assert Merge([a], [b]) == Merge([a], []) by { assert [b][1..] == []; }
  }

  /** A batch whose every pair is already present adds nothing. */
  lemma {:induction false} MergeOfKnownPairs(ws: seq<Word>, incoming: seq<Word>)
    requires forall k :: 0 <= k < |incoming| ==> HasEntry(ws, incoming[k].hanzi, incoming[k].pinyin)
    ensures Merge(ws, incoming) == ws
    decreases |incoming|
  {
    if incoming != [] {
      assert HasEntry(ws, incoming[0].hanzi, incoming[0].pinyin);
      var rest := incoming[1..];
      forall k | 0 <= k < |rest|
        ensures HasEntry(ws, rest[k].hanzi, rest[k].pinyin)
      {
        assert rest[k] == incoming[k + 1];
      }
      MergeOfKnownPairs(ws, rest);
    }
  }

  /** The export of a whole vocabulary: one record per item, in order. */
  function ExportedAll(ws: seq<Word>): (r: seq<WordData>)
    ensures |r| == |ws|
    ensures forall i :: 0 <= i < |ws| ==> r[i] == Exported(ws[i])
  {
    if ws == [] then [] else [Exported(ws[0])] + ExportedAll(ws[1..])
  }

  /** Importing a vocabulary's own export into it adds nothing. */
  lemma ReimportAddsNothing(ws: seq<Word>, freshIds: seq<Id>)
    requires |freshIds| == |ws|
    ensures Merge(ws, NormalizeAll(ExportedAll(ws), freshIds)) == ws
  {
    var incoming := NormalizeAll(ExportedAll(ws), freshIds);
    forall k | 0 <= k < |incoming|
      ensures HasEntry(ws, incoming[k].hanzi, incoming[k].pinyin)
    {
      assert incoming[k].hanzi == ws[k].hanzi && incoming[k].pinyin == ws[k].pinyin;
    }
    MergeOfKnownPairs(ws, incoming);
  }
}
