/**
 * The vocabulary store of src/stores/vocabularyStore.js: the vocabulary, the
 * practice queue and the cursor into it, changed in place by the store's
 * actions. The queue holds the ids of the items it shares with the vocabulary.
 */
module VocabularyStore {
  import opened Wrappers
  import opened Vocabulary

  class Store {
    var vocabulary: seq<Word>
    var practiceQueue: seq<Id>
    var currentWordIndex: nat

    /**
     * Ids are unique, the queue holds each unmastered item exactly once and
     * nothing else, and the cursor is a position of the queue (0 when empty).
     */
    ghost predicate Valid()
      reads this
    {
      && UniqueIds(vocabulary)
      && QueueFits(vocabulary, practiceQueue)
      && CursorInRange(practiceQueue, currentWordIndex)
    }

    /** An empty store. */
    constructor()
      ensures Valid()
      ensures vocabulary == [] && practiceQueue == [] && currentWordIndex == 0
    {
      vocabulary := [];
      practiceQueue := [];
      currentWordIndex := 0;
    }

    /**
     * `preparePracticeQueue`: the queue becomes the unmastered items in some
     * order (the source shuffles them at random), and the cursor goes to 0.
     */
    method PreparePracticeQueue()
      requires UniqueIds(vocabulary)
      modifies this
      ensures Valid()
      ensures vocabulary == old(vocabulary)
      ensures multiset(practiceQueue) == multiset(UnmasteredIds(vocabulary))
      ensures currentWordIndex == 0
    {
      var pending := UnmasteredIds(vocabulary);
      var shuffled :| multiset(shuffled) == multiset(pending);
      practiceQueue := shuffled;
      currentWordIndex := 0;
      RebuiltQueueFits(vocabulary, practiceQueue);
    }

    /**
     * `currentPracticeWord`: nothing on an empty queue; otherwise the entry at
     * the cursor, after sending a cursor past the end back to 0.
     */
    method CurrentPracticeWord() returns (current: Option<Id>)
      modifies this`currentWordIndex
      ensures current.None? <==> practiceQueue == []
      ensures practiceQueue == [] ==> currentWordIndex == old(currentWordIndex)
      ensures practiceQueue != [] ==>
        && currentWordIndex == (if old(currentWordIndex) >= |practiceQueue| then 0 else old(currentWordIndex))
        && current == Some(practiceQueue[currentWordIndex])
      ensures old(Valid()) ==> Valid() && currentWordIndex == old(currentWordIndex)
      ensures old(Valid()) && current.Some? ==> Pending(vocabulary, current.value)
    {
      if practiceQueue == [] {
        return None;
      }
      if currentWordIndex >= |practiceQueue| {
        currentWordIndex := 0;
      }
      current := Some(practiceQueue[currentWordIndex]);
    }

    /**
     * `addWord`: the normalised item goes at the end of the vocabulary and,
     * unless it arrives mastered, at the end of the queue. The item's id must
     * be new.
     */
    method AddWord(data: WordData, freshId: Id)
      requires Valid()
      requires FindWord(vocabulary, NormalizeWord(data, freshId).id).None?
      modifies this
      ensures Valid()
      ensures vocabulary == old(vocabulary) + [NormalizeWord(data, freshId)]
      ensures practiceQueue == old(practiceQueue) +
        (if NormalizeWord(data, freshId).isMastered then [] else [NormalizeWord(data, freshId).id])
      ensures currentWordIndex == old(currentWordIndex)
    {
      var newWord := NormalizeWord(data, freshId);
      ghost var ws := vocabulary;
      ghost var queue := practiceQueue;
      vocabulary := vocabulary + [newWord];
      if !newWord.isMastered {
        practiceQueue := practiceQueue + [newWord.id];
      }
      PendingAfterAppend(ws, newWord, newWord.id);
      assert newWord.id !in queue;
      forall id
        ensures id in practiceQueue <==> Pending(vocabulary, id)
      {
        PendingAfterAppend(ws, newWord, id);
      }
    }

    /**
     * `importVocabulary`: each normalised record is appended unless an item
     * with the same `(hanzi, pinyin)` is already there, then the queue is
     * rebuilt. Returns how many were appended. The resulting ids must be unique.
     */
    method ImportVocabulary(data: seq<WordData>, freshIds: seq<Id>) returns (addedCount: nat)
      requires |freshIds| == |data|
      requires UniqueIds(Merge(vocabulary, NormalizeAll(data, freshIds)))
      modifies this
      ensures Valid()
      ensures vocabulary == Merge(old(vocabulary), NormalizeAll(data, freshIds))
      ensures addedCount == |vocabulary| - |old(vocabulary)| <= |data|
      ensures multiset(practiceQueue) == multiset(UnmasteredIds(vocabulary))
      ensures currentWordIndex == 0
    {
      var newWords := NormalizeAll(data, freshIds);
      ghost var start := vocabulary;
      addedCount := 0;
      var i := 0;
      while i < |newWords|
        invariant 0 <= i <= |newWords|
        invariant Merge(vocabulary, newWords[i..]) == Merge(start, newWords)
        invariant |start| <= |vocabulary|
        invariant addedCount == |vocabulary| - |start|
      {
        var newWord := newWords[i];
        assert newWords[i..][0] == newWord && newWords[i..][1..] == newWords[i + 1..];
        if !HasEntry(vocabulary, newWord.hanzi, newWord.pinyin) {
          vocabulary := vocabulary + [newWord];
          addedCount := addedCount + 1;
        }
        i := i + 1;
      }
      assert newWords[i..] == [];
      MergeAppends(start, newWords);
      PreparePracticeQueue();
    }

    /**
     * `submitCorrectAnswer`: for a known id the item takes the correct answer;
     * if that answer masters it, its queue entry (if any) is removed and the
     * cursor clamped, otherwise the cursor advances with wrap-around. An
     * unknown id changes nothing. The result says whether this answer mastered
     * the item.
     */
    method SubmitCorrectAnswer(wordId: Id, timeTaken: int, now: int) returns (isMastered: bool)
      requires Valid()
      modifies this
      ensures Valid()
      ensures FindWord(old(vocabulary), wordId).None? ==>
        && !isMastered
        && vocabulary == old(vocabulary)
        && practiceQueue == old(practiceQueue)
        && currentWordIndex == old(currentWordIndex)
      ensures FindWord(old(vocabulary), wordId).Some? ==>
        var i := FindWord(old(vocabulary), wordId).value;
        && vocabulary == old(vocabulary)[i := CorrectAnswer(old(vocabulary)[i], timeTaken, now)]
        && (isMastered <==> MasteryReached(old(vocabulary)[i].consecutiveCorrect + 1, timeTaken))
      ensures isMastered ==>
        match IndexOf(old(practiceQueue), wordId)
        case None => practiceQueue == old(practiceQueue) && currentWordIndex == old(currentWordIndex)
        case Some(k) =>
          && practiceQueue == RemoveAt(old(practiceQueue), k)
          && currentWordIndex == ClampAfterRemoval(old(currentWordIndex), |practiceQueue|)
      ensures FindWord(old(vocabulary), wordId).Some? && !isMastered ==>
        && practiceQueue == old(practiceQueue)
        && currentWordIndex == Advance(old(currentWordIndex), |practiceQueue|)
      ensures isMastered ==> wordId !in practiceQueue
      ensures MasteredCount(vocabulary) >= MasteredCount(old(vocabulary))
    {
      var found := FindWord(vocabulary, wordId);
      if found.None? {
        return false;
      }
      var i := found.value;
      ghost var ws := vocabulary;
      ghost var queue := practiceQueue;
      var word := CorrectAnswer(vocabulary[i], timeTaken, now);
      vocabulary := vocabulary[i := word];
      MasteredCountAfterSet(ws, i, word);
      PendingAfterSet(ws, i, ws[i], wordId);
      assert ws[i := ws[i]] == ws;

      isMastered := MasteryReached(word.consecutiveCorrect, timeTaken);
      if isMastered {
        var queueIndex := IndexOf(practiceQueue, wordId);
        if queueIndex.Some? {
          var k := queueIndex.value;
          practiceQueue := RemoveAt(practiceQueue, k);
          ClampInRange(queue, currentWordIndex, k);
          currentWordIndex := ClampAfterRemoval(currentWordIndex, |practiceQueue|);
          forall id
            ensures id in practiceQueue <==> Pending(vocabulary, id)
          {
            QueueAfterRemove(queue, k, id);
            PendingAfterSet(ws, i, word, id);
          }
          QueueAfterRemove(queue, k, wordId);
        } else {
          forall id
            ensures id in practiceQueue <==> Pending(vocabulary, id)
          {
            PendingAfterSet(ws, i, word, id);
          }
        }
      } else {
        AdvanceInRange(practiceQueue, currentWordIndex);
        currentWordIndex := Advance(currentWordIndex, |practiceQueue|);
        forall id
          ensures id in practiceQueue <==> Pending(vocabulary, id)
        {
          PendingAfterSet(ws, i, word, id);
        }
      }
    }

    /** `submitWrongAnswer`: a known item's run restarts; the queue and the cursor stay. */
    method SubmitWrongAnswer(wordId: Id)
      requires Valid()
      modifies this
      ensures Valid()
      ensures FindWord(old(vocabulary), wordId).None? ==> vocabulary == old(vocabulary)
      ensures FindWord(old(vocabulary), wordId).Some? ==>
        var i := FindWord(old(vocabulary), wordId).value;
        vocabulary == old(vocabulary)[i := WrongAnswer(old(vocabulary)[i])]
      ensures practiceQueue == old(practiceQueue) && currentWordIndex == old(currentWordIndex)
      ensures MasteredCount(vocabulary) == MasteredCount(old(vocabulary))
    {
      var found := FindWord(vocabulary, wordId);
      if found.Some? {
        var i := found.value;
        ghost var ws := vocabulary;
        var word := WrongAnswer(vocabulary[i]);
        vocabulary := vocabulary[i := word];
        MasteredCountAfterSet(ws, i, word);
        PendingAfterSet(ws, i, ws[i], wordId);
        assert ws[i := ws[i]] == ws;
        forall id
          ensures id in practiceQueue <==> Pending(vocabulary, id)
        {
          PendingAfterSet(ws, i, word, id);
        }
      }
    }

    /**
     * `deleteWord`: the item leaves the vocabulary and its entry leaves the
     * queue, with the cursor clamped as after a mastering answer.
     */
    method DeleteWord(wordId: Id)
      requires Valid()
      modifies this
      ensures Valid()
      ensures FindWord(old(vocabulary), wordId).None? ==> vocabulary == old(vocabulary)
      ensures FindWord(old(vocabulary), wordId).Some? ==>
        vocabulary == RemoveAt(old(vocabulary), FindWord(old(vocabulary), wordId).value)
      ensures match IndexOf(old(practiceQueue), wordId)
        case None => practiceQueue == old(practiceQueue) && currentWordIndex == old(currentWordIndex)
        case Some(k) =>
          && practiceQueue == RemoveAt(old(practiceQueue), k)
          && currentWordIndex == ClampAfterRemoval(old(currentWordIndex), |practiceQueue|)
      ensures FindWord(vocabulary, wordId).None? && wordId !in practiceQueue
    {
      ghost var ws := vocabulary;
      ghost var queue := practiceQueue;
      var vocabIndex := FindWord(vocabulary, wordId);
      if vocabIndex.Some? {
        vocabulary := RemoveAt(vocabulary, vocabIndex.value);
        PendingAfterRemove(ws, vocabIndex.value, wordId);
        forall k | 0 <= k < |vocabulary|
          ensures vocabulary[k].id != wordId
        {
          if k < vocabIndex.value {
            assert vocabulary[k] == ws[k];
          } else {
            assert vocabulary[k] == ws[k + 1];
          }
        }
      }
      var queueIndex := IndexOf(practiceQueue, wordId);
      if queueIndex.Some? {
        var k := queueIndex.value;
        practiceQueue := RemoveAt(practiceQueue, k);
        ClampInRange(queue, currentWordIndex, k);
        currentWordIndex := ClampAfterRemoval(currentWordIndex, |practiceQueue|);
        QueueAfterRemove(queue, k, wordId);
      }
      forall id
        ensures id in practiceQueue <==> Pending(vocabulary, id)
      {
        if vocabIndex.Some? {
          PendingAfterRemove(ws, vocabIndex.value, id);
        }
        if queueIndex.Some? {
          QueueAfterRemove(queue, queueIndex.value, id);
        }
      }
    }

    /**
     * `updateWord`: the update's properties are copied onto a known item; if
     * the update carries `isMastered`, the queue is rebuilt.
     */
    method UpdateWord(wordId: Id, updates: WordUpdate)
      requires Valid()
      modifies this
      ensures Valid()
      ensures FindWord(old(vocabulary), wordId).None? ==>
        && vocabulary == old(vocabulary)
        && practiceQueue == old(practiceQueue)
        && currentWordIndex == old(currentWordIndex)
      ensures FindWord(old(vocabulary), wordId).Some? ==>
        var i := FindWord(old(vocabulary), wordId).value;
        vocabulary == old(vocabulary)[i := ApplyUpdate(old(vocabulary)[i], updates)]
      ensures FindWord(old(vocabulary), wordId).Some? && updates.isMastered.Some? ==>
        && multiset(practiceQueue) == multiset(UnmasteredIds(vocabulary))
        && currentWordIndex == 0
      ensures FindWord(old(vocabulary), wordId).Some? && updates.isMastered.None? ==>
        && practiceQueue == old(practiceQueue)
        && currentWordIndex == old(currentWordIndex)
    {
      var found := FindWord(vocabulary, wordId);
      if found.Some? {
        var i := found.value;
        ghost var ws := vocabulary;
        var word := ApplyUpdate(vocabulary[i], updates);
        vocabulary := vocabulary[i := word];
        PendingAfterSet(ws, i, ws[i], wordId);
        assert ws[i := ws[i]] == ws;
        if updates.isMastered.Some? {
          PreparePracticeQueue();
        } else {
          forall id
            ensures id in practiceQueue <==> Pending(vocabulary, id)
          {
            PendingAfterSet(ws, i, word, id);
          }
        }
      }
    }

    /**
     * `initializeDefaultVocabulary`: an empty vocabulary receives the default
     * item, which then makes up the whole queue; otherwise nothing changes.
     */
    method InitializeDefaultVocabulary(freshId: Id)
      requires Valid()
      modifies this
      ensures Valid()
      ensures old(vocabulary) != [] ==>
        && vocabulary == old(vocabulary)
        && practiceQueue == old(practiceQueue)
        && currentWordIndex == old(currentWordIndex)
      ensures old(vocabulary) == [] ==>
        && vocabulary == [NormalizeWord(DefaultEntry, freshId)]
        && practiceQueue == [freshId]
        && currentWordIndex == 0
    {
      if vocabulary == [] {
        vocabulary := NormalizeAll([DefaultEntry], [freshId]);
        PreparePracticeQueue();
        assert UnmasteredIds(vocabulary) == [freshId];
        assert freshId in multiset(practiceQueue);
      }
    }
  }
}
