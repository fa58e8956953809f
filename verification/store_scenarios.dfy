/**
 * Short sessions against a fresh store, each stating what its caller sees.
 */
module StoreScenarios {
  import opened Wrappers
  import opened Vocabulary
  import opened VocabularyStore

  /** A record with only its text and its id given. */
  function Entry(id: Id, hanzi: string, pinyin: string): WordData {
    WordData(Some(id), hanzi, pinyin, None, None, None)
  }

  /**
   * A new word answered correctly three times within the time limit: the
   * first two answers do not master it, the third does and empties the queue.
   */
  method MasterInThreeAnswers(now: int) returns (first: bool, second: bool, third: bool, queue: seq<Id>)
    ensures !first && !second && third
    ensures queue == []
  {
    var store := new Store();
    store.AddWord(Entry(1, "你好", "nihao"), 99);
    first := store.SubmitCorrectAnswer(1, 1000, now);
    second := store.SubmitCorrectAnswer(1, 1000, now);
    third := store.SubmitCorrectAnswer(1, 1000, now);
    queue := store.practiceQueue;
  }

  /**
   * A third correct answer over the time limit does not master the word: it
   * stays the current practice word and its run goes on to 3.
   */
  method SlowThirdAnswer(now: int) returns (third: bool, current: Option<Id>, run: int)
    ensures !third
    ensures current == Some(1)
    ensures run == 3
  {
    var store := new Store();
    store.AddWord(Entry(1, "你好", "nihao"), 99);
    var _ := store.SubmitCorrectAnswer(1, 1000, now);
    var _ := store.SubmitCorrectAnswer(1, 1000, now);
    third := store.SubmitCorrectAnswer(1, 2501, now);
    current := store.CurrentPracticeWord();
    run := store.vocabulary[0].consecutiveCorrect;
  }

  /**
   * Two right answers, a wrong one, then a right one: the run restarts at the
   * wrong answer, the wrong answer leaves the cursor where it was, and the
   * word is not mastered.
   */
  method WrongAnswerInBetween(now: int) returns (cursorBefore: nat, cursorAfter: nat, run: int, mastered: bool)
    ensures cursorAfter == cursorBefore
    ensures run == 1
    ensures !mastered
  {
    var store := new Store();
    store.AddWord(Entry(1, "你好", "nihao"), 99);
    store.AddWord(Entry(2, "中国", "zhongguo"), 99);
    var _ := store.SubmitCorrectAnswer(1, 1000, now);
    var _ := store.SubmitCorrectAnswer(1, 1000, now);
    cursorBefore := store.currentWordIndex;
    store.SubmitWrongAnswer(1);
    cursorAfter := store.currentWordIndex;
    mastered := store.SubmitCorrectAnswer(1, 1000, now);
    run := store.vocabulary[0].consecutiveCorrect;
  }

  /** Importing the same pair twice into an empty store adds it once. */
  method ImportDuplicatePair() returns (addedCount: nat, size: nat)
    ensures addedCount == 1 && size == 1
  {
    var store := new Store();
    var data := [Entry(1, "你好", "nihao"), Entry(2, "你好", "nihao")];
    var words := NormalizeAll(data, [7, 8]);
    DuplicateInBatchAddedOnce(words[0], words[1]);
    assert words == [words[0], words[1]];
    addedCount := store.ImportVocabulary(data, [7, 8]);
    size := |store.vocabulary|;
  }

  /** Deleting the only queued word empties the queue and leaves no current word. */
  method DeleteOnlyWord() returns (current: Option<Id>, count: nat)
    ensures current == None
    ensures count == 0
  {
    var store := new Store();
    store.AddWord(Entry(1, "你好", "nihao"), 99);
    store.DeleteWord(1);
    current := store.CurrentPracticeWord();
    count := |store.vocabulary|;
  }
}
