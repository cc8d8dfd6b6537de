/** The round logic of the game window: who draws, which word is secret,
    how many seconds are left, and what a chat message, a clock tick or a
    pen control does to them. */
module Game {
  import opened Text
  import opened Canvas

  /** The length of a round in seconds (three minutes). */
  const RoundSeconds := 180

  /** The words a round's secret word is picked from. */
  const InitialWords: seq<string> :=
    ["Кошка", "Собака", "Дом", "Солнце", "Дерево",
     "Машина", "Река", "Гора", "Книга", "Цветок"]

  const WordPrefix := "Слово: "
  const HiddenWord := "*****"

  /** The part of the window's state that decides the course of a round:
      the local player's role (the drawer when `isDrawer`, the guesser
      otherwise) and the seconds left on the clock. */
  datatype Round = Round(isDrawer: bool, secondsLeft: int)

  function Switched(r: Round): Round {
    r.(isDrawer := !r.isDrawer)
  }

  function Restarted(r: Round): Round {
    r.(secondsLeft := RoundSeconds)
  }

  /** Switching roles twice gives the original role back. */
  lemma SwitchedTwice(r: Round)
    ensures Switched(Switched(r)) == r
  {
  }

  /** Between two events the clock shows between one second and a full
      round. */
  predicate ClockInRange(r: Round) {
    1 <= r.secondsLeft <= RoundSeconds
  }

  /** One tick of the one-second clock. The clock goes down by one; when it
      reaches zero the roles swap and a new round starts with a full clock. */
  function AfterTick(r: Round): (t: Round)
    ensures t.isDrawer != r.isDrawer <==> r.secondsLeft <= 1
    ensures t.isDrawer == r.isDrawer ==> t.secondsLeft == r.secondsLeft - 1
    ensures t.isDrawer != r.isDrawer ==> t.secondsLeft == RoundSeconds
    ensures ClockInRange(r) ==> ClockInRange(t)
  {
    var secondsLeft := r.secondsLeft - 1;
    if secondsLeft <= 0 then Restarted(Switched(r)) else r.(secondsLeft := secondsLeft)
  }

  /** The round after `n` ticks with no other event in between. */
  function AfterTicks(r: Round, n: nat): Round
    decreases n
  {
    if n == 0 then r else AfterTicks(AfterTick(r), n - 1)
  }

  /** Before the clock runs out each tick only takes one second off it. */
  lemma {:induction false} TicksWithinRound(r: Round, k: nat)
    requires k < r.secondsLeft
    ensures AfterTicks(r, k) == r.(secondsLeft := r.secondsLeft - k)
    decreases k
  {
    if k > 0 {
      TicksWithinRound(AfterTick(r), k - 1);
    }
  }

  lemma {:induction false} AfterTicksAdd(r: Round, m: nat, n: nat)
    ensures AfterTicks(r, m + n) == AfterTicks(AfterTicks(r, m), n)
    decreases m
  {
    if m > 0 {
      AfterTicksAdd(AfterTick(r), m - 1, n);
    }
  }

  /** A round with no correct guess ends after exactly as many ticks as
      its clock shows, with the roles swapped and a full clock. */
  lemma RoundTimesOut(r: Round)
    requires r.secondsLeft >= 1
    ensures AfterTicks(r, r.secondsLeft) == Round(!r.isDrawer, RoundSeconds)
    ensures forall k :: 0 <= k < r.secondsLeft ==> AfterTicks(r, k).isDrawer == r.isDrawer
  {
    var s: nat := r.secondsLeft;
    forall k | 0 <= k < s
      ensures AfterTicks(r, k).isDrawer == r.isDrawer
    {
      TicksWithinRound(r, k);
    }
    TicksWithinRound(r, s - 1);
    AfterTicksAdd(r, s - 1, 1);
  }

  /** With nobody guessing the word, the players swap roles every full
      round: after `k` rounds the role is the original one exactly when `k`
      is even. */
  lemma {:induction false} RolesAlternate(isDrawer: bool, k: nat)
    ensures AfterTicks(Round(isDrawer, RoundSeconds), RoundSeconds * k)
      == Round(if k % 2 == 0 then isDrawer else !isDrawer, RoundSeconds)
    decreases k
  {
    if k > 0 {
      var start := Round(isDrawer, RoundSeconds);
      assert RoundSeconds * k == RoundSeconds + RoundSeconds * (k - 1);
      AfterTicksAdd(start, RoundSeconds, RoundSeconds * (k - 1));
      RoundTimesOut(start);
      RolesAlternate(!isDrawer, k - 1);
    }
  }

  /** A chat message wins the round when the local player is the guesser
      and the message, trimmed of white space, is not empty and equals the
      secret word ignoring case. */
  predicate IsWinningGuess(r: Round, text: string, word: string)
    ensures IsWinningGuess(r, text, word) ==> !r.isDrawer && !AllSpace(text)
    ensures IsWinningGuess(r, text, word) ==> |Trimmed(text)| == |word| && word != []
  {
    var message := Trimmed(text);
    message != [] && !r.isDrawer && EqualsIgnoringCase(message, word)
  }

  /** The round after a chat message: a winning guess makes the guesser
      the drawer of a new round; anything else changes nothing. */
  function AfterMessage(r: Round, text: string, word: string): (m: Round)
    ensures m.isDrawer != r.isDrawer <==> IsWinningGuess(r, text, word)
    ensures IsWinningGuess(r, text, word) ==> m == Round(true, RoundSeconds)
    ensures !IsWinningGuess(r, text, word) ==> m == r
  {
    if IsWinningGuess(r, text, word) then Restarted(Switched(r)) else r
  }

  /** The drawer's messages are chat, never guesses. */
  lemma DrawerNeverGuesses(r: Round, text: string, word: string)
    requires r.isDrawer
    ensures AfterMessage(r, text, word) == r
  {
  }

  /** A message of nothing but white space is ignored. */
  lemma BlankMessageIgnored(r: Round, text: string, word: string)
    requires AllSpace(text)
    ensures AfterMessage(r, text, word) == r
  {
  }

  /** White space typed around a guess does not change its outcome. */
  lemma PaddedGuess(r: Round, pre: string, text: string, post: string, word: string)
    requires AllSpace(pre) && AllSpace(post)
    ensures AfterMessage(r, pre + text + post, word) == AfterMessage(r, text, word)
  {
    TrimmedIgnoresPadding(pre, text, post);
  }

  /** Two messages that differ only in letter case have the same outcome. */
  lemma GuessIgnoresCase(r: Round, text1: string, text2: string, word: string)
    requires EqualsIgnoringCase(text1, text2)
    ensures AfterMessage(r, text1, word) == AfterMessage(r, text2, word)
  {
    TrimmedFoldCase(text1);
    TrimmedFoldCase(text2);
    var m1, m2 := Trimmed(text1), Trimmed(text2);
    assert FoldCase(m1) == FoldCase(m2);
    assert |m1| == |FoldCase(m1)|;
    assert |m2| == |FoldCase(m2)|;
  }

  /** The guesser wins by typing the secret word in small letters, as long
      as the word itself does not begin or end with white space. */
  lemma SmallLetterGuessWins(r: Round, word: string)
    requires !r.isDrawer && word != []
    requires !IsSpace(word[0]) && !IsSpace(word[|word| - 1])
    ensures IsWinningGuess(r, FoldCase(word), word)
    ensures AfterMessage(r, FoldCase(word), word) == Round(true, RoundSeconds)
  {
    TrimmedIs(word, 0, |word|);
    assert Trimmed(word) == word[0..|word|] == word;
    var guess := FoldCase(word);
    TrimmedFoldCase(word);
    assert Trimmed(guess) == guess;
    assert |guess| == |word|;
    FoldCaseIdempotent(word);
    assert EqualsIgnoringCase(guess, word);
  }

  /** The text of the word label: the drawer sees the secret word, the
      guesser a row of stars. */
  function WordLabel(isDrawer: bool, word: string): (shown: string)
    ensures |shown| >= |WordPrefix| && shown[..|WordPrefix|] == WordPrefix
    ensures isDrawer ==> shown[|WordPrefix|..] == word
    ensures !isDrawer ==> shown[|WordPrefix|..] == HiddenWord
  {
    if isDrawer then WordPrefix + word else WordPrefix + HiddenWord
  }

  /** The drawer's label tells the word apart from every other word; the
      guesser's label is the same whatever the word. */
  lemma LabelShowsWordOnlyToDrawer(word1: string, word2: string)
    ensures WordLabel(true, word1) == WordLabel(true, word2) <==> word1 == word2
    ensures WordLabel(false, word1) == WordLabel(false, word2)
  {
    if WordLabel(true, word1) == WordLabel(true, word2) {
      assert word1 == WordLabel(true, word1)[|WordPrefix|..];
      assert word2 == WordLabel(true, word2)[|WordPrefix|..];
    }
  }

  class DrawGame {
    var drawingArea: DrawingArea
    var timerActive: bool
    var currentWord: string
    var wordList: seq<string>
    var isDrawer: bool
    var secondsLeft: int
    var wordLabel: string

    function RoundState(): Round
      reads this
    {
      Round(isDrawer, secondsLeft)
    }

    /** The drawing surface is valid and the eraser is only ever on with a
        white pen. */
    ghost predicate PenConsistent()
      reads this, drawingArea
    {
      drawingArea.Valid() && (drawingArea.eraserMode ==> drawingArea.penColor == White)
    }

    /** Between two events: the clock runs and is in range, the secret word
        comes from the word list, and the label shows it to the drawer only. */
    ghost predicate Valid()
      reads this, drawingArea
    {
      PenConsistent() && timerActive && ClockInRange(RoundState()) &&
      (wordList != [] ==> currentWord in wordList) &&
      wordLabel == WordLabel(isDrawer, currentWord)
    }

    /** The first round starts at once: the local player draws, the clock is
        full, the surface is a new white 800 by 600 raster. */
    constructor ()
      ensures Valid() && fresh(drawingArea) && fresh(drawingArea.image)
      ensures isDrawer && secondsLeft == RoundSeconds
      ensures wordList == InitialWords && currentWord in InitialWords
      ensures drawingArea.Pixels() == Blank(InitialWidth, InitialHeight)
      ensures !drawingArea.drawing && !drawingArea.eraserMode
      ensures drawingArea.penColor == Black && drawingArea.penWidth == InitialPenWidth
    {
      wordList := InitialWords;
      isDrawer := true;
      secondsLeft := RoundSeconds;
      currentWord := "";
      timerActive := false;
      wordLabel := "";
      drawingArea := new DrawingArea();
      new;
      StartGame();
    }

    /** Picks the secret word at random from the word list; with an empty
        list the word stays as it was. */
    method GenerateRandomWord()
      modifies this`currentWord
      ensures wordList != [] ==> currentWord in wordList
      ensures wordList == [] ==> currentWord == old(currentWord)
    {
      if wordList != [] {
        var randomIndex :| 0 <= randomIndex < |wordList|;
        currentWord := wordList[randomIndex];
      }
    }

    method SwitchRoles()
      modifies this`isDrawer
      ensures RoundState() == Switched(old(RoundState()))
    {
      isDrawer := !isDrawer;
    }

    /** Starts a round with the current roles: a new word, a full running
        clock, a white surface of unchanged size, and a word label that
        shows the word to the drawer only. */
    method StartGame()
      requires PenConsistent()
      modifies this`currentWord, this`timerActive, this`secondsLeft, this`wordLabel
      modifies drawingArea.image
      ensures Valid()
      ensures RoundState() == Restarted(old(RoundState()))
      ensures wordList != [] ==> currentWord in wordList
      ensures wordList == [] ==> currentWord == old(currentWord)
      ensures drawingArea.Pixels() == Blank(old(drawingArea.image.Length0), old(drawingArea.image.Length1))
    {
      GenerateRandomWord();
      timerActive := true;
      secondsLeft := RoundSeconds;
      drawingArea.Clear();
      if isDrawer {
        wordLabel := WordPrefix + currentWord;
      } else {
        wordLabel := WordPrefix + HiddenWord;
      }
    }

    /** Handles a chat message. Only a winning guess (see IsWinningGuess)
        changes the game: the guesser becomes the drawer and a new round
        starts. */
    method SendMessage(text: string)
      requires Valid()
      modifies this`isDrawer, this`currentWord, this`timerActive, this`secondsLeft, this`wordLabel
      modifies drawingArea.image
      ensures Valid()
      ensures RoundState() == AfterMessage(old(RoundState()), text, old(currentWord))
      ensures !IsWinningGuess(old(RoundState()), text, old(currentWord)) ==>
        currentWord == old(currentWord) && drawingArea.Pixels() == old(drawingArea.Pixels())
      ensures IsWinningGuess(old(RoundState()), text, old(currentWord)) ==>
        (wordList != [] ==> currentWord in wordList) &&
        drawingArea.Pixels() == Blank(old(drawingArea.image.Length0), old(drawingArea.image.Length1))
    {
      var message := Trimmed(text);
      if message != [] {
        if !isDrawer {
          if EqualsIgnoringCase(message, currentWord) {
            timerActive := false;
            SwitchRoles();
            StartGame();
            return;
          }
        }
      }
    }

    /** One second of the round clock. When it runs out the roles swap and
        a new round starts. */
    method UpdateGame()
      requires Valid()
      modifies this`isDrawer, this`currentWord, this`timerActive, this`secondsLeft, this`wordLabel
      modifies drawingArea.image
      ensures Valid()
      ensures RoundState() == AfterTick(old(RoundState()))
      ensures old(secondsLeft) > 1 ==>
        currentWord == old(currentWord) && drawingArea.Pixels() == old(drawingArea.Pixels())
      ensures old(secondsLeft) <= 1 ==>
        (wordList != [] ==> currentWord in wordList) &&
        drawingArea.Pixels() == Blank(old(drawingArea.image.Length0), old(drawingArea.image.Length1))
    {
      secondsLeft := secondsLeft - 1;
      if secondsLeft <= 0 {
        timerActive := false;
        SwitchRoles();
        StartGame();
      }
    }

    /** Choosing an entry of the colour chooser sets the pen to that colour
        and turns the eraser off. */
    method ColorChanged(index: int)
      requires Valid()
      modifies drawingArea
      ensures Valid()
      ensures drawingArea.penColor == ColorForIndex(index) && !drawingArea.IsEraserMode()
      ensures drawingArea.drawing == old(drawingArea.drawing) && drawingArea.penWidth == old(drawingArea.penWidth)
      ensures drawingArea.image == old(drawingArea.image) && drawingArea.lastPoint == old(drawingArea.lastPoint)
    {
      drawingArea.SetPenColor(ColorForIndex(index));
      drawingArea.SetEraserMode(false);
    }

    method ClearClicked()
      modifies drawingArea.image
      ensures drawingArea.Pixels() == Blank(old(drawingArea.image.Length0), old(drawingArea.image.Length1))
    {
      drawingArea.Clear();
    }

    /** Toggling the eraser button: on, the pen paints white; off, the pen
        goes back to the colour the chooser shows. */
    method EraserClicked(checked: bool, chooserIndex: int)
      requires Valid()
      modifies drawingArea
      ensures Valid()
      ensures drawingArea.IsEraserMode() == checked
      ensures drawingArea.penColor == if checked then White else ColorForIndex(chooserIndex)
      ensures drawingArea.drawing == old(drawingArea.drawing) && drawingArea.penWidth == old(drawingArea.penWidth)
      ensures drawingArea.image == old(drawingArea.image) && drawingArea.lastPoint == old(drawingArea.lastPoint)
    {
      drawingArea.SetEraserMode(checked);
      if checked {
        drawingArea.SetPenColor(White);
      } else {
        ColorChanged(chooserIndex);
      }
    }
  }
}
