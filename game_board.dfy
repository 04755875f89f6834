/**
 * The game board: players join, take turns picking unanswered questions, win or
 * lose the question's points, and at the end their scores are merged into the
 * leaderboard. The catalog and the leaderboard belong to the page and are written
 * back through `setCategories` / `setScores`; here they are fields of the board.
 */
module GameBoard {
  import opened Options
  import opened Catalog
  import Text
  import Leaderboard

  datatype Player = Player(name: string, score: int)

  /** What a click on "correct" or "wrong" does. */
  datatype Resolution =
    | Ignored    // no open question, or nobody is playing: the handler's guard fails
    | Scored     // the score changed, the question is answered and the turn has passed on
    | TypeError  // the turn index is past the end of the player list: `updatedPlayers[currentPlayer]` is undefined

  /** `categories.find(c => c.id === categoryId)`, as the index of the first match (|cats| when there is none). */
  function CategoryIndex(cats: seq<Category>, cid: string): (i: nat)
    ensures i <= |cats|
    ensures i < |cats| ==> cats[i].id == cid
    ensures forall j :: 0 <= j < i ==> cats[j].id != cid
  {
    if cats == [] then 0
    else if cats[0].id == cid then 0
    else 1 + CategoryIndex(cats[1..], cid)
  }

  /** `questions.find(q => q.id === questionId)`, as the index of the first match (|qs| when there is none). */
  function QuestionIndex(qs: seq<Question>, qid: string): (j: nat)
    ensures j <= |qs|
    ensures j < |qs| ==> qs[j].id == qid
    ensures forall k :: 0 <= k < j ==> qs[k].id != qid
  {
    if qs == [] then 0
    else if qs[0].id == qid then 0
    else 1 + QuestionIndex(qs[1..], qid)
  }

  /** The question `selectQuestion` looks at: the first one with the id, inside the first category with the id. */
  function Lookup(cats: seq<Category>, cid: string, qid: string): (r: Option<Question>)
    ensures r.Some? ==> r.value.id == qid
  {
    var i := CategoryIndex(cats, cid);
    if i == |cats| then None
    else
      var qs := cats[i].questions;
      var j := QuestionIndex(qs, qid);
      if j == |qs| then None else Some(qs[j])
  }

  /**
   * Only the first category with the id is searched: the question is found exactly
   * when that category holds a question with the id, and never in a later namesake.
   */
  lemma LookupSpec(cats: seq<Category>, cid: string, qid: string)
    ensures (forall c :: c in cats ==> c.id != cid) ==> Lookup(cats, cid, qid).None?
    ensures forall i :: 0 <= i < |cats| && cats[i].id == cid && (forall k :: 0 <= k < i ==> cats[k].id != cid) ==>
              (Lookup(cats, cid, qid).Some? <==> exists q :: q in cats[i].questions && q.id == qid)
  {
    var i := CategoryIndex(cats, cid);
    if i < |cats| {
      var qs := cats[i].questions;
      var j := QuestionIndex(qs, qid);
      if j == |qs| {
        assert forall q :: q in qs ==> q.id != qid;
      } else {
        assert qs[j] in qs;
      }
    } else {
      assert forall c :: c in cats ==> c.id != cid;
    }
  }

  /** The question found is the catalog's own: the first with the id, in the first category with the id. */
  lemma LookupValue(cats: seq<Category>, cid: string, qid: string, i: nat, j: nat)
    requires i < |cats| && cats[i].id == cid && forall k :: 0 <= k < i ==> cats[k].id != cid
    requires j < |cats[i].questions| && cats[i].questions[j].id == qid
    requires forall k :: 0 <= k < j ==> cats[i].questions[k].id != qid
    ensures Lookup(cats, cid, qid) == Some(cats[i].questions[j])
  {
    assert CategoryIndex(cats, cid) == i;
    assert QuestionIndex(cats[i].questions, qid) == j;
  }

  function AnswerIfMatching(q: Question, qid: string): Question
  {
    if q.id == qid then q.(isAnswered := true) else q
  }

  /**
   * The catalog rewrite of `markAsAnswered`: every question with the id, in every
   * category, becomes answered; nothing else in the catalog changes.
   */
  function MarkAnswered(cats: seq<Category>, qid: string): (r: seq<Category>)
    ensures |r| == |cats|
    ensures forall i :: 0 <= i < |cats| ==>
              r[i].id == cats[i].id && r[i].name == cats[i].name && |r[i].questions| == |cats[i].questions|
    ensures forall i, j :: 0 <= i < |cats| && 0 <= j < |cats[i].questions| ==>
              var q, q' := cats[i].questions[j], r[i].questions[j];
              q'.id == q.id && q'.points == q.points && q'.question == q.question && q'.answer == q.answer
              && (q'.isAnswered <==> q.isAnswered || q.id == qid)
  {
    seq(|cats|, i requires 0 <= i < |cats| =>
      cats[i].(questions := seq(|cats[i].questions|, j requires 0 <= j < |cats[i].questions| =>
        AnswerIfMatching(cats[i].questions[j], qid))))
  }

  /** Marking the same question answered twice is marking it once. */
  lemma MarkAnsweredIdempotent(cats: seq<Category>, qid: string)
    ensures MarkAnswered(MarkAnswered(cats, qid), qid) == MarkAnswered(cats, qid)
  {
    var once := MarkAnswered(cats, qid);
    var twice := MarkAnswered(once, qid);
    forall i | 0 <= i < |cats| ensures twice[i] == once[i] {
      assert twice[i].questions == once[i].questions;
    }
  }

  /** Once resolved, a question can never be opened again: `selectQuestion` finds it answered (or not at all). */
  lemma ResolvedQuestionCannotReopen(cats: seq<Category>, cid: string, qid: string)
    ensures var r := Lookup(MarkAnswered(cats, qid), cid, qid); r.None? || r.value.isAnswered
  {
  }

  /** `updatedPlayers[currentPlayer].score += delta` on a copy of the list. */
  function AdjustScore(players: seq<Player>, i: nat, delta: int): (r: seq<Player>)
    requires i < |players|
    ensures |r| == |players|
    ensures r[i].name == players[i].name && r[i].score == players[i].score + delta
    ensures forall j :: 0 <= j < |players| && j != i ==> r[j] == players[j]
  {
    players[i := players[i].(score := players[i].score + delta)]
  }

  function TotalScore(players: seq<Player>): int
  {
    if players == [] then 0 else players[0].score + TotalScore(players[1..])
  }

  /** Resolving a question changes the points on the table by exactly that question's value. */
  lemma {:induction false} AdjustScoreTotal(players: seq<Player>, i: nat, delta: int)
    requires i < |players|
    ensures TotalScore(AdjustScore(players, i, delta)) == TotalScore(players) + delta
  {
    var r := AdjustScore(players, i, delta);
    if i > 0 {
      assert r[1..] == AdjustScore(players[1..], i - 1, delta);
      AdjustScoreTotal(players[1..], i - 1, delta);
    } else {
      assert r[1..] == players[1..];
    }
  }

  /** `(currentPlayer + 1) % players.length`: the next seat, wrapping from the last to the first. */
  function NextTurn(cur: nat, count: nat): (next: nat)
    requires count > 0
    ensures next < count
    ensures cur < count ==> next == if cur == count - 1 then 0 else cur + 1
  {
    (cur + 1) % count
  }

  /** The seat whose turn it is after `k` resolved questions. */
  function AdvanceTurns(cur: nat, count: nat, k: nat): nat
    requires count > 0
    decreases k
  {
    if k == 0 then cur else AdvanceTurns(NextTurn(cur, count), count, k - 1)
  }

  /** Before the last seat, each resolved question moves the turn one seat along. */
  lemma {:induction false} AdvanceWithinRound(cur: nat, count: nat, k: nat)
    requires cur + k < count
    ensures AdvanceTurns(cur, count, k) == cur + k
    decreases k
  {
    if k > 0 {
      AdvanceWithinRound(cur + 1, count, k - 1);
    }
  }

  lemma {:induction false} AdvanceCompose(cur: nat, count: nat, a: nat, b: nat)
    requires count > 0
    ensures AdvanceTurns(cur, count, a + b) == AdvanceTurns(AdvanceTurns(cur, count, a), count, b)
    decreases a
  {
    if a > 0 {
      AdvanceCompose(NextTurn(cur, count), count, a - 1, b);
    }
  }

  /** Going past the last seat wraps to the first: `count - cur + p` questions after seat `cur`, seat `p` is to move. */
  lemma WrapAround(cur: nat, count: nat, p: nat)
    requires cur < count && p < count
    ensures AdvanceTurns(cur, count, count - cur + p) == p
  {
    var toLast := count - 1 - cur;
    AdvanceWithinRound(cur, count, toLast);
    AdvanceCompose(cur, count, toLast, 1 + p);
    AdvanceCompose(count - 1, count, 1, p);
    AdvanceWithinRound(0, count, p);
  }

  /** Turns go round-robin: after one question per player the turn is back where it started. */
  lemma FullRoundReturns(cur: nat, count: nat)
    requires cur < count
    ensures AdvanceTurns(cur, count, count) == cur
  {
    WrapAround(cur, count, cur);
  }

  /** Every player's turn comes within one round. */
  lemma EveryPlayerGetsATurn(cur: nat, count: nat, p: nat)
    requires cur < count && p < count
    ensures var k := if cur <= p then p - cur else count - cur + p;
            k < count && AdvanceTurns(cur, count, k) == p
  {
    if cur <= p {
      AdvanceWithinRound(cur, count, p - cur);
    } else {
      WrapAround(cur, count, p);
    }
  }

  /** `players.map(p => ({ name: p.name, score: p.score }))` */
  function FinalScores(players: seq<Player>): (r: seq<Leaderboard.Entry>)
    ensures |r| == |players|
    ensures forall i :: 0 <= i < |players| ==> r[i].name == players[i].name && r[i].score == players[i].score
  {
    seq(|players|, i requires 0 <= i < |players| => Leaderboard.Entry(players[i].name, players[i].score))
  }

  function RowTotal(rows: seq<Leaderboard.Entry>): int
  {
    if rows == [] then 0 else rows[0].score + RowTotal(rows[1..])
  }

  /** The final rows carry exactly the points that were on the table. */
  lemma {:induction false} FinalScoresTotal(players: seq<Player>)
    ensures RowTotal(FinalScores(players)) == TotalScore(players)
  {
    if players != [] {
      assert FinalScores(players)[1..] == FinalScores(players[1..]);
      FinalScoresTotal(players[1..]);
    }
  }

  /** `players.filter((_, i) => i !== idx)` */
  function RemoveAt<T>(s: seq<T>, idx: int): (r: seq<T>)
    ensures |r| == if 0 <= idx < |s| then |s| - 1 else |s|
  {
    if s == [] then [] else (if idx == 0 then [] else [s[0]]) + RemoveAt(s[1..], idx - 1)
  }

  /** Removing seat `idx` drops exactly that player and keeps the others in order; an index off the list removes nobody. */
  lemma {:induction false} RemoveAtSpec<T>(s: seq<T>, idx: int)
    ensures 0 <= idx < |s| ==> RemoveAt(s, idx) == s[..idx] + s[idx + 1..]
    ensures !(0 <= idx < |s|) ==> RemoveAt(s, idx) == s
  {
    if s != [] {
      RemoveAtSpec(s[1..], idx - 1);
      if idx == 0 {
        assert s[..0] + s[1..] == s[1..];
      } else if 0 < idx < |s| {
        assert s[..idx] + s[idx + 1..] == [s[0]] + (s[1..][..idx - 1] + s[1..][idx..]);
      } else {
        assert s == [s[0]] + s[1..];
      }
    }
  }

  class Board {
    var categories: seq<Category>
    var scores: seq<Leaderboard.Entry>
    var selectedQuestion: Option<Question>
    var showAnswer: bool
    var players: seq<Player>
    var showPlayerDialog: bool
    var currentPlayer: nat

    /** The turn index names a seat at the table. */
    predicate TurnInRange()
      reads this
    {
      currentPlayer < |players|
    }

    /** A fresh board: no players yet, the player dialog open, the first seat to move. */
    constructor (categories: seq<Category>, scores: seq<Leaderboard.Entry>)
      ensures this.categories == categories && this.scores == scores
      ensures selectedQuestion == None && !showAnswer
      ensures players == [] && showPlayerDialog && currentPlayer == 0
    {
      this.categories := categories;
      this.scores := scores;
      selectedQuestion := None;
      showAnswer := false;
      players := [];
      showPlayerDialog := true;
      currentPlayer := 0;
    }

    /** A name that is not blank joins at the end with score 0, trimmed; duplicates are allowed. */
    method AddPlayer(name: string)
      modifies this`players
      ensures !Text.AllWhiteSpace(name) ==> players == old(players) + [Player(Text.Trim(name), 0)]
      ensures Text.AllWhiteSpace(name) ==> players == old(players)
      ensures old(TurnInRange()) ==> TurnInRange()
    {
      Text.TrimEmptyIff(name);
      var trimmed := Text.Trim(name);
      if trimmed != [] {
        players := players + [Player(trimmed, 0)];
      }
    }

    /** The remove button of seat `idx`; the turn index is left as it is. */
    method RemovePlayer(idx: int)
      modifies this`players
      ensures players == RemoveAt(old(players), idx)
      ensures 0 <= idx < |old(players)| ==> players == old(players)[..idx] + old(players)[idx + 1..]
    {
      RemoveAtSpec(players, idx);
      players := RemoveAt(players, idx);
    }

    /** The dialog closes only once somebody has joined. */
    method StartGame()
      modifies this`showPlayerDialog
      ensures showPlayerDialog == (old(showPlayerDialog) && players == [])
    {
      if |players| > 0 {
        showPlayerDialog := false;
      }
    }

    /** Dismissing the player dialog (`onOpenChange`) closes it whether or not anybody has joined. */
    method DismissPlayerDialog()
      modifies this`showPlayerDialog
      ensures !showPlayerDialog
    {
      showPlayerDialog := false;
    }

    /** Opens the question, answer hidden, if it exists and is still unanswered; otherwise nothing happens. */
    method SelectQuestion(cid: string, qid: string)
      modifies this`selectedQuestion, this`showAnswer
      ensures var q := Lookup(categories, cid, qid);
              if q.Some? && !q.value.isAnswered then
                selectedQuestion == q && !showAnswer
              else
                selectedQuestion == old(selectedQuestion) && showAnswer == old(showAnswer)
    {
      var q := Lookup(categories, cid, qid);
      if q.Some? && !q.value.isAnswered {
        selectedQuestion := q;
        showAnswer := false;
      }
    }

    /** "Show answer"; doing it twice is doing it once. */
    method RevealAnswer()
      modifies this`showAnswer
      ensures showAnswer
    {
      showAnswer := true;
    }

    /** Closing the question dialog drops the question unresolved; the reveal flag stays as it was. */
    method CloseQuestion()
      modifies this`selectedQuestion
      ensures selectedQuestion == None
    {
      selectedQuestion := None;
    }

    /**
     * The tail of both verdict handlers: answer the open question everywhere in
     * the catalog, close it, and pass the turn on. Its callers only call it with
     * at least one player seated.
     */
    method MarkAsAnswered()
      requires players != []
      modifies this`categories, this`selectedQuestion, this`showAnswer, this`currentPlayer
      ensures old(selectedQuestion).None? ==> unchanged(this)
      ensures old(selectedQuestion).Some? ==>
                && categories == MarkAnswered(old(categories), old(selectedQuestion).value.id)
                && selectedQuestion == None && !showAnswer
                && currentPlayer == NextTurn(old(currentPlayer), |players|)
                && TurnInRange()
    {
      if selectedQuestion.Some? {
        categories := MarkAnswered(categories, selectedQuestion.value.id);
        selectedQuestion := None;
        showAnswer := false;
        currentPlayer := NextTurn(currentPlayer, |players|);
      }
    }

    /** "Correct": the player to move wins the open question's points, then the question is resolved. */
    method MarkCorrect() returns (r: Resolution)
      modifies this`players, this`categories, this`selectedQuestion, this`showAnswer, this`currentPlayer
      ensures r == Ignored <==> old(selectedQuestion).None? || old(players) == []
      ensures r == TypeError <==> old(selectedQuestion).Some? && old(players) != [] && !old(TurnInRange())
      ensures r != Scored ==> unchanged(this)
      ensures r == Scored ==>
                && players == AdjustScore(old(players), old(currentPlayer), old(selectedQuestion).value.points)
                && categories == MarkAnswered(old(categories), old(selectedQuestion).value.id)
                && selectedQuestion == None && !showAnswer
                && currentPlayer == NextTurn(old(currentPlayer), |players|)
                && TurnInRange()
    {
      if selectedQuestion.None? || |players| == 0 {
        return Ignored;
      }
      if currentPlayer >= |players| {
        return TypeError;
      }
      players := AdjustScore(players, currentPlayer, selectedQuestion.value.points);
      MarkAsAnswered();
      r := Scored;
    }

    /** "Wrong": the player to move loses the open question's points (scores may go negative), then the question is resolved. */
    method MarkWrong() returns (r: Resolution)
      modifies this`players, this`categories, this`selectedQuestion, this`showAnswer, this`currentPlayer
      ensures r == Ignored <==> old(selectedQuestion).None? || old(players) == []
      ensures r == TypeError <==> old(selectedQuestion).Some? && old(players) != [] && !old(TurnInRange())
      ensures r != Scored ==> unchanged(this)
      ensures r == Scored ==>
                && players == AdjustScore(old(players), old(currentPlayer), -old(selectedQuestion).value.points)
                && categories == MarkAnswered(old(categories), old(selectedQuestion).value.id)
                && selectedQuestion == None && !showAnswer
                && currentPlayer == NextTurn(old(currentPlayer), |players|)
                && TurnInRange()
    {
      if selectedQuestion.None? || |players| == 0 {
        return Ignored;
      }
      if currentPlayer >= |players| {
        return TypeError;
      }
      players := AdjustScore(players, currentPlayer, -selectedQuestion.value.points);
      MarkAsAnswered();
      r := Scored;
    }

    /**
     * The players' final scores join the leaderboard, which keeps its ten best rows;
     * the table empties and the player dialog reopens. The turn index is not reset.
     */
    method EndGame()
      modifies this`scores, this`players, this`showPlayerDialog
      ensures scores == Leaderboard.TopScores(old(scores) + FinalScores(old(players)))
      ensures |scores| <= Leaderboard.Capacity && Leaderboard.Sorted(scores)
      ensures players == [] && showPlayerDialog
    {
      scores := Leaderboard.TopScores(scores + FinalScores(players));
      players := [];
      showPlayerDialog := true;
    }
  }

  /** A fresh board over a one-category catalog, with two players seated. */
  method TwoPlayerBoard(q1: Question, q2: Question) returns (board: Board)
    ensures fresh(board)
    ensures board.categories == [Category("c", "Cats", [q1, q2])]
    ensures board.players == [Player("A", 0), Player("B", 0)]
    ensures board.currentPlayer == 0 && board.selectedQuestion == None && !board.showPlayerDialog
  {
    board := new Board([Category("c", "Cats", [q1, q2])], []);
    Text.TrimKeepsTrimmed("A");
    Text.TrimKeepsTrimmed("B");
    board.AddPlayer("A");
    board.AddPlayer("B");
    board.StartGame();
  }

  /** The first player answers the first of two questions correctly. */
  method FirstQuestionScored() returns (board: Board)
    ensures fresh(board)
    ensures board.players == [Player("A", 100), Player("B", 0)]
    ensures board.currentPlayer == 1
    ensures Lookup(board.categories, "c", "22") == Some(Question("22", 200, "", "", false))
  {
    var q1 := Question("1", 100, "", "", false);
    var q2 := Question("22", 200, "", "", false);
    board := TwoPlayerBoard(q1, q2);
    board.SelectQuestion("c", "1");
    assert board.selectedQuestion == Some(q1);
    board.RevealAnswer();
    var first := board.MarkCorrect();
    assert board.categories[0].questions[1] == q2;
  }

  /** The game ends and one new player joins; the turn index and the catalog carry over. */
  method NextGameWithOnePlayer(board: Board)
    modifies board
    ensures board.players == [Player("C", 0)] && !board.showPlayerDialog
    ensures board.currentPlayer == old(board.currentPlayer) && board.categories == old(board.categories)
  {
    board.EndGame();
    Text.TrimKeepsTrimmed("C");
    board.AddPlayer("C");
    board.StartGame();
  }

  /**
   * Two players finish one question, the game ends, and a single player starts
   * the next game: the turn index still names the second seat, and the first
   * verdict of the new game throws.
   */
  method StaleTurnAfterEndGame() returns (r: Resolution)
    ensures r == TypeError
  {
    var board := FirstQuestionScored();
    NextGameWithOnePlayer(board);
    board.SelectQuestion("c", "22");
    board.RevealAnswer();
    r := board.MarkCorrect();
  }
}
