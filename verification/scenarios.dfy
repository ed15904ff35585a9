/** Concrete sessions over the shipped catalog. */
module Scenarios {
  import opened Optional
  import opened Catalog
  import opened Session
  import opened Replay

  /** Answering challenge 1 correctly, 2 incorrectly and 3 correctly leaves a
      streak of 1, a score of 2 and three answered challenges. */
  lemma MixedAnswers()
    ensures var r := Run(Challenges(), Start(Initial()), [Click(1, 1), Click(2, 0), Click(3, 1)]);
      && r.streak == 1
      && CorrectCount(Challenges(), r.answers) == 2
      && AnsweredCount(r) == 3
  {
    var cat := Challenges();
    var s0 := Start(Initial());
    FindInChallenges(1);
    FindInChallenges(2);
    FindInChallenges(3);
    var s1 := Submit(cat, s0, 1, 1);
    var s2 := Submit(cat, s1, 2, 0);
    var s3 := Submit(cat, s2, 3, 1);
    SubmitCounts(cat, s0, 1, 1);
    SubmitCounts(cat, s1, 2, 0);
    SubmitCounts(cat, s2, 3, 1);
    PlaysThrough(s0);
  }

  /** The three clicks above, one at a time. */
  lemma PlaysThrough(s0: State)
    ensures var cat := Challenges();
      Run(cat, s0, [Click(1, 1), Click(2, 0), Click(3, 1)])
        == Submit(cat, Submit(cat, Submit(cat, s0, 1, 1), 2, 0), 3, 1)
  {
    var cat := Challenges();
    var clicks := [Click(1, 1), Click(2, 0), Click(3, 1)];
    assert clicks[..2] == [Click(1, 1), Click(2, 0)];
    assert clicks[..2][..1] == [Click(1, 1)];
    assert clicks[..2][..1][..0] == [];
    assert Run(cat, s0, clicks[..2][..1]) == Submit(cat, s0, 1, 1);
  }

  /** A second click on challenge 5 is ignored: the first option stays recorded
      and the score does not move. */
  lemma SecondClickIgnored()
    ensures var s := Submit(Challenges(), Start(Initial()), 5, 1);
      && Query(Submit(Challenges(), s, 5, 2), 5) == Some(1)
      && CorrectCount(Challenges(), Submit(Challenges(), s, 5, 2).answers) == 1
  {
    var cat := Challenges();
    var s0 := Start(Initial());
    FindInChallenges(5);
    FirstAnswerWins(cat, s0, 5, 1, 2);
    SubmitCounts(cat, s0, 5, 1);
  }

  /** "Try again" after that partial play: nothing answered, no streak, first card. */
  lemma TryAgainAfterPartialPlay()
    ensures var r := Reset(Run(Challenges(), Start(Initial()), [Click(1, 1), Click(2, 0), Click(3, 1)]));
      && r.answers == map[] && r.streak == 0 && r.activeIndex == 0 && r.started
      && CorrectCount(Challenges(), r.answers) == 0
  {
    var s0 := Start(Initial());
    PlaysThrough(s0);
    assert CorrectIds(Challenges(), map[]) == {};
  }

  /** Before "start", clicking challenge 1's correct option records nothing. */
  lemma ClickOnWelcomeScreen()
    ensures Submit(Challenges(), Initial(), 1, 1) == Initial()
  {
  }
}
