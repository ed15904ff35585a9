/** Sequences of option clicks played against a session, and what they do to the
    streak and the score. The streak is consecutive in SUBMISSION order: only
    clicks the session accepts take part, ignored clicks leave it alone. */
module Replay {
  import opened Catalog
  import opened Session

  /** A click on option `option` of the card for challenge `id`. */
  datatype Click = Click(id: int, option: int)

  /** The session after the clicks, in order. */
  function Run(cat: seq<Challenge>, s: State, clicks: seq<Click>): State
    decreases |clicks|
  {
    if |clicks| == 0 then s
    else
      var last := clicks[|clicks| - 1];
      Submit(cat, Run(cat, s, clicks[..|clicks| - 1]), last.id, last.option)
  }

  /** For every click the session accepted, in order, whether it was correct. */
  function Outcomes(cat: seq<Challenge>, s: State, clicks: seq<Click>): seq<bool>
    decreases |clicks|
  {
    if |clicks| == 0 then []
    else
      var init := clicks[..|clicks| - 1];
      var last := clicks[|clicks| - 1];
      Outcomes(cat, s, init)
        + (if Accepts(cat, Run(cat, s, init), last.id) then [IsCorrectEntry(cat, last.id, last.option)] else [])
  }

  /** How many outcomes at the end are correct in a row. */
  function TrailingRun(b: seq<bool>): nat
    decreases |b|
  {
    if |b| == 0 || !b[|b| - 1] then 0 else TrailingRun(b[..|b| - 1]) + 1
  }

  /** How many outcomes are correct. */
  function CorrectOutcomes(b: seq<bool>): nat
    decreases |b|
  {
    if |b| == 0 then 0 else CorrectOutcomes(b[..|b| - 1]) + (if b[|b| - 1] then 1 else 0)
  }

  predicate AllCorrect(b: seq<bool>) {
    forall i :: 0 <= i < |b| ==> b[i]
  }

  /** A trailing run is never longer than the outcomes, and covers them all
      exactly when every outcome is correct. */
  lemma {:induction false} TrailingRunWhole(b: seq<bool>)
    ensures TrailingRun(b) <= |b|
    ensures TrailingRun(b) == |b| <==> AllCorrect(b)
    decreases |b|
  {
    if |b| > 0 {
      var init := b[..|b| - 1];
      TrailingRunWhole(init);
      if AllCorrect(b) {
        assert AllCorrect(init) by {
          forall i | 0 <= i < |init| ensures init[i] {
            assert init[i] == b[i];
          }
        }
      }
      if b[|b| - 1] && AllCorrect(init) {
        forall i | 0 <= i < |b| ensures b[i] {
          if i < |init| {
            assert b[i] == init[i];
          }
        }
      }
    }
  }

  /** The streak is the number of accepted clicks at the end that were correct in a
      row, plus the starting streak when no accepted click was incorrect. */
  lemma {:induction false} StreakIsTrailingRun(cat: seq<Challenge>, s: State, clicks: seq<Click>)
    ensures var b := Outcomes(cat, s, clicks);
      Run(cat, s, clicks).streak == TrailingRun(b) + (if AllCorrect(b) then s.streak else 0)
    decreases |clicks|
  {
    if |clicks| > 0 {
      var init := clicks[..|clicks| - 1];
      var last := clicks[|clicks| - 1];
      var b0 := Outcomes(cat, s, init);
      var b := Outcomes(cat, s, clicks);
      StreakIsTrailingRun(cat, s, init);
      if Accepts(cat, Run(cat, s, init), last.id) {
        var ok := IsCorrectEntry(cat, last.id, last.option);
        assert b == b0 + [ok];
        assert b[..|b| - 1] == b0;
        if ok {
          assert AllCorrect(b) <==> AllCorrect(b0) by {
            if AllCorrect(b0) {
              forall i | 0 <= i < |b| ensures b[i] {
                if i < |b0| {
                  assert b[i] == b0[i];
                }
              }
            }
            if AllCorrect(b) {
              forall i | 0 <= i < |b0| ensures b0[i] {
                assert b0[i] == b[i];
              }
            }
          }
        } else {
          assert !b[|b| - 1];
        }
      } else {
        assert b == b0;
      }
    }
  }

  /** After k accepted clicks that were all correct, a streak that started at 0 is k. */
  lemma ConsecutiveCorrect(cat: seq<Challenge>, s: State, clicks: seq<Click>)
    requires s.streak == 0
    requires AllCorrect(Outcomes(cat, s, clicks))
    ensures Run(cat, s, clicks).streak == |Outcomes(cat, s, clicks)|
  {
    StreakIsTrailingRun(cat, s, clicks);
    TrailingRunWhole(Outcomes(cat, s, clicks));
  }

  /** The score never drifts from a running tally: recounting the ledger after the
      clicks gives the starting score plus the accepted clicks that were correct,
      and the ledger has grown by exactly the accepted clicks. */
  lemma {:induction false} ScoreIsTally(cat: seq<Challenge>, s: State, clicks: seq<Click>)
    ensures var r := Run(cat, s, clicks);
      var b := Outcomes(cat, s, clicks);
      && CorrectCount(cat, r.answers) == CorrectCount(cat, s.answers) + CorrectOutcomes(b)
      && AnsweredCount(r) == AnsweredCount(s) + |b|
    decreases |clicks|
  {
    if |clicks| > 0 {
      var init := clicks[..|clicks| - 1];
      var last := clicks[|clicks| - 1];
      ScoreIsTally(cat, s, init);
      SubmitCounts(cat, Run(cat, s, init), last.id, last.option);
      var b0 := Outcomes(cat, s, init);
      var b := Outcomes(cat, s, clicks);
      if Accepts(cat, Run(cat, s, init), last.id) {
        assert b[..|b| - 1] == b0;
      } else {
        assert b == b0;
      }
    }
  }

  /** Any clicks keep the session invariant. */
  lemma {:induction false} RunValid(cat: seq<Challenge>, s: State, clicks: seq<Click>)
    requires Valid(cat, s)
    ensures Valid(cat, Run(cat, s, clicks))
    decreases |clicks|
  {
    if |clicks| > 0 {
      var init := clicks[..|clicks| - 1];
      var last := clicks[|clicks| - 1];
      RunValid(cat, s, init);
      SubmitValid(cat, Run(cat, s, init), last.id, last.option);
    }
  }

  /** Clicks never remove or change a recorded answer: the first answer for a
      challenge is the one it keeps until "try again". */
  lemma {:induction false} RunKeepsEntries(cat: seq<Challenge>, s: State, clicks: seq<Click>)
    ensures var r := Run(cat, s, clicks);
      forall k :: k in s.answers ==> k in r.answers && r.answers[k] == s.answers[k]
    decreases |clicks|
  {
    if |clicks| > 0 {
      var init := clicks[..|clicks| - 1];
      var last := clicks[|clicks| - 1];
      RunKeepsEntries(cat, s, init);
      SubmitKeepsEntries(cat, Run(cat, s, init), last.id, last.option);
    }
  }
}
