/** The quiz session: the answer ledger, the running streak, and the
    transitions the user can trigger (start, answer a challenge, try again). */
module Session {
  import opened Optional
  import opened Catalog
  import Sets

  /** The session state of the app. `answers` maps a challenge id to the index of
      the option chosen for it; `streak` is a running counter updated in
      submission order; `activeIndex` is the position of the card in view. */
  datatype State = State(started: bool, answers: map<int, int>, streak: nat, activeIndex: int)

  /** The state at mount: welcome screen shown, no card answered, no streak,
      first card in view. */
  function Initial(): (s: State)
    ensures !s.started && s.streak == 0 && s.activeIndex == 0
    ensures forall id :: Query(s, id) == None
  {
    State(false, map[], 0, 0)
  }

  /** The welcome screen's start button: dismisses the welcome screen. */
  function Start(s: State): (r: State)
    ensures r.started
    ensures r.answers == s.answers && r.streak == s.streak && r.activeIndex == s.activeIndex
  {
    s.(started := true)
  }

  /** An option index recorded for challenge `id` is correct when the catalog has
      that challenge and the index is its `correctIndex`; an id the catalog does
      not know is never correct. */
  predicate IsCorrectEntry(cat: seq<Challenge>, id: int, option: int) {
    match Find(cat, id)
    case None => false
    case Some(c) => c.correctIndex == option
  }

  /** The ids whose recorded answer is correct. */
  function CorrectIds(cat: seq<Challenge>, answers: map<int, int>): set<int> {
    set id | id in answers && IsCorrectEntry(cat, id, answers[id])
  }

  /** The score: how many ledger entries hold their challenge's correct option. */
  function CorrectCount(cat: seq<Challenge>, answers: map<int, int>): (n: nat)
    ensures n <= |answers|
  {
    var ids := CorrectIds(cat, answers);
    Sets.SubsetCardinality(ids, answers.Keys);
    |ids|
  }

  /** How many challenges have an answer: zero exactly when no card shows a
      selection, and one more for every further answered card. */
  function AnsweredCount(s: State): (n: nat)
    ensures n == |set id | id in s.answers|
    ensures n == 0 <==> forall id :: Query(s, id) == None
  {
    assert (set id | id in s.answers) == s.answers.Keys;
    EmptyLedger(s);
    |s.answers|
  }

  /** A ledger is empty exactly when no card shows a selection. */
  lemma EmptyLedger(s: State)
    ensures |s.answers| == 0 <==> forall id :: Query(s, id) == None
  {
    if forall id :: Query(s, id) == None {
      forall id ensures id !in s.answers {
        assert Query(s, id) == None;
      }
      assert s.answers == map[];
    }
  }

  /** The score computed the way the app computes it: a pass over the ledger
      entries that keeps those whose option is the catalog's correct one. */
  method CountCorrect(cat: seq<Challenge>, answers: map<int, int>) returns (n: nat)
    ensures n == CorrectCount(cat, answers)
  {
    n := 0;
    var pending := answers.Keys;
    while pending != {}
      invariant pending <= answers.Keys
      invariant n == |CorrectIds(cat, answers) - pending|
      decreases pending
    {
      var id :| id in pending;
      var counted := CorrectIds(cat, answers) - pending;
      if IsCorrectEntry(cat, id, answers[id]) {
        assert CorrectIds(cat, answers) - (pending - {id}) == counted + {id};
        n := n + 1;
      } else {
        assert CorrectIds(cat, answers) - (pending - {id}) == counted;
      }
      pending := pending - {id};
    }
  }

  /** What a challenge card shows as selected: the recorded option, if any. */
  function Query(s: State, id: int): (r: Option<int>)
    ensures r.Some? <==> id in s.answers
    ensures r.Some? ==> s.answers[id] == r.value
  {
    if id in s.answers then Some(s.answers[id]) else None
  }

  /** The answer handler on its own: looks the challenge up, records the option
      (replacing any earlier one) and updates the streak. An unknown id is ignored. */
  function HandleAnswer(cat: seq<Challenge>, s: State, id: int, option: int): (r: State)
    ensures r.started == s.started && r.activeIndex == s.activeIndex
    ensures id !in Ids(cat) ==> r == s
    ensures id in Ids(cat) ==> r.answers.Keys == s.answers.Keys + {id} && r.answers[id] == option
    ensures forall k :: k in s.answers && k != id ==> r.answers[k] == s.answers[k]
    ensures id in Ids(cat) && IsCorrectEntry(cat, id, option) ==> r.streak == s.streak + 1
    ensures id in Ids(cat) && !IsCorrectEntry(cat, id, option) ==> r.streak == 0
  {
    match Find(cat, id)
    case None => s
    case Some(c) =>
      s.(answers := s.answers[id := option],
         streak := if option == c.correctIndex then s.streak + 1 else 0)
  }

  /** A click on an option of challenge `id` takes effect only when the cards are
      on screen (the welcome screen has been dismissed), the card is not yet
      answered (its buttons are disabled and the click is ignored otherwise) and
      the catalog knows the id. */
  predicate Accepts(cat: seq<Challenge>, s: State, id: int) {
    s.started && id !in s.answers && id in Ids(cat)
  }

  /** A click on option `option` of challenge `id`: no card exists before the
      welcome screen is dismissed; once it is, the card's answered-guard is
      followed by the answer handler. */
  function Submit(cat: seq<Challenge>, s: State, id: int, option: int): (r: State)
    ensures !Accepts(cat, s, id) ==> r == s
    ensures Accepts(cat, s, id) ==> r.answers == s.answers[id := option]
    ensures Accepts(cat, s, id) ==> r.streak == (if IsCorrectEntry(cat, id, option) then s.streak + 1 else 0)
    ensures r.started == s.started && r.activeIndex == s.activeIndex
  {
    if !s.started || id in s.answers then s else HandleAnswer(cat, s, id, option)
  }

  /** The "try again" button: clears the ledger, the streak and the active card. */
  function Reset(s: State): (r: State)
    ensures r.answers == map[] && r.streak == 0 && r.activeIndex == 0
    ensures r.started == s.started
  {
    s.(answers := map[], streak := 0, activeIndex := 0)
  }

  /** The session invariant: only catalog ids are ever recorded, the streak never
      exceeds the score (each step of a streak is a correct answer that is still
      in the ledger), and nothing is answered while the welcome screen shows. */
  predicate Valid(cat: seq<Challenge>, s: State) {
    && s.answers.Keys <= Ids(cat)
    && (!s.started ==> s.answers == map[] && s.streak == 0)
    && s.streak <= CorrectCount(cat, s.answers)
  }

  /** Recording a fresh answer raises the score by one exactly when it is correct. */
  lemma CorrectCountAfterInsert(cat: seq<Challenge>, answers: map<int, int>, id: int, option: int)
    requires id !in answers
    ensures CorrectCount(cat, answers[id := option])
         == CorrectCount(cat, answers) + (if IsCorrectEntry(cat, id, option) then 1 else 0)
  {
    var before := CorrectIds(cat, answers);
    var after := CorrectIds(cat, answers[id := option]);
    if IsCorrectEntry(cat, id, option) {
      assert after == before + {id};
    } else {
      assert after == before;
    }
  }

  /** The score and the answered count after a click: both rise by the click's
      effect and by nothing else. A rejected click changes neither. */
  lemma SubmitCounts(cat: seq<Challenge>, s: State, id: int, option: int)
    ensures var r := Submit(cat, s, id, option);
      && AnsweredCount(r) == AnsweredCount(s) + (if Accepts(cat, s, id) then 1 else 0)
      && CorrectCount(cat, r.answers) == CorrectCount(cat, s.answers)
           + (if Accepts(cat, s, id) && IsCorrectEntry(cat, id, option) then 1 else 0)
  {
    if Accepts(cat, s, id) {
      CorrectCountAfterInsert(cat, s.answers, id, option);
    }
  }

  /** The session invariant holds at mount and is kept by every transition. */
  lemma InitialValid(cat: seq<Challenge>)
    ensures Valid(cat, Initial())
  {
  }

  lemma StartValid(cat: seq<Challenge>, s: State)
    requires Valid(cat, s)
    ensures Valid(cat, Start(s))
  {
  }

  lemma SubmitValid(cat: seq<Challenge>, s: State, id: int, option: int)
    requires Valid(cat, s)
    ensures Valid(cat, Submit(cat, s, id, option))
  {
    SubmitCounts(cat, s, id, option);
  }

  lemma ResetValid(cat: seq<Challenge>, s: State)
    ensures Valid(cat, Reset(s))
  {
  }

  /** In a valid session the streak is at most the score, the score at most the
      number of answered challenges, and that at most the catalog size. */
  lemma CountBounds(cat: seq<Challenge>, s: State)
    requires Valid(cat, s)
    ensures s.streak <= CorrectCount(cat, s.answers) <= AnsweredCount(s) <= |cat|
  {
    Sets.SubsetCardinality(s.answers.Keys, Ids(cat));
    IdsCardinality(cat);
  }

  /** First answer wins: once a click on challenge `id` has been accepted, any later
      click on the same challenge, whatever the option, changes nothing. */
  lemma FirstAnswerWins(cat: seq<Challenge>, s: State, id: int, first: int, later: int)
    requires Accepts(cat, s, id)
    ensures var r := Submit(cat, s, id, first);
      && Submit(cat, r, id, later) == r
      && Query(Submit(cat, r, id, later), id) == Some(first)
  {
  }

  /** While the welcome screen shows no card is on screen, so no click reaches the
      ledger or the streak. */
  lemma NoClickBeforeStart(cat: seq<Challenge>, s: State, id: int, option: int)
    requires !s.started
    ensures Submit(cat, s, id, option) == s
  {
  }

  /** A click on an id the catalog does not know leaves the session as it was. */
  lemma UnknownIdIgnored(cat: seq<Challenge>, s: State, id: int, option: int)
    requires id !in Ids(cat)
    ensures Submit(cat, s, id, option) == s
  {
  }

  /** Without the card's guard the handler overwrites: a second answer for a known
      challenge replaces the first, so the guard is what makes a click final. */
  lemma HandlerAloneOverwrites(cat: seq<Challenge>, s: State, id: int, first: int, later: int)
    requires id in Ids(cat) && id !in s.answers && first != later
    ensures var r := HandleAnswer(cat, s, id, first);
      && Query(HandleAnswer(cat, r, id, later), id) == Some(later)
      && HandleAnswer(cat, r, id, later) != Submit(cat, Submit(cat, s, id, first), id, later)
  {
    var r := HandleAnswer(cat, s, id, first);
    assert HandleAnswer(cat, r, id, later).answers[id] == later;
    var guarded := Submit(cat, Submit(cat, s, id, first), id, later);
    if s.started {
      assert guarded.answers[id] == first;
    } else {
      assert id !in guarded.answers;
    }
  }

  /** A click never removes or alters an entry already in the ledger. */
  lemma SubmitKeepsEntries(cat: seq<Challenge>, s: State, id: int, option: int)
    ensures var r := Submit(cat, s, id, option);
      forall k :: k in s.answers ==> k in r.answers && r.answers[k] == s.answers[k]
  {
  }

  /** "Try again" yields the state at mount, except that the welcome screen stays
      dismissed if it was; doing it twice is the same as doing it once. */
  lemma ResetRestoresMount(s: State)
    ensures Reset(s) == (if s.started then Start(Initial()) else Initial())
    ensures Reset(Reset(s)) == Reset(s)
  {
  }

  /** The score shown in the stats bar agrees with the cards: in a valid session
      with distinct ids, the correctly answered ids are exactly the ids of the
      catalog entries whose card shows their correct option as selected. */
  lemma ScoreMatchesCards(cat: seq<Challenge>, s: State)
    requires DistinctIds(cat)
    requires Valid(cat, s)
    ensures CorrectIds(cat, s.answers)
         == set c | c in cat && Query(s, c.id) == Some(c.correctIndex) :: c.id
  {
    var shown := set c | c in cat && Query(s, c.id) == Some(c.correctIndex) :: c.id;
    forall id | id in CorrectIds(cat, s.answers) ensures id in shown {
      var c := Find(cat, id).value;
      assert c in cat && Query(s, c.id) == Some(c.correctIndex);
    }
    forall id | id in shown ensures id in CorrectIds(cat, s.answers) {
      var c :| c in cat && Query(s, c.id) == Some(c.correctIndex) && c.id == id;
      var i :| 0 <= i < |cat| && cat[i] == c;
      FindEntry(cat, i);
    }
  }

  /** Every recorded option is one the challenge's card offers. */
  predicate ChoicesInRange(cat: seq<Challenge>, answers: map<int, int>) {
    forall id :: id in answers ==> Find(cat, id).Some? && 0 <= answers[id] < |Find(cat, id).value.options|
  }

  /** A card only renders buttons for its own options, so a click carries an index
      into them; such clicks keep every recorded option within range. */
  lemma SubmitKeepsChoicesInRange(cat: seq<Challenge>, s: State, id: int, option: int)
    requires ChoicesInRange(cat, s.answers)
    requires Find(cat, id).Some? ==> 0 <= option < |Find(cat, id).value.options|
    ensures ChoicesInRange(cat, Submit(cat, s, id, option).answers)
  {
  }
}
