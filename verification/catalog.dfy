/** The challenge catalog: the fixed, ordered list of multiple-choice
    challenges the quiz presents, and the lookup of a challenge by its id. */
module Catalog {
  import opened Optional

  datatype Kind = Pattern | Physics | Logic | Spatial | Sequence

  datatype Difficulty = Easy | Medium | Hard

  /** One catalog entry. The answer is positional: `correctIndex` indexes `options`.
      The display text (question, explanation) and the type-specific visual of the
      original record are not part of the model: no state transition reads them. */
  datatype Challenge = Challenge(
    id: int,
    kind: Kind,
    options: seq<string>,
    correctIndex: int,
    difficulty: Difficulty)

  /** The correct answer is one of the offered options. */
  predicate WellFormed(c: Challenge) {
    0 <= c.correctIndex < |c.options|
  }

  /** No two entries share an id. */
  predicate DistinctIds(cat: seq<Challenge>) {
    forall i, j :: 0 <= i < j < |cat| ==> cat[i].id != cat[j].id
  }

  /** The ids the catalog knows. */
  function Ids(cat: seq<Challenge>): set<int> {
    set c | c in cat :: c.id
  }

  /** The answer key of the shipped catalog: the correct option of challenge `id`. */
  function AnswerKey(id: int): int
    requires 1 <= id <= 12
  {
    [1, 2, 1, 2, 1, 2, 1, 1, 0, 2, 2, 2][id - 1]
  }

  /** The twelve challenges, in presentation order. */
  function Challenges(): (cat: seq<Challenge>)
    ensures |cat| == 12
    ensures forall i :: 0 <= i < |cat| ==> cat[i].id == i + 1
    ensures forall i :: 0 <= i < |cat| ==> cat[i].correctIndex == AnswerKey(i + 1)
    ensures forall i :: 0 <= i < |cat| ==> |cat[i].options| == 4 && WellFormed(cat[i])
  {
    seq(12, i requires 0 <= i < 12 => Entry(i + 1))
  }

  /** Challenge `id` of the shipped catalog. */
  function Entry(id: int): (c: Challenge)
    requires 1 <= id <= 12
    ensures c.id == id && c.correctIndex == AnswerKey(id)
    ensures |c.options| == 4 && WellFormed(c)
  {
    match id
    case 1 =>
      Challenge(1, Pattern, ["\U{25B2}", "\U{25CF}", "\U{25A0}", "\U{25C6}"], 1, Easy)
    case 2 =>
      Challenge(2, Physics, ["Heavy ball", "Light ball", "Same time", "Neither"], 2, Medium)
    case 3 =>
      Challenge(3, Logic, ["C \U{2192} A", "A \U{2192} C", "B \U{2192} A", "Nothing"], 1, Medium)
    case 4 =>
      Challenge(4, Spatial, ["6", "7", "8", "9"], 2, Hard)
    case 5 =>
      Challenge(5, Sequence, ["28", "30", "32", "36"], 1, Hard)
    case 6 =>
      Challenge(6, Pattern, ["Red", "Blue", "Green", "Yellow"], 2, Easy)
    case 7 =>
      Challenge(7, Physics, ["Straight down", "Curved forward", "Backward", "Spiral"], 1, Medium)
    case 8 =>
      Challenge(8, Logic, ["All cats are pets", "Some cats might be pets", "No cats are pets", "All pets are cats"], 1, Hard)
    case 9 =>
      Challenge(9, Spatial, ["Cube", "Pyramid", "Prism", "Cylinder"], 0, Medium)
    case 10 =>
      Challenge(10, Sequence, ["11", "12", "13", "15"], 2, Easy)
    case 11 =>
      Challenge(11, Pattern, ["2, 4, 6", "3, 6, 9", "5, 10, 12", "7, 14, 21"], 2, Hard)
    case _ =>
      Challenge(12, Physics, ["Top left", "Top right", "Bottom center", "All same"], 2, Medium)
  }

  /** The first position at or after `k` whose entry has the given id. */
  function FindFrom(cat: seq<Challenge>, id: int, k: nat): (r: Option<nat>)
    requires k <= |cat|
    ensures r.Some? ==> k <= r.value < |cat| && cat[r.value].id == id
    ensures r.Some? ==> forall j :: k <= j < r.value ==> cat[j].id != id
    ensures r.None? ==> forall j :: k <= j < |cat| ==> cat[j].id != id
    decreases |cat| - k
  {
    if k == |cat| then None
    else if cat[k].id == id then Some(k)
    else FindFrom(cat, id, k + 1)
  }

  /** The first entry with the given id, or nothing when the id is unknown. */
  function Find(cat: seq<Challenge>, id: int): (r: Option<Challenge>)
    ensures r.None? <==> id !in Ids(cat)
    ensures r.Some? ==> r.value in cat && r.value.id == id
  {
    match FindFrom(cat, id, 0)
    case None => None
    case Some(i) => Some(cat[i])
  }

  /** With distinct ids, looking up an entry's id yields that very entry. */
  lemma FindEntry(cat: seq<Challenge>, i: int)
    requires DistinctIds(cat)
    requires 0 <= i < |cat|
    ensures Find(cat, cat[i].id) == Some(cat[i])
  {
    var r := FindFrom(cat, cat[i].id, 0);
    assert r.Some?;
    assert r.value == i;
  }

  /** The ids of a non-empty catalog: its first entry's id and the ids of the rest. */
  lemma IdsSplit(cat: seq<Challenge>)
    requires |cat| > 0
    ensures Ids(cat) == {cat[0].id} + Ids(cat[1..])
    ensures DistinctIds(cat) ==> DistinctIds(cat[1..]) && cat[0].id !in Ids(cat[1..])
  {
    var rest := cat[1..];
    assert cat == [cat[0]] + rest;
    assert forall c :: c in cat <==> c == cat[0] || c in rest;
    if DistinctIds(cat) {
      forall c | c in rest ensures c.id != cat[0].id {
        var j :| 0 <= j < |rest| && rest[j] == c;
        assert cat[j + 1] == c;
      }
    }
  }

  /** A catalog has no more ids than entries, and exactly as many when they are distinct. */
  lemma {:induction false} IdsCardinality(cat: seq<Challenge>)
    ensures |Ids(cat)| <= |cat|
    ensures DistinctIds(cat) ==> |Ids(cat)| == |cat|
  {
    if |cat| > 0 {
      IdsCardinality(cat[1..]);
      IdsSplit(cat);
    }
  }

  /** The shipped catalog: ids 1..12, each at position id - 1, all distinct. */
  lemma ChallengesIds()
    ensures DistinctIds(Challenges())
    ensures forall id :: id in Ids(Challenges()) <==> 1 <= id <= 12
    ensures |Ids(Challenges())| == |Challenges()|
  {
    var cat := Challenges();
    forall id | 1 <= id <= 12 ensures id in Ids(cat) {
      assert cat[id - 1].id == id;
    }
    IdsCardinality(cat);
  }

  /** Lookup in the shipped catalog: an id in 1..12 finds the entry at position id - 1;
      every other id finds nothing. */
  lemma FindInChallenges(id: int)
    ensures 1 <= id <= 12 ==> Find(Challenges(), id) == Some(Challenges()[id - 1])
    ensures !(1 <= id <= 12) ==> Find(Challenges(), id) == None
  {
    ChallengesIds();
    if 1 <= id <= 12 {
      FindEntry(Challenges(), id - 1);
    }
  }
}
