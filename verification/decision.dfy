/**
  The hat-check decision policy: a scored list of labels is accepted when its first
  "hat" entry scores at least HatScore and strictly above every entry that is not
  labelled "hat". Scores are compared only, never combined, so they are modelled as
  reals and the threshold as the exact constant 0.8.
 */
module HatDecision {
  import opened Wrappers

  /** Minimum score the reference "hat" entry must reach (inclusive). */
  const HatScore: real := 0.8

  /** The label that the decision looks for. */
  const HatLabel: string := "hat"

  /** The concept vocabulary submitted with every classification request, in order. */
  const ClassifierConcepts: seq<string> := ["head", "hands", "hat"]

  /** One record of the classifier's answer; `concept` is the record's `label` (a Dafny keyword). */
  datatype ScoreEntry = ScoreEntry(concept: string, score: real)

  /** k is the position of the first entry labelled "hat". */
  ghost predicate IsFirstHat(items: seq<ScoreEntry>, k: int)
  {
    0 <= k < |items| && items[k].concept == HatLabel &&
    forall j :: 0 <= j < k ==> items[j].concept != HatLabel
  }

  /** Every entry either carries the hat label or scores strictly below `reference` (the `every`). */
  predicate Dominates(items: seq<ScoreEntry>, reference: real)
  {
    forall i :: 0 <= i < |items| ==> items[i].concept == HatLabel || items[i].score < reference
  }

  /**
    Reference definition of acceptance, stated over positions: there is a first hat
    entry, it reaches the threshold, and it dominates every non-hat entry.
   */
  ghost predicate PassesHatCheck(items: seq<ScoreEntry>)
  {
    exists k :: IsFirstHat(items, k) && HatScore <= items[k].score && Dominates(items, items[k].score)
  }

  /** Position of the first "hat" entry, if any (the search behind `find`). */
  function FirstHatIndex(items: seq<ScoreEntry>): (r: Option<nat>)
    ensures r.Some? ==> IsFirstHat(items, r.value)
    ensures r.None? <==> forall j :: 0 <= j < |items| ==> items[j].concept != HatLabel
  {
    if |items| == 0 then None
    else if items[0].concept == HatLabel then Some(0)
    else
      match FirstHatIndex(items[1..])
      case None => None
      case Some(k) => Some(k + 1)
  }

  /** The first entry labelled "hat", or None when there is none. */
  function FindHat(items: seq<ScoreEntry>): (r: Option<ScoreEntry>)
    ensures r.None? <==> forall j :: 0 <= j < |items| ==> items[j].concept != HatLabel
    ensures r.Some? ==> exists k :: IsFirstHat(items, k) && r.value == items[k]
  {
    match FirstHatIndex(items)
    case None => None
    case Some(k) => Some(items[k])
  }

  /** The verdict: accept only a confident hat that beats every other concept. */
  function IsHatScoreHighest(items: seq<ScoreEntry>): (r: bool)
    ensures r <==> PassesHatCheck(items)
  {
    match FindHat(items)
    case None => false
    case Some(hat) =>
      if hat.score < HatScore then false
      else Dominates(items, hat.score)
  }

  // ---------------------------------------------------------------------------
  // Properties of the verdict
  // ---------------------------------------------------------------------------

  /** Without any "hat" entry the verdict is a rejection. */
  lemma NoHatRejects(items: seq<ScoreEntry>)
    requires forall j :: 0 <= j < |items| ==> items[j].concept != HatLabel
    ensures !IsHatScoreHighest(items)
  {
  }

  /** In particular the empty answer is rejected. */
  lemma EmptyRejects()
    ensures !IsHatScoreHighest([])
  {
    NoHatRejects([]);
  }

  /** There is at most one first "hat" position. */
  lemma FirstHatUnique(items: seq<ScoreEntry>, k: int, k': int)
    requires IsFirstHat(items, k) && IsFirstHat(items, k')
    ensures k == k'
  {
  }

  /** A first "hat" entry below the threshold rejects, whatever the other entries are. */
  lemma BelowThresholdRejects(items: seq<ScoreEntry>, k: int)
    requires IsFirstHat(items, k) && items[k].score < HatScore
    ensures !IsHatScoreHighest(items)
  {
  }

  /** A non-hat entry scoring at least as high as the first hat rejects; ties fail. */
  lemma RivalAtLeastAsHighRejects(items: seq<ScoreEntry>, k: int, j: int)
    requires IsFirstHat(items, k)
    requires 0 <= j < |items| && items[j].concept != HatLabel && items[k].score <= items[j].score
    ensures !IsHatScoreHighest(items)
  {
    if IsHatScoreHighest(items) {
      var k' :| IsFirstHat(items, k') && HatScore <= items[k'].score && Dominates(items, items[k'].score);
      FirstHatUnique(items, k, k');
    }
  }

  /** A confident first hat that strictly beats every non-hat entry is accepted. */
  lemma DominantHatAccepts(items: seq<ScoreEntry>, k: int)
    requires IsFirstHat(items, k) && HatScore <= items[k].score
    requires forall i :: 0 <= i < |items| && items[i].concept != HatLabel ==> items[i].score < items[k].score
    ensures IsHatScoreHighest(items)
  {
    assert Dominates(items, items[k].score);
  }

  /**
    The threshold is inclusive: a first hat scoring exactly 0.8 passes the threshold
    test, so the verdict then rests on dominance alone.
   */
  lemma ThresholdIsInclusive(items: seq<ScoreEntry>, k: int)
    requires IsFirstHat(items, k) && items[k].score == HatScore
    ensures IsHatScoreHighest(items) <==> Dominates(items, HatScore)
  {
  }

  /**
    Only the first "hat" entry is the reference: the score of any later "hat" entry
    can be replaced by any other value without changing the verdict.
   */
  lemma {:induction false} LaterHatsExempt(items: seq<ScoreEntry>, k: int, j: int, s: real)
    requires IsFirstHat(items, k) && k < j < |items| && items[j].concept == HatLabel
    ensures IsHatScoreHighest(items[j := ScoreEntry(HatLabel, s)]) == IsHatScoreHighest(items)
  {
    var items' := items[j := ScoreEntry(HatLabel, s)];
    assert IsFirstHat(items', k);
    assert items'[k] == items[k];
    assert Dominates(items', items[k].score) == Dominates(items, items[k].score) by {
      forall i | 0 <= i < |items|
        ensures (items'[i].concept == HatLabel || items'[i].score < items[k].score)
            == (items[i].concept == HatLabel || items[i].score < items[k].score)
      {
      }
    }
    if IsHatScoreHighest(items) {
      var k' :| IsFirstHat(items, k') && HatScore <= items[k'].score && Dominates(items, items[k'].score);
      FirstHatUnique(items, k, k');
    }
    if IsHatScoreHighest(items') {
      var k' :| IsFirstHat(items', k') && HatScore <= items'[k'].score && Dominates(items', items'[k'].score);
      FirstHatUnique(items', k, k');
    }
  }

  /** Appending records after an existing "hat" entry leaves the first-hat search unchanged. */
  lemma {:induction false} FirstHatIndexAppend(items: seq<ScoreEntry>, rest: seq<ScoreEntry>)
    requires FirstHatIndex(items).Some?
    ensures FirstHatIndex(items + rest) == FirstHatIndex(items)
  {
    assert items[0] == (items + rest)[0];
    if items[0].concept != HatLabel {
      assert (items + rest)[1..] == items[1..] + rest;
      FirstHatIndexAppend(items[1..], rest);
    }
  }

  /**
    Order matters when several "hat" entries are present: the same three entries are
    accepted in one order and rejected in another, because a later, higher "hat" entry
    is exempt from the comparison instead of being used as the reference.
   */
  lemma OrderMattersWithTwoHats()
    ensures IsHatScoreHighest([ScoreEntry("hat", 0.9), ScoreEntry("head", 0.85), ScoreEntry("hat", 0.8)])
    ensures !IsHatScoreHighest([ScoreEntry("hat", 0.8), ScoreEntry("head", 0.85), ScoreEntry("hat", 0.9)])
  {
    var accepted := [ScoreEntry("hat", 0.9), ScoreEntry("head", 0.85), ScoreEntry("hat", 0.8)];
    DominantHatAccepts(accepted, 0);
    var rejected := [ScoreEntry("hat", 0.8), ScoreEntry("head", 0.85), ScoreEntry("hat", 0.9)];
    RivalAtLeastAsHighRejects(rejected, 0, 1);
  }

  /**
    When all "hat" entries are the same record h, the verdict depends only on which
    records occur, not on their order or multiplicity.
   */
  lemma SingleHatVerdict(items: seq<ScoreEntry>, h: ScoreEntry)
    requires h in items && h.concept == HatLabel
    requires forall e :: e in items && e.concept == HatLabel ==> e == h
    ensures IsHatScoreHighest(items) <==>
      HatScore <= h.score && forall e :: e in items && e.concept != HatLabel ==> e.score < h.score
  {
    var k :| 0 <= k < |items| && items[k] == h;
    var r := FirstHatIndex(items);
    assert r.Some?;
    assert items[r.value] == h;
    if HatScore <= h.score && forall e :: e in items && e.concept != HatLabel ==> e.score < h.score {
      DominantHatAccepts(items, r.value);
    }
    if IsHatScoreHighest(items) {
      forall e | e in items && e.concept != HatLabel
        ensures e.score < h.score
      {
        var i :| 0 <= i < |items| && items[i] == e;
      }
    }
  }

  /** With a single hat record, reordering the answer does not change the verdict. */
  lemma SingleHatOrderIndependent(items: seq<ScoreEntry>, items': seq<ScoreEntry>, h: ScoreEntry)
    requires multiset(items) == multiset(items')
    requires h in items && h.concept == HatLabel
    requires forall e :: e in items && e.concept == HatLabel ==> e == h
    ensures IsHatScoreHighest(items') == IsHatScoreHighest(items)
  {
    assert forall e :: e in items <==> e in multiset(items);
    assert forall e :: e in items' <==> e in multiset(items');
    SingleHatVerdict(items, h);
    SingleHatVerdict(items', h);
  }

  /** For an answer in vocabulary order, the hat must reach 0.8 and beat both other concepts. */
  lemma VocabularyOrderVerdict(head: real, hands: real, hat: real)
    ensures IsHatScoreHighest([ScoreEntry(ClassifierConcepts[0], head),
                               ScoreEntry(ClassifierConcepts[1], hands),
                               ScoreEntry(ClassifierConcepts[2], hat)])
        <==> HatScore <= hat && head < hat && hands < hat
  {
    var items := [ScoreEntry(ClassifierConcepts[0], head),
                  ScoreEntry(ClassifierConcepts[1], hands),
                  ScoreEntry(ClassifierConcepts[2], hat)];
    assert IsFirstHat(items, 2);
    if HatScore <= hat && head < hat && hands < hat {
      DominantHatAccepts(items, 2);
    } else if hat < HatScore {
      BelowThresholdRejects(items, 2);
    } else if hat <= head {
      RivalAtLeastAsHighRejects(items, 2, 0);
    } else {
      RivalAtLeastAsHighRejects(items, 2, 1);
    }
  }

  /** Worked answers: one accepted, and one for each way of being rejected. */
  lemma WorkedExamples()
    ensures IsHatScoreHighest([ScoreEntry("hat", 0.9), ScoreEntry("head", 0.3), ScoreEntry("hands", 0.1)])
    ensures !IsHatScoreHighest([ScoreEntry("hat", 0.79), ScoreEntry("head", 0.1)])
    ensures !IsHatScoreHighest([ScoreEntry("hat", 0.85), ScoreEntry("head", 0.85)])
    ensures !IsHatScoreHighest([ScoreEntry("head", 0.9), ScoreEntry("hands", 0.2)])
  {
    DominantHatAccepts([ScoreEntry("hat", 0.9), ScoreEntry("head", 0.3), ScoreEntry("hands", 0.1)], 0);
    BelowThresholdRejects([ScoreEntry("hat", 0.79), ScoreEntry("head", 0.1)], 0);
    RivalAtLeastAsHighRejects([ScoreEntry("hat", 0.85), ScoreEntry("head", 0.85)], 0, 1);
    NoHatRejects([ScoreEntry("head", 0.9), ScoreEntry("hands", 0.2)]);
  }
}
