/** Plaintext ballots: validity (src/electionguard/ballot.cpp) and normalisation (src/electionguard/encrypt.cpp). */
module Plaintexts {
  import opened ElementQ
  import opened Manifests
  import opened Permutations
  import opened Sorting

  datatype PlaintextSelection = PlaintextSelection(objectId: string, vote: nat, isPlaceholder: bool, writeIn: string)

  datatype PlaintextContest = PlaintextContest(objectId: string, selections: seq<PlaintextSelection>)

  datatype PlaintextBallot = PlaintextBallot(objectId: string, styleId: string, contests: seq<PlaintextContest>)

  // ------------------------------------------------------------------- validity

  function VotesIn(selections: seq<PlaintextSelection>): seq<nat> {
    Map((s: PlaintextSelection) => s.vote, selections)
  }

  datatype Validity = Success | InvalidObjectId | TooManySelections | Overvote | OvervoteError

  /** What a tally adds up: the votes themselves, or one for each selection with any vote. */
  datatype Measure = Votes | Marks

  function Weight(measure: Measure, vote: nat): nat {
    if measure == Votes then vote else if vote >= 1 then 1 else 0
  }

  function Total(measure: Measure, selections: seq<PlaintextSelection>): nat {
    if selections == [] then 0
    else Total(measure, selections[..|selections| - 1]) + Weight(measure, selections[|selections| - 1].vote)
  }

  /** The vote total is a 64-bit sum. */
  function ContestValidity(contest: PlaintextContest, expectedObjectId: string, expectedNumberSelections: nat,
                           expectedNumberElected: nat, votesAllowed: nat, supportOvervotes: bool): Validity
  {
    if contest.objectId != expectedObjectId then InvalidObjectId
    else if |contest.selections| > expectedNumberSelections then TooManySelections
    else if || Total(Marks, contest.selections) > expectedNumberElected
            || Total(Votes, contest.selections) % UINT64
               > (if votesAllowed == 0 then expectedNumberElected else votesAllowed)
    then (if supportOvervotes then Overvote else OvervoteError)
    else Success
  }

  method CheckValidity(contest: PlaintextContest, expectedObjectId: string, expectedNumberSelections: nat,
                       expectedNumberElected: nat, votesAllowed: nat, supportOvervotes: bool) returns (r: Validity)
    requires |contest.selections| < UINT64
    ensures r == ContestValidity(contest, expectedObjectId, expectedNumberSelections, expectedNumberElected,
                                 votesAllowed, supportOvervotes)
  {
    if contest.objectId != expectedObjectId {
      return InvalidObjectId;
    }
    if |contest.selections| > expectedNumberSelections {
      return TooManySelections;
    }
    var numberElected, votes := 0, 0;
    for i := 0 to |contest.selections|
      invariant numberElected == Total(Marks, contest.selections[..i]) <= i
      invariant votes == Total(Votes, contest.selections[..i]) % UINT64
    {
      assert contest.selections[..i + 1][..i] == contest.selections[..i];
      WrapAdd(Total(Votes, contest.selections[..i]), contest.selections[i].vote);
      votes := (votes + contest.selections[i].vote) % UINT64;
      if contest.selections[i].vote >= 1 {
        numberElected := numberElected + 1;
      }
    }
    assert contest.selections[..|contest.selections|] == contest.selections;
    var overvote := if supportOvervotes then Overvote else OvervoteError;
    if numberElected > expectedNumberElected {
      return overvote;
    }
    var allowed := if votesAllowed == 0 then expectedNumberElected else votesAllowed;
    r := if votes > allowed then overvote else Success;
  }

  lemma WrapAdd(x: nat, y: nat)
    ensures (x % UINT64 + y) % UINT64 == (x + y) % UINT64
  {
  }

  // -------------------------------------------------------------- normalisation

  /** The first selection with the identifier, or an explicit vote of zero. */
  function Chosen(selections: seq<PlaintextSelection>, id: string): (r: PlaintextSelection)
    ensures r.objectId == id
  {
    if selections == [] then PlaintextSelection(id, 0, false, "")
    else if selections[0].objectId == id then selections[0]
    else Chosen(selections[1..], id)
  }

  function ChosenAll(selections: seq<PlaintextSelection>,
                     descriptions: seq<SelectionDescription>): (r: seq<PlaintextSelection>)
    ensures |r| == |descriptions|
  {
    seq(|descriptions|, i requires 0 <= i < |descriptions| => Chosen(selections, descriptions[i].objectId))
  }

  function Normalised(contest: PlaintextContest, description: ContestDescription): PlaintextContest {
    PlaintextContest(description.objectId, ChosenAll(contest.selections, description.GetSelections()))
  }

  method EmplaceMissingSelections(contest: PlaintextContest, description: ContestDescription)
      returns (r: PlaintextContest)
    ensures r == Normalised(contest, description)
  {
    hide Sort;
    var selections := [];
    var descriptions := description.GetSelections();
    for i := 0 to |descriptions|
      invariant |selections| == i
      invariant forall j :: 0 <= j < i ==> selections[j] == Chosen(contest.selections, descriptions[j].objectId)
    {
      var hasSelection := false;
      var j := 0;
      while j < |contest.selections| && !hasSelection
        invariant j <= |contest.selections|
        invariant |selections| == if hasSelection then i + 1 else i
        invariant forall l :: 0 <= l < i ==> selections[l] == Chosen(contest.selections, descriptions[l].objectId)
        invariant hasSelection ==> selections[i] == Chosen(contest.selections, descriptions[i].objectId)
        invariant !hasSelection ==> Chosen(contest.selections[j..], descriptions[i].objectId)
                                    == Chosen(contest.selections, descriptions[i].objectId)
        decreases |contest.selections| - j, !hasSelection
      {
        assert contest.selections[j..][1..] == contest.selections[j + 1..];
        if contest.selections[j].objectId == descriptions[i].objectId {
          hasSelection := true;
          selections := selections + [contest.selections[j]];
        } else {
          j := j + 1;
        }
      }
      if !hasSelection {
        selections := selections + [PlaintextSelection(descriptions[i].objectId, 0, false, "")];
      }
    }
    assert selections == ChosenAll(contest.selections, descriptions);
    r := PlaintextContest(description.objectId, selections);
  }

  /** The vote kept for an identifier is the first one cast for it, whatever follows. */
  lemma {:induction false} ChosenIsFirst(selections: seq<PlaintextSelection>, i: nat)
    requires i < |selections|
    requires forall j :: 0 <= j < i ==> selections[j].objectId != selections[i].objectId
    ensures Chosen(selections, selections[i].objectId) == selections[i]
  {
    if i == 0 {
    } else {
      ChosenIsFirst(selections[1..], i - 1);
    }
  }

  lemma {:induction false} ChosenExists(selections: seq<PlaintextSelection>, id: string) returns (i: nat)
    ensures i <= |selections|
    ensures forall j :: 0 <= j < i ==> selections[j].objectId != id
    ensures i < |selections| ==> selections[i].objectId == id && Chosen(selections, id) == selections[i]
    ensures i == |selections| ==> Chosen(selections, id) == PlaintextSelection(id, 0, false, "")
  {
    if selections == [] {
      i := 0;
    } else if selections[0].objectId == id {
      i := 0;
    } else {
      i := ChosenExists(selections[1..], id);
      i := i + 1;
    }
  }

  /** Choosing again by the identifiers already chosen for changes nothing. */
  lemma ChosenAgain(selections: seq<PlaintextSelection>, descriptions: seq<SelectionDescription>)
    ensures ChosenAll(ChosenAll(selections, descriptions), descriptions) == ChosenAll(selections, descriptions)
  {
    var once := ChosenAll(selections, descriptions);
    forall i | 0 <= i < |descriptions| ensures Chosen(once, descriptions[i].objectId) == once[i] {
      var first := ChosenExists(once, descriptions[i].objectId);
      assert once[i].objectId == descriptions[i].objectId;
      assert first <= i;
      assert once[first] == Chosen(selections, descriptions[first].objectId);
    }
  }

  /** Normalisation is idempotent, also for descriptions that repeat an identifier. */
  lemma NormalisedTwice(contest: PlaintextContest, description: ContestDescription)
    ensures Normalised(Normalised(contest, description), description) == Normalised(contest, description)
  {
    ChosenAgain(contest.selections, description.GetSelections());
  }

  lemma {:induction false} ChosenFromMore(measure: Measure, s: PlaintextSelection, rest: seq<PlaintextSelection>,
                                          descriptions: seq<SelectionDescription>)
    requires Distinct(SelectionIds(descriptions))
    ensures Total(measure, ChosenAll([s] + rest, descriptions))
            <= Total(measure, ChosenAll(rest, descriptions))
               + if s.objectId in SelectionIds(descriptions) then Weight(measure, s.vote) else 0
  {
    if descriptions == [] {
    } else {
      var n := |descriptions| - 1;
      var ids := SelectionIds(descriptions);
      assert SelectionIds(descriptions[..n]) == ids[..n] && ids == ids[..n] + [ids[n]];
      ChosenFromMore(measure, s, rest, descriptions[..n]);
      assert ChosenAll([s] + rest, descriptions)[..n] == ChosenAll([s] + rest, descriptions[..n]);
      assert ChosenAll(rest, descriptions)[..n] == ChosenAll(rest, descriptions[..n]);
      assert ([s] + rest)[1..] == rest;
      if ids[n] == s.objectId {
        assert s.objectId !in ids[..n];
      }
    }
  }

  /** With distinct identifiers no total grows: neither the votes nor the number of marks. */
  lemma {:induction false} ChosenNeverIncreases(measure: Measure, selections: seq<PlaintextSelection>,
                                                descriptions: seq<SelectionDescription>)
    requires Distinct(SelectionIds(descriptions))
    ensures Total(measure, ChosenAll(selections, descriptions)) <= Total(measure, selections)
  {
    if selections == [] {
      NothingChosen(measure, descriptions);
    } else {
      var s, rest := selections[0], selections[1..];
      assert selections == [s] + rest;
      ChosenNeverIncreases(measure, rest, descriptions);
      ChosenFromMore(measure, s, rest, descriptions);
      TotalFromFront(measure, selections);
    }
  }

  lemma {:induction false} NothingChosen(measure: Measure, descriptions: seq<SelectionDescription>)
    ensures Total(measure, ChosenAll([], descriptions)) == 0
  {
    if descriptions == [] {
    } else {
      var n := |descriptions| - 1;
      NothingChosen(measure, descriptions[..n]);
      assert ChosenAll([], descriptions)[..n] == ChosenAll([], descriptions[..n]);
    }
  }

  lemma {:induction false} TotalFromFront(measure: Measure, selections: seq<PlaintextSelection>)
    requires selections != []
    ensures Total(measure, selections) == Weight(measure, selections[0].vote) + Total(measure, selections[1..])
  {
    var n := |selections| - 1;
    if n > 0 {
      TotalFromFront(measure, selections[..n]);
      assert selections[1..][..n - 1] == selections[..n][1..];
    } else {
      assert selections[..0] == [] && selections[1..] == [];
    }
  }

  /**
   * Normalising never increases the votes of any contest exactly when the description's identifiers are distinct: a
   * repeated identifier would count the one vote cast for it twice.
   */
  lemma NormalisationKeepsTotals(description: ContestDescription)
    ensures (forall contest: PlaintextContest ::
               Total(Votes, Normalised(contest, description).selections) <= Total(Votes, contest.selections))
            <==> Distinct(SelectionIds(description.GetSelections()))
  {
    var descriptions := description.GetSelections();
    var ids := SelectionIds(descriptions);
    if Distinct(ids) {
      forall contest: PlaintextContest
        ensures Total(Votes, Normalised(contest, description).selections) <= Total(Votes, contest.selections)
      {
        ChosenNeverIncreases(Votes, contest.selections, descriptions);
      }
    } else {
      var i, j :| 0 <= i < j < |ids| && ids[i] == ids[j];
      var contest := PlaintextContest("", [PlaintextSelection(ids[i], 1, false, "")]);
      assert contest.selections[..0] == [];
      assert Total(Votes, contest.selections) == 1;
      CountedTwice(contest.selections, descriptions, i, j);
      assert Total(Votes, Normalised(contest, description).selections) >= 2;
    }
  }

  lemma CountedTwice(selections: seq<PlaintextSelection>, descriptions: seq<SelectionDescription>, i: nat, j: nat)
    requires i < j < |descriptions| && descriptions[i].objectId == descriptions[j].objectId
    requires |selections| == 1 && selections[0] == PlaintextSelection(descriptions[i].objectId, 1, false, "")
    ensures Total(Votes, ChosenAll(selections, descriptions)) >= 2
  {
    var all := ChosenAll(selections, descriptions);
    TotalAtLeast(all[..j], i);
    assert all[..j + 1][..j] == all[..j];
    PrefixTotal(all, j + 1);
  }

  lemma TotalAtLeast(selections: seq<PlaintextSelection>, i: nat)
    requires i < |selections|
    ensures Total(Votes, selections) >= selections[i].vote
  {
    assert selections[..i + 1][..i] == selections[..i];
    PrefixTotal(selections, i + 1);
  }

  lemma {:induction false} PrefixTotal(selections: seq<PlaintextSelection>, n: nat)
    requires n <= |selections|
    ensures Total(Votes, selections[..n]) <= Total(Votes, selections)
  {
    if n == |selections| {
      assert selections[..n] == selections;
    } else {
      PrefixTotal(selections[..|selections| - 1], n);
      assert selections[..|selections| - 1][..n] == selections[..n];
    }
  }

  // ------------------------------------------------------------- whole ballots

  /** The first contest with the identifier. */
  function FindContest(contests: seq<PlaintextContest>, id: string): (r: Result<PlaintextContest>)
    ensures r.Ok? ==> r.value.objectId == id
  {
    if contests == [] then Err("no such contest")
    else if contests[0].objectId == id then Ok(contests[0])
    else FindContest(contests[1..], id)
  }

  method FindContestLoop(contests: seq<PlaintextContest>, id: string) returns (r: Result<PlaintextContest>)
    ensures r == FindContest(contests, id)
  {
    for i := 0 to |contests|
      invariant FindContest(contests[i..], id) == FindContest(contests, id)
    {
      assert contests[i..][1..] == contests[i + 1..];
      if contests[i].objectId == id {
        return Ok(contests[i]);
      }
    }
    r := Err("no such contest");
  }

  /** contestFrom: an explicit zero for every selection. */
  function ContestFrom(description: ContestDescription): PlaintextContest {
    Normalised(PlaintextContest(description.objectId, []), description)
  }

  function NormalisedFor(contests: seq<PlaintextContest>, description: ContestDescription): PlaintextContest {
    var found := FindContest(contests, description.objectId);
    if found.Ok? then Normalised(found.value, description) else ContestFrom(description)
  }

  function NormalisedContests(contests: seq<PlaintextContest>,
                              descriptions: seq<ContestWithPlaceholders>): (r: seq<PlaintextContest>)
    ensures |r| == |descriptions|
  {
    seq(|descriptions|, i requires 0 <= i < |descriptions| => NormalisedFor(contests, descriptions[i].description))
  }

  /** emplaceMissingValues for a ballot whose style exists. */
  function NormalisedBallot(ballot: PlaintextBallot, manifest: InternalManifest): Result<PlaintextBallot> {
    var descriptions := ContestsFor(manifest, ballot.styleId);
    if descriptions.Err? then Err(descriptions.reason)
    else Ok(PlaintextBallot(ballot.objectId, ballot.styleId, NormalisedContests(ballot.contests, descriptions.value)))
  }

  method EmplaceMissingContests(ballot: PlaintextBallot, manifest: InternalManifest)
      returns (r: Result<PlaintextBallot>)
    ensures r == NormalisedBallot(ballot, manifest)
  {
    hide Sort;
    var descriptions := GetContestsFor(manifest, ballot.styleId);
    if descriptions.Err? {
      return Err(descriptions.reason);
    }
    var contests := [];
    for i := 0 to |descriptions.value|
      invariant |contests| == i
      invariant forall j :: 0 <= j < i ==>
                  contests[j] == NormalisedFor(ballot.contests, descriptions.value[j].description)
    {
      var description := descriptions.value[i].description;
      var contest := FindContestLoop(ballot.contests, description.objectId);
      var normalised;
      if contest.Ok? {
        normalised := EmplaceMissingSelections(contest.value, description);
      } else {
        normalised := EmplaceMissingSelections(PlaintextContest(description.objectId, []), description);
      }
      contests := contests + [normalised];
    }
    assert contests == NormalisedContests(ballot.contests, descriptions.value);
    return Ok(PlaintextBallot(ballot.objectId, ballot.styleId, contests));
  }

  predicate DistinctContestIds(descriptions: seq<ContestWithPlaceholders>) {
    forall i, j :: 0 <= i < j < |descriptions| ==>
      descriptions[i].description.objectId != descriptions[j].description.objectId
  }

  lemma {:induction false} FoundAt(contests: seq<PlaintextContest>, i: nat)
    requires i < |contests|
    requires forall j :: 0 <= j < i ==> contests[j].objectId != contests[i].objectId
    ensures FindContest(contests, contests[i].objectId) == Ok(contests[i])
  {
    if i == 0 {
    } else {
      FoundAt(contests[1..], i - 1);
    }
  }

  /** With distinct contest identifiers normalising a whole ballot twice is normalising it once. */
  lemma NormalisedBallotTwice(ballot: PlaintextBallot, manifest: InternalManifest)
    requires ContestsFor(manifest, ballot.styleId).Ok?
    requires DistinctContestIds(ContestsFor(manifest, ballot.styleId).value)
    ensures NormalisedBallot(NormalisedBallot(ballot, manifest).value, manifest) == NormalisedBallot(ballot, manifest)
  {
    hide Sort, Normalised, ContestsFor;
    var descriptions := ContestsFor(manifest, ballot.styleId).value;
    var once := NormalisedContests(ballot.contests, descriptions);
    forall i | 0 <= i < |descriptions| ensures NormalisedFor(once, descriptions[i].description) == once[i] {
      forall j | 0 <= j < |descriptions| ensures once[j].objectId == descriptions[j].description.objectId {
        NormalisedId(ballot.contests, descriptions[j].description);
      }
      FoundAt(once, i);
      NormalisedAgain(ballot.contests, descriptions[i].description);
    }
    assert NormalisedContests(once, descriptions) == once;
  }

  lemma NormalisedId(contests: seq<PlaintextContest>, description: ContestDescription)
    ensures NormalisedFor(contests, description).objectId == description.objectId
  {
  }

  lemma NormalisedAgain(contests: seq<PlaintextContest>, description: ContestDescription)
    ensures Normalised(NormalisedFor(contests, description), description) == NormalisedFor(contests, description)
  {
    var found := FindContest(contests, description.objectId);
    NormalisedTwice(if found.Ok? then found.value else PlaintextContest(description.objectId, []), description);
  }
}
