/**
 * What encryption does to the votes that were cast, said without reference to how validation, normalisation and the
 * plan of a contest are computed: src/electionguard/encrypt.cpp from ballot to decrypted selections.
 */
module CastVotes {
  import opened ElementQ
  import opened Ballots
  import opened Plaintexts
  import opened ContestEncryption
  import opened BallotEncryption
  import opened ElementP
  import ElGamal
  import HashedElGamal
  import Hashing
  import ModGroup
  import Precomputed
  import Manifests
  import Sorting

  // ------------------------------------------------------------------- the votes cast

  /** The i-th selection is the first one under the identifier. */
  predicate IsFirst(selections: seq<PlaintextSelection>, i: nat, id: string) {
    i < |selections| && selections[i].objectId == id && forall j :: 0 <= j < i ==> selections[j].objectId != id
  }

  /** The vote cast for an identifier: that of the first selection under it, or none. */
  ghost predicate IsVoteFor(selections: seq<PlaintextSelection>, id: string, vote: nat) {
    if exists i :: 0 <= i < |selections| && selections[i].objectId == id
    then exists i: nat :: IsFirst(selections, i, id) && selections[i].vote == vote
    else vote == 0
  }

  predicate IsFirstContest(contests: seq<PlaintextContest>, i: nat, id: string) {
    i < |contests| && contests[i].objectId == id && forall j :: 0 <= j < i ==> contests[j].objectId != id
  }

  /** The same on a ballot, in the first contest under the contest's identifier. */
  ghost predicate IsVoteOn(contests: seq<PlaintextContest>, contestId: string, id: string, vote: nat) {
    if exists i :: 0 <= i < |contests| && contests[i].objectId == contestId
    then exists i: nat :: IsFirstContest(contests, i, contestId) && IsVoteFor(contests[i].selections, id, vote)
    else vote == 0
  }

  /** The places that were marked at all. */
  function Marked(votes: seq<nat>): set<nat> {
    set i: nat | i < |votes| && votes[i] >= 1
  }

  /** More marks than seats, or more votes than allowed, where votes are added up in 64 bits. */
  predicate OverLimit(votes: seq<nat>, description: Manifests.ContestDescription) {
    || |Marked(votes)| > description.numberElected
    || Sum(votes) % UINT64 > (if description.votesAllowed == 0 then description.numberElected
                              else description.votesAllowed)
  }

  // --------------------------------------------------------------------- how it is counted

  lemma {:induction false} TotalsCount(selections: seq<PlaintextSelection>)
    ensures |Marked(VotesIn(selections))| == Total(Marks, selections)
    ensures Sum(VotesIn(selections)) == Total(Votes, selections)
  {
    var votes := VotesIn(selections);
    if selections == [] {
      assert Marked(votes) == {};
    } else {
      var n := |selections| - 1;
      TotalsCount(selections[..n]);
      assert VotesIn(selections[..n]) == votes[..n];
      assert Marked(votes) == Marked(votes[..n]) + if votes[n] >= 1 then {n} else {};
    }
  }

  /** The five outcomes of validation, for any expectations. */
  lemma ContestValidityMeans(contest: PlaintextContest, d: Manifests.ContestDescription, size: nat, support: bool)
    ensures var r := ContestValidity(contest, d.objectId, size, d.numberElected, d.votesAllowed, support);
            && (r == InvalidObjectId <==> contest.objectId != d.objectId)
            && (r == TooManySelections <==> contest.objectId == d.objectId && |contest.selections| > size)
            && (r == Overvote || r == OvervoteError <==>
                contest.objectId == d.objectId && |contest.selections| <= size
                && OverLimit(VotesIn(contest.selections), d))
            && (r == Overvote ==> support) && (r == OvervoteError ==> !support)
  {
    TotalsCount(contest.selections);
  }

  /**
   * Validation accepts exactly the contests under the expected identifier with no more selections than described, and
   * calls them over-voted exactly when there are more marks than seats or more votes than allowed.
   */
  lemma ValidityMeans(contest: PlaintextContest, d: Description)
    ensures ValidityFor(contest, d) == Success || ValidityFor(contest, d) == Overvote <==>
            && contest.objectId == d.description.objectId
            && |contest.selections| <= |d.description.selections|
    ensures ValidityFor(contest, d) == Overvote <==>
            && contest.objectId == d.description.objectId
            && |contest.selections| <= |d.description.selections|
            && OverLimit(VotesIn(contest.selections), d.description)
  {
    ContestValidityMeans(contest, d.description, |d.description.selections|, true);
  }

  lemma FirstIs(selections: seq<PlaintextSelection>, id: string)
    ensures IsVoteFor(selections, id, Chosen(selections, id).vote)
    ensures forall vote: nat :: IsVoteFor(selections, id, vote) ==> vote == Chosen(selections, id).vote
  {
    var i := ChosenExists(selections, id);
    if i < |selections| {
      assert IsFirst(selections, i, id);
    }
  }

  lemma {:induction false} FoundFirst(contests: seq<PlaintextContest>, id: string) returns (i: nat)
    ensures i <= |contests| && forall j :: 0 <= j < i ==> contests[j].objectId != id
    ensures i < |contests| ==> contests[i].objectId == id && FindContest(contests, id) == Ok(contests[i])
    ensures i == |contests| ==> FindContest(contests, id).Err?
  {
    if contests == [] {
      i := 0;
    } else if contests[0].objectId == id {
      i := 0;
    } else {
      i := FoundFirst(contests[1..], id);
      i := i + 1;
    }
  }

  /** Normalisation keeps, place by place, the vote cast. */
  lemma NormalisedVote(contests: seq<PlaintextContest>, description: Manifests.ContestDescription, j: nat)
    requires j < |description.selections|
    ensures var vote := NormalisedFor(contests, description).selections[j].vote;
            var id := description.GetSelections()[j].objectId;
            && IsVoteOn(contests, description.objectId, id, vote)
            && forall v: nat :: IsVoteOn(contests, description.objectId, id, v) ==> v == vote
  {
    hide Sorting.Sort, Chosen, IsVoteFor;
    var id := description.GetSelections()[j].objectId;
    var i := FoundFirst(contests, description.objectId);
    if i < |contests| {
      FirstIs(contests[i].selections, id);
      assert IsFirstContest(contests, i, description.objectId);
    } else {
      assert Chosen([], id).vote == 0 by {
        FirstIs([], id);
        NothingCast(id);
      }
    }
  }

  lemma NothingCast(id: string)
    ensures forall vote: nat :: IsVoteFor([], id, vote) <==> vote == 0
  {
  }

  /** Every ballot casts one vote for every selection described. */
  lemma CastVotes(contests: seq<PlaintextContest>, description: Manifests.ContestDescription) returns (votes: seq<nat>)
    ensures AreVotesOn(contests, description, votes)
  {
    hide NormalisedFor, IsVoteOn, Sorting.Sort;
    NormalisedIsSized(contests, description);
    votes := VotesIn(NormalisedFor(contests, description).selections);
    forall j | 0 <= j < |votes|
      ensures IsVoteOn(contests, description.objectId, description.GetSelections()[j].objectId, votes[j])
    {
      NormalisedVote(contests, description, j);
    }
  }

  // ------------------------------------------------------------------------ contests

  /** What is planned for a selection is the vote cast for it, or nothing for an over-vote. */
  lemma PlannedVote(contest: PlaintextContest, d: Description, overvote: bool, j: nat)
    requires j < |d.description.selections|
    ensures PlanFor(contest, d, overvote)[j].vote
            == if overvote then 0 else Chosen(contest.selections, d.description.GetSelections()[j].objectId).vote
  {
    hide Sorting.Sort, Chosen;
    ChosenAgain(contest.selections, d.description.GetSelections());
    var once := ChosenAll(contest.selections, d.description.GetSelections());
    assert ChosenAll(once, d.description.GetSelections())[j] == once[j];
  }

  /** All votes of a contest as the holder of the secret key reads them. */
  function Decrypted(e: Election, c: CiphertextContest, secret: Word): (votes: seq<nat>)
    requires 2 < e.ctx.grp.p
    ensures |votes| == |c.selections|
  {
    seq(|c.selections|, i requires 0 <= i < |c.selections| =>
      ElGamal.Decrypt(e.ctx.grp, c.selections[i].ciphertext, secret))
  }

  /**
   * What was cast is what is decrypted. Every selection of an encrypted contest stands under its own identifier and
   * decrypts to the vote cast for it; if the contest is over its limit, to zero.
   */
  lemma VotesAreEncrypted(e: Election, contest: PlaintextContest, d: Description, nonceSeed: Word, draws: ContestDraws,
                          secret: Word)
    requires GoodElection(e) && DrawsFit(d, draws) && HonestDraws(e, draws)
    requires EncryptedContest(e, contest, d, nonceSeed, false, draws).Ok?
    requires e.publicKey == e.ctx.grp.Exp(e.ctx.grp.g, secret)
    ensures var c := EncryptedContest(e, contest, d, nonceSeed, false, draws).value;
            && |c.selections| == |d.description.selections| + |d.placeholderSelections|
            && forall j :: 0 <= j < |d.description.selections| ==>
                 var id := d.description.GetSelections()[j].objectId;
                 && c.selections[j].objectId == id
                 && if OverLimit(VotesIn(contest.selections), d.description) then Decrypted(e, c, secret)[j] == 0
                    else IsVoteFor(contest.selections, id, Decrypted(e, c, secret)[j])
  {
    hide EncryptedContest, HonestDraws, Standard, PlanFor, ElGamal.Decrypt, ModGroup.Group.Exp, OverLimit, IsVoteFor,
         ValidityFor, Chosen, Sorting.Sort;
    StandardGives(e.ctx.grp);
    var c := EncryptedContest(e, contest, d, nonceSeed, false, draws).value;
    var overvote := ValidityFor(contest, d) == Overvote;
    EncryptedVotesDecrypt(e, contest, d, nonceSeed, draws, secret);
    ContestIdsKept(e, contest, d, nonceSeed, draws);
    ContestSucceeds(e, contest, d, nonceSeed, draws);
    ValidityMeans(contest, d);
    forall j | 0 <= j < |d.description.selections|
      ensures var id := d.description.GetSelections()[j].objectId;
              if OverLimit(VotesIn(contest.selections), d.description) then Decrypted(e, c, secret)[j] == 0
              else IsVoteFor(contest.selections, id, Decrypted(e, c, secret)[j])
    {
      PlannedVote(contest, d, overvote, j);
      FirstIs(contest.selections, d.description.GetSelections()[j].objectId);
    }
  }

  /**
   * With one placeholder per seat and distinct identifiers, all decrypted votes are bits and together one for every
   * seat; the placeholders take, in order, the seats that the selections leave.
   */
  lemma SeatsAreFilled(e: Election, contest: PlaintextContest, d: Description, nonceSeed: Word, draws: ContestDraws,
                       secret: Word)
    requires GoodElection(e) && DrawsFit(d, draws) && HonestDraws(e, draws) && Manifests.Encryptable(d)
    requires EncryptedContest(e, contest, d, nonceSeed, false, draws).Ok?
    requires e.publicKey == e.ctx.grp.Exp(e.ctx.grp.g, secret)
    ensures var votes := Decrypted(e, EncryptedContest(e, contest, d, nonceSeed, false, draws).value, secret);
            && Sum(votes) == d.description.numberElected
            && (forall i :: 0 <= i < |votes| ==> votes[i] == 0 || votes[i] == 1)
            && forall i :: |d.description.selections| <= i < |votes| ==>
                 (votes[i] == 1 <==>
                  Sum(votes[..|d.description.selections|]) +
                      i - |d.description.selections| < d.description.numberElected)
  {
    hide EncryptedContest, HonestDraws, Standard, PlanFor, ElGamal.Decrypt, ModGroup.Group.Exp, ValidityFor, Sum,
         PlanFits, Sorting.Sort;
    StandardGives(e.ctx.grp);
    var c := EncryptedContest(e, contest, d, nonceSeed, false, draws).value;
    var plan := PlanFor(contest, d, ValidityFor(contest, d) == Overvote);
    EncryptedVotesDecrypt(e, contest, d, nonceSeed, draws, secret);
    ContestSucceeds(e, contest, d, nonceSeed, draws);
    PlanReachesLimit(contest, d);
    assert Decrypted(e, c, secret) == PlannedVotes(plan);
    PlaceholdersInOrder(contest, d, ValidityFor(contest, d) == Overvote);
  }

  lemma PlaceholdersInOrder(contest: PlaintextContest, d: Description, overvote: bool)
    requires |d.placeholderSelections| == d.description.numberElected
    ensures var votes := PlannedVotes(PlanFor(contest, d, overvote));
            forall i :: |d.description.selections| <= i < |votes| ==>
              (votes[i] == 1 <==>
               Sum(votes[..|d.description.selections|]) + i - |d.description.selections| < d.description.numberElected)
  {
    hide Sorting.Sort, Chosen, Normalised, Sum, VotesOf, RealPlanFor;
    var actual := RealPlanFor(contest, d, overvote);
    var n := |d.description.selections|;
    VotesAreSum(actual);
    assert PlannedVotes(PlanFor(contest, d, overvote))[..n] == PlannedVotes(actual);
    if overvote {
      NoVotes(Normalised(contest, d.description).selections, d.description.GetSelections());
      assert actual == RealPlan(Normalised(contest, d.description).selections, d.description.GetSelections(), true) by {
        PlanOf(contest, d, true);
      }
    }
  }

  lemma PlanOf(contest: PlaintextContest, d: Description, overvote: bool)
    ensures RealPlanFor(contest, d, overvote)
            == RealPlan(Normalised(contest, d.description).selections, d.description.GetSelections(), overvote)
  {
  }

  /** Whether the contest is over its limit is also what its extended data, as sealed, is made for. */
  lemma ExtendedDataOfVotes(e: Election, contest: PlaintextContest, d: Description, nonceSeed: Word,
                            draws: ContestDraws, secret: Word)
    requires GoodElection(e) && DrawsFit(d, draws) && e.publicKey == e.ctx.grp.Exp(e.ctx.grp.g, secret)
    requires EncryptedContest(e, contest, d, nonceSeed, false, draws).Ok?
    requires Precomputed.TripleFor(e.ctx.grp, e.publicKey, draws.seal)
    ensures HashedElGamal.HashedDecryption(e.Env(),
                                           EncryptedContest(e, contest, d, nonceSeed, false, draws).value.hashedElGamal,
                                           secret, e.ctx.q, true)
            == Ok(HashedElGamal.Recovered(e.extendedData(contest, OverLimit(VotesIn(contest.selections),
                                                                            d.description)),
                                          HashedElGamal.Bytes512))
  {
    hide EncryptedContest, Standard, ModGroup.Group.Exp, OverLimit, ValidityFor, HashedElGamal.HashedDecryption,
         HashedElGamal.Recovered, Precomputed.TripleFor, ContestUsable;
    StandardGives(e.ctx.grp);
    ContestSucceeds(e, contest, d, nonceSeed, draws);
    ValidityMeans(contest, d);
    ExtendedDataRecovers(e, contest, d, nonceSeed, draws, secret);
  }

  lemma PlannedDescriptions(contest: PlaintextContest, d: Description, overvote: bool)
    ensures var plan := PlanFor(contest, d, overvote);
            && (forall i :: 0 <= i < |plan| ==>
                  plan[i].description == (d.description.GetSelections() + d.GetPlaceholders())[i])
            && (forall i :: |d.description.selections| <= i < |plan| ==> plan[i].vote <= 1)
  {
    hide Sorting.Sort, Chosen, VotesOf, Normalised;
  }

  ghost predicate OnlyBitsCast(selections: seq<PlaintextSelection>, description: Manifests.ContestDescription) {
    forall j :: 0 <= j < |description.selections| ==>
      forall vote: nat :: IsVoteFor(selections, description.GetSelections()[j].objectId, vote) ==> vote <= 1
  }

  lemma BitsCast(contest: PlaintextContest, d: Description, overvote: bool)
    ensures AllBits(PlanFor(contest, d, overvote)) <==> overvote || OnlyBitsCast(contest.selections, d.description)
  {
    hide PlanFor, IsVoteFor, Chosen, Sorting.Sort;
    var plan := PlanFor(contest, d, overvote);
    PlannedDescriptions(contest, d, overvote);
    forall j | 0 <= j < |d.description.selections|
      ensures plan[j].vote <= 1 <==>
              overvote || forall vote: nat ::
                IsVoteFor(contest.selections, d.description.GetSelections()[j].objectId, vote) ==> vote <= 1
    {
      PlannedVote(contest, d, overvote, j);
      FirstIs(contest.selections, d.description.GetSelections()[j].objectId);
    }
    if overvote || OnlyBitsCast(contest.selections, d.description) {
      forall i | 0 <= i < |plan| ensures plan[i].vote <= 1 {
      }
    }
  }

  /** Exactly when the votes cast in a contest can be encrypted, whatever was drawn. */
  lemma CastVotesSucceed(e: Election, contest: PlaintextContest, d: Description, nonceSeed: Word, draws: ContestDraws)
    requires 1 < e.ctx.grp.p && DrawsFit(d, draws)
    ensures EncryptedContest(e, contest, d, nonceSeed, false, draws).Ok? <==>
            && contest.objectId == d.description.objectId && |contest.selections| <= |d.description.selections|
            && draws.sources != []
            && (OverLimit(VotesIn(contest.selections), d.description)
                || OnlyBitsCast(contest.selections, d.description))
            && (forall i :: 0 <= i < |draws.sources| ==>
                  || draws.sources[i].FromBuffer?
                  || SelectionNonce(e.ctx.sha, (d.description.GetSelections() + d.GetPlaceholders())[i],
                                    ContestNonce(e, d, nonceSeed)) != 0)
  {
    hide EncryptedContest, PlanFor, OverLimit, IsVoteFor, ValidityFor, Sorting.Sort, SelectionNonce, ContestNonce,
         OnlyBitsCast, AllBits;
    var overvote := ValidityFor(contest, d) == Overvote;
    var plan := PlanFor(contest, d, overvote);
    ContestSucceeds(e, contest, d, nonceSeed, draws);
    ValidityMeans(contest, d);
    PlannedDescriptions(contest, d, overvote);
    BitsCast(contest, d, overvote);
  }

  // ------------------------------------------------------------------------ ballots

  lemma {:induction false} ContestAt(e: Election, descriptions: seq<Description>, normalised: seq<PlaintextContest>,
                                     nonceSeed: Word, draws: seq<ContestDraws>, i: nat)
    requires 1 < e.ctx.grp.p && AllFit(descriptions, draws) && i < |descriptions|
    requires EncryptedContests(e, descriptions, normalised, nonceSeed, false, draws).Ok?
    ensures Ok(EncryptedContests(e, descriptions, normalised, nonceSeed, false, draws).value[i])
            == EncryptedIn(e, descriptions[i], normalised, nonceSeed, false, draws[i])
  {
    hide EncryptedIn, DrawsFit;
    var n := |descriptions| - 1;
    if i == n {
    } else {
      ContestAt(e, descriptions[..n], normalised, nonceSeed, draws[..n], i);
    }
  }

  /** The contest of a ballot that is encrypted for a description is the normalised one in its place. */
  lemma ContestOfBallot(e: Election, manifest: InternalManifest, ballot: PlaintextBallot, nonce: Word, codeSeed: Word,
                        timestamp: nat, now: Clock, draws: seq<ContestDraws>, i: nat)
    requires 1 < e.ctx.grp.p && AllFit(DescriptionsOf(manifest, ballot), draws)
    requires DistinctContestIds(DescriptionsOf(manifest, ballot)) && i < |DescriptionsOf(manifest, ballot)|
    requires EncryptedBallot(e, manifest, ballot, nonce, codeSeed, timestamp, now, false, draws).Ok?
    ensures var b := EncryptedBallot(e, manifest, ballot, nonce, codeSeed, timestamp, now, false, draws).value;
            var d := DescriptionsOf(manifest, ballot)[i];
            && |b.contests| == |DescriptionsOf(manifest, ballot)|
            && Ok(b.contests[i]) == EncryptedContest(e, NormalisedFor(ballot.contests, d.description), d,
                                                     NonceSeedFor(e, manifest, ballot, nonce), false, draws[i])
  {
    hide EncryptedContests, EncryptedContest, DrawsFit, Hashing.HashElems, Sorting.Sort, NormalisedFor, BallotIsValid;
    var descriptions := DescriptionsOf(manifest, ballot);
    var normalised := NormalisedContests(ballot.contests, descriptions);
    ContestAt(e, descriptions, normalised, NonceSeedFor(e, manifest, ballot, nonce), draws, i);
    forall j | 0 <= j < |descriptions| ensures normalised[j].objectId == descriptions[j].description.objectId {
      NormalisedId(ballot.contests, descriptions[j].description);
    }
    FoundAt(normalised, i);
  }

  ghost predicate AreVotesOn(contests: seq<PlaintextContest>, description: Manifests.ContestDescription,
                             votes: seq<nat>) {
    && |votes| == |description.selections|
    && forall j :: 0 <= j < |votes| ==>
         IsVoteOn(contests, description.objectId, description.GetSelections()[j].objectId, votes[j])
  }

  /**
   * Every selection of the contest holds its vote under its own identifier, or none if the contest is over its limit.
   */
  ghost predicate HoldsVotes(e: Election, c: CiphertextContest, secret: Word,
                             description: Manifests.ContestDescription, votes: seq<nat>)
    requires 2 < e.ctx.grp.p
  {
    && c.objectId == description.objectId && c.sequenceOrder == description.sequenceOrder
    && |votes| == |description.selections| <= |c.selections|
    && forall j :: 0 <= j < |votes| ==>
         && c.selections[j].objectId == description.GetSelections()[j].objectId
         && Decrypted(e, c, secret)[j] == if OverLimit(votes, description) then 0 else votes[j]
  }

  lemma VotesOfNormalised(contests: seq<PlaintextContest>, description: Manifests.ContestDescription, votes: seq<nat>)
    requires AreVotesOn(contests, description, votes)
    ensures VotesIn(NormalisedFor(contests, description).selections) == votes
  {
    hide NormalisedFor, IsVoteOn, Sorting.Sort;
    NormalisedIsSized(contests, description);
    forall j | 0 <= j < |votes| ensures NormalisedFor(contests, description).selections[j].vote == votes[j] {
      NormalisedVote(contests, description, j);
    }
  }

  lemma NormalisedVotesAreEncrypted(e: Election, contests: seq<PlaintextContest>, d: Description, nonceSeed: Word,
                                    draws: ContestDraws, secret: Word, votes: seq<nat>)
    requires GoodElection(e) && e.publicKey == e.ctx.grp.Exp(e.ctx.grp.g, secret)
    requires DrawsFit(d, draws) && HonestDraws(e, draws) && AreVotesOn(contests, d.description, votes)
    requires EncryptedContest(e, NormalisedFor(contests, d.description), d, nonceSeed, false, draws).Ok?
    ensures HoldsVotes(e, EncryptedContest(e, NormalisedFor(contests, d.description), d, nonceSeed, false, draws).value,
                       secret, d.description, votes)
  {
    hide EncryptedContest, Standard, HonestDraws, NormalisedFor, IsVoteOn, OverLimit, Decrypted, IsVoteFor,
         Sorting.Sort, ModGroup.Group.Exp;
    StandardGives(e.ctx.grp);
    var contest := NormalisedFor(contests, d.description);
    VotesAreEncrypted(e, contest, d, nonceSeed, draws, secret);
    ContestOrderKept(e, contest, d, nonceSeed, draws);
    VotesOfNormalised(contests, d.description, votes);
    var c := EncryptedContest(e, contest, d, nonceSeed, false, draws).value;
    forall j | 0 <= j < |votes|
      ensures Decrypted(e, c, secret)[j] == if OverLimit(votes, d.description) then 0 else votes[j]
    {
      if !OverLimit(votes, d.description) {
        VoteOfNormalised(contests, d.description, j, Decrypted(e, c, secret)[j]);
      }
    }
  }

  /**
   * The votes cast on a ballot are what its encryption holds: in every contest of the style each selection stands under
   * its own identifier and decrypts to the vote that the ballot casts for it; to zero, if the contest is over its
   * limit.
   */
  lemma BallotVotesAreEncrypted(e: Election, manifest: InternalManifest, ballot: PlaintextBallot, nonce: Word,
                                codeSeed: Word, timestamp: nat, now: Clock, draws: seq<ContestDraws>, secret: Word,
                                i: nat, votes: seq<nat>)
    requires GoodElection(e) && e.publicKey == e.ctx.grp.Exp(e.ctx.grp.g, secret)
    requires AllFit(DescriptionsOf(manifest, ballot), draws) && AllHonest(e, draws)
    requires DistinctContestIds(DescriptionsOf(manifest, ballot)) && i < |DescriptionsOf(manifest, ballot)|
    requires EncryptedBallot(e, manifest, ballot, nonce, codeSeed, timestamp, now, false, draws).Ok?
    requires AreVotesOn(ballot.contests, DescriptionsOf(manifest, ballot)[i].description, votes)
    ensures var b := EncryptedBallot(e, manifest, ballot, nonce, codeSeed, timestamp, now, false, draws).value;
            && |b.contests| == |DescriptionsOf(manifest, ballot)|
            && HoldsVotes(e, b.contests[i], secret, DescriptionsOf(manifest, ballot)[i].description, votes)
  {
    hide EncryptedBallot, EncryptedContest, Standard, HonestDraws, DrawsFit, AreVotesOn, HoldsVotes, ModGroup.Group.Exp,
         DescriptionsOf, NormalisedFor, DistinctContestIds;
    StandardGives(e.ctx.grp);
    ContestOfBallot(e, manifest, ballot, nonce, codeSeed, timestamp, now, draws, i);
    NormalisedVotesAreEncrypted(e, ballot.contests, DescriptionsOf(manifest, ballot)[i],
                                NonceSeedFor(e, manifest, ballot, nonce), draws[i], secret, votes);
  }

  lemma VoteOfNormalised(contests: seq<PlaintextContest>, description: Manifests.ContestDescription, j: nat, vote: nat)
    requires j < |description.selections|
    requires IsVoteFor(NormalisedFor(contests, description).selections, description.GetSelections()[j].objectId, vote)
    ensures vote == NormalisedFor(contests, description).selections[j].vote
  {
    hide IsVoteFor, Sorting.Sort, Chosen;
    FirstIs(NormalisedFor(contests, description).selections, description.GetSelections()[j].objectId);
    var found := FindContest(contests, description.objectId);
    var selections := if found.Ok? then found.value.selections else [];
    ChosenAgain(selections, description.GetSelections());
    var once := ChosenAll(selections, description.GetSelections());
    assert ChosenAll(once, description.GetSelections())[j] == once[j];
  }

  // ------------------------------------------------------------------ untitled contests

  /** Without a title, what a contest says about votes allowed is not used: the limit is the number of seats. */
  lemma UntitledLimit(votes: seq<nat>, c: Manifests.ContestDescription)
    ensures c.titles.Untitled? ==>
              (OverLimit(votes, c.Copied()) <==>
               |Marked(votes)| > c.numberElected || Sum(votes) % UINT64 > c.numberElected)
    ensures c.titles.Titled? ==> (OverLimit(votes, c.Copied()) <==> OverLimit(votes, c))
  {
  }
}
