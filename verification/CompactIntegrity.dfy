/**
 * What the stored ballot code of a compact ballot protects: the comparison that ends expandCompactCiphertextBallot in
 * src/electionguard/ballot_compact.cpp.
 */
module CompactIntegrity {
  import opened ElementQ
  import opened ElementP
  import opened Hashing
  import opened Ballots
  import opened Plaintexts
  import opened ContestEncryption
  import opened BallotEncryption
  import opened CompactBallots
  import opened CastVotes
  import opened HashRollUp
  import BallotCodeChain
  import ElGamal
  import Manifests
  import ModGroup
  import Sorting

  /** The contests of the compact ballot's style. */
  function DescriptionsFor(manifest: InternalManifest, compact: CompactCiphertextBallot): seq<Description> {
    DescriptionsOf(manifest, PlaintextBallot("", compact.plaintext.styleId, []))
  }

  /** What the theorems ask of an expansion: a good election and style, and honest draws. */
  ghost predicate GoodExpansion(e: Election, manifest: InternalManifest, compact: CompactCiphertextBallot,
                                draws: seq<ContestDraws>)
  {
    && GoodElection(e) && GoodDescriptions(DescriptionsFor(manifest, compact))
    && DistinctContestIds(DescriptionsFor(manifest, compact))
    && AllFit(DescriptionsFor(manifest, compact), draws) && AllHonest(e, draws)
  }

  /** The ballot of an expansion is the unverified encryption of the expanded plaintext. */
  function Regenerated(e: Election, manifest: InternalManifest, compact: CompactCiphertextBallot, now: Clock,
                       draws: seq<ContestDraws>): Result<CiphertextBallot>
    requires 1 < e.ctx.grp.p && AllFit(DescriptionsFor(manifest, compact), draws)
    requires Expanded(compact.plaintext, manifest).Ok?
  {
    ExpandedStyle(compact.plaintext, manifest);
    EncryptedBallot(e, manifest, Expanded(compact.plaintext, manifest).value, compact.nonce, compact.ballotCodeSeed,
                    compact.timestamp, now, false, draws)
  }

  /** The texts hashed for the code of a ballot. */
  function CodeTexts(sha: Sha, b: CiphertextBallot): seq<string> {
    RenderAll(sha, [Element(b.ballotCodeSeed), Number(b.timestamp), Element(b.cryptoHash)])
  }

  /** An expanded ballot has consistent hashes and the stored code, and its contests stand in order. */
  lemma ExpandedBallotGives(e: Election, manifest: InternalManifest, compact: CompactCiphertextBallot, now: Clock,
                            draws: seq<ContestDraws>)
    requires GoodExpansion(e, manifest, compact, draws) && CompactExpanded(e, manifest, compact, now, draws).Ok?
    ensures Expanded(compact.plaintext, manifest).Ok?
    ensures var b := CompactExpanded(e, manifest, compact, now, draws).value;
            && Ok(b) == Regenerated(e, manifest, compact, now, draws)
            && Consistent(e.ctx.sha, b) && b.GetContests() == b.contests
            && b.ballotCodeSeed == compact.ballotCodeSeed
            && compact.ballotCode == BallotCode(e.ctx.sha, b.ballotCodeSeed, b.timestamp, b.cryptoHash)
  {
    hide EncryptedBallot, Expanded, CompactExpanded, Standard, AllHonest, AllFit, ContestFor, NoZeroes, BallotIsValid,
         ContestVerifies, Consistent, BallotCode, Sorting.Sort, Manifests.ContestsFor;
    StandardGives(e.ctx.grp);
    ExpansionChecksCode(e, manifest, compact, now, draws);
    ExpandedStyle(compact.plaintext, manifest);
    var plaintext := Expanded(compact.plaintext, manifest).value;
    var b := CompactExpanded(e, manifest, compact, now, draws).value;
    var descriptions := DescriptionsFor(manifest, compact);
    BallotEndToEnd(e, manifest, plaintext, compact.nonce, compact.ballotCodeSeed, compact.timestamp, now, draws);
    BallotCodeChain.MadeCode(e, manifest, plaintext, compact.nonce, compact.ballotCodeSeed, compact.timestamp, now,
                             true, draws);
    ContestsInOrder(e, descriptions, b.contests);
    Sorting.SortOfSorted(CiphertextContestOrder, b.contests);
    forall c | c in b.contests ensures ContestVerifies(e.ctx, e.publicKey, c) {
      var x :| 0 <= x < |b.contests| && b.contests[x] == c;
      ContestForGives(e, descriptions[x], c);
    }
    ValidIsConsistent(e.ctx, b, manifest.manifestHash, e.publicKey);
  }

  /** The selections of an encrypted contest are as many as described and stand under the described orders. */
  lemma ContestPlaces(e: Election, contest: PlaintextContest, d: Description, nonceSeed: Word, draws: ContestDraws)
    requires GoodElection(e) && DrawsFit(d, draws) && HonestDraws(e, draws)
    requires EncryptedContest(e, contest, d, nonceSeed, false, draws).Ok?
    ensures HasPlaces(EncryptedContest(e, contest, d, nonceSeed, false, draws).value, d)
  {
    hide EncryptedContest, HonestDraws, Standard, ElGamal.Encrypts, PlanFor, ValidityFor, AllBits, Sorting.Sort;
    StandardGives(e.ctx.grp);
    SelectionsEncrypt(e, contest, d, nonceSeed, draws);
    PlannedDescriptions(contest, d, ValidityFor(contest, d) == Overvote);
  }

  predicate HasPlaces(c: CiphertextContest, d: Description) {
    && |c.selections| == |d.description.selections| + |d.placeholderSelections|
    && forall p :: 0 <= p < |c.selections| ==>
         c.selections[p].sequenceOrder == (d.description.GetSelections() + d.GetPlaceholders())[p].sequenceOrder
  }

  lemma RegeneratedPlaces(e: Election, manifest: InternalManifest, compact: CompactCiphertextBallot, now: Clock,
                          draws: seq<ContestDraws>, i: nat)
    requires GoodExpansion(e, manifest, compact, draws) && Expanded(compact.plaintext, manifest).Ok?
    requires Regenerated(e, manifest, compact, now, draws).Ok? && i < |DescriptionsFor(manifest, compact)|
    ensures var b := Regenerated(e, manifest, compact, now, draws).value;
            && |b.contests| == |DescriptionsFor(manifest, compact)|
            && HasPlaces(b.contests[i], DescriptionsFor(manifest, compact)[i])
  {
    hide EncryptedBallot, EncryptedContest, Expanded, Standard, HonestDraws, DrawsFit, HasPlaces, Manifests.ContestsFor,
         GoodDescriptions, DistinctContestIds, NormalisedFor;
    StandardGives(e.ctx.grp);
    ExpandedStyle(compact.plaintext, manifest);
    var plaintext := Expanded(compact.plaintext, manifest).value;
    var d := DescriptionsFor(manifest, compact)[i];
    ContestOfBallot(e, manifest, plaintext, compact.nonce, compact.ballotCodeSeed, compact.timestamp, now, draws, i);
    ContestPlaces(e, NormalisedFor(plaintext.contests, d.description), d,
                  NonceSeedFor(e, manifest, plaintext, compact.nonce), draws[i]);
  }

  /** Two expansions for one style that carry one code hold the same ciphertexts, or texts hashed for them collide. */
  lemma EqualCodesEqualCiphertexts(e: Election, manifest: InternalManifest, x: CompactCiphertextBallot,
                                   y: CompactCiphertextBallot, now: Clock, now': Clock,
                                   draws: seq<ContestDraws>, draws': seq<ContestDraws>)
    requires x.plaintext.styleId == y.plaintext.styleId && x.ballotCode == y.ballotCode
    requires GoodExpansion(e, manifest, x, draws) && GoodExpansion(e, manifest, y, draws')
    requires CompactExpanded(e, manifest, x, now, draws).Ok? && CompactExpanded(e, manifest, y, now', draws').Ok?
    ensures var b := CompactExpanded(e, manifest, x, now, draws).value;
            var b' := CompactExpanded(e, manifest, y, now', draws').value;
            || (SameBallotCiphertexts(b, b') && b.ballotCodeSeed == b'.ballotCodeSeed && b.timestamp == b'.timestamp)
            || Collide(e.ctx.sha, CodeTexts(e.ctx.sha, b), CodeTexts(e.ctx.sha, b'))
            || BallotsCollide(e.ctx.sha, b, b')
  {
    hide CompactExpanded, Expanded, Regenerated, Consistent, Collide, BallotsCollide, Digest, RenderAll,
         SameCiphertexts, Sorting.Sort, SameDelimiters, SamePrint, Delimited, Standard, GoodDescriptions,
         DistinctContestIds, AllFit, AllHonest, Manifests.ContestsFor, SameShape;
    StandardGives(e.ctx.grp);
    var b, b' := CompactExpanded(e, manifest, x, now, draws).value, CompactExpanded(e, manifest, y, now', draws').value;
    var sha := e.ctx.sha;
    ExpandedBallotGives(e, manifest, x, now, draws);
    ExpandedBallotGives(e, manifest, y, now', draws');
    EqualDigests(sha, CodeTexts(sha, b), CodeTexts(sha, b'));
    if Delimited(CodeTexts(sha, b)) == Delimited(CodeTexts(sha, b')) {
      BallotCodeChain.CodeTextsInjective(sha, b.ballotCodeSeed, b.timestamp, b.cryptoHash,
                                         b'.ballotCodeSeed, b'.timestamp, b'.cryptoHash);
      BallotHashCommits(sha, b, b');
      SameStyleSameShape(e, manifest, x, y, now, now', draws, draws');
    }
  }

  lemma SameStyleSameShape(e: Election, manifest: InternalManifest, x: CompactCiphertextBallot,
                           y: CompactCiphertextBallot, now: Clock, now': Clock,
                           draws: seq<ContestDraws>, draws': seq<ContestDraws>)
    requires x.plaintext.styleId == y.plaintext.styleId
    requires GoodExpansion(e, manifest, x, draws) && GoodExpansion(e, manifest, y, draws')
    requires CompactExpanded(e, manifest, x, now, draws).Ok? && CompactExpanded(e, manifest, y, now', draws').Ok?
    ensures SameShape(CompactExpanded(e, manifest, x, now, draws).value,
                      CompactExpanded(e, manifest, y, now', draws').value)
  {
    hide CompactExpanded, Expanded, Regenerated, Consistent, BallotCode, Sorting.Sort, EncryptedBallot, AllFit,
         AllHonest, Standard, GoodDescriptions, DistinctContestIds, Manifests.ContestsFor;
    StandardGives(e.ctx.grp);
    ExpandedBallotGives(e, manifest, x, now, draws);
    ExpandedBallotGives(e, manifest, y, now', draws');
    var b, b' := CompactExpanded(e, manifest, x, now, draws).value, CompactExpanded(e, manifest, y, now', draws').value;
    var n := |DescriptionsFor(manifest, x)|;
    if n == 0 {
      NoContestsNoBallot(e, manifest, x, now, draws);
    } else {
      RegeneratedPlaces(e, manifest, x, now, draws, 0);
      RegeneratedPlaces(e, manifest, y, now', draws', 0);
      forall i | 0 <= i < n ensures |b.contests[i].selections| == |b'.contests[i].selections| {
        RegeneratedPlaces(e, manifest, x, now, draws, i);
        RegeneratedPlaces(e, manifest, y, now', draws', i);
      }
    }
  }

  lemma NoContestsNoBallot(e: Election, manifest: InternalManifest, compact: CompactCiphertextBallot, now: Clock,
                           draws: seq<ContestDraws>)
    requires 1 < e.ctx.grp.p && AllFit(DescriptionsFor(manifest, compact), draws)
    requires Expanded(compact.plaintext, manifest).Ok?
    ensures DescriptionsFor(manifest, compact) == [] ==> Regenerated(e, manifest, compact, now, draws).Err?
  {
    hide EncryptedBallot, Expanded, ContestPossible, Manifests.ContestsFor;
    ExpandedStyle(compact.plaintext, manifest);
    BallotPossible(e, manifest, Expanded(compact.plaintext, manifest).value, compact.nonce, compact.ballotCodeSeed,
                   compact.timestamp, now, draws);
  }

  /** What the votes count for in a contest: nothing if it is over its limit. */
  function Counted(votes: seq<nat>, description: Manifests.ContestDescription): (counted: seq<nat>)
    ensures |counted| == |votes|
  {
    seq(|votes|, j requires 0 <= j < |votes| => if OverLimit(votes, description) then 0 else votes[j])
  }

  lemma SameContestSameVotes(e: Election, c: CiphertextContest, c': CiphertextContest, d: Description, secret: Word,
                             votes: seq<nat>, votes': seq<nat>)
    requires 2 < e.ctx.grp.p && HasPlaces(c, d) && HasPlaces(c', d) && SameCiphertexts(c, c')
    requires HoldsVotes(e, c, secret, d.description, votes) && HoldsVotes(e, c', secret, d.description, votes')
    ensures Counted(votes, d.description) == Counted(votes', d.description)
  {
    hide Sorting.Sort, OverLimit, ElGamal.Decrypt;
    var same := (s: CiphertextSelection, t: CiphertextSelection) => s.ciphertext == t.ciphertext;
    forall p | 0 <= p < |c.selections|
      ensures same(Sorting.Sort(CiphertextOrder, c.selections)[p], Sorting.Sort(CiphertextOrder, c'.selections)[p])
    {
      assert c.GetSelections()[p].ciphertext == c'.GetSelections()[p].ciphertext;
    }
    Sorting.SortedAlike(CiphertextOrder, c.selections, c'.selections, same);
    forall j | 0 <= j < |votes| ensures Counted(votes, d.description)[j] == Counted(votes', d.description)[j] {
      assert Decrypted(e, c, secret)[j] == Decrypted(e, c', secret)[j];
    }
  }

  lemma RegeneratedVotes(e: Election, manifest: InternalManifest, compact: CompactCiphertextBallot, now: Clock,
                         draws: seq<ContestDraws>, secret: Word, i: nat, votes: seq<nat>)
    requires GoodExpansion(e, manifest, compact, draws) && Expanded(compact.plaintext, manifest).Ok?
    requires e.publicKey == e.ctx.grp.Exp(e.ctx.grp.g, secret)
    requires Regenerated(e, manifest, compact, now, draws).Ok? && i < |DescriptionsFor(manifest, compact)|
    requires AreVotesOn(Expanded(compact.plaintext, manifest).value.contests,
                        DescriptionsFor(manifest, compact)[i].description, votes)
    ensures var b := Regenerated(e, manifest, compact, now, draws).value;
            && |b.contests| == |DescriptionsFor(manifest, compact)|
            && HoldsVotes(e, b.contests[i], secret, DescriptionsFor(manifest, compact)[i].description, votes)
  {
    hide EncryptedBallot, Expanded, Standard, AllFit, AllHonest, HoldsVotes, AreVotesOn, Manifests.ContestsFor,
         GoodDescriptions, DistinctContestIds, ModGroup.Group.Exp;
    StandardGives(e.ctx.grp);
    ExpandedStyle(compact.plaintext, manifest);
    BallotVotesAreEncrypted(e, manifest, Expanded(compact.plaintext, manifest).value, compact.nonce,
                            compact.ballotCodeSeed, compact.timestamp, now, draws, secret, i, votes);
  }

  /**
   * A ballot code protects the votes stored beside it. Two compact ballots of one style with one code that both expand
   * count the same votes in every contest, whatever else was stored and drawn, or texts hashed for them collide: a
   * compact ballot whose votes were changed so that they count differently is not returned as the one encrypted.
   */
  lemma CodeProtectsVotes(e: Election, manifest: InternalManifest, x: CompactCiphertextBallot,
                          y: CompactCiphertextBallot, now: Clock, now': Clock, draws: seq<ContestDraws>,
                          draws': seq<ContestDraws>, secret: Word, i: nat, votes: seq<nat>, votes': seq<nat>)
    requires x.plaintext.styleId == y.plaintext.styleId && x.ballotCode == y.ballotCode
    requires GoodExpansion(e, manifest, x, draws) && GoodExpansion(e, manifest, y, draws')
    requires e.publicKey == e.ctx.grp.Exp(e.ctx.grp.g, secret)
    requires CompactExpanded(e, manifest, x, now, draws).Ok? && CompactExpanded(e, manifest, y, now', draws').Ok?
    requires i < |DescriptionsFor(manifest, x)|
    requires Expanded(x.plaintext, manifest).Ok? && Expanded(y.plaintext, manifest).Ok?
    requires AreVotesOn(Expanded(x.plaintext, manifest).value.contests, DescriptionsFor(manifest, x)[i].description,
                        votes)
    requires AreVotesOn(Expanded(y.plaintext, manifest).value.contests, DescriptionsFor(manifest, x)[i].description,
                        votes')
    ensures var b := CompactExpanded(e, manifest, x, now, draws).value;
            var b' := CompactExpanded(e, manifest, y, now', draws').value;
            var description := DescriptionsFor(manifest, x)[i].description;
            || Counted(votes, description) == Counted(votes', description)
            || Collide(e.ctx.sha, CodeTexts(e.ctx.sha, b), CodeTexts(e.ctx.sha, b'))
            || BallotsCollide(e.ctx.sha, b, b')
  {
    hide CompactExpanded, Expanded, Regenerated, Consistent, Collide, BallotsCollide, RenderAll, SameCiphertexts,
         HasPlaces, Sorting.Sort, Standard, GoodDescriptions, DistinctContestIds, AllFit, AllHonest,
         Manifests.ContestsFor, Counted, AreVotesOn, HoldsVotes, ModGroup.Group.Exp, BallotCode;
    StandardGives(e.ctx.grp);
    var b, b' := CompactExpanded(e, manifest, x, now, draws).value, CompactExpanded(e, manifest, y, now', draws').value;
    ExpandedBallotGives(e, manifest, x, now, draws);
    ExpandedBallotGives(e, manifest, y, now', draws');
    RegeneratedPlaces(e, manifest, x, now, draws, i);
    RegeneratedPlaces(e, manifest, y, now', draws', i);
    RegeneratedVotes(e, manifest, x, now, draws, secret, i, votes);
    RegeneratedVotes(e, manifest, y, now', draws', secret, i, votes');
    EqualCodesEqualCiphertexts(e, manifest, x, y, now, now', draws, draws');
    if SameBallotCiphertexts(b, b') {
      SameContestSameVotes(e, b.contests[i], b'.contests[i], DescriptionsFor(manifest, x)[i], secret, votes, votes');
    }
  }
}
