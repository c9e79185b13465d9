/**
 * Where the nonces of a ballot come from, and that none is used twice: src/electionguard/nonces.cpp and encrypt.cpp.
 */
module NonceOrigins {
  import opened ElementQ
  import opened Hashing
  import opened Hex
  import opened NonceSequence
  import opened ChaumPedersen
  import opened Ballots
  import opened Plaintexts
  import opened ContestEncryption
  import opened BallotEncryption
  import opened CastVotes
  import ElementP
  import ElGamal
  import Manifests
  import Sorting

  // The nonces of a description are those of a sequence stored for its hash and a seed.

  function NonceFrom(sha: Sha, descriptionHash: Word, seed: Word, item: nat): nat {
    NonceAt(sha, SeedWith(sha, descriptionHash, Element(seed)), item)
  }

  /** The texts hashed for two nonces collide, at the nonce or at the stored seed. */
  predicate NoncesCollide(sha: Sha, descriptionHash: Word, header: Item, item: nat,
                          descriptionHash': Word, header': Item, item': nat)
  {
    var stored, stored' := SeedWith(sha, descriptionHash, header), SeedWith(sha, descriptionHash', header');
    || Collide(sha, NonceTexts(sha, stored, item), NonceTexts(sha, stored', item'))
    || Collide(sha, SeedTexts(sha, descriptionHash, header), SeedTexts(sha, descriptionHash', header'))
  }

  lemma NonceOrigin(sha: Sha, descriptionHash: Word, header: Item, item: nat,
                    descriptionHash': Word, header': Item, item': nat)
    requires NonceAt(sha, SeedWith(sha, descriptionHash, header), item)
             == NonceAt(sha, SeedWith(sha, descriptionHash', header'), item')
    ensures || (descriptionHash == descriptionHash' && Render(sha, header) == Render(sha, header') && item == item')
            || NoncesCollide(sha, descriptionHash, header, item, descriptionHash', header', item')
  {
    hide NonceAt, SeedWith, Collide, NonceTexts, SeedTexts, Render;
    NonceBinds(sha, SeedWith(sha, descriptionHash, header), item, SeedWith(sha, descriptionHash', header'), item');
    SeedBinds(sha, descriptionHash, header, descriptionHash', header');
  }

  /** A selection's place: the ballot, the contest and the selection its nonce is derived for. */
  datatype Place = Place(manifestHash: Word, ballotId: string, ballotNonce: Word, contest: Description,
                         selection: Manifests.SelectionDescription)
  {
    function BallotSeed(sha: Sha): Word {
      BallotNonceSeed(sha, manifestHash, ballotId, ballotNonce)
    }

    function ContestSeed(e: Election): Word {
      ContestNonce(e, contest, BallotSeed(e.ctx.sha))
    }

    /** The nonce that encryptSelection derives on a ballot that encryptBallot encrypts. */
    function Nonce(e: Election): Word {
      SelectionNonce(e.ctx.sha, selection, ContestSeed(e))
    }
  }

  /** One ballot, described contest and described selection, as far as they are hashed. */
  predicate SamePlace(sha: Sha, p: Place, p': Place) {
    && p.manifestHash == p'.manifestHash && Printed(p.ballotId) == Printed(p'.ballotId)
    && p.ballotNonce == p'.ballotNonce
    && p.contest.description.CryptoHash(sha) == p'.contest.description.CryptoHash(sha)
    && p.contest.description.sequenceOrder == p'.contest.description.sequenceOrder
    && p.selection.CryptoHash(sha) == p'.selection.CryptoHash(sha)
    && p.selection.sequenceOrder == p'.selection.sequenceOrder
  }

  /** Two texts hashed on the way from the ballots' nonces to the selections' collide. */
  predicate PlacesCollide(e: Election, p: Place, p': Place) {
    var sha := e.ctx.sha;
    || NoncesCollide(sha, p.selection.CryptoHash(sha), Element(p.ContestSeed(e)), p.selection.sequenceOrder,
                     p'.selection.CryptoHash(sha), Element(p'.ContestSeed(e)), p'.selection.sequenceOrder)
    || NoncesCollide(sha, p.contest.description.CryptoHash(sha), Element(p.BallotSeed(sha)),
                     p.contest.description.sequenceOrder,
                     p'.contest.description.CryptoHash(sha), Element(p'.BallotSeed(sha)),
                     p'.contest.description.sequenceOrder)
    || Collide(sha, RenderAll(sha, BallotSeedItems(p.manifestHash, p.ballotId, p.ballotNonce)),
               RenderAll(sha, BallotSeedItems(p'.manifestHash, p'.ballotId, p'.ballotNonce)))
  }

  /**
   * No nonce is derived for two places: selections with one nonce are the same selection of the same contest of the
   * same ballot with the same ballot nonce, or texts hashed for the two collide.
   */
  lemma NonceDeterminesPlace(e: Election, p: Place, p': Place)
    requires p.Nonce(e) == p'.Nonce(e)
    ensures SamePlace(e.ctx.sha, p, p') || PlacesCollide(e, p, p')
  {
    hide NonceAt, SeedWith, NoncesCollide, Collide, RenderAll, HashElems, ToHex, Printed;
    var sha := e.ctx.sha;
    NonceOrigin(sha, p.selection.CryptoHash(sha), Element(p.ContestSeed(e)), p.selection.sequenceOrder,
                p'.selection.CryptoHash(sha), Element(p'.ContestSeed(e)), p'.selection.sequenceOrder);
    ToHexInjective(p.ContestSeed(e), p'.ContestSeed(e));
    if p.ContestSeed(e) == p'.ContestSeed(e) {
      NonceOrigin(sha, p.contest.description.CryptoHash(sha), Element(p.BallotSeed(sha)),
                  p.contest.description.sequenceOrder,
                  p'.contest.description.CryptoHash(sha), Element(p'.BallotSeed(sha)),
                  p'.contest.description.sequenceOrder);
      ToHexInjective(p.BallotSeed(sha), p'.BallotSeed(sha));
      if p.BallotSeed(sha) == p'.BallotSeed(sha) {
        BallotNonceSeedBinds(sha, p.manifestHash, p.ballotId, p.ballotNonce,
                             p'.manifestHash, p'.ballotId, p'.ballotNonce);
      }
    }
  }

  lemma SelectionNonces(e: Election, contest: PlaintextContest, d: Description, nonceSeed: Word, draws: ContestDraws,
                        j: nat)
    requires GoodElection(e) && DrawsFit(d, draws) && HonestDraws(e, draws)
    requires EncryptedContest(e, contest, d, nonceSeed, false, draws).Ok? && j < |draws.sources|
    ensures var c := EncryptedContest(e, contest, d, nonceSeed, false, draws).value;
            && |c.selections| == |draws.sources|
            && (draws.sources[j].Random? ==>
                  c.selections[j].nonce
                      == SelectionNonce(e.ctx.sha, (d.description.GetSelections() + d.GetPlaceholders())[j],
                                                          ContestNonce(e, d, nonceSeed)))
  {
    hide EncryptedContest, EncryptedSelections, HonestSource, PlanFor, ValidityFor, ElementP.Standard, ContestNonce,
         SelectionNonce, MadeContest, ElGamal.Encrypts, Sorting.Sort, SelectionIsValid, ElGamal.Accumulated, ProofSeed;
    ElementP.StandardGives(e.ctx.grp);
    var plan := PlanFor(contest, d, ValidityFor(contest, d) == Overvote);
    MadeContestKeeps(e, contest, d, nonceSeed, draws);
    EncryptedSelectionsMean(e, plan, ContestNonce(e, d, nonceSeed), false, draws.sources);
    PlannedDescriptions(contest, d, ValidityFor(contest, d) == Overvote);
    NonceOfSelection(e, plan[j], ContestNonce(e, d, nonceSeed), draws.sources[j],
                     EncryptedContest(e, contest, d, nonceSeed, false, draws).value.selections[j]);
  }

  lemma NonceOfSelection(e: Election, p: Planned, nonceSeed: Word, source: Source, s: CiphertextSelection)
    requires 1 < e.ctx.grp.p && 0 < e.ctx.grp.q && SelectionFor(e, p, nonceSeed, source, s)
    ensures source.Random? ==> s.nonce == SelectionNonce(e.ctx.sha, p.description, nonceSeed)
  {
  }

  /** On an encrypted ballot every selection that used no precomputed bundle has the nonce derived for its place. */
  lemma NoncesAreDerived(e: Election, manifest: InternalManifest, ballot: PlaintextBallot, nonce: Word, codeSeed: Word,
                         timestamp: nat, now: Clock, draws: seq<ContestDraws>, i: nat, j: nat)
    requires GoodElection(e) && AllFit(DescriptionsOf(manifest, ballot), draws) && AllHonest(e, draws)
    requires DistinctContestIds(DescriptionsOf(manifest, ballot)) && i < |DescriptionsOf(manifest, ballot)|
    requires EncryptedBallot(e, manifest, ballot, nonce, codeSeed, timestamp, now, false, draws).Ok?
    requires j < |draws[i].sources| && draws[i].sources[j].Random?
    ensures var b := EncryptedBallot(e, manifest, ballot, nonce, codeSeed, timestamp, now, false, draws).value;
            var d := DescriptionsOf(manifest, ballot)[i];
            && |b.contests| == |DescriptionsOf(manifest, ballot)|
            && |b.contests[i].selections| == |d.description.selections| + |d.placeholderSelections|
            && b.contests[i].selections[j].nonce
               == Place(manifest.manifestHash, ballot.objectId, nonce, d,
                        (d.description.GetSelections() + d.GetPlaceholders())[j]).Nonce(e)
  {
    hide EncryptedBallot, EncryptedContest, ElementP.Standard, HonestDraws, NormalisedFor, SelectionNonce, ContestNonce,
         BallotNonceSeed, DistinctContestIds, Manifests.ContestsFor, Sorting.Sort;
    ElementP.StandardGives(e.ctx.grp);
    var d := DescriptionsOf(manifest, ballot)[i];
    ContestOfBallot(e, manifest, ballot, nonce, codeSeed, timestamp, now, draws, i);
    SelectionNonces(e, NormalisedFor(ballot.contests, d.description), d, NonceSeedFor(e, manifest, ballot, nonce),
                    draws[i], j);
  }

  /**
   * The secrets of one contest differ: its nonce, the seed of its proof and the nonce its extended data is sealed with.
   */
  lemma ContestSecretsDiffer(e: Election, d: Description, nonceSeed: Word, s: Manifests.SelectionDescription)
    requires d.description.sequenceOrder < UINT64
    ensures var sha, hash, order := e.ctx.sha, d.description.CryptoHash(e.ctx.sha), d.description.sequenceOrder;
            ContestNonce(e, d, nonceSeed) == ProofSeed(e, d, nonceSeed) ==>
              NoncesCollide(sha, hash, Element(nonceSeed), order, hash, Element(nonceSeed), (order + 1) % UINT64)
    ensures SealNonce(e, d, nonceSeed) == SelectionNonce(e.ctx.sha, s, ContestNonce(e, d, nonceSeed)) ==>
              NoncesCollide(e.ctx.sha, ContestNonce(e, d, nonceSeed), Text("constant-extended-data"), 0,
                            s.CryptoHash(e.ctx.sha), Element(ContestNonce(e, d, nonceSeed)), s.sequenceOrder)
  {
    hide NonceAt, SeedWith, NoncesCollide, HashElems, ToHex;
    var sha, hash, order := e.ctx.sha, d.description.CryptoHash(e.ctx.sha), d.description.sequenceOrder;
    var contestNonce := ContestNonce(e, d, nonceSeed);
    if contestNonce == ProofSeed(e, d, nonceSeed) {
      NonceOrigin(sha, hash, Element(nonceSeed), order, hash, Element(nonceSeed), (order + 1) % UINT64);
    }
    if SealNonce(e, d, nonceSeed) == SelectionNonce(sha, s, contestNonce) {
      NonceOrigin(sha, contestNonce, Text("constant-extended-data"), 0,
                  s.CryptoHash(sha), Element(contestNonce), s.sequenceOrder);
      HexIsNoHeader(contestNonce);
    }
  }

  lemma HexIsNoHeader(n: nat)
    ensures ToHex(n) != "constant-extended-data"
  {
    HexPairsValue(n);
    assert !IsHexDigit("constant-extended-data"[2]);
  }
}
