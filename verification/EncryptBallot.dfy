/** Encrypting whole ballots: encryptContests and encryptBallot of src/electionguard/encrypt.cpp. */
module BallotEncryption {
  import opened ElementQ
  import opened ElementP
  import opened Hashing
  import opened ChaumPedersen
  import ElGamal
  import opened Precomputed
  import opened PrecomputeBuffers
  import opened Sorting
  import opened Ballots
  import opened Plaintexts
  import opened ContestEncryption
  import Manifests

  type InternalManifest = Manifests.InternalManifest

  /** A reading of the system clock, which is past the epoch. */
  type Clock = n: nat | 0 < n witness 1

  // ------------------------------------------------------------------- specification

  predicate AllFit(descriptions: seq<Description>, draws: seq<ContestDraws>) {
    |draws| == |descriptions| && forall i :: 0 <= i < |descriptions| ==> DrawsFit(descriptions[i], draws[i])
  }

  function EncryptedContests(e: Election, descriptions: seq<Description>,
                             normalised: seq<PlaintextContest>, nonceSeed: Word,
                             verify: bool, draws: seq<ContestDraws>): (r: Result<seq<CiphertextContest>>)
    requires 1 < e.ctx.grp.p && AllFit(descriptions, draws)
    ensures r.Ok? ==> |r.value| == |descriptions|
  {
    if descriptions == [] then Ok([])
    else
      var n := |descriptions| - 1;
      var front := EncryptedContests(e, descriptions[..n], normalised, nonceSeed, verify, draws[..n]);
      if front.Err? then front
      else
        var last := EncryptedIn(e, descriptions[n], normalised, nonceSeed, verify, draws[n]);
        if last.Err? then Err(last.reason) else Ok(front.value + [last.value])
  }

  /** The first normalised contest with the description's identifier is encrypted. */
  function EncryptedIn(e: Election, d: Description, normalised: seq<PlaintextContest>, nonceSeed: Word, verify: bool,
                       draws: ContestDraws): Result<CiphertextContest>
    requires 1 < e.ctx.grp.p && DrawsFit(d, draws)
  {
    var contest := FindContest(normalised, d.description.objectId);
    if contest.Err? then Err("The ballot was malformed")
    else EncryptedContest(e, contest.value, d, nonceSeed, verify, draws)
  }

  /** The descriptions of the ballot's contests, in the order in which they are encrypted. */
  function DescriptionsOf(manifest: InternalManifest, ballot: PlaintextBallot): seq<Description> {
    var descriptions := Manifests.ContestsFor(manifest, ballot.styleId);
    if descriptions.Ok? then descriptions.value else []
  }

  function NonceSeedFor(e: Election, manifest: InternalManifest, ballot: PlaintextBallot, nonce: Word): (r: nat)
    ensures r < Q
  {
    BallotNonceSeed(e.ctx.sha, manifest.manifestHash, ballot.objectId, nonce)
  }

  function ContestsOf(e: Election, manifest: InternalManifest, ballot: PlaintextBallot, nonce: Word, verify: bool,
                      draws: seq<ContestDraws>): Result<seq<CiphertextContest>>
    requires 1 < e.ctx.grp.p && AllFit(DescriptionsOf(manifest, ballot), draws)
  {
    var descriptions := DescriptionsOf(manifest, ballot);
    EncryptedContests(e, descriptions, NormalisedContests(ballot.contests, descriptions),
                      NonceSeedFor(e, manifest, ballot, nonce), verify, draws)
  }

  /** encryptBallot, for a nonce that was given or drawn and a clock that reads `now`. */
  function EncryptedBallot(e: Election, manifest: InternalManifest, ballot: PlaintextBallot, nonce: Word,
                           codeSeed: Word, timestamp: nat, now: Clock, verify: bool,
                           draws: seq<ContestDraws>): Result<CiphertextBallot>
    requires 1 < e.ctx.grp.p && AllFit(DescriptionsOf(manifest, ballot), draws)
  {
    var descriptions := Manifests.ContestsFor(manifest, ballot.styleId);
    if Manifests.FindStyle(manifest.ballotStyles, ballot.styleId).Err? then Err("could not find a ballot style")
    else if descriptions.Err? then Err(descriptions.reason)
    else
      var contests := ContestsOf(e, manifest, ballot, nonce, verify, draws);
      if contests.Err? then Err(contests.reason)
      else
        var made := MadeBallot(e.ctx.sha, ballot.objectId, ballot.styleId, manifest.manifestHash, contests.value, nonce,
                               if timestamp == 0 then now else timestamp, codeSeed);
        if made.Ok? && verify && !BallotIsValid(e.ctx, made.value, manifest.manifestHash, e.publicKey)
        then Err("encryptBallot: failed validity check") else made
  }

  // -------------------------------------------------------------------------- the code

  function SizeOf(d: Description): nat {
    |d.description.selections| + |d.placeholderSelections|
  }

  /** How many bundles the contests before take. */
  function Bundles(descriptions: seq<Description>): nat {
    if descriptions == [] then 0
    else Bundles(descriptions[..|descriptions| - 1]) + SizeOf(descriptions[|descriptions| - 1])
  }

  ghost predicate ContestDrawn(d: Description, draws: ContestDraws, bundles: seq<TwoTriplesAndAQuadruple>,
                               triples: seq<Triple>)
  {
    && DrawsFit(d, draws)
    && DrawnFrom(draws.sources, bundles)
    && (draws.limitBuffered ==> |triples| >= 2 && draws.limit == triples[1])
  }

  /** Every contest takes the next bundles and the next two triples: no item is used twice on a ballot. */
  ghost predicate BallotDrawn(descriptions: seq<Description>, draws: seq<ContestDraws>,
                              bundles: seq<TwoTriplesAndAQuadruple>, triples: seq<Triple>)
  {
    && |draws| == |descriptions|
    && forall i :: 0 <= i < |draws| ==>
         ContestDrawn(descriptions[i], draws[i], Remaining(bundles, Bundles(descriptions[..i])),
                      Remaining(triples, 2 * i))
  }

  ghost function UnusedDraws(descriptions: seq<Description>, done: nat,
                             bundles: seq<TwoTriplesAndAQuadruple>): (r: seq<ContestDraws>)
    requires done <= |descriptions|
    ensures |r| == |descriptions| - done
    ensures forall i :: 0 <= i < |r| ==>
              r[i].sources == Unused(Remaining(bundles, Bundles(descriptions[..done + i])), 0,
                                                                SizeOf(descriptions[done + i])) && !r[i].limitBuffered
  {
    seq(|descriptions| - done, i requires 0 <= i < |descriptions| - done =>
      ContestDraws(Unused(Remaining(bundles, Bundles(descriptions[..done + i])), 0, SizeOf(descriptions[done + i])),
                   Triple(0, 0, 0), Triple(0, 0, 0), false))
  }

  lemma RemainingTwice<T>(queue: seq<T>, m: nat, n: nat)
    ensures Remaining(Remaining(queue, m), n) == Remaining(queue, m + n)
  {
  }

  lemma DrawsComplete(descriptions: seq<Description>, draws: seq<ContestDraws>, bundles: seq<TwoTriplesAndAQuadruple>,
                      triples: seq<Triple>)
    requires |draws| <= |descriptions| && BallotDrawn(descriptions[..|draws|], draws, bundles, triples)
    ensures BallotDrawn(descriptions, draws + UnusedDraws(descriptions, |draws|, bundles), bundles, triples)
  {
    hide ContestDrawn, Bundles, Remaining;
    var rest := UnusedDraws(descriptions, |draws|, bundles);
    var all := draws + rest;
    forall i | 0 <= i < |all|
      ensures ContestDrawn(descriptions[i], all[i], Remaining(bundles, Bundles(descriptions[..i])),
                           Remaining(triples, 2 * i))
    {
      if i < |draws| {
        assert descriptions[..|draws|][..i] == descriptions[..i];
      } else {
        UnusedIsDrawn(descriptions[i], rest[i - |draws|], Remaining(bundles, Bundles(descriptions[..i])),
                      Remaining(triples, 2 * i));
      }
    }
  }

  lemma UnusedIsDrawn(d: Description, draws: ContestDraws, bundles: seq<TwoTriplesAndAQuadruple>, triples: seq<Triple>)
    requires draws.sources == Unused(bundles, 0, SizeOf(d)) && !draws.limitBuffered
    ensures ContestDrawn(d, draws, bundles, triples)
  {
    forall i | 0 <= i < |draws.sources| ensures DrawnAt(draws.sources[i], bundles, i) {
      assert DrawnAt(draws.sources[i], bundles, 0 + i);
    }
  }

  lemma DrawnFits(descriptions: seq<Description>, draws: seq<ContestDraws>, bundles: seq<TwoTriplesAndAQuadruple>,
                  triples: seq<Triple>)
    requires BallotDrawn(descriptions, draws, bundles, triples)
    ensures AllFit(descriptions, draws)
  {
    hide Bundles, Remaining;
  }

  lemma ContestsStep(e: Election, descriptions: seq<Description>, normalised: seq<PlaintextContest>, nonceSeed: Word,
                     verify: bool, draws: seq<ContestDraws>, i: nat, draw: ContestDraws)
    requires 1 < e.ctx.grp.p && i < |descriptions| && |draws| == i
    requires AllFit(descriptions[..i], draws) && DrawsFit(descriptions[i], draw)
    ensures AllFit(descriptions[..i + 1], draws + [draw])
    ensures var front := EncryptedContests(e, descriptions[..i], normalised, nonceSeed, verify, draws);
            var last := EncryptedIn(e, descriptions[i], normalised, nonceSeed, verify, draw);
            EncryptedContests(e, descriptions[..i + 1], normalised, nonceSeed, verify, draws + [draw])
            == if front.Err? then front else if last.Err? then Err(last.reason) else Ok(front.value + [last.value])
  {
    hide EncryptedIn, DrawsFit;
    assert descriptions[..i + 1][..i] == descriptions[..i] && (draws + [draw])[..i] == draws;
    forall j | 0 <= j < i + 1 ensures DrawsFit(descriptions[..i + 1][j], (draws + [draw])[j]) {
      assert j < i ==> descriptions[..i + 1][j] == descriptions[..i][j];
    }
  }

  lemma {:induction false} ContestFailureStays(e: Election, descriptions: seq<Description>,
                                               normalised: seq<PlaintextContest>,
                                               nonceSeed: Word, verify: bool, draws: seq<ContestDraws>, i: nat)
    requires 1 < e.ctx.grp.p && i <= |descriptions| && AllFit(descriptions, draws)
    requires EncryptedContests(e, descriptions[..i], normalised, nonceSeed, verify, draws[..i]).Err?
    ensures EncryptedContests(e, descriptions, normalised, nonceSeed, verify, draws)
            == EncryptedContests(e, descriptions[..i], normalised, nonceSeed, verify, draws[..i])
  {
    hide EncryptedIn, DrawsFit;
    if i == |descriptions| {
      assert descriptions[..i] == descriptions && draws[..i] == draws;
    } else {
      var n := |descriptions| - 1;
      assert descriptions[..n][..i] == descriptions[..i] && draws[..n][..i] == draws[..i];
      ContestFailureStays(e, descriptions[..n], normalised, nonceSeed, verify, draws[..n], i);
    }
  }

  /** The body of the loop of encryptContests. */
  method EncryptOneOf(e: Election, d: Description, normalised: seq<PlaintextContest>, nonceSeed: Word, verify: bool,
                      buffers: PrecomputeBufferContext)
      returns (r: Result<CiphertextContest>, ghost draw: ContestDraws)
    requires 1 < e.ctx.grp.p && Sized(d)
    requires forall c :: c in normalised ==> |c.selections| < UINT64
    modifies buffers`tripleQueue, buffers`bundleQueue
    ensures DrawsFit(d, draw) && r == EncryptedIn(e, d, normalised, nonceSeed, verify, draw)
    ensures ContestDrawn(d, draw, old(buffers.bundleQueue), old(buffers.tripleQueue))
    ensures r.Ok? ==> buffers.bundleQueue == Remaining(old(buffers.bundleQueue), SizeOf(d))
    ensures r.Ok? ==> buffers.tripleQueue == Remaining(old(buffers.tripleQueue), 2)
    ensures r.Ok? ==> TriplesDrawn(e, d, nonceSeed, draw, old(buffers.tripleQueue))
  {
    hide EncryptedContest, Sized, Remaining, DrawnAt, TriplesDrawn;
    var contest := FindContestLoop(normalised, d.description.objectId);
    if contest.Err? {
      draw := ContestDraws(Unused(buffers.bundleQueue, 0, SizeOf(d)), Triple(0, 0, 0), Triple(0, 0, 0), false);
      UnusedIsDrawn(d, draw, buffers.bundleQueue, buffers.tripleQueue);
      return Err("The ballot was malformed"), draw;
    }
    FoundIn(normalised, d.description.objectId);
    r, draw := EncryptContest(e, contest.value, d, nonceSeed, verify, buffers);
  }

  /** The loop of encryptContests. */
  method EncryptEach(e: Election, descriptions: seq<Description>, normalised: seq<PlaintextContest>, nonceSeed: Word,
                     verify: bool, buffers: PrecomputeBufferContext)
      returns (r: Result<seq<CiphertextContest>>, ghost draws: seq<ContestDraws>)
    requires 1 < e.ctx.grp.p
    requires forall d :: d in descriptions ==> Sized(d)
    requires forall c :: c in normalised ==> |c.selections| < UINT64
    modifies buffers`tripleQueue, buffers`bundleQueue
    ensures BallotDrawn(descriptions, draws, old(buffers.bundleQueue), old(buffers.tripleQueue))
    ensures AllFit(descriptions, draws)
    ensures r == EncryptedContests(e, descriptions, normalised, nonceSeed, verify, draws)
    ensures r.Ok? ==> buffers.bundleQueue == Remaining(old(buffers.bundleQueue), Bundles(descriptions))
    ensures r.Ok? ==> buffers.tripleQueue == Remaining(old(buffers.tripleQueue), 2 * |descriptions|)
    ensures r.Ok? ==> forall i :: 0 <= i < |descriptions| ==>
              TriplesDrawn(e, descriptions[i], nonceSeed, draws[i], Remaining(old(buffers.tripleQueue), 2 * i))
  {
    hide EncryptedContest, EncryptedContests, ContestDrawn, Sized, Bundles, Remaining, DrawsFit, TriplesDrawn;
    ghost var bundles, triples := buffers.bundleQueue, buffers.tripleQueue;
    r, draws := Ok([]), [];
    NoContests(e, descriptions, normalised, nonceSeed, verify, bundles, triples);
    for i := 0 to |descriptions|
      invariant |draws| == i && AllFit(descriptions[..i], draws) && r.Ok?
      invariant r == EncryptedContests(e, descriptions[..i], normalised, nonceSeed, verify, draws)
      invariant BallotDrawn(descriptions[..i], draws, bundles, triples)
      invariant buffers.bundleQueue == Remaining(bundles, Bundles(descriptions[..i]))
      invariant buffers.tripleQueue == Remaining(triples, 2 * i)
      invariant forall j :: 0 <= j < i ==>
                  TriplesDrawn(e, descriptions[j], nonceSeed, draws[j], Remaining(triples, 2 * j))
    {
      var encrypted;
      ghost var draw;
      encrypted, draw := EncryptOneOf(e, descriptions[i], normalised, nonceSeed, verify, buffers);
      ContestsStep(e, descriptions, normalised, nonceSeed, verify, draws, i, draw);
      DrawnStep(descriptions, draws, draw, i, bundles, triples);
      draws := draws + [draw];
      if encrypted.Err? {
        ghost var all := draws + UnusedDraws(descriptions, i + 1, bundles);
        DrawsComplete(descriptions, draws, bundles, triples);
        DrawnFits(descriptions, all, bundles, triples);
        assert all[..i + 1] == draws;
        ContestFailureStays(e, descriptions, normalised, nonceSeed, verify, all, i + 1);
        return Err(encrypted.reason), all;
      }
      RemainingTwice(bundles, Bundles(descriptions[..i]), SizeOf(descriptions[i]));
      RemainingTwice(triples, 2 * i, 2);
      BundlesStep(descriptions, i);
      r := Ok(r.value + [encrypted.value]);
    }
    assert descriptions[..|descriptions|] == descriptions;
  }

  lemma NoContests(e: Election, descriptions: seq<Description>, normalised: seq<PlaintextContest>,
                   nonceSeed: Word, verify: bool,
                   bundles: seq<TwoTriplesAndAQuadruple>, triples: seq<Triple>)
    requires 1 < e.ctx.grp.p
    ensures EncryptedContests(e, descriptions[..0], normalised, nonceSeed, verify, []) == Ok([])
    ensures Bundles(descriptions[..0]) == 0 && Remaining(bundles, 0) == bundles && Remaining(triples, 0) == triples
  {
  }

  lemma BundlesStep(descriptions: seq<Description>, i: nat)
    requires i < |descriptions|
    ensures Bundles(descriptions[..i + 1]) == Bundles(descriptions[..i]) + SizeOf(descriptions[i])
  {
    assert descriptions[..i + 1][..i] == descriptions[..i];
  }

  lemma DrawnStep(descriptions: seq<Description>, draws: seq<ContestDraws>, draw: ContestDraws, i: nat,
                  bundles: seq<TwoTriplesAndAQuadruple>, triples: seq<Triple>)
    requires i < |descriptions| && |draws| == i && BallotDrawn(descriptions[..i], draws, bundles, triples)
    requires ContestDrawn(descriptions[i], draw, Remaining(bundles, Bundles(descriptions[..i])),
                          Remaining(triples, 2 * i))
    ensures BallotDrawn(descriptions[..i + 1], draws + [draw], bundles, triples)
  {
    hide ContestDrawn, Bundles, Remaining;
    var upTo := descriptions[..i + 1];
    forall j | 0 <= j < i + 1
      ensures ContestDrawn(upTo[j], (draws + [draw])[j], Remaining(bundles, Bundles(upTo[..j])),
                           Remaining(triples, 2 * j))
    {
      assert upTo[..j] == descriptions[..j];
      if j < i {
        assert descriptions[..i][..j] == descriptions[..j];
      }
    }
  }

  lemma {:induction false} FoundIn(contests: seq<PlaintextContest>, id: string)
    requires FindContest(contests, id).Ok?
    ensures FindContest(contests, id).value in contests
  {
    if contests[0].objectId == id {
    } else {
      FoundIn(contests[1..], id);
    }
  }

  /** Contests to encrypt are as long as their descriptions. */
  lemma NormalisedSizes(contests: seq<PlaintextContest>, descriptions: seq<Description>)
    requires forall d :: d in descriptions ==> Sized(d)
    ensures forall c :: c in NormalisedContests(contests, descriptions) ==> |c.selections| < UINT64
  {
    hide Sort;
    forall i | 0 <= i < |descriptions|
      ensures |NormalisedContests(contests, descriptions)[i].selections| < UINT64
    {
      assert descriptions[i] in descriptions;
    }
  }

  method EncryptContests(e: Election, ballot: PlaintextBallot, manifest: InternalManifest, nonceSeed: Word,
                         verify: bool, buffers: PrecomputeBufferContext)
      returns (r: Result<seq<CiphertextContest>>, ghost draws: seq<ContestDraws>)
    requires 1 < e.ctx.grp.p
    requires forall d :: d in DescriptionsOf(manifest, ballot) ==> Sized(d)
    modifies buffers`tripleQueue, buffers`bundleQueue
    ensures var descriptions := DescriptionsOf(manifest, ballot);
            && AllFit(descriptions, draws)
            && BallotDrawn(descriptions, draws, old(buffers.bundleQueue), old(buffers.tripleQueue))
            && r == if Manifests.ContestsFor(manifest, ballot.styleId).Err?
                    then Err(Manifests.ContestsFor(manifest, ballot.styleId).reason)
                    else EncryptedContests(e, descriptions, NormalisedContests(ballot.contests, descriptions),
                                           nonceSeed, verify, draws)
    ensures r.Ok? ==>
            buffers.bundleQueue == Remaining(old(buffers.bundleQueue), Bundles(DescriptionsOf(manifest, ballot)))
    ensures r.Ok? ==> buffers.tripleQueue == Remaining(old(buffers.tripleQueue), 2 * |DescriptionsOf(manifest, ballot)|)
  {
    hide EncryptedContests, ContestDrawn, Sort, NormalisedContests, Sized, Remaining, DrawsFit;
    draws := [];
    var normalisedBallot := EmplaceMissingContests(ballot, manifest);
    if normalisedBallot.Err? {
      return Err(normalisedBallot.reason), draws;
    }
    var descriptions := Manifests.GetContestsFor(manifest, ballot.styleId);
    NormalisedSizes(ballot.contests, descriptions.value);
    r, draws := EncryptEach(e, descriptions.value, normalisedBallot.value.contests, nonceSeed, verify, buffers);
  }

  /** encryptBallot. `nonce` is the one given or, when none was given, any value of rand_q. */
  method EncryptBallot(e: Election, ballot: PlaintextBallot, manifest: InternalManifest, encryptionSeed: Word,
                       nonce: Word, timestamp: nat, now: Clock, verify: bool, buffers: PrecomputeBufferContext)
      returns (r: Result<CiphertextBallot>, ghost draws: seq<ContestDraws>)
    requires 1 < e.ctx.grp.p
    requires forall c :: c in manifest.contests ==> Sized(c)
    modifies buffers`tripleQueue, buffers`bundleQueue
    ensures AllFit(DescriptionsOf(manifest, ballot), draws)
    ensures BallotDrawn(DescriptionsOf(manifest, ballot), draws, old(buffers.bundleQueue), old(buffers.tripleQueue))
    ensures r == EncryptedBallot(e, manifest, ballot, nonce, encryptionSeed, timestamp, now, verify, draws)
    ensures r.Ok? ==>
            buffers.bundleQueue == Remaining(old(buffers.bundleQueue), Bundles(DescriptionsOf(manifest, ballot)))
    ensures r.Ok? ==> buffers.tripleQueue == Remaining(old(buffers.tripleQueue), 2 * |DescriptionsOf(manifest, ballot)|)
  {
    hide EncryptedContests, ContestDrawn, Sort, NormalisedContests, Sized, Remaining, DrawsFit, BallotIsValid,
         HashElems;
    var style := Manifests.GetBallotStyle(manifest, ballot.styleId);
    if style.Err? {
      NoStyle(manifest, ballot);
      return Err("could not find a ballot style"), [];
    }
    MembersSized(manifest, ballot);
    var nonceSeed := BallotNonceSeed(e.ctx.sha, manifest.manifestHash, ballot.objectId, nonce);
    var contests;
    contests, draws := EncryptContests(e, ballot, manifest, nonceSeed, verify, buffers);
    if contests.Err? {
      return Err(contests.reason), draws;
    }
    var time := if timestamp == 0 then now else timestamp;
    var made := MadeBallot(e.ctx.sha, ballot.objectId, ballot.styleId, manifest.manifestHash, contests.value, nonce,
                           time, encryptionSeed);
    if made.Err? || !verify {
      return made, draws;
    }
    HoldSelections(e, manifest, ballot, nonceSeed, verify, draws);
    var valid := BallotIsValidEncryption(e.ctx, made.value, manifest.manifestHash, e.publicKey);
    if valid.value {
      return made, draws;
    }
    r := Err("encryptBallot: failed validity check");
  }

  lemma NoStyle(manifest: InternalManifest, ballot: PlaintextBallot)
    requires Manifests.FindStyle(manifest.ballotStyles, ballot.styleId).Err?
    ensures DescriptionsOf(manifest, ballot) == []
  {
  }

  /** The contests of a style are contests of the manifest. */
  lemma MembersSized(manifest: InternalManifest, ballot: PlaintextBallot)
    requires forall c :: c in manifest.contests ==> Sized(c)
    ensures forall d :: d in DescriptionsOf(manifest, ballot) ==> Sized(d)
  {
    hide Sized;
    var descriptions := Manifests.ContestsFor(manifest, ballot.styleId);
    if descriptions.Ok? {
      var units := Manifests.FindStyle(manifest.ballotStyles, ballot.styleId).value.geopoliticalUnitIds;
      var matching := Manifests.Matching(manifest.contests, units);
      SortSorts(Manifests.ContestOrder, matching);
      forall d | d in descriptions.value ensures d in manifest.contests {
        assert d in multiset(matching);
        Manifests.MatchingFrom(manifest.contests, units, d);
      }
    }
  }

  lemma {:induction false} EncryptedHoldSelections(e: Election, descriptions: seq<Description>,
                                                   normalised: seq<PlaintextContest>,
                                                   nonceSeed: Word, verify: bool, draws: seq<ContestDraws>)
    requires 1 < e.ctx.grp.p && AllFit(descriptions, draws)
    ensures var r := EncryptedContests(e, descriptions, normalised, nonceSeed, verify, draws);
            r.Ok? ==> forall i :: 0 <= i < |r.value| ==> r.value[i].selections != []
  {
    hide EncryptedIn, DrawsFit;
    if descriptions == [] {
    } else {
      var n := |descriptions| - 1;
      EncryptedHoldSelections(e, descriptions[..n], normalised, nonceSeed, verify, draws[..n]);
      OneHoldsSelections(e, descriptions[n], normalised, nonceSeed, verify, draws[n]);
    }
  }

  lemma OneHoldsSelections(e: Election, d: Description, normalised: seq<PlaintextContest>, nonceSeed: Word,
                           verify: bool, draws: ContestDraws)
    requires 1 < e.ctx.grp.p && DrawsFit(d, draws)
    ensures var r := EncryptedIn(e, d, normalised, nonceSeed, verify, draws);
            r.Ok? ==> r.value.selections != []
  {
    hide EncryptedContest, EncryptedSelections, PlanFor, Sort, HashElems;
    var contest := FindContest(normalised, d.description.objectId);
    if contest.Ok? {
      ContestCases(e, contest.value, d, nonceSeed, verify, draws);
      AssembledAll(e, contest.value, d, nonceSeed, draws);
    }
  }

  lemma AssembledAll(e: Election, contest: PlaintextContest, d: Description, nonceSeed: Word, draws: ContestDraws)
    requires 1 < e.ctx.grp.p
    ensures forall selections :: Assembled(e, contest, d, nonceSeed, selections, draws).selections == selections
  {
    forall selections ensures Assembled(e, contest, d, nonceSeed, selections, draws).selections == selections {
      AssembledSelections(e, contest, d, nonceSeed, selections, draws);
    }
  }

  lemma HoldSelections(e: Election, manifest: InternalManifest, ballot: PlaintextBallot, nonceSeed: Word, verify: bool,
                       draws: seq<ContestDraws>)
    requires 1 < e.ctx.grp.p && AllFit(DescriptionsOf(manifest, ballot), draws)
    ensures var descriptions := DescriptionsOf(manifest, ballot);
            var r := EncryptedContests(e, descriptions, NormalisedContests(ballot.contests, descriptions),
                                       nonceSeed, verify, draws);
            r.Ok? ==> forall i :: 0 <= i < |r.value| ==> r.value[i].selections != []
  {
    hide EncryptedContests;
    var descriptions := DescriptionsOf(manifest, ballot);
    EncryptedHoldSelections(e, descriptions, NormalisedContests(ballot.contests, descriptions), nonceSeed, verify,
                            draws);
  }

  // -------------------------------------------------------------------------- theorems

  /** What the theorems ask of the descriptions of a ballot's contests. */
  ghost predicate GoodDescriptions(descriptions: seq<Description>) {
    && DistinctKeys(Manifests.ContestOrder, descriptions) && Sorted(Manifests.ContestOrder, descriptions)
    && (forall d :: d in descriptions ==> Sized(d) && Manifests.Encryptable(d))
  }

  ghost predicate AllHonest(e: Election, draws: seq<ContestDraws>)
    requires 1 < e.ctx.grp.p
  {
    forall i :: 0 <= i < |draws| ==> HonestDraws(e, draws[i])
  }

  /** What a contest is that came out of encryption: in its description's place, and valid unless something is zero. */
  ghost predicate ContestFor(e: Election, d: Description, c: CiphertextContest)
    requires 1 < e.ctx.grp.p && 0 < e.ctx.grp.q
  {
    && c.sequenceOrder == d.description.sequenceOrder && c.objectId == d.description.objectId
    && |d.description.selections| <= |c.selections|
    && (forall p :: 0 <= p < |d.description.selections| ==>
          c.selections[p].objectId == d.description.GetSelections()[p].objectId)
    && ElGamal.Encrypts(e.ctx.grp, e.publicKey, c.ciphertextAccumulation, d.description.numberElected,
                        SumModQ(NoncesOf(c.GetSelections())))
    && (ContestVerifies(e.ctx, e.publicKey, c) <==> NoZeroes(c))
  }

  lemma EncryptedInMeans(e: Election, d: Description, normalised: seq<PlaintextContest>, nonceSeed: Word,
                         draws: ContestDraws)
    requires GoodElection(e) && DrawsFit(d, draws) && HonestDraws(e, draws) && Sized(d) && Manifests.Encryptable(d)
    ensures var u := EncryptedIn(e, d, normalised, nonceSeed, false, draws);
            var r := EncryptedIn(e, d, normalised, nonceSeed, true, draws);
            && (u.Ok? ==> ContestFor(e, d, u.value))
            && (r.Ok? <==> u.Ok? && NoZeroes(u.value))
            && (r.Ok? ==> r == u)
  {
    hide EncryptedContest, HonestDraws, NoZeroes, ContestVerifies, Standard, SumModQ, DrawsFit, ElGamal.Encrypts;
    var contest := FindContest(normalised, d.description.objectId);
    if contest.Ok? {
      ContestEndToEnd(e, contest.value, d, nonceSeed, draws);
      ContestOrderKept(e, contest.value, d, nonceSeed, draws);
      ContestIdsKept(e, contest.value, d, nonceSeed, draws);
    }
  }

  /** The contest stands under its description's order and identifier, and its selections under theirs. */
  lemma ContestIdsKept(e: Election, contest: PlaintextContest, d: Description, nonceSeed: Word, draws: ContestDraws)
    requires GoodElection(e) && DrawsFit(d, draws) && HonestDraws(e, draws)
    ensures var r := EncryptedContest(e, contest, d, nonceSeed, false, draws);
            r.Ok? ==> && r.value.objectId == d.description.objectId
                      && |d.description.selections| <= |r.value.selections|
                      && forall p :: 0 <= p < |d.description.selections| ==>
                           r.value.selections[p].objectId == d.description.GetSelections()[p].objectId
  {
    hide EncryptedContest, HonestDraws, Standard, ElGamal.Encrypts, PlanFor, ValidityFor, AllBits;
    if EncryptedContest(e, contest, d, nonceSeed, false, draws).Ok? {
      StandardGives(e.ctx.grp);
      SelectionsEncrypt(e, contest, d, nonceSeed, draws);
      ContestOrderKept(e, contest, d, nonceSeed, draws);
      PlanIds(contest, d, ValidityFor(contest, d) == Overvote);
    }
  }

  lemma ContestOrderKept(e: Election, contest: PlaintextContest, d: Description, nonceSeed: Word, draws: ContestDraws)
    requires 1 < e.ctx.grp.p && DrawsFit(d, draws)
    ensures var r := EncryptedContest(e, contest, d, nonceSeed, false, draws);
            r.Ok? ==> && r.value.sequenceOrder == d.description.sequenceOrder
                      && r.value.objectId == d.description.objectId
                      && r.value.descriptionHash == d.description.CryptoHash(e.ctx.sha)
                      && r.value.nonce == ContestNonce(e, d, nonceSeed)
  {
    hide EncryptedSelections, PlanFor, HashElems, Sort, MakeConstant, ElGamal.Accumulated;
  }

  lemma {:induction false} EncryptedContestsMean(e: Election, descriptions: seq<Description>,
                                                 normalised: seq<PlaintextContest>,
                                                 nonceSeed: Word, draws: seq<ContestDraws>)
    requires GoodElection(e) && AllFit(descriptions, draws) && AllHonest(e, draws)
    requires forall d :: d in descriptions ==> Sized(d) && Manifests.Encryptable(d)
    ensures var u := EncryptedContests(e, descriptions, normalised, nonceSeed, false, draws);
            var r := EncryptedContests(e, descriptions, normalised, nonceSeed, true, draws);
            && (u.Ok? ==> forall i :: 0 <= i < |descriptions| ==> ContestFor(e, descriptions[i], u.value[i]))
            && (r.Ok? <==> u.Ok? && forall i :: 0 <= i < |u.value| ==> NoZeroes(u.value[i]))
            && (r.Ok? ==> r == u)
  {
    hide EncryptedIn, HonestDraws, NoZeroes, Sized, Manifests.Encryptable, ContestFor, Standard, DrawsFit;
    StandardGives(e.ctx.grp);
    if descriptions == [] {
    } else {
      var n := |descriptions| - 1;
      EncryptedContestsMean(e, descriptions[..n], normalised, nonceSeed, draws[..n]);
      EncryptedInMeans(e, descriptions[n], normalised, nonceSeed, draws[n]);
      var front := EncryptedContests(e, descriptions[..n], normalised, nonceSeed, false, draws[..n]);
      var u := EncryptedContests(e, descriptions, normalised, nonceSeed, false, draws);
      if u.Ok? {
        assert forall i :: 0 <= i < n ==> u.value[i] == front.value[i];
      }
    }
  }

  /** Encrypted contests arrive in the strictly increasing order of their descriptions. */
  lemma ContestsInOrder(e: Election, descriptions: seq<Description>, contests: seq<CiphertextContest>)
    requires 1 < e.ctx.grp.p && 0 < e.ctx.grp.q && |contests| == |descriptions|
    requires DistinctKeys(Manifests.ContestOrder, descriptions) && Sorted(Manifests.ContestOrder, descriptions)
    requires forall i :: 0 <= i < |descriptions| ==> ContestFor(e, descriptions[i], contests[i])
    ensures Sorted(CiphertextContestOrder, contests) && DistinctKeys(CiphertextContestOrder, contests)
  {
    hide ContestVerifies, NoZeroes, SumModQ, ElGamal.Encrypts;
    forall i, j | 0 <= i < j < |contests|
      ensures CiphertextContestOrder(contests[i]) <= CiphertextContestOrder(contests[j])
      ensures CiphertextContestOrder(contests[i]) != CiphertextContestOrder(contests[j])
    {
      assert Manifests.ContestOrder(descriptions[i]) <= Manifests.ContestOrder(descriptions[j]);
      assert Manifests.ContestOrder(descriptions[i]) != Manifests.ContestOrder(descriptions[j]);
    }
  }

  /**
   * encryptBallot from end to end, for descriptions in strictly increasing order: the ballot it makes always passes
   * its own hash comparisons, so with verification it fails only where a challenge or response is zero, and
   * otherwise returns the ballot it returns without verification.
   */
  lemma BallotEndToEnd(e: Election, manifest: InternalManifest, ballot: PlaintextBallot, nonce: Word, codeSeed: Word,
                       timestamp: nat, now: Clock, draws: seq<ContestDraws>)
    requires GoodElection(e) && AllFit(DescriptionsOf(manifest, ballot), draws) && AllHonest(e, draws)
    requires GoodDescriptions(DescriptionsOf(manifest, ballot))
    ensures var u := EncryptedBallot(e, manifest, ballot, nonce, codeSeed, timestamp, now, false, draws);
            var r := EncryptedBallot(e, manifest, ballot, nonce, codeSeed, timestamp, now, true, draws);
            && (u.Ok? ==> |u.value.contests| == |DescriptionsOf(manifest, ballot)|
                          && forall i :: 0 <= i < |u.value.contests| ==>
                               ContestFor(e, DescriptionsOf(manifest, ballot)[i], u.value.contests[i]))
            && (r.Ok? <==> u.Ok? && forall i :: 0 <= i < |u.value.contests| ==> NoZeroes(u.value.contests[i]))
            && (r.Ok? ==> r == u && BallotIsValid(e.ctx, u.value, manifest.manifestHash, e.publicKey))
  {
    hide EncryptedContests, AllFit, AllHonest, NoZeroes, ContestFor, Standard, BallotIsValid, Sort, NormalisedContests,
         HashElems, Sized, Manifests.Encryptable;
    StandardGives(e.ctx.grp);
    var descriptions := DescriptionsOf(manifest, ballot);
    var normalised := NormalisedContests(ballot.contests, descriptions);
    var nonceSeed := NonceSeedFor(e, manifest, ballot, nonce);
    EncryptedContestsMean(e, descriptions, normalised, nonceSeed, draws);
    var contests := EncryptedContests(e, descriptions, normalised, nonceSeed, false, draws);
    if contests.Ok? && contests.value != [] {
      ContestsInOrder(e, descriptions, contests.value);
      forall i | 0 <= i < |contests.value| && NoZeroes(contests.value[i])
        ensures ContestVerifies(e.ctx, e.publicKey, contests.value[i])
      {
        ContestForGives(e, descriptions[i], contests.value[i]);
      }
      OrderedBallotIsValid(e.ctx, e.publicKey, ballot.objectId, ballot.styleId, manifest.manifestHash,
                           contests.value, nonce,
                           if timestamp == 0 then now else timestamp, codeSeed);
    }
  }

  /** What verification promises about any election and any draws: nothing is returned that fails its own check. */
  lemma VerifiedIsValid(e: Election, manifest: InternalManifest, ballot: PlaintextBallot, nonce: Word, codeSeed: Word,
                        timestamp: nat, now: Clock, draws: seq<ContestDraws>)
    requires 1 < e.ctx.grp.p && AllFit(DescriptionsOf(manifest, ballot), draws)
    ensures var r := EncryptedBallot(e, manifest, ballot, nonce, codeSeed, timestamp, now, true, draws);
            r.Ok? ==> && BallotIsValid(e.ctx, r.value, manifest.manifestHash, e.publicKey)
                      && forall c :: c in r.value.contests ==> ContestVerifies(e.ctx, e.publicKey, c)
  {
    hide EncryptedContests, AllFit, BallotIsValid, ContestVerifies, HashElems, Sort, Manifests.ContestsFor,
         NormalisedContests;
    var descriptions := DescriptionsOf(manifest, ballot);
    VerifiedContests(e, descriptions, NormalisedContests(ballot.contests, descriptions),
                     NonceSeedFor(e, manifest, ballot, nonce), draws);
  }

  lemma {:induction false} VerifiedContests(e: Election, descriptions: seq<Description>,
                                            normalised: seq<PlaintextContest>, nonceSeed: Word,
                                            draws: seq<ContestDraws>)
    requires 1 < e.ctx.grp.p && AllFit(descriptions, draws)
    ensures var r := EncryptedContests(e, descriptions, normalised, nonceSeed, true, draws);
            r.Ok? ==> forall c :: c in r.value ==> ContestVerifies(e.ctx, e.publicKey, c)
  {
    hide EncryptedContest, DrawsFit, ContestVerifies;
    if descriptions == [] {
    } else {
      var n := |descriptions| - 1;
      VerifiedContests(e, descriptions[..n], normalised, nonceSeed, draws[..n]);
      var contest := FindContest(normalised, descriptions[n].description.objectId);
      if contest.Ok? {
        VerifiedContest(e, contest.value, descriptions[n], nonceSeed, draws[n]);
      }
    }
  }

  lemma VerifiedContest(e: Election, contest: PlaintextContest, d: Description, nonceSeed: Word, draws: ContestDraws)
    requires 1 < e.ctx.grp.p && DrawsFit(d, draws)
    ensures var r := EncryptedContest(e, contest, d, nonceSeed, true, draws);
            r.Ok? ==> ContestVerifies(e.ctx, e.publicKey, r.value)
  {
    hide EncryptedSelections, PlanFor, HashElems, Sort, ContestIsValid, SelectionIsValid, ContestNonce;
    var plan := PlanFor(contest, d, ValidityFor(contest, d) == Overvote);
    ContestCases(e, contest, d, nonceSeed, true, draws);
    VerifiedSelections(e, plan, ContestNonce(e, d, nonceSeed), draws.sources);
    AssembledAll(e, contest, d, nonceSeed, draws);
  }

  lemma {:induction false} VerifiedSelections(e: Election, plan: seq<Planned>, nonceSeed: Word, sources: seq<Source>)
    requires 1 < e.ctx.grp.p && |sources| == |plan|
    ensures var r := EncryptedSelections(e, plan, nonceSeed, true, sources);
            r.Ok? ==> forall s :: s in r.value ==> SelectionIsValid(e.ctx, s, s.descriptionHash, e.publicKey)
  {
    hide UnverifiedSelection, SelectionIsValid;
    if plan == [] {
    } else {
      var n := |plan| - 1;
      VerifiedSelections(e, plan[..n], nonceSeed, sources[..n]);
      VerifiedSelection(e, plan[n], nonceSeed, sources[n]);
    }
  }

  lemma VerifiedSelection(e: Election, p: Planned, nonceSeed: Word, source: Source)
    requires 1 < e.ctx.grp.p
    ensures var r := EncryptedSelection(e, p, nonceSeed, true, source);
            r.Ok? ==> && r.value.descriptionHash == p.description.CryptoHash(e.ctx.sha)
                      && SelectionIsValid(e.ctx, r.value, r.value.descriptionHash, e.publicKey)
  {
    hide HashElems, DisjunctiveIsValid, Make;
  }

  // When encryption succeeds, for any election and whatever was drawn.

  /** The contest that is encrypted for a description, if encryptContest returns one. */
  predicate ContestPossible(e: Election, d: Description, normalised: seq<PlaintextContest>, nonceSeed: Word,
                            draws: ContestDraws)
    requires DrawsFit(d, draws)
  {
    var contest := FindContest(normalised, d.description.objectId);
    && contest.Ok?
    && (ValidityFor(contest.value, d) == Success || ValidityFor(contest.value, d) == Overvote)
    && ContestUsable(e, contest.value, d, nonceSeed, draws)
  }

  lemma {:induction false} ContestsSucceed(e: Election, descriptions: seq<Description>,
                                           normalised: seq<PlaintextContest>, nonceSeed: Word, draws: seq<ContestDraws>)
    requires 1 < e.ctx.grp.p && AllFit(descriptions, draws)
    ensures EncryptedContests(e, descriptions, normalised, nonceSeed, false, draws).Ok? <==>
            forall i :: 0 <= i < |descriptions| ==> ContestPossible(e, descriptions[i], normalised, nonceSeed, draws[i])
  {
    hide EncryptedContest, DrawsFit, ContestUsable, ValidityFor;
    if descriptions == [] {
    } else {
      var n := |descriptions| - 1;
      ContestsSucceed(e, descriptions[..n], normalised, nonceSeed, draws[..n]);
      assert forall i :: 0 <= i < n ==> descriptions[..n][i] == descriptions[i] && draws[..n][i] == draws[i];
      var contest := FindContest(normalised, descriptions[n].description.objectId);
      if contest.Ok? {
        ContestSucceeds(e, contest.value, descriptions[n], nonceSeed, draws[n]);
      }
    }
  }

  lemma BallotPossible(e: Election, manifest: InternalManifest, ballot: PlaintextBallot, nonce: Word, codeSeed: Word,
                       timestamp: nat, now: Clock, draws: seq<ContestDraws>)
    requires 1 < e.ctx.grp.p && AllFit(DescriptionsOf(manifest, ballot), draws)
    ensures var descriptions := DescriptionsOf(manifest, ballot);
            EncryptedBallot(e, manifest, ballot, nonce, codeSeed, timestamp, now, false, draws).Ok? <==>
            && descriptions != []
            && forall i :: 0 <= i < |descriptions| ==>
                 ContestPossible(e, descriptions[i], NormalisedContests(ballot.contests, descriptions),
                                 NonceSeedFor(e, manifest, ballot, nonce), draws[i])
  {
    hide EncryptedContests, ContestPossible, DrawsFit, HashElems, Sort, NormalisedContests;
    var descriptions := DescriptionsOf(manifest, ballot);
    ContestsSucceed(e, descriptions, NormalisedContests(ballot.contests, descriptions),
                    NonceSeedFor(e, manifest, ballot, nonce), draws);
  }

  /** A normalised contest is found under its identifier and always passes validation, possibly as an over-vote. */
  lemma NormalisedPossible(e: Election, contests: seq<PlaintextContest>, descriptions: seq<Description>,
                           nonceSeed: Word, draws: ContestDraws, i: nat)
    requires i < |descriptions| && DrawsFit(descriptions[i], draws) && DistinctContestIds(descriptions)
    ensures var normalised := NormalisedContests(contests, descriptions);
            ContestPossible(e, descriptions[i], normalised, nonceSeed, draws)
            <==> ContestUsable(e, normalised[i], descriptions[i], nonceSeed, draws)
  {
    hide ContestUsable, DrawsFit, NormalisedFor, Sort;
    var normalised := NormalisedContests(contests, descriptions);
    forall j | 0 <= j < |descriptions| ensures normalised[j].objectId == descriptions[j].description.objectId {
      NormalisedId(contests, descriptions[j].description);
    }
    FoundAt(normalised, i);
    NormalisedIsSized(contests, descriptions[i].description);
  }

  lemma NormalisedIsSized(contests: seq<PlaintextContest>, description: Manifests.ContestDescription)
    ensures |NormalisedFor(contests, description).selections| == |description.selections|
  {
    hide Sort;
  }

  /**
   * Exactly when encryptBallot, without verification, returns a ballot, for distinct contest identifiers: the style
   * exists and has contests, and every one of them, as normalised, has something to encrypt, only bits, and no fresh
   * selection whose nonce is zero.
   */
  lemma BallotSucceeds(e: Election, manifest: InternalManifest, ballot: PlaintextBallot, nonce: Word, codeSeed: Word,
                       timestamp: nat, now: Clock, draws: seq<ContestDraws>)
    requires 1 < e.ctx.grp.p && AllFit(DescriptionsOf(manifest, ballot), draws)
    requires DistinctContestIds(DescriptionsOf(manifest, ballot))
    ensures var descriptions := DescriptionsOf(manifest, ballot);
            EncryptedBallot(e, manifest, ballot, nonce, codeSeed, timestamp, now, false, draws).Ok? <==>
            && descriptions != []
            && forall i :: 0 <= i < |descriptions| ==>
                 ContestUsable(e, NormalisedContests(ballot.contests, descriptions)[i], descriptions[i],
                               NonceSeedFor(e, manifest, ballot, nonce), draws[i])
  {
    hide EncryptedBallot, ContestPossible, ContestUsable, DrawsFit, NormalisedContests, Sort;
    var descriptions := DescriptionsOf(manifest, ballot);
    BallotPossible(e, manifest, ballot, nonce, codeSeed, timestamp, now, draws);
    forall i | 0 <= i < |descriptions|
      ensures ContestPossible(e, descriptions[i], NormalisedContests(ballot.contests, descriptions),
                              NonceSeedFor(e, manifest, ballot, nonce), draws[i])
              <==> ContestUsable(e, NormalisedContests(ballot.contests, descriptions)[i], descriptions[i],
                                 NonceSeedFor(e, manifest, ballot, nonce), draws[i])
    {
      NormalisedPossible(e, ballot.contests, descriptions, NonceSeedFor(e, manifest, ballot, nonce), draws[i], i);
    }
  }

  lemma ContestForGives(e: Election, d: Description, c: CiphertextContest)
    requires 1 < e.ctx.grp.p && 0 < e.ctx.grp.q && ContestFor(e, d, c)
    ensures ContestVerifies(e.ctx, e.publicKey, c) <==> NoZeroes(c)
  {
  }

  /** A valid manifest and a style that names no district twice are all that the theorem needs. */
  lemma ValidManifestSuffices(m: Manifests.Manifest, manifestHash: Word, ballot: PlaintextBallot, s: nat)
    requires Manifests.ValidManifest(m)
    requires forall c :: c in Manifests.InternalFrom(m, manifestHash).contests ==> Sized(c)
    requires s < |m.ballotStyles| && m.ballotStyles[s].objectId == ballot.styleId
    requires Manifests.DistinctUnits(m.ballotStyles[s].geopoliticalUnitIds)
    ensures var manifest := Manifests.InternalFrom(m, manifestHash);
            && Manifests.ContestsFor(manifest, ballot.styleId).Ok?
            && GoodDescriptions(DescriptionsOf(manifest, ballot))
            && DistinctContestIds(DescriptionsOf(manifest, ballot))
            && (forall d :: d in DescriptionsOf(manifest, ballot) <==>
                  && d in manifest.contests
                  && d.description.electoralDistrictId in m.ballotStyles[s].geopoliticalUnitIds)
  {
    hide Sort, Sized, Manifests.Encryptable, Manifests.Placeholders, Manifests.ContestsFor;
    var manifest := Manifests.InternalFrom(m, manifestHash);
    Manifests.ValidManifestGives(m, manifestHash);
    OnlyStyle(m, ballot.styleId, s);
    Manifests.ContestsForStyle(manifest, ballot.styleId, s);
    var descriptions := DescriptionsOf(manifest, ballot);
    forall i, j | 0 <= i < j < |descriptions|
      ensures descriptions[i].description.objectId != descriptions[j].description.objectId
    {
      assert Manifests.ContestOrder(descriptions[i]) != Manifests.ContestOrder(descriptions[j]);
      assert descriptions[i] in manifest.contests && descriptions[j] in manifest.contests;
    }
  }

  /** In a valid manifest only one style has the identifier, and it names districts. */
  lemma OnlyStyle(m: Manifests.Manifest, styleId: string, s: nat)
    requires Manifests.ValidManifest(m) && s < |m.ballotStyles| && m.ballotStyles[s].objectId == styleId
    ensures Manifests.IsStyle(m.ballotStyles, s, styleId) && m.ballotStyles[s].geopoliticalUnitIds != []
  {
    hide Manifests.ValidContest;
    assert Manifests.ValidStyle(m.ballotStyles[s], m.geopoliticalUnits);
    forall j | 0 <= j < s ensures m.ballotStyles[j].objectId != styleId {
      assert Manifests.StyleIds(m.ballotStyles)[j] != Manifests.StyleIds(m.ballotStyles)[s];
    }
  }

  // When sorting is determinate: whatever algorithm std::sort uses, it finds the one order there is.

  predicate DistinctPlanOrders(plan: seq<Planned>) {
    forall i, j :: 0 <= i < j < |plan| ==> plan[i].description.sequenceOrder != plan[j].description.sequenceOrder
  }

  /** If no placeholder takes the order of a selection, no two selections or placeholders share an order. */
  lemma OrdersDistinct(c: Manifests.ContestDescription)
    requires Manifests.ValidContest(c) && c.numberElected < UINT64 - UINT32 && Manifests.PlaceholdersApart(c)
    ensures var selections := Sort(Manifests.SelectionOrder, c.selections);
            var placeholders := Sort(Manifests.SelectionOrder, Manifests.Placeholders(c));
            Manifests.Distinct(Manifests.SelectionOrders(selections + placeholders))
  {
    hide Manifests.Placeholders, Sort;
    var selections := Sort(Manifests.SelectionOrder, c.selections);
    var placeholders := Sort(Manifests.SelectionOrder, Manifests.Placeholders(c));
    var all := selections + placeholders;
    Manifests.PlaceholdersFollowSelections(c);
    SortedOrders(c.selections);
    SortedOrders(Manifests.Placeholders(c));
    forall i, j | 0 <= i < j < |all| ensures Manifests.SelectionOrders(all)[i] != Manifests.SelectionOrders(all)[j] {
      if j < |selections| {
        assert Manifests.SelectionOrders(selections)[i] != Manifests.SelectionOrders(selections)[j];
      } else if i >= |selections| {
        assert Manifests.SelectionOrders(placeholders)[i - |selections|]
               != Manifests.SelectionOrders(placeholders)[j - |selections|];
      } else {
        var a := MemberOf(c.selections, selections, i);
        var b := MemberOf(Manifests.Placeholders(c), placeholders, j - |selections|);
        assert c.selections[a].sequenceOrder != Manifests.Placeholders(c)[b].sequenceOrder;
      }
    }
  }

  lemma PlanOrdersDistinct(contest: PlaintextContest, c: Manifests.ContestDescription, overvote: bool)
    requires Manifests.ValidContest(c) && c.numberElected < UINT64 - UINT32 && Manifests.PlaceholdersApart(c)
    ensures DistinctPlanOrders(PlanFor(contest, Manifests.WithPlaceholders(c), overvote))
  {
    hide Manifests.Placeholders, Normalised, Sort, Chosen, VotesOf, Manifests.ValidContest, Manifests.PlaceholdersApart;
    var d := Manifests.WithPlaceholders(c);
    var plan := PlanFor(contest, d, overvote);
    var all := d.description.GetSelections() + d.GetPlaceholders();
    OrdersDistinct(c);
    assert forall i :: 0 <= i < |plan| ==> plan[i].description == all[i];
    forall i, j | 0 <= i < j < |plan| ensures plan[i].description.sequenceOrder != plan[j].description.sequenceOrder {
      assert Manifests.SelectionOrders(all)[i] != Manifests.SelectionOrders(all)[j];
    }
  }

  /** Otherwise a selection and a placeholder are planned for the same place. */
  lemma SharedOrder(contest: PlaintextContest, c: Manifests.ContestDescription, overvote: bool) returns (a: nat, b: nat)
    requires !Manifests.PlaceholdersApart(c)
    ensures var d := Manifests.WithPlaceholders(c);
            var plan := PlanFor(contest, d, overvote);
            && a < b < |plan| && plan[a].isPlaceholder != plan[b].isPlaceholder
            && plan[a].description.sequenceOrder == plan[b].description.sequenceOrder
  {
    hide Manifests.Placeholders, Normalised, Sort, Chosen, VotesOf;
    var placeholders := Manifests.Placeholders(c);
    var i, j :| 0 <= i < |c.selections| && 0 <= j < c.numberElected
                && c.selections[i].sequenceOrder == placeholders[j].sequenceOrder;
    a := PlaceInSort(c.selections, i);
    b := PlaceInSort(placeholders, j);
    b := |c.selections| + b;
  }

  lemma PlaceInSort(xs: seq<SelectionDescription>, i: nat) returns (j: nat)
    requires i < |xs|
    ensures j < |xs| && Sort(Manifests.SelectionOrder, xs)[j] == xs[i]
  {
    hide Sort;
    SortSorts(Manifests.SelectionOrder, xs);
    assert xs[i] in multiset(Sort(Manifests.SelectionOrder, xs));
    j :| 0 <= j < |xs| && Sort(Manifests.SelectionOrder, xs)[j] == xs[i];
  }

  lemma MemberOf(xs: seq<SelectionDescription>, sorted: seq<SelectionDescription>, i: nat) returns (j: nat)
    requires sorted == Sort(Manifests.SelectionOrder, xs) && i < |sorted|
    ensures j < |xs| && xs[j] == sorted[i]
  {
    SortSorts(Manifests.SelectionOrder, xs);
    assert sorted[i] in multiset(xs);
    j :| 0 <= j < |xs| && xs[j] == sorted[i];
  }

  lemma SortedOrders(xs: seq<SelectionDescription>)
    requires Manifests.Distinct(Manifests.SelectionOrders(xs))
    ensures Manifests.Distinct(Manifests.SelectionOrders(Sort(Manifests.SelectionOrder, xs)))
  {
    hide Sort;
    var sorted := Sort(Manifests.SelectionOrder, xs);
    SortSorts(Manifests.SelectionOrder, xs);
    assert DistinctKeys(Manifests.SelectionOrder, xs) by {
      forall i, j | 0 <= i < j < |xs| ensures Manifests.SelectionOrder(xs[i]) != Manifests.SelectionOrder(xs[j]) {
        assert Manifests.SelectionOrders(xs)[i] != Manifests.SelectionOrders(xs)[j];
      }
    }
    Manifests.DistinctPermuted(Manifests.SelectionOrder, xs, sorted);
    forall i, j | 0 <= i < j < |sorted| ensures sorted[i].sequenceOrder != sorted[j].sequenceOrder {
      assert Manifests.SelectionOrder(sorted[i]) != Manifests.SelectionOrder(sorted[j]);
    }
  }

  /**
   * For a contest of a valid manifest, every way of sorting the encrypted selections gives the sequence the contest
   * was made and is checked with exactly when no placeholder takes the order of a selection.
   */
  lemma SelectionOrderIsDeterminate(e: Election, contest: PlaintextContest,
                                    c: Manifests.ContestDescription, nonceSeed: Word, draws: ContestDraws)
    requires GoodElection(e) && HonestDraws(e, draws)
    requires Manifests.ValidContest(c) && c.numberElected < UINT64 - UINT32
    requires var d := Manifests.WithPlaceholders(c);
             DrawsFit(d, draws) && EncryptedContest(e, contest, d, nonceSeed, false, draws).Ok?
    ensures var d := Manifests.WithPlaceholders(c);
            OneArrangement(CiphertextOrder, EncryptedContest(e, contest, d, nonceSeed, false, draws).value.selections)
            <==> Manifests.PlaceholdersApart(c)
  {
    hide EncryptedContest, Sort, HonestDraws, PlanFor, Manifests.Placeholders, Manifests.ValidContest, DrawsFit,
         ValidityFor, Manifests.PlaceholdersApart, OneArrangement, Standard, ElGamal.Encrypts, AllBits;
    var d := Manifests.WithPlaceholders(c);
    var selections := EncryptedContest(e, contest, d, nonceSeed, false, draws).value.selections;
    StandardGives(e.ctx.grp);
    SelectionsEncrypt(e, contest, d, nonceSeed, draws);
    SortIsDetermined(CiphertextOrder, selections);
    if Manifests.PlaceholdersApart(c) {
      PlanOrdersDistinct(contest, c, ValidityFor(contest, d) == Overvote);
      assert DistinctKeys(CiphertextOrder, selections);
    } else {
      var a, b := SharedOrder(contest, c, ValidityFor(contest, d) == Overvote);
      assert CiphertextOrder(selections[a]) == CiphertextOrder(selections[b]) && selections[a] != selections[b];
    }
  }
}
