/** Compact ballots: src/electionguard/ballot_compact.cpp and encryptCompactBallot of src/electionguard/encrypt.cpp. */
module CompactBallots {
  import opened ElementQ
  import opened ElementP
  import opened Hashing
  import opened ChaumPedersen
  import opened Precomputed
  import opened PrecomputeBuffers
  import opened Permutations
  import opened Sorting
  import opened Ballots
  import opened Plaintexts
  import opened ContestEncryption
  import opened BallotEncryption
  import Manifests
  import ElGamal
  import HashedElGamal

  datatype CompactPlaintextBallot = CompactPlaintextBallot(objectId: string, styleId: string, selections: seq<nat>,
                                                           writeIns: seq<string>)

  datatype BallotBoxState = Cast | Spoiled | Unknown

  datatype CompactCiphertextBallot = CompactCiphertextBallot(
    plaintext: CompactPlaintextBallot, ballotBoxState: BallotBoxState, ballotCodeSeed: Word, ballotCode: nat,
    timestamp: nat, nonce: Word)

  // ------------------------------------------------------------------- compressing

  function FlatVotes(contests: seq<PlaintextContest>): seq<nat> {
    if contests == [] then [] else FlatVotes(contests[..|contests| - 1]) + VotesIn(contests[|contests| - 1].selections)
  }

  function FlatWriteIns(contests: seq<PlaintextContest>): seq<string> {
    if contests == [] then []
    else FlatWriteIns(contests[..|contests| - 1]) + WriteInsIn(contests[|contests| - 1].selections)
  }

  function WriteInsIn(selections: seq<PlaintextSelection>): seq<string> {
    Map((s: PlaintextSelection) => s.writeIn, selections)
  }

  function Compressed(ballot: PlaintextBallot): CompactPlaintextBallot {
    CompactPlaintextBallot(ballot.objectId, ballot.styleId, FlatVotes(ballot.contests), FlatWriteIns(ballot.contests))
  }

  method CompressPlaintextBallot(plaintext: PlaintextBallot) returns (r: CompactPlaintextBallot)
    ensures r == Compressed(plaintext)
  {
    hide FlatVotes, FlatWriteIns;
    NothingFlat(plaintext.contests);
    var selections, writeIns := [], [];
    for i := 0 to |plaintext.contests|
      invariant selections == FlatVotes(plaintext.contests[..i]) && writeIns == FlatWriteIns(plaintext.contests[..i])
    {
      var contest := plaintext.contests[i];
      ghost var votesBefore, writeInsBefore := selections, writeIns;
      for j := 0 to |contest.selections|
        invariant selections == votesBefore + VotesIn(contest.selections)[..j]
        invariant writeIns == writeInsBefore + WriteInsIn(contest.selections)[..j]
      {
        selections := selections + [contest.selections[j].vote];
        writeIns := writeIns + [contest.selections[j].writeIn];
      }
      FlatStep(plaintext.contests[..i + 1]);
      assert plaintext.contests[..i + 1][..i] == plaintext.contests[..i];
    }
    assert plaintext.contests[..|plaintext.contests|] == plaintext.contests;
    r := CompactPlaintextBallot(plaintext.objectId, plaintext.styleId, selections, writeIns);
  }

  lemma NothingFlat(contests: seq<PlaintextContest>)
    ensures FlatVotes(contests[..0]) == [] && FlatWriteIns(contests[..0]) == []
  {
  }

  lemma FlatStep(contests: seq<PlaintextContest>)
    requires contests != []
    ensures var n := |contests| - 1;
            && FlatVotes(contests) == FlatVotes(contests[..n]) + VotesIn(contests[n].selections)
            && FlatWriteIns(contests) == FlatWriteIns(contests[..n]) + WriteInsIn(contests[n].selections)
  {
  }

  // --------------------------------------------------------------------- expanding

  function SizeBefore(descriptions: seq<Description>): nat {
    if descriptions == [] then 0
    else SizeBefore(descriptions[..|descriptions| - 1]) + |descriptions[|descriptions| - 1].description.selections|
  }

  function ExpandedContest(description: Manifests.ContestDescription, votes: seq<nat>,
                           writeIns: seq<string>): PlaintextContest
    requires |votes| == |writeIns| == |description.selections|
  {
    PlaintextContest(description.objectId, seq(|votes|, j requires 0 <= j < |votes| =>
      PlaintextSelection(description.GetSelections()[j].objectId, votes[j], false, writeIns[j])))
  }

  /** Reading past the end of either vector throws. */
  function ExpandedContests(descriptions: seq<Description>, votes: seq<nat>,
                            writeIns: seq<string>): (r: Result<seq<PlaintextContest>>)
    ensures r.Ok? <==> SizeBefore(descriptions) <= |votes| && SizeBefore(descriptions) <= |writeIns|
  {
    if descriptions == [] then Ok([])
    else
      var n := |descriptions| - 1;
      var from, to := SizeBefore(descriptions[..n]), SizeBefore(descriptions);
      var front := ExpandedContests(descriptions[..n], votes, writeIns);
      if front.Err? || to > |votes| || to > |writeIns| then Err("vector::at")
      else Ok(front.value + [ExpandedContest(descriptions[n].description, votes[from..to], writeIns[from..to])])
  }

  function Expanded(compact: CompactPlaintextBallot, manifest: InternalManifest): Result<PlaintextBallot> {
    var descriptions := Manifests.ContestsFor(manifest, compact.styleId);
    if descriptions.Err? then Err(descriptions.reason)
    else
      var contests := ExpandedContests(descriptions.value, compact.selections, compact.writeIns);
      if contests.Err? then Err(contests.reason)
      else Ok(PlaintextBallot(compact.objectId, compact.styleId, contests.value))
  }

  lemma SizeStep(descriptions: seq<Description>, i: nat)
    requires i < |descriptions|
    ensures SizeBefore(descriptions[..i + 1])
            == SizeBefore(descriptions[..i]) + |descriptions[i].description.selections|
    ensures SizeBefore(descriptions[..i]) <= SizeBefore(descriptions)
    ensures SizeBefore(descriptions[..i + 1]) <= SizeBefore(descriptions)
  {
    assert descriptions[..i + 1][..i] == descriptions[..i];
    SizeGrows(descriptions, i);
    SizeGrows(descriptions, i + 1);
  }

  lemma {:induction false} SizeGrows(descriptions: seq<Description>, i: nat)
    requires i <= |descriptions|
    ensures SizeBefore(descriptions[..i]) <= SizeBefore(descriptions)
  {
    if i == |descriptions| {
      assert descriptions[..i] == descriptions;
    } else {
      assert descriptions[..|descriptions| - 1][..i] == descriptions[..i];
      SizeGrows(descriptions[..|descriptions| - 1], i);
    }
  }

  lemma ExpandStep(descriptions: seq<Description>, votes: seq<nat>, writeIns: seq<string>, i: nat)
    requires i < |descriptions|
    ensures var from, to := SizeBefore(descriptions[..i]), SizeBefore(descriptions[..i + 1]);
            var front := ExpandedContests(descriptions[..i], votes, writeIns);
            to == from + |descriptions[i].description.selections|
            && ExpandedContests(descriptions[..i + 1], votes, writeIns)
               == if front.Err? || to > |votes| || to > |writeIns| then Err("vector::at")
                  else Ok(front.value +
                          [ExpandedContest(descriptions[i].description, votes[from..to], writeIns[from..to])])
  {
    hide ExpandedContest;
    assert descriptions[..i + 1][..i] == descriptions[..i];
  }

  method ExpandCompactPlaintextBallot(compact: CompactPlaintextBallot, manifest: InternalManifest)
      returns (r: Result<PlaintextBallot>)
    ensures r == Expanded(compact, manifest)
  {
    hide Sort, ExpandedContests, SizeBefore;
    var descriptions := Manifests.GetContestsFor(manifest, compact.styleId);
    if descriptions.Err? {
      return Err(descriptions.reason);
    }
    var contests := [];
    var index := 0;
    NothingExpanded(descriptions.value, compact.selections, compact.writeIns);
    for i := 0 to |descriptions.value|
      invariant ExpandedContests(descriptions.value[..i], compact.selections, compact.writeIns) == Ok(contests)
      invariant index == SizeBefore(descriptions.value[..i])
    {
      var all := descriptions.value;
      var description := all[i].description;
      SizeStep(all, i);
      ExpandStep(all, compact.selections, compact.writeIns, i);
      ghost var from := index;
      var selections := [];
      var selectionDescriptions := description.GetSelections();
      for j := 0 to |selectionDescriptions|
        invariant index == from + j && index <= |compact.selections| && index <= |compact.writeIns|
        invariant |selections| == j
        invariant forall l :: 0 <= l < j ==>
                    selections[l] == PlaintextSelection(selectionDescriptions[l].objectId,
                                                        compact.selections[from + l], false,
                                                        compact.writeIns[from + l])
      {
        if index >= |compact.selections| || index >= |compact.writeIns| {
          assert ExpandedContests(all, compact.selections, compact.writeIns).Err?;
          ExpandError(all, compact.selections, compact.writeIns);
          return Err("vector::at");
        }
        selections := selections +
            [PlaintextSelection(selectionDescriptions[j].objectId, compact.selections[index], false,
                                                       compact.writeIns[index])];
        index := index + 1;
      }
      assert PlaintextContest(description.objectId, selections)
             == ExpandedContest(description, compact.selections[from..index], compact.writeIns[from..index]);
      contests := contests + [PlaintextContest(description.objectId, selections)];
    }
    assert descriptions.value[..|descriptions.value|] == descriptions.value;
    r := Ok(PlaintextBallot(compact.objectId, compact.styleId, contests));
  }

  lemma NothingExpanded(descriptions: seq<Description>, votes: seq<nat>, writeIns: seq<string>)
    ensures ExpandedContests(descriptions[..0], votes, writeIns) == Ok([]) && SizeBefore(descriptions[..0]) == 0
  {
  }

  lemma ExpandError(descriptions: seq<Description>, votes: seq<nat>, writeIns: seq<string>)
    ensures ExpandedContests(descriptions, votes, writeIns).Err?
            ==> ExpandedContests(descriptions, votes, writeIns) == Err("vector::at")
  {
  }

  // ------------------------------------------------------- plaintext round trip

  /** The flag of a selection is the one thing that a compact ballot does not keep. */
  function Plain(s: PlaintextSelection): PlaintextSelection {
    s.(isPlaceholder := false)
  }

  function PlainContest(c: PlaintextContest): PlaintextContest {
    PlaintextContest(c.objectId, Map(Plain, c.selections))
  }

  function PlainBallot(b: PlaintextBallot): PlaintextBallot {
    PlaintextBallot(b.objectId, b.styleId, Map(PlainContest, b.contests))
  }

  predicate Matches(c: PlaintextContest, description: Manifests.ContestDescription) {
    && c.objectId == description.objectId && |c.selections| == |description.selections|
    && forall j :: 0 <= j < |c.selections| ==> c.selections[j].objectId == description.GetSelections()[j].objectId
  }

  lemma {:induction false} FlatSizes(contests: seq<PlaintextContest>, descriptions: seq<Description>)
    requires |contests| == |descriptions|
    requires forall i :: 0 <= i < |contests| ==> Matches(contests[i], descriptions[i].description)
    ensures |FlatVotes(contests)| == |FlatWriteIns(contests)| == SizeBefore(descriptions)
  {
    hide Sort;
    if contests == [] {
    } else {
      FlatSizes(contests[..|contests| - 1], descriptions[..|descriptions| - 1]);
    }
  }

  /** The votes of the last contest are found behind those of the contests before. */
  lemma LastSlice<T>(front: seq<T>, last: seq<T>, more: seq<T>)
    ensures (front + last + more)[|front|..|front| + |last|] == last
    ensures front + last + more == front + (last + more)
  {
  }

  lemma {:induction false} ExpandFlat(contests: seq<PlaintextContest>, descriptions: seq<Description>,
                                      moreVotes: seq<nat>, moreWriteIns: seq<string>)
    requires |contests| == |descriptions|
    requires forall i :: 0 <= i < |contests| ==> Matches(contests[i], descriptions[i].description)
    ensures ExpandedContests(descriptions, FlatVotes(contests) + moreVotes, FlatWriteIns(contests) + moreWriteIns)
            == Ok(Map(PlainContest, contests))
  {
    hide Sort, Matches, PlainContest, ExpandedContest, VotesIn, WriteInsIn, ExpandedContests, FlatVotes, FlatWriteIns,
         SizeBefore;
    if contests == [] {
      NothingExpanded(descriptions, FlatVotes(contests) + moreVotes, FlatWriteIns(contests) + moreWriteIns);
      assert descriptions[..0] == descriptions;
    } else {
      var n := |contests| - 1;
      var last := contests[n];
      var votes, writeIns := VotesIn(last.selections), WriteInsIn(last.selections);
      var allVotes, allWriteIns := FlatVotes(contests) + moreVotes, FlatWriteIns(contests) + moreWriteIns;
      ExpandFlat(contests[..n], descriptions[..n], votes + moreVotes, writeIns + moreWriteIns);
      FlatSizes(contests[..n], descriptions[..n]);
      FlatStep(contests);
      LastSlice(FlatVotes(contests[..n]), votes, moreVotes);
      LastSlice(FlatWriteIns(contests[..n]), writeIns, moreWriteIns);
      ExpandStep(descriptions, allVotes, allWriteIns, n);
      LastExpanded(last, descriptions[n].description);
      MapAppend(PlainContest, contests[..n], last);
      assert contests == contests[..n] + [last] && descriptions[..n + 1] == descriptions;
    }
  }

  lemma LastExpanded(c: PlaintextContest, description: Manifests.ContestDescription)
    requires Matches(c, description)
    ensures |VotesIn(c.selections)| == |WriteInsIn(c.selections)| == |description.selections|
    ensures ExpandedContest(description, VotesIn(c.selections), WriteInsIn(c.selections)) == PlainContest(c)
  {
    hide Sort;
  }

  /** Expanding what was compressed returns every identifier, vote and write-in of a normalised ballot. */
  lemma CompactRoundTrip(ballot: PlaintextBallot, manifest: InternalManifest)
    requires NormalisedBallot(ballot, manifest).Ok?
    ensures var n := NormalisedBallot(ballot, manifest).value;
            Expanded(Compressed(n), manifest) == Ok(PlainBallot(n))
  {
    hide Sort, Manifests.ContestsFor;
    var n := NormalisedBallot(ballot, manifest).value;
    var descriptions := Manifests.ContestsFor(manifest, ballot.styleId).value;
    forall i | 0 <= i < |descriptions| ensures Matches(n.contests[i], descriptions[i].description) {
      NormalisedMatches(ballot.contests, descriptions[i].description);
    }
    ExpandFlat(n.contests, descriptions, [], []);
    assert FlatVotes(n.contests) + [] == FlatVotes(n.contests) &&
           FlatWriteIns(n.contests) + [] == FlatWriteIns(n.contests);
  }

  lemma NormalisedMatches(contests: seq<PlaintextContest>, description: Manifests.ContestDescription)
    ensures Matches(NormalisedFor(contests, description), description)
  {
    hide Sort;
  }

  // --------------------------------------------- encryption does not see the flag

  lemma {:induction false} ChosenPlain(selections: seq<PlaintextSelection>, id: string)
    ensures Chosen(Map(Plain, selections), id) == Plain(Chosen(selections, id))
  {
    if selections == [] {
    } else {
      assert Map(Plain, selections)[1..] == Map(Plain, selections[1..]);
      ChosenPlain(selections[1..], id);
    }
  }

  lemma {:induction false} TotalPlain(measure: Measure, selections: seq<PlaintextSelection>)
    ensures Total(measure, Map(Plain, selections)) == Total(measure, selections)
  {
    if selections == [] {
    } else {
      var n := |selections| - 1;
      assert Map(Plain, selections)[..n] == Map(Plain, selections[..n]);
      TotalPlain(measure, selections[..n]);
    }
  }

  lemma NormalisedPlain(contest: PlaintextContest, description: Manifests.ContestDescription)
    ensures Normalised(PlainContest(contest), description) == PlainContest(Normalised(contest, description))
  {
    hide Sort;
    forall id: string ensures Chosen(Map(Plain, contest.selections), id) == Plain(Chosen(contest.selections, id)) {
      ChosenPlain(contest.selections, id);
    }
  }

  lemma {:induction false} FindPlain(contests: seq<PlaintextContest>, id: string)
    ensures FindContest(Map(PlainContest, contests), id)
            == match FindContest(contests, id) case Ok(c) => Ok(PlainContest(c)) case Err(reason) => Err(reason)
  {
    if contests == [] {
    } else {
      assert Map(PlainContest, contests)[1..] == Map(PlainContest, contests[1..]);
      FindPlain(contests[1..], id);
    }
  }

  lemma NormalisedContestsPlain(contests: seq<PlaintextContest>, descriptions: seq<Description>)
    ensures NormalisedContests(Map(PlainContest, contests), descriptions)
            == Map(PlainContest, NormalisedContests(contests, descriptions))
  {
    hide Normalised;
    forall i | 0 <= i < |descriptions|
      ensures NormalisedFor(Map(PlainContest, contests), descriptions[i].description)
              == PlainContest(NormalisedFor(contests, descriptions[i].description))
    {
      var description := descriptions[i].description;
      FindPlain(contests, description.objectId);
      var found := FindContest(contests, description.objectId);
      var source := if found.Ok? then found.value else PlaintextContest(description.objectId, []);
      NormalisedPlain(source, description);
      assert found.Err? ==> PlainContest(source) == source;
    }
  }

  /** The plan of a contest and its validity are the same without the flags. */
  lemma PlanPlain(contest: PlaintextContest, d: Description, overvote: bool)
    ensures PlanFor(PlainContest(contest), d, overvote) == PlanFor(contest, d, overvote)
    ensures ValidityFor(PlainContest(contest), d) == ValidityFor(contest, d)
  {
    hide Sort;
    TotalPlain(Votes, contest.selections);
    TotalPlain(Marks, contest.selections);
    NormalisedPlain(contest, d.description);
    var normalised := Normalised(contest, d.description).selections;
    forall i | 0 <= i < |d.description.selections|
      ensures Chosen(Map(Plain, normalised), d.description.GetSelections()[i].objectId).vote
              == Chosen(normalised, d.description.GetSelections()[i].objectId).vote
    {
      ChosenPlain(normalised, d.description.GetSelections()[i].objectId);
    }
    assert RealPlanFor(PlainContest(contest), d, overvote) == RealPlanFor(contest, d, overvote);
  }

  // -------------------------------------------------------- compact ciphertext ballots

  /** No selection was encrypted with a precomputed bundle. */
  predicate AllFresh(draws: seq<ContestDraws>) {
    forall i :: 0 <= i < |draws| ==> Fresh(draws[i])
  }

  predicate Fresh(draws: ContestDraws) {
    forall i :: 0 <= i < |draws.sources| ==> draws.sources[i].Random?
  }

  /** An empty queue of bundles gives fresh draws. */
  lemma EmptyQueueIsFresh(descriptions: seq<Description>, draws: seq<ContestDraws>, triples: seq<Triple>)
    requires BallotDrawn(descriptions, draws, [], triples)
    ensures AllFresh(draws)
  {
    forall i, j | 0 <= i < |draws| && 0 <= j < |draws[i].sources| ensures draws[i].sources[j].Random? {
      assert ContestDrawn(descriptions[i], draws[i], Remaining([], Bundles(descriptions[..i])),
                          Remaining(triples, 2 * i));
      assert DrawnAt(draws[i].sources[j], Remaining([], Bundles(descriptions[..i])), j);
    }
  }

  function ContestCore(c: CiphertextContest): CiphertextContest {
    c.(selections := Map(Core, c.selections), proof := ConstantProof(0, 0, 0, 0, 0),
       hashedElGamal := HashedElGamal.HashedCiphertext(0, [], []))
  }

  function BallotCore(b: CiphertextBallot): CiphertextBallot {
    b.(contests := Map(ContestCore, b.contests))
  }

  lemma FreshSelection(e: Election, p: Planned, nonceSeed: Word, verify: bool, verify': bool,
                       source: Source, source': Source)
    requires 1 < e.ctx.grp.p && source.Random? && source'.Random?
    requires EncryptedSelection(e, p, nonceSeed, verify, source).Ok?
             && EncryptedSelection(e, p, nonceSeed, verify', source').Ok?
    ensures Core(EncryptedSelection(e, p, nonceSeed, verify, source).value)
            == Core(EncryptedSelection(e, p, nonceSeed, verify', source').value)
  {
    hide HashElems, ElGamal.ElGamalEncrypt, Make, SelectionIsValid;
  }

  lemma {:induction false} FreshSelections(e: Election, plan: seq<Planned>, nonceSeed: Word, verify: bool,
                                           verify': bool, sources: seq<Source>, sources': seq<Source>)
    requires 1 < e.ctx.grp.p && |sources| == |plan| == |sources'|
    requires forall i :: 0 <= i < |plan| ==> sources[i].Random? && sources'[i].Random?
    requires EncryptedSelections(e, plan, nonceSeed, verify, sources).Ok?
    requires EncryptedSelections(e, plan, nonceSeed, verify', sources').Ok?
    ensures Map(Core, EncryptedSelections(e, plan, nonceSeed, verify, sources).value)
            == Map(Core, EncryptedSelections(e, plan, nonceSeed, verify', sources').value)
  {
    hide EncryptedSelection;
    if plan == [] {
    } else {
      var n := |plan| - 1;
      FreshSelections(e, plan[..n], nonceSeed, verify, verify', sources[..n], sources'[..n]);
      FreshSelection(e, plan[n], nonceSeed, verify, verify', sources[n], sources'[n]);
      MapAppend(Core, EncryptedSelections(e, plan[..n], nonceSeed, verify, sources[..n]).value,
                EncryptedSelection(e, plan[n], nonceSeed, verify, sources[n]).value);
      MapAppend(Core, EncryptedSelections(e, plan[..n], nonceSeed, verify', sources'[..n]).value,
                EncryptedSelection(e, plan[n], nonceSeed, verify', sources'[n]).value);
    }
  }

  /** Accumulation, hash and every other field but the proofs and the sealed data are determined. */
  lemma MadeContestCore(ctx: Context, objectId: string, sequenceOrder: nat, descriptionHash: Word,
                        xs: seq<CiphertextSelection>, ys: seq<CiphertextSelection>, k: nat, proofSeed: Word,
                        numberElected: nat, nonce: Word, h: HashedElGamal.HashedCiphertext,
                        h': HashedElGamal.HashedCiphertext, t: Triple, t': Triple, b: bool, b': bool)
    requires 1 < ctx.grp.p && Map(Core, xs) == Map(Core, ys)
    ensures ContestCore(MadeContest(ctx, objectId, sequenceOrder, descriptionHash, xs, k, proofSeed,
                                    numberElected, nonce, h, t, b))
            == ContestCore(MadeContest(ctx, objectId, sequenceOrder, descriptionHash, ys, k, proofSeed,
                                       numberElected, nonce, h', t', b'))
  {
    hide Sort, HashElems, ElGamal.Accumulated, MakeConstant, SumModQ;
    SameCores(xs, ys);
  }

  lemma FreshContest(e: Election, contest: PlaintextContest, d: Description, nonceSeed: Word, verify: bool,
                     verify': bool, draws: ContestDraws, draws': ContestDraws)
    requires 1 < e.ctx.grp.p && DrawsFit(d, draws) && DrawsFit(d, draws') && Fresh(draws) && Fresh(draws')
    ensures var r := EncryptedContest(e, contest, d, nonceSeed, verify, draws);
            var r' := EncryptedContest(e, PlainContest(contest), d, nonceSeed, verify', draws');
            r.Ok? && r'.Ok? ==> ContestCore(r.value) == ContestCore(r'.value)
  {
    hide EncryptedContest, EncryptedSelections, PlanFor, Assembled, ValidityFor, ContestIsValid, HashElems,
         ContestNonce, ProofSeed, MadeContest;
    var overvote := ValidityFor(contest, d) == Overvote;
    PlanPlain(contest, d, overvote);
    ContestCases(e, contest, d, nonceSeed, verify, draws);
    ContestCases(e, PlainContest(contest), d, nonceSeed, verify', draws');
    var plan := PlanFor(contest, d, overvote);
    var xs := EncryptedSelections(e, plan, ContestNonce(e, d, nonceSeed), verify, draws.sources);
    var ys := EncryptedSelections(e, plan, ContestNonce(e, d, nonceSeed), verify', draws'.sources);
    if xs.Ok? && ys.Ok? {
      FreshSelections(e, plan, ContestNonce(e, d, nonceSeed), verify, verify', draws.sources, draws'.sources);
      AssembledCore(e, contest, d, nonceSeed, xs.value, ys.value, draws, draws');
    }
  }

  lemma AssembledCore(e: Election, contest: PlaintextContest, d: Description, nonceSeed: Word,
                      xs: seq<CiphertextSelection>, ys: seq<CiphertextSelection>, draws: ContestDraws,
                      draws': ContestDraws)
    requires 1 < e.ctx.grp.p && Map(Core, xs) == Map(Core, ys)
    ensures ContestCore(Assembled(e, contest, d, nonceSeed, xs, draws))
            == ContestCore(Assembled(e, PlainContest(contest), d, nonceSeed, ys, draws'))
  {
    hide MadeContest, ContestCore, Sealed, ContestNonce, ProofSeed, ValidityFor, HashElems;
    MadeContestCore(e.ctx, contest.objectId, d.description.sequenceOrder, d.description.CryptoHash(e.ctx.sha),
                    xs, ys, e.publicKey,
                    ProofSeed(e, d, nonceSeed), d.description.numberElected, ContestNonce(e, d, nonceSeed),
                    Sealed(e, contest, ValidityFor(contest, d) == Overvote, draws.seal).value,
                    Sealed(e, PlainContest(contest), ValidityFor(PlainContest(contest), d) == Overvote,
                           draws'.seal).value,
                    draws.limit, draws'.limit, draws.limitBuffered, draws'.limitBuffered);
  }

  lemma {:induction false} FreshContests(e: Election, descriptions: seq<Description>, normalised: seq<PlaintextContest>,
                                         nonceSeed: Word, verify: bool, verify': bool, draws: seq<ContestDraws>,
                                         draws': seq<ContestDraws>)
    requires 1 < e.ctx.grp.p && AllFit(descriptions, draws) && AllFit(descriptions, draws') && AllFresh(draws)
             && AllFresh(draws')
    ensures var r := EncryptedContests(e, descriptions, normalised, nonceSeed, verify, draws);
            var r' := EncryptedContests(e, descriptions, Map(PlainContest, normalised), nonceSeed, verify', draws');
            r.Ok? && r'.Ok? ==> Map(ContestCore, r.value) == Map(ContestCore, r'.value)
  {
    hide EncryptedContest, ContestCore, Fresh, DrawsFit, PlainContest;
    if descriptions == [] {
    } else {
      var n := |descriptions| - 1;
      FreshContests(e, descriptions[..n], normalised, nonceSeed, verify, verify', draws[..n], draws'[..n]);
      FindPlain(normalised, descriptions[n].description.objectId);
      var found := FindContest(normalised, descriptions[n].description.objectId);
      if found.Ok? {
        FreshContest(e, found.value, descriptions[n], nonceSeed, verify, verify', draws[n], draws'[n]);
      }
      var r := EncryptedContests(e, descriptions, normalised, nonceSeed, verify, draws);
      var r' := EncryptedContests(e, descriptions, Map(PlainContest, normalised), nonceSeed, verify', draws');
      if r.Ok? && r'.Ok? {
        assert r.value == r.value[..n] + [r.value[n]] && r'.value == r'.value[..n] + [r'.value[n]];
        MapAppend(ContestCore, r.value[..n], r.value[n]);
        MapAppend(ContestCore, r'.value[..n], r'.value[n]);
      }
    }
  }

  lemma SameBallotHash(sha: Sha, objectId: string, contests: seq<CiphertextContest>,
                       contests': seq<CiphertextContest>, manifestHash: Word)
    requires Map(ContestCore, contests) == Map(ContestCore, contests')
    ensures BallotHash(sha, objectId, contests, manifestHash) == BallotHash(sha, objectId, contests', manifestHash)
  {
    hide HashElems;
    forall i | 0 <= i < |contests| ensures contests[i].cryptoHash == contests'[i].cryptoHash {
      assert Map(ContestCore, contests)[i] == Map(ContestCore, contests')[i];
    }
    assert ContestItems(contests) == ContestItems(contests');
  }

  /** compressCiphertextBallot. */
  function CompressedCiphertext(plaintext: PlaintextBallot, ciphertext: CiphertextBallot): CompactCiphertextBallot {
    CompactCiphertextBallot(Compressed(plaintext), Unknown, ciphertext.ballotCodeSeed, ciphertext.ballotCode,
                            ciphertext.timestamp, ciphertext.nonce)
  }

  /** encryptCompactBallot. */
  function CompactEncrypted(e: Election, manifest: InternalManifest, ballot: PlaintextBallot, nonce: Word,
                            codeSeed: Word, timestamp: nat, now: Clock, verify: bool,
                            draws: seq<ContestDraws>): Result<CompactCiphertextBallot>
    requires 1 < e.ctx.grp.p && AllFit(DescriptionsOf(manifest, ballot), draws)
  {
    var normalised := NormalisedBallot(ballot, manifest);
    if normalised.Err? then Err(normalised.reason)
    else
      var ciphertext := EncryptedBallot(e, manifest, normalised.value, nonce, codeSeed, timestamp, now, verify, draws);
      if ciphertext.Err? then Err(ciphertext.reason) else Ok(CompressedCiphertext(normalised.value, ciphertext.value))
  }

  const MISMATCH := "The regenerated ballot code does not match"

  /** expandCompactCiphertextBallot, which always verifies. */
  function CompactExpanded(e: Election, manifest: InternalManifest, compact: CompactCiphertextBallot, now: Clock,
                           draws: seq<ContestDraws>): Result<CiphertextBallot>
    requires 1 < e.ctx.grp.p
    requires AllFit(DescriptionsOf(manifest, PlaintextBallot("", compact.plaintext.styleId, [])), draws)
  {
    var plaintext := Expanded(compact.plaintext, manifest);
    if plaintext.Err? then Err(plaintext.reason)
    else
      var ciphertext := EncryptedBallot(e, manifest, plaintext.value, compact.nonce,
                                        compact.ballotCodeSeed, compact.timestamp,
                                        now, true, draws);
      if ciphertext.Ok? && ciphertext.value.ballotCode != compact.ballotCode then Err(MISMATCH) else ciphertext
  }

  /**
   * Two encryptions of a ballot that use no precomputed bundle agree in everything but the proofs and the sealed
   * extended data, whatever randomness each drew, whichever verified, and whenever they ran.
   */
  lemma FreshBallots(e: Election, manifest: InternalManifest, ballot: PlaintextBallot, nonce: Word, codeSeed: Word,
                     timestamp: nat, now: Clock, now': Clock, verify: bool, verify': bool,
                     draws: seq<ContestDraws>, draws': seq<ContestDraws>)
    requires 1 < e.ctx.grp.p && AllFit(DescriptionsOf(manifest, ballot), draws)
             && AllFit(DescriptionsOf(manifest, ballot), draws')
    requires AllFresh(draws) && AllFresh(draws')
    ensures var r := EncryptedBallot(e, manifest, ballot, nonce, codeSeed, timestamp, now, verify, draws);
            r.Ok? ==>
              var r' := EncryptedBallot(e, manifest, PlainBallot(ballot), nonce, codeSeed, r.value.timestamp,
                                        now', verify', draws');
              r'.Ok? ==> BallotCore(r.value) == BallotCore(r'.value)
  {
    hide EncryptedContests, AllFresh, AllFit, ContestCore, BallotIsValid, HashElems, Sort, Manifests.ContestsFor,
         NormalisedContests, PlainContest, BallotHash;
    var descriptions := DescriptionsOf(manifest, ballot);
    NormalisedContestsPlain(ballot.contests, descriptions);
    var normalised := NormalisedContests(ballot.contests, descriptions);
    var nonceSeed := NonceSeedFor(e, manifest, ballot, nonce);
    FreshContests(e, descriptions, normalised, nonceSeed, verify, verify', draws, draws');
    var contests := EncryptedContests(e, descriptions, normalised, nonceSeed, verify, draws);
    var contests' := EncryptedContests(e, descriptions, Map(PlainContest, normalised), nonceSeed, verify', draws');
    if contests.Ok? && contests'.Ok? {
      SameBallotHash(e.ctx.sha, ballot.objectId, contests.value, contests'.value, manifest.manifestHash);
    }
  }

  /**
   * Compact ballots regenerate. With no bundle queued in either run, expanding a compact ballot never reports a
   * mismatch: if it returns a ballot, that ballot has the ciphertexts, hashes and ballot code of the one encrypted.
   */
  lemma CompactRegenerates(e: Election, manifest: InternalManifest, ballot: PlaintextBallot, nonce: Word,
                           codeSeed: Word, timestamp: nat, now: Clock, now': Clock, verify: bool,
                           draws: seq<ContestDraws>, draws': seq<ContestDraws>)
    requires 1 < e.ctx.grp.p && AllFit(DescriptionsOf(manifest, ballot), draws)
             && AllFit(DescriptionsOf(manifest, ballot), draws')
    requires AllFresh(draws) && AllFresh(draws')
    requires CompactEncrypted(e, manifest, ballot, nonce, codeSeed, timestamp, now, verify, draws).Ok?
    ensures var compact := CompactEncrypted(e, manifest, ballot, nonce, codeSeed, timestamp, now, verify, draws).value;
            var n := NormalisedBallot(ballot, manifest).value;
            var original := EncryptedBallot(e, manifest, n, nonce, codeSeed, timestamp, now, verify, draws).value;
            var expanded := CompactExpanded(e, manifest, compact, now', draws');
            && Expanded(compact.plaintext, manifest) == Ok(PlainBallot(n))
            && expanded == EncryptedBallot(e, manifest, PlainBallot(n), nonce, codeSeed,
                                           original.timestamp, now', true, draws')
            && (expanded.Ok? ==> BallotCore(expanded.value) == BallotCore(original))
  {
    hide AllFresh, AllFit, EncryptedBallot, BallotCore, Compressed, Expanded, Sort, Manifests.ContestsFor,
         NormalisedContests, PlainContest;
    var n := NormalisedBallot(ballot, manifest).value;
    CompactRoundTrip(ballot, manifest);
    BallotFields(e, manifest, n, nonce, codeSeed, timestamp, now, verify, draws);
    FreshBallots(e, manifest, n, nonce, codeSeed, timestamp, now, now', verify, true, draws, draws');
    var original := EncryptedBallot(e, manifest, n, nonce, codeSeed, timestamp, now, verify, draws).value;
    var again := EncryptedBallot(e, manifest, PlainBallot(n), nonce, codeSeed, original.timestamp, now', true, draws');
    if again.Ok? {
      CoreCode(original, again.value);
    }
  }

  // When the expansion succeeds.

  lemma FreshNonces(e: Election, plan: seq<Planned>, nonceSeed: Word, sources: seq<Source>, sources': seq<Source>)
    requires |sources| == |plan| == |sources'|
    requires forall i :: 0 <= i < |plan| ==> sources[i].Random? && sources'[i].Random?
    ensures PlanUsable(e, plan, nonceSeed, sources) <==> PlanUsable(e, plan, nonceSeed, sources')
  {
    hide SelectionNonce;
  }

  /** Neither the flags nor the randomness of fresh draws decide whether a contest can be encrypted. */
  lemma PossiblePlain(e: Election, d: Description, normalised: seq<PlaintextContest>, nonceSeed: Word,
                      draws: ContestDraws, draws': ContestDraws)
    requires DrawsFit(d, draws) && DrawsFit(d, draws') && Fresh(draws) && Fresh(draws')
    ensures ContestPossible(e, d, normalised, nonceSeed, draws)
            <==> ContestPossible(e, d, Map(PlainContest, normalised), nonceSeed, draws')
  {
    hide PlanFor, ValidityFor, ContestNonce, PlainContest, PlanUsable;
    FindPlain(normalised, d.description.objectId);
    var contest := FindContest(normalised, d.description.objectId);
    if contest.Ok? {
      var overvote := ValidityFor(contest.value, d) == Overvote;
      PlanPlain(contest.value, d, overvote);
      FreshNonces(e, PlanFor(contest.value, d, overvote), ContestNonce(e, d, nonceSeed), draws.sources, draws'.sources);
    }
  }

  lemma SucceedsAgain(e: Election, manifest: InternalManifest, ballot: PlaintextBallot, nonce: Word, codeSeed: Word,
                      timestamp: nat, timestamp': nat, now: Clock, now': Clock,
                      draws: seq<ContestDraws>, draws': seq<ContestDraws>)
    requires 1 < e.ctx.grp.p
    requires AllFit(DescriptionsOf(manifest, ballot), draws) && AllFit(DescriptionsOf(manifest, ballot), draws')
    requires AllFresh(draws) && AllFresh(draws')
    ensures EncryptedBallot(e, manifest, ballot, nonce, codeSeed, timestamp, now, false, draws).Ok? <==>
            EncryptedBallot(e, manifest, PlainBallot(ballot), nonce, codeSeed, timestamp', now', false, draws').Ok?
  {
    hide EncryptedBallot, ContestPossible, DrawsFit, Fresh, NormalisedContests, PlainContest, Sort,
         Manifests.ContestsFor;
    var descriptions := DescriptionsOf(manifest, ballot);
    var normalised := NormalisedContests(ballot.contests, descriptions);
    BallotPossible(e, manifest, ballot, nonce, codeSeed, timestamp, now, draws);
    BallotPossible(e, manifest, PlainBallot(ballot), nonce, codeSeed, timestamp', now', draws');
    NormalisedContestsPlain(ballot.contests, descriptions);
    forall i | 0 <= i < |descriptions|
      ensures ContestPossible(e, descriptions[i], normalised, NonceSeedFor(e, manifest, ballot, nonce), draws[i])
              <==> ContestPossible(e, descriptions[i], Map(PlainContest, normalised),
                                   NonceSeedFor(e, manifest, ballot, nonce), draws'[i])
    {
      PossiblePlain(e, descriptions[i], normalised, NonceSeedFor(e, manifest, ballot, nonce), draws[i], draws'[i]);
    }
  }

  /**
   * Exactly when a compact ballot expands: the ballot that is regenerated from it always encrypts again, and it is
   * returned if and only if none of the newly drawn proofs holds a zero challenge or response.
   */
  lemma CompactExpands(e: Election, manifest: InternalManifest, ballot: PlaintextBallot, nonce: Word, codeSeed: Word,
                       timestamp: nat, now: Clock, now': Clock, verify: bool,
                       draws: seq<ContestDraws>, draws': seq<ContestDraws>)
    requires GoodElection(e) && GoodDescriptions(DescriptionsOf(manifest, ballot))
    requires AllFit(DescriptionsOf(manifest, ballot), draws) && AllFit(DescriptionsOf(manifest, ballot), draws')
    requires AllFresh(draws) && AllFresh(draws') && AllHonest(e, draws) && AllHonest(e, draws')
    requires CompactEncrypted(e, manifest, ballot, nonce, codeSeed, timestamp, now, verify, draws).Ok?
    ensures var compact := CompactEncrypted(e, manifest, ballot, nonce, codeSeed, timestamp, now, verify, draws).value;
            var n := NormalisedBallot(ballot, manifest).value;
            var again := EncryptedBallot(e, manifest, PlainBallot(n), nonce, codeSeed, compact.timestamp, now', false,
                                         draws');
            var expanded := CompactExpanded(e, manifest, compact, now', draws');
            && again.Ok?
            && (expanded.Ok? <==> forall i :: 0 <= i < |again.value.contests| ==> NoZeroes(again.value.contests[i]))
            && (expanded.Ok? ==> expanded == again)
  {
    hide AllFresh, AllFit, AllHonest, GoodDescriptions, EncryptedBallot, Compressed, Expanded, CompactExpanded, Sort,
         Manifests.ContestsFor, NormalisedContests, PlainContest, Standard, NoZeroes, BallotIsValid, ContestFor;
    var n := NormalisedBallot(ballot, manifest).value;
    var compact := CompactEncrypted(e, manifest, ballot, nonce, codeSeed, timestamp, now, verify, draws).value;
    StandardGives(e.ctx.grp);
    BallotFields(e, manifest, n, nonce, codeSeed, timestamp, now, verify, draws);
    BallotEndToEnd(e, manifest, n, nonce, codeSeed, timestamp, now, draws);
    SucceedsAgain(e, manifest, n, nonce, codeSeed, timestamp, compact.timestamp, now, now', draws, draws');
    BallotEndToEnd(e, manifest, PlainBallot(n), nonce, codeSeed, compact.timestamp, now', draws');
    CompactRegenerates(e, manifest, ballot, nonce, codeSeed, timestamp, now, now', verify, draws, draws');
  }

  /**
   * The last step of an expansion: the ballot encrypted again is returned if and only if its code is the one stored,
   * and otherwise the mismatch is reported, whatever was stored and drawn.
   */
  lemma ExpansionChecksCode(e: Election, manifest: InternalManifest, compact: CompactCiphertextBallot, now: Clock,
                            draws: seq<ContestDraws>)
    requires 1 < e.ctx.grp.p
    requires AllFit(DescriptionsOf(manifest, PlaintextBallot("", compact.plaintext.styleId, [])), draws)
    ensures var plaintext := Expanded(compact.plaintext, manifest);
            var expanded := CompactExpanded(e, manifest, compact, now, draws);
            && (plaintext.Err? ==> expanded.Err?)
            && (expanded.Ok? ==> expanded.value.ballotCode == compact.ballotCode)
            && (plaintext.Ok? ==>
                  var again := EncryptedBallot(e, manifest, plaintext.value, compact.nonce, compact.ballotCodeSeed,
                                               compact.timestamp, now, true, draws);
                  && (expanded.Ok? <==> again.Ok? && again.value.ballotCode == compact.ballotCode)
                  && (expanded.Ok? ==> expanded == again)
                  && (again.Ok? && again.value.ballotCode != compact.ballotCode ==>
                        expanded == Err("The regenerated ballot code does not match")))
  {
    hide EncryptedBallot, Expanded, Manifests.ContestsFor;
    ExpandedStyle(compact.plaintext, manifest);
  }

  lemma CoreCode(b: CiphertextBallot, b': CiphertextBallot)
    requires BallotCore(b) == BallotCore(b')
    ensures b.ballotCode == b'.ballotCode
  {
    hide ContestCore;
  }

  lemma BallotFields(e: Election, manifest: InternalManifest, ballot: PlaintextBallot, nonce: Word, codeSeed: Word,
                     timestamp: nat, now: Clock, verify: bool, draws: seq<ContestDraws>)
    requires 1 < e.ctx.grp.p && AllFit(DescriptionsOf(manifest, ballot), draws)
    ensures var r := EncryptedBallot(e, manifest, ballot, nonce, codeSeed, timestamp, now, verify, draws);
            r.Ok? ==> && r.value.objectId == ballot.objectId && r.value.styleId == ballot.styleId
                      && r.value.manifestHash == manifest.manifestHash
                      && r.value.nonce == nonce && r.value.ballotCodeSeed == codeSeed
                      && 0 < r.value.timestamp == if timestamp == 0 then now else timestamp
  {
    hide AllFit, ContestsOf, BallotIsValid, HashElems, Sort, Manifests.ContestsFor;
  }

  // -------------------------------------------------------------------------- the code

  /** encryptCompactBallot; a style that does not exist, which normalisation dereferences, is an error here. */
  method EncryptCompactBallot(e: Election, ballot: PlaintextBallot, manifest: InternalManifest,
                              ballotCodeSeed: Word, nonce: Word,
                              timestamp: nat, now: Clock, verify: bool, buffers: PrecomputeBufferContext)
      returns (r: Result<CompactCiphertextBallot>, ghost draws: seq<ContestDraws>)
    requires 1 < e.ctx.grp.p
    requires forall c :: c in manifest.contests ==> Sized(c)
    modifies buffers`tripleQueue, buffers`bundleQueue
    ensures AllFit(DescriptionsOf(manifest, ballot), draws)
    ensures old(buffers.bundleQueue) == [] ==> AllFresh(draws)
    ensures r == CompactEncrypted(e, manifest, ballot, nonce, ballotCodeSeed, timestamp, now, verify, draws)
    ensures r.Ok? ==>
            buffers.bundleQueue == Remaining(old(buffers.bundleQueue), Bundles(DescriptionsOf(manifest, ballot)))
  {
    hide EncryptedBallot, Sized, Sort, BallotDrawn, AllFresh, Compressed;
    ghost var bundles, triples := buffers.bundleQueue, buffers.tripleQueue;
    var normalised := EmplaceMissingContests(ballot, manifest);
    if normalised.Err? {
      draws := [];
      NothingFresh();
      return Err(normalised.reason), draws;
    }
    var ciphertext;
    ciphertext, draws := EncryptBallot(e, normalised.value, manifest, ballotCodeSeed, nonce, timestamp,
                                       now, verify, buffers);
    if bundles == [] {
      EmptyQueueIsFresh(DescriptionsOf(manifest, ballot), draws, triples);
    }
    if ciphertext.Err? {
      return Err(ciphertext.reason), draws;
    }
    var plaintext := CompressPlaintextBallot(normalised.value);
    r := Ok(CompactCiphertextBallot(plaintext, Unknown, ciphertext.value.ballotCodeSeed, ciphertext.value.ballotCode,
                                    ciphertext.value.timestamp, ciphertext.value.nonce));
  }

  lemma NothingFresh()
    ensures AllFresh([])
  {
  }

  method ExpandCompactCiphertextBallot(e: Election, compact: CompactCiphertextBallot,
                                       manifest: InternalManifest, now: Clock,
                                       buffers: PrecomputeBufferContext)
      returns (r: Result<CiphertextBallot>, ghost draws: seq<ContestDraws>)
    requires 1 < e.ctx.grp.p
    requires forall c :: c in manifest.contests ==> Sized(c)
    modifies buffers`tripleQueue, buffers`bundleQueue
    ensures AllFit(DescriptionsOf(manifest, PlaintextBallot("", compact.plaintext.styleId, [])), draws)
    ensures old(buffers.bundleQueue) == [] ==> AllFresh(draws)
    ensures r == CompactExpanded(e, manifest, compact, now, draws)
  {
    hide EncryptedBallot, Sized, Sort, AllFresh, Expanded, ContestDrawn, Bundles, Remaining;
    ghost var bundles, triples := buffers.bundleQueue, buffers.tripleQueue;
    var plaintext := ExpandCompactPlaintextBallot(compact.plaintext, manifest);
    ghost var descriptions := DescriptionsOf(manifest, PlaintextBallot("", compact.plaintext.styleId, []));
    if plaintext.Err? {
      draws := UnusedDraws(descriptions, 0, bundles);
      DrawsComplete(descriptions, [], bundles, triples);
      assert [] + draws == draws;
      DrawnFits(descriptions, draws, bundles, triples);
      if bundles == [] {
        EmptyQueueIsFresh(descriptions, draws, triples);
      }
      return Err(plaintext.reason), draws;
    }
    ExpandedStyle(compact.plaintext, manifest);
    var ciphertext;
    ciphertext, draws := EncryptBallot(e, plaintext.value, manifest, compact.ballotCodeSeed, compact.nonce,
                                       compact.timestamp, now,
                                       true, buffers);
    if bundles == [] {
      EmptyQueueIsFresh(descriptions, draws, triples);
    }
    if ciphertext.Ok? && ciphertext.value.ballotCode != compact.ballotCode {
      return Err(MISMATCH), draws;
    }
    r := ciphertext;
  }

  lemma ExpandedStyle(compact: CompactPlaintextBallot, manifest: InternalManifest)
    ensures Expanded(compact, manifest).Ok? ==> Expanded(compact, manifest).value.styleId == compact.styleId
  {
    hide Sort;
  }
}
