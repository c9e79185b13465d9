/** Encrypting selections and contests: encryptSelection and encryptContest of src/electionguard/encrypt.cpp. */
module ContestEncryption {
  import opened Arith
  import opened ModGroup
  import opened ElementQ
  import opened ElementP
  import opened ElGamal
  import opened Hashing
  import opened HashedElGamal
  import opened ChaumPedersen
  import opened Precomputed
  import opened PrecomputeBuffers
  import opened NonceSequence
  import opened Permutations
  import opened Sorting
  import opened Ballots
  import Manifests
  import opened Plaintexts

  type SelectionDescription = Manifests.SelectionDescription
  type Description = Manifests.ContestWithPlaceholders

  /**
   * What an election fixes. `extendedData` is the text for over-votes and write-ins, an arbitrary function of the
   * contest and of whether it is an over-vote.
   */
  datatype Election = Election(ctx: Context, hmac: Hmac, publicKey: nat,
                               extendedData: (PlaintextContest, bool) -> Bytes)
  {
    function Env(): HashedElGamal.Env {
      HashedElGamal.Env(ctx.grp, ctx.sha, hmac)
    }
  }

  // ---------------------------------------------------------------- what is encrypted

  /** One bit to encrypt, with the description it belongs to. */
  datatype Planned = Planned(objectId: string, vote: nat, description: SelectionDescription, isPlaceholder: bool)

  function PlannedVotes(plan: seq<Planned>): seq<int> {
    Map((p: Planned) => p.vote, plan)
  }

  /** The selections of the description in order; every vote of an over-voted contest counts as zero. */
  function RealPlan(normalised: seq<PlaintextSelection>, descriptions: seq<SelectionDescription>,
                    overvote: bool): (r: seq<Planned>)
    ensures |r| == |descriptions|
  {
    seq(|descriptions|, i requires 0 <= i < |descriptions| =>
      Planned(descriptions[i].objectId, if overvote then 0 else Chosen(normalised, descriptions[i].objectId).vote,
              descriptions[i], false))
  }

  /** Placeholders take the votes that are missing; all of them are taken by an over-vote. */
  function PlaceholderPlan(placeholders: seq<SelectionDescription>, overvote: bool, votes: nat,
                           numberElected: nat): (r: seq<Planned>)
    ensures |r| == |placeholders|
  {
    seq(|placeholders|, j requires 0 <= j < |placeholders| =>
      Planned(placeholders[j].objectId, if overvote || votes + j < numberElected then 1 else 0, placeholders[j], true))
  }

  function VotesOf(plan: seq<Planned>): nat {
    if plan == [] then 0 else VotesOf(plan[..|plan| - 1]) + plan[|plan| - 1].vote
  }

  function RealPlanFor(contest: PlaintextContest, d: Description, overvote: bool): (r: seq<Planned>)
    ensures |r| == |d.description.selections|
  {
    RealPlan(Normalised(contest, d.description).selections, d.description.GetSelections(), overvote)
  }

  function PlanFor(contest: PlaintextContest, d: Description, overvote: bool): (r: seq<Planned>)
    ensures |r| == |d.description.selections| + |d.placeholderSelections|
  {
    var actual := RealPlanFor(contest, d, overvote);
    actual + PlaceholderPlan(d.GetPlaceholders(), overvote, VotesOf(actual), d.description.numberElected)
  }

  /** Everything is planned under the identifier of its own description, selections first. */
  lemma PlanIds(contest: PlaintextContest, d: Description, overvote: bool)
    ensures var plan := PlanFor(contest, d, overvote);
            && (forall i :: 0 <= i < |plan| ==> plan[i].objectId == plan[i].description.objectId)
            && (forall i :: 0 <= i < |d.description.selections| ==>
                  plan[i].objectId == d.description.GetSelections()[i].objectId)
  {
    hide Sort, Chosen, VotesOf, Normalised;
  }

  lemma {:induction false} VotesAreSum(plan: seq<Planned>)
    ensures Sum(PlannedVotes(plan)) == VotesOf(plan)
  {
    if plan == [] {
    } else {
      VotesAreSum(plan[..|plan| - 1]);
      assert PlannedVotes(plan)[..|plan| - 1] == PlannedVotes(plan[..|plan| - 1]);
    }
  }

  lemma {:induction false} VotesSplit(p: seq<Planned>, q: seq<Planned>)
    ensures VotesOf(p + q) == VotesOf(p) + VotesOf(q)
  {
    if q == [] {
      assert p + q == p;
    } else {
      VotesSplit(p, q[..|q| - 1]);
      assert (p + q)[..|p| + |q| - 1] == p + q[..|q| - 1];
    }
  }

  lemma {:induction false} PlaceholderVotes(placeholders: seq<SelectionDescription>, overvote: bool,
                                            votes: nat, numberElected: nat)
    ensures VotesOf(PlaceholderPlan(placeholders, overvote, votes, numberElected))
            == if overvote then |placeholders|
               else if numberElected <= votes then 0
               else if numberElected - votes <= |placeholders| then numberElected - votes
               else |placeholders|
  {
    if placeholders == [] {
    } else {
      var n := |placeholders| - 1;
      PlaceholderVotes(placeholders[..n], overvote, votes, numberElected);
      assert PlaceholderPlan(placeholders, overvote, votes, numberElected)[..n]
             == PlaceholderPlan(placeholders[..n], overvote, votes, numberElected);
    }
  }

  lemma {:induction false} NoVotes(normalised: seq<PlaintextSelection>, descriptions: seq<SelectionDescription>)
    ensures VotesOf(RealPlan(normalised, descriptions, true)) == 0
  {
    if descriptions == [] {
    } else {
      var n := |descriptions| - 1;
      NoVotes(normalised, descriptions[..n]);
      assert RealPlan(normalised, descriptions, true)[..n] == RealPlan(normalised, descriptions[..n], true);
    }
  }

  /** When the encrypted bits add up to the number elected, for any description and any contest. */
  predicate PlanFits(contest: PlaintextContest, d: Description, overvote: bool) {
    if overvote then |d.placeholderSelections| == d.description.numberElected
    else
      var votes := VotesOf(RealPlanFor(contest, d, false));
      votes <= d.description.numberElected <= votes + |d.placeholderSelections|
  }

  lemma PlanTotal(contest: PlaintextContest, d: Description, overvote: bool)
    ensures Sum(PlannedVotes(PlanFor(contest, d, overvote))) == d.description.numberElected
            <==> PlanFits(contest, d, overvote)
  {
    hide Sort;
    var actual := RealPlanFor(contest, d, overvote);
    VotesAreSum(PlanFor(contest, d, overvote));
    VotesSplit(actual, PlaceholderPlan(d.GetPlaceholders(), overvote, VotesOf(actual), d.description.numberElected));
    PlaceholderVotes(d.GetPlaceholders(), overvote, VotesOf(actual), d.description.numberElected);
    NoVotes(Normalised(contest, d.description).selections, d.description.GetSelections());
  }

  function ValidityFor(contest: PlaintextContest, d: Description): Validity {
    ContestValidity(contest, d.description.objectId, |d.description.selections|, d.description.numberElected,
                    d.description.votesAllowed, true)
  }

  predicate AllBits(plan: seq<Planned>) {
    forall i :: 0 <= i < |plan| ==> plan[i].vote <= 1
  }

  /** The votes that are encrypted are the normalised ones. */
  lemma {:induction false} RealVotes(selections: seq<PlaintextSelection>, descriptions: seq<SelectionDescription>)
    requires AllBits(RealPlan(ChosenAll(selections, descriptions), descriptions, false))
    ensures VotesOf(RealPlan(ChosenAll(selections, descriptions), descriptions, false))
            == Total(Marks, ChosenAll(selections, descriptions))
  {
    ChosenAgain(selections, descriptions);
    SumOfMarks(ChosenAll(selections, descriptions), RealPlan(ChosenAll(selections, descriptions), descriptions, false));
  }

  lemma {:induction false} SumOfMarks(chosen: seq<PlaintextSelection>, plan: seq<Planned>)
    requires |chosen| == |plan|
    requires forall i :: 0 <= i < |plan| ==> plan[i].vote == chosen[i].vote <= 1
    ensures VotesOf(plan) == Total(Marks, chosen)
  {
    if plan == [] {
    } else {
      SumOfMarks(chosen[..|plan| - 1], plan[..|plan| - 1]);
    }
  }

  /**
   * The bookkeeping of encryptContest, for a description with distinct selection identifiers and one placeholder per
   * seat: for a contest that passes validation, full, partial or over-voted, the values to encrypt add up to the number
   * elected exactly when the votes do not exceed it. For bits they never do.
   */
  lemma PlanReachesLimit(contest: PlaintextContest, d: Description)
    requires ValidityFor(contest, d) == Success || ValidityFor(contest, d) == Overvote
    requires Manifests.Distinct(Manifests.SelectionIds(d.description.selections))
    requires |d.placeholderSelections| == d.description.numberElected
    ensures var overvote := ValidityFor(contest, d) == Overvote;
            var plan := PlanFor(contest, d, overvote);
            && (Sum(PlannedVotes(plan)) == d.description.numberElected
                <==> VotesOf(RealPlanFor(contest, d, overvote)) <= d.description.numberElected)
            && (AllBits(plan) ==>
                Sum(PlannedVotes(plan)) == d.description.numberElected && PlanFits(contest, d, overvote))
  {
    hide Sort, PlanFor, Normalised;
    var overvote := ValidityFor(contest, d) == Overvote;
    PlanTotal(contest, d, overvote);
    if overvote {
      NoVotes(Normalised(contest, d.description).selections, d.description.GetSelections());
    } else if AllBits(PlanFor(contest, d, false)) {
      BitsWithinLimit(contest, d);
    }
  }

  lemma BitsWithinLimit(contest: PlaintextContest, d: Description)
    requires ValidityFor(contest, d) == Success && AllBits(PlanFor(contest, d, false))
    requires Manifests.Distinct(Manifests.SelectionIds(d.description.selections))
    ensures VotesOf(RealPlanFor(contest, d, false)) <= d.description.numberElected
  {
    hide Sort;
    var descriptions := d.description.GetSelections();
    var plan, actual := PlanFor(contest, d, false), RealPlanFor(contest, d, false);
    assert forall i :: 0 <= i < |actual| ==> actual[i] == plan[i];
    SortedIdsDistinct(d.description);
    RealVotes(contest.selections, descriptions);
    ChosenNeverIncreases(Marks, contest.selections, descriptions);
  }

  lemma SortedIdsDistinct(description: Manifests.ContestDescription)
    requires Manifests.Distinct(Manifests.SelectionIds(description.selections))
    ensures Manifests.Distinct(Manifests.SelectionIds(description.GetSelections()))
  {
    var xs, ys := description.selections, description.GetSelections();
    SortSorts(Manifests.SelectionOrder, xs);
    Manifests.IdsPermuted(xs, ys);
  }

  // ------------------------------------------------------------------- specification

  function SelectionNonce(sha: Sha, d: SelectionDescription, nonceSeed: Word): (r: nat)
    ensures r < Q
  {
    NonceAt(sha, SeedWith(sha, d.CryptoHash(sha), Element(nonceSeed)), d.sequenceOrder)
  }

  /** encryptSelection with the values it takes from the buffer or draws at random. */
  function EncryptedSelection(e: Election, p: Planned, nonceSeed: Word, verify: bool,
                              source: Source): Result<CiphertextSelection>
    requires 1 < e.ctx.grp.p
  {
    var unverified := UnverifiedSelection(e, p, nonceSeed, source);
    if unverified.Ok? && verify && !SelectionIsValid(e.ctx, unverified.value,
                                                     p.description.CryptoHash(e.ctx.sha), e.publicKey)
    then Err("encryptSelection failed validity check") else unverified
  }

  function NonceFor(e: Election, p: Planned, nonceSeed: Word, source: Source): Word {
    if source.FromBuffer? then source.pre.triple1.exp else SelectionNonce(e.ctx.sha, p.description, nonceSeed)
  }

  function UnverifiedSelection(e: Election, p: Planned, nonceSeed: Word, source: Source): Result<CiphertextSelection>
    requires 1 < e.ctx.grp.p
  {
    var nonce := NonceFor(e, p, nonceSeed, source);
    if p.objectId != p.description.objectId || p.vote > 1 then Err("malformed input selection")
    else
      var c := match source
               case FromBuffer(pre) => Ok(EncryptWithPrecomputed(e.ctx.grp, p.vote, pre.triple1.gToExp,
                                                                 pre.triple1.pubkeyToExp))
               case _ => ElGamalEncrypt(e.ctx.grp, p.vote, nonce, e.publicKey);
      if c.Err? then Err(c.reason)
      else MadeSelection(e.ctx, p.objectId, p.description.sequenceOrder, p.description.CryptoHash(e.ctx.sha), c.value,
                         e.publicKey, p.vote, p.isPlaceholder, nonce, source)
  }

  function EncryptedSelections(e: Election, plan: seq<Planned>, nonceSeed: Word, verify: bool, sources: seq<Source>)
      : (r: Result<seq<CiphertextSelection>>)
    requires 1 < e.ctx.grp.p && |sources| == |plan|
    ensures r.Ok? ==> |r.value| == |plan|
  {
    if plan == [] then Ok([])
    else
      var n := |plan| - 1;
      var front := EncryptedSelections(e, plan[..n], nonceSeed, verify, sources[..n]);
      if front.Err? then front
      else
        var last := EncryptedSelection(e, plan[n], nonceSeed, verify, sources[n]);
        if last.Err? then Err(last.reason) else Ok(front.value + [last.value])
  }

  /** What one call of encryptContest takes from the buffers or draws at random. */
  datatype ContestDraws = ContestDraws(sources: seq<Source>, seal: Triple, limit: Triple, limitBuffered: bool)

  predicate DrawsFit(d: Description, draws: ContestDraws) {
    |draws.sources| == |d.description.selections| + |d.placeholderSelections|
  }

  function StoredSeed(e: Election, d: Description, nonceSeed: Word): Word {
    SeedWith(e.ctx.sha, d.description.CryptoHash(e.ctx.sha), Element(nonceSeed))
  }

  function ContestNonce(e: Election, d: Description, nonceSeed: Word): (r: nat)
    ensures r < Q
  {
    NonceAt(e.ctx.sha, StoredSeed(e, d, nonceSeed), d.description.sequenceOrder)
  }

  function ProofSeed(e: Election, d: Description, nonceSeed: Word): (r: nat)
    ensures r < Q
  {
    NonceAt(e.ctx.sha, StoredSeed(e, d, nonceSeed), (d.description.sequenceOrder + 1) % UINT64)
  }

  function SealNonce(e: Election, d: Description, nonceSeed: Word): (r: nat)
    ensures r < Q
  {
    NonceAt(e.ctx.sha, SeedWith(e.ctx.sha, ContestNonce(e, d, nonceSeed), Text("constant-extended-data")), 0)
  }

  function Sealed(e: Election, contest: PlaintextContest, overvote: bool, seal: Triple): (r: Result<HashedCiphertext>)
    ensures r.Ok?
  {
    HashedEncryption(e.Env(), e.extendedData(contest, overvote), seal.gToExp, seal.pubkeyToExp, e.ctx.q, Bytes512, true)
  }

  /** The contest assembled from its encrypted selections. */
  function Assembled(e: Election, contest: PlaintextContest, d: Description, nonceSeed: Word,
                     selections: seq<CiphertextSelection>, draws: ContestDraws): CiphertextContest
    requires 1 < e.ctx.grp.p
  {
    MadeContest(e.ctx, contest.objectId, d.description.sequenceOrder, d.description.CryptoHash(e.ctx.sha), selections,
                e.publicKey, ProofSeed(e, d, nonceSeed), d.description.numberElected, ContestNonce(e, d, nonceSeed),
                Sealed(e, contest, ValidityFor(contest, d) == Overvote, draws.seal).value,
                draws.limit, draws.limitBuffered)
  }

  /** encryptContest. */
  function EncryptedContest(e: Election, contest: PlaintextContest, d: Description, nonceSeed: Word, verify: bool,
                            draws: ContestDraws): Result<CiphertextContest>
    requires 1 < e.ctx.grp.p && DrawsFit(d, draws)
  {
    var validity := ValidityFor(contest, d);
    if validity != Success && validity != Overvote then Err("the plaintext contest was invalid")
    else
      var selections := EncryptedSelections(e, PlanFor(contest, d, validity == Overvote), ContestNonce(e, d, nonceSeed),
                                            verify, draws.sources);
      if selections.Err? then Err(selections.reason)
      else if selections.value == [] then Err("mismatching selection state")
      else
        var made := Assembled(e, contest, d, nonceSeed, selections.value, draws);
        if verify && !ContestIsValid(e.ctx, made, made.descriptionHash, e.publicKey)
        then Err("encryptContest failed validity check") else Ok(made)
  }

  // -------------------------------------------------------------------------- theorems

  /** A source that a populate call for this key and rand_q could have provided. */
  ghost predicate HonestSource(e: Election, source: Source)
    requires 1 < e.ctx.grp.p
  {
    match source
    case Random(_, _, w) => w < Q
    case Seeded(_) => true
    case FromBuffer(pre) => BundleFor(e.ctx.grp, e.publicKey, pre)
  }

  ghost predicate HonestDraws(e: Election, draws: ContestDraws)
    requires 1 < e.ctx.grp.p
  {
    && (forall i :: 0 <= i < |draws.sources| ==> HonestSource(e, draws.sources[i]))
    && (draws.limitBuffered ==> TripleFor(e.ctx.grp, e.publicKey, draws.limit))
  }

  ghost predicate GoodElection(e: Election) {
    GoodContext(e.ctx, e.publicKey)
  }

  /** A precomputed triple encrypts as its exponent would. */
  lemma CiphertextFor(e: Election, p: Planned, nonceSeed: Word, source: Source)
    requires GoodElection(e) && HonestSource(e, source) && p.vote <= 1
    ensures var nonce := NonceFor(e, p, nonceSeed, source);
            var c := EncryptWithPrecomputed(e.ctx.grp, p.vote, PowModP(e.ctx.grp, e.ctx.grp.g, nonce),
                                            PowModP(e.ctx.grp, e.publicKey, nonce));
            && nonce < Q
            && Encrypts(e.ctx.grp, e.publicKey, c, p.vote, nonce)
            && (source.FromBuffer? ==>
                c == EncryptWithPrecomputed(e.ctx.grp, p.vote, source.pre.triple1.gToExp,
                                            source.pre.triple1.pubkeyToExp))
  {
    hide PowModPWide, HashElems;
    StandardGives(e.ctx.grp);
    EncryptIsEncryption(e.ctx.grp, p.vote, NonceFor(e, p, nonceSeed, source), e.publicKey);
    if source.FromBuffer? {
      ForMeansGenerated(e.ctx.grp, e.publicKey, source.pre);
    }
  }

  /**
   * encryptSelection, for every way of getting its values: it succeeds exactly for a bit under the description's own
   * identifier with a nonce it can use and, if it verifies, a proof without zero responses.
   */
  lemma EncryptedSelectionMeans(e: Election, p: Planned, nonceSeed: Word, verify: bool, source: Source)
    requires GoodElection(e) && HonestSource(e, source)
    ensures var r := EncryptedSelection(e, p, nonceSeed, verify, source);
            var u := UnverifiedSelection(e, p, nonceSeed, source);
            && (u.Ok? <==> p.objectId == p.description.objectId && p.vote <= 1
                           && (source.FromBuffer? || SelectionNonce(e.ctx.sha, p.description, nonceSeed) != 0))
            && (r.Ok? <==> u.Ok? && (verify ==> ResponsesInBounds(u.value.proof)))
            && (r.Ok? ==> r == u)
            && (u.Ok? ==> SelectionFor(e, p, nonceSeed, source, u.value))
  {
    hide PowModPWide, HashElems, EncryptWithPrecomputed, DisjunctiveIsValid, Standard, Make;
    if p.objectId == p.description.objectId && p.vote <= 1 {
      var nonce := NonceFor(e, p, nonceSeed, source);
      StandardGives(e.ctx.grp);
      CiphertextFor(e, p, nonceSeed, source);
      var c := EncryptWithPrecomputed(e.ctx.grp, p.vote, PowModP(e.ctx.grp, e.ctx.grp.g, nonce),
                                      PowModP(e.ctx.grp, e.publicKey, nonce));
      MadeSelectionIsValid(e.ctx, p.objectId, p.description.sequenceOrder, p.description.CryptoHash(e.ctx.sha), c,
                           e.publicKey, p.vote, p.isPlaceholder, nonce, source);
    }
  }

  /** What an encrypted selection is. */
  ghost predicate SelectionFor(e: Election, p: Planned, nonceSeed: Word, source: Source, s: CiphertextSelection)
    requires 1 < e.ctx.grp.p && 0 < e.ctx.grp.q
  {
    && s.nonce == NonceFor(e, p, nonceSeed, source) < Q
    && Encrypts(e.ctx.grp, e.publicKey, s.ciphertext, p.vote, s.nonce)
    && s.objectId == p.objectId && s.sequenceOrder == p.description.sequenceOrder && s.isPlaceholder == p.isPlaceholder
    && s.descriptionHash == p.description.CryptoHash(e.ctx.sha)
    && (SelectionIsValid(e.ctx, s, s.descriptionHash, e.publicKey) <==> ResponsesInBounds(s.proof))
  }

  lemma {:induction false} EncryptedSelectionsMean(e: Election, plan: seq<Planned>, nonceSeed: Word, verify: bool,
                                                   sources: seq<Source>)
    requires GoodElection(e) && |sources| == |plan|
    requires forall i :: 0 <= i < |sources| ==> HonestSource(e, sources[i])
    ensures var r := EncryptedSelections(e, plan, nonceSeed, verify, sources);
            && (r.Ok? <==> forall i :: 0 <= i < |plan| ==>
                             EncryptedSelection(e, plan[i], nonceSeed, verify, sources[i]).Ok?)
            && (r.Ok? ==> forall i :: 0 <= i < |plan| ==>
                  && Ok(r.value[i]) == UnverifiedSelection(e, plan[i], nonceSeed, sources[i])
                  && plan[i].vote <= 1
                  && SelectionFor(e, plan[i], nonceSeed, sources[i], r.value[i]))
  {
    hide EncryptedSelection, UnverifiedSelection, SelectionFor, HonestSource;
    if plan == [] {
    } else {
      var n := |plan| - 1;
      EncryptedSelectionsMean(e, plan[..n], nonceSeed, verify, sources[..n]);
      EncryptedSelectionMeans(e, plan[n], nonceSeed, verify, sources[n]);
      assert forall i :: 0 <= i < n ==> plan[..n][i] == plan[i] && sources[..n][i] == sources[i];
    }
  }

  /** Verifying while encrypting changes nothing but the failures. */
  lemma {:induction false} VerifyingSelections(e: Election, plan: seq<Planned>, nonceSeed: Word, sources: seq<Source>)
    requires GoodElection(e) && |sources| == |plan|
    requires forall i :: 0 <= i < |sources| ==> HonestSource(e, sources[i])
    ensures var u := EncryptedSelections(e, plan, nonceSeed, false, sources);
            var r := EncryptedSelections(e, plan, nonceSeed, true, sources);
            && (r.Ok? <==> u.Ok? && forall i :: 0 <= i < |u.value| ==> ResponsesInBounds(u.value[i].proof))
            && (r.Ok? ==> r == u)
  {
    hide EncryptedSelection, UnverifiedSelection, SelectionFor, HonestSource, ResponsesInBounds;
    EncryptedSelectionsMean(e, plan, nonceSeed, false, sources);
    EncryptedSelectionsMean(e, plan, nonceSeed, true, sources);
    var u := EncryptedSelections(e, plan, nonceSeed, false, sources);
    var r := EncryptedSelections(e, plan, nonceSeed, true, sources);
    forall i | 0 <= i < |plan|
      ensures EncryptedSelection(e, plan[i], nonceSeed, true, sources[i]).Ok? <==>
              && UnverifiedSelection(e, plan[i], nonceSeed, sources[i]).Ok?
              && ResponsesInBounds(UnverifiedSelection(e, plan[i], nonceSeed, sources[i]).value.proof)
      ensures EncryptedSelection(e, plan[i], nonceSeed, false, sources[i]).Ok? <==>
              UnverifiedSelection(e, plan[i], nonceSeed, sources[i]).Ok?
    {
      EncryptedSelectionMeans(e, plan[i], nonceSeed, true, sources[i]);
      EncryptedSelectionMeans(e, plan[i], nonceSeed, false, sources[i]);
    }
    if r.Ok? {
      assert r.value == u.value;
    }
  }

  // When encryption succeeds, for any election and whatever was drawn.

  /** The values that a fresh encryption cannot use: ElGamal encryption refuses the nonce zero. */
  predicate UsableNonce(e: Election, p: Planned, nonceSeed: Word, source: Source) {
    source.FromBuffer? || SelectionNonce(e.ctx.sha, p.description, nonceSeed) != 0
  }

  lemma SelectionSucceeds(e: Election, p: Planned, nonceSeed: Word, source: Source)
    requires 1 < e.ctx.grp.p
    ensures EncryptedSelection(e, p, nonceSeed, false, source).Ok?
            <==> p.objectId == p.description.objectId && p.vote <= 1 && UsableNonce(e, p, nonceSeed, source)
  {
    hide HashElems, EncryptWithPrecomputed, SelectionNonce;
  }

  lemma {:induction false} SelectionsSucceed(e: Election, plan: seq<Planned>, nonceSeed: Word, sources: seq<Source>)
    requires 1 < e.ctx.grp.p && |sources| == |plan|
    requires forall i :: 0 <= i < |plan| ==> plan[i].objectId == plan[i].description.objectId
    ensures EncryptedSelections(e, plan, nonceSeed, false, sources).Ok?
            <==> forall i :: 0 <= i < |plan| ==> plan[i].vote <= 1 && UsableNonce(e, plan[i], nonceSeed, sources[i])
  {
    hide EncryptedSelection, UsableNonce;
    if plan == [] {
    } else {
      var n := |plan| - 1;
      SelectionsSucceed(e, plan[..n], nonceSeed, sources[..n]);
      SelectionSucceeds(e, plan[n], nonceSeed, sources[n]);
      assert forall i :: 0 <= i < n ==> plan[..n][i] == plan[i] && sources[..n][i] == sources[i];
    }
  }

  /** What encryptContest needs of a plan: something to encrypt, only bits, and nonces it can use. */
  predicate PlanUsable(e: Election, plan: seq<Planned>, nonceSeed: Word, sources: seq<Source>)
    requires |sources| == |plan|
  {
    plan != [] && AllBits(plan) && forall i :: 0 <= i < |plan| ==> UsableNonce(e, plan[i], nonceSeed, sources[i])
  }

  predicate ContestUsable(e: Election, contest: PlaintextContest, d: Description, nonceSeed: Word, draws: ContestDraws)
    requires DrawsFit(d, draws)
  {
    PlanUsable(e, PlanFor(contest, d, ValidityFor(contest, d) == Overvote), ContestNonce(e, d, nonceSeed),
               draws.sources)
  }

  /**
   * Exactly when encryptContest returns a contest: the contest passes validation, there is something to encrypt, every
   * vote to encrypt is a bit, and no fresh selection derives the nonce zero.
   */
  lemma ContestSucceeds(e: Election, contest: PlaintextContest, d: Description, nonceSeed: Word, draws: ContestDraws)
    requires 1 < e.ctx.grp.p && DrawsFit(d, draws)
    ensures EncryptedContest(e, contest, d, nonceSeed, false, draws).Ok?
            <==> && (ValidityFor(contest, d) == Success || ValidityFor(contest, d) == Overvote)
                 && ContestUsable(e, contest, d, nonceSeed, draws)
  {
    hide EncryptedContest, EncryptedSelections, Assembled, ValidityFor, PlanFor, UsableNonce, ContestNonce, HashElems;
    var plan := PlanFor(contest, d, ValidityFor(contest, d) == Overvote);
    ContestCases(e, contest, d, nonceSeed, false, draws);
    PlanIds(contest, d, ValidityFor(contest, d) == Overvote);
    SelectionsSucceed(e, plan, ContestNonce(e, d, nonceSeed), draws.sources);
  }

  // Validation does not ask for bits: with more votes allowed than seats, one selection may take several votes.

  const TWO_SEATS := Manifests.ContestDescription("contest", "unit", 0, Manifests.NOfM, 2, 3, "",
                                                  Manifests.Titled(0, 0), TWO_CHOICES)
  const TWO_CHOICES := [Manifests.SelectionDescription("a", "x", 0), Manifests.SelectionDescription("b", "y", 1)]

  /** The contest as it is encrypted, with its two placeholders. */
  function TwoSeats(): Description {
    Manifests.WithPlaceholders(TWO_SEATS)
  }

  function SeveralVotes(vote: nat): PlaintextContest {
    PlaintextContest("contest", [PlaintextSelection("a", vote, false, "")])
  }

  /**
   * Validated and refused: two or three votes for one selection of a valid contest pass validation and make
   * encryptContest fail; three also exceed the number elected.
   */
  lemma ValidatedButRefused(e: Election, nonceSeed: Word, verify: bool, draws: ContestDraws, vote: nat)
    requires 1 < e.ctx.grp.p && 2 <= vote <= 3 && DrawsFit(TwoSeats(), draws)
    ensures Manifests.ValidContest(TWO_SEATS) && ValidityFor(SeveralVotes(vote), TwoSeats()) == Success
    ensures VotesOf(RealPlanFor(SeveralVotes(vote), TwoSeats(), false)) == vote
    ensures EncryptedContest(e, SeveralVotes(vote), TwoSeats(), nonceSeed, verify, draws)
            == Err("malformed input selection")
  {
    hide EncryptedContest, EncryptedSelections, Assembled, ContestNonce, HashElems, Sort, ValidityFor, RealPlanFor,
         PlanFor, TwoSeats;
    TwoSeatsIsValid(vote);
    TwoSeatsPlan(vote);
    FirstRefused(e, PlanFor(SeveralVotes(vote), TwoSeats(), false), ContestNonce(e, TwoSeats(), nonceSeed), verify,
                 draws.sources);
    ContestCases(e, SeveralVotes(vote), TwoSeats(), nonceSeed, verify, draws);
  }

  lemma TwoSeatsIsValid(vote: nat)
    requires vote <= 3
    ensures Manifests.ValidContest(TWO_SEATS) && ValidityFor(SeveralVotes(vote), TwoSeats()) == Success
  {
    hide Manifests.Placeholders;
    var contest := SeveralVotes(vote);
    assert contest.selections[..0] == [];
    assert Total(Votes, contest.selections) == vote && Total(Marks, contest.selections) <= 1;
  }

  lemma TwoSeatsPlan(vote: nat)
    ensures VotesOf(RealPlanFor(SeveralVotes(vote), TwoSeats(), false)) == vote
    ensures PlanFor(SeveralVotes(vote), TwoSeats(), false)[0].vote == vote
  {
    hide Manifests.Placeholders, Sort, VotesOf, Chosen;
    var d := TwoSeats();
    SortOfSorted(Manifests.SelectionOrder, TWO_SEATS.selections);
    assert d.description.GetSelections() == TWO_SEATS.selections;
    var actual := RealPlanFor(SeveralVotes(vote), d, false);
    SeveralVotesChosen(vote, d.description);
    assert actual[0].vote == vote && actual[1].vote == 0;
    TwoVotes(actual);
  }

  lemma SeveralVotesChosen(vote: nat, description: Manifests.ContestDescription)
    requires description.GetSelections() == TWO_SEATS.selections
    ensures var normalised := Normalised(SeveralVotes(vote), description).selections;
            Chosen(normalised, "a").vote == vote && Chosen(normalised, "b").vote == 0
  {
    hide Sort;
    var cast := SeveralVotes(vote).selections;
    var normalised := Normalised(SeveralVotes(vote), description).selections;
    assert cast[1..] == [] && Chosen(cast, "b") == PlaintextSelection("b", 0, false, "");
    assert normalised[0] == cast[0] && normalised[1] == Chosen(cast, "b");
    assert normalised[1..][0] == normalised[1];
  }

  lemma TwoVotes(plan: seq<Planned>)
    requires |plan| == 2
    ensures VotesOf(plan) == plan[0].vote + plan[1].vote
  {
    assert plan[..1][..0] == [];
    assert VotesOf(plan[..1]) == plan[0].vote;
  }

  lemma FirstRefused(e: Election, plan: seq<Planned>, nonceSeed: Word, verify: bool, sources: seq<Source>)
    requires 1 < e.ctx.grp.p && |sources| == |plan| && plan != [] && plan[0].vote > 1
    ensures EncryptedSelections(e, plan, nonceSeed, verify, sources) == Err("malformed input selection")
  {
    hide HashElems, MadeSelection, SelectionIsValid;
    assert plan[..1][..0] == [] && sources[..1][..0] == [];
    assert EncryptedSelection(e, plan[0], nonceSeed, verify, sources[0]) == Err("malformed input selection");
    assert EncryptedSelections(e, plan[..1], nonceSeed, verify, sources[..1]) == Err("malformed input selection");
    FailureStays(e, plan, nonceSeed, verify, sources, 1);
  }

  /** Nothing in the contest's proof came out as zero. */
  ghost predicate LimitInBounds(c: CiphertextContest) {
    0 < c.proof.c < Q && 0 < c.proof.v < Q
  }

  /** Every selection of an encrypted contest encrypts the bit planned for it. */
  lemma SelectionsEncrypt(e: Election, contest: PlaintextContest, d: Description, nonceSeed: Word, draws: ContestDraws)
    requires GoodElection(e) && DrawsFit(d, draws) && HonestDraws(e, draws)
    requires EncryptedContest(e, contest, d, nonceSeed, false, draws).Ok?
    ensures var c := EncryptedContest(e, contest, d, nonceSeed, false, draws).value;
            var plan := PlanFor(contest, d, ValidityFor(contest, d) == Overvote);
            && |c.selections| == |plan| && AllBits(plan)
            && (forall i :: 0 <= i < |c.selections| ==> c.selections[i].nonce <= Q)
            && (forall i :: 0 <= i < |c.selections| ==>
                  && c.selections[i].sequenceOrder == plan[i].description.sequenceOrder
                  && c.selections[i].objectId == plan[i].objectId
                  && c.selections[i].isPlaceholder == plan[i].isPlaceholder)
            && (forall i :: 0 <= i < |c.selections| ==>
                  Encrypts(e.ctx.grp, e.publicKey, c.selections[i].ciphertext, PlannedVotes(plan)[i],
                           c.selections[i].nonce))
  {
    hide EncryptedSelections, SelectionFor, HonestSource, PlanFor, Standard, ContestNonce, EncryptedContest, Encrypts,
         MadeContest, Accumulated, Sort, SumModQ, ValidityFor, ProofSeed;
    var plan := PlanFor(contest, d, ValidityFor(contest, d) == Overvote);
    var c := EncryptedContest(e, contest, d, nonceSeed, false, draws).value;
    StandardGives(e.ctx.grp);
    MadeContestKeeps(e, contest, d, nonceSeed, draws);
    EncryptedSelectionsMean(e, plan, ContestNonce(e, d, nonceSeed), false, draws.sources);
    forall i | 0 <= i < |plan|
      ensures c.selections[i].nonce <= Q && c.selections[i].sequenceOrder == plan[i].description.sequenceOrder
      ensures c.selections[i].objectId == plan[i].objectId && c.selections[i].isPlaceholder == plan[i].isPlaceholder
      ensures Encrypts(e.ctx.grp, e.publicKey, c.selections[i].ciphertext, PlannedVotes(plan)[i], c.selections[i].nonce)
    {
      SelectionForGives(e, plan[i], ContestNonce(e, d, nonceSeed), draws.sources[i], c.selections[i]);
    }
  }

  /**
   * The accumulation of an encrypted contest encrypts the sum of its plan, and the contest passes its own check
   * exactly when that sum is the number elected and neither challenge nor response is zero.
   */
  lemma EncryptedContestIsValid(e: Election, contest: PlaintextContest, d: Description, nonceSeed: Word,
                                draws: ContestDraws)
    requires GoodElection(e) && DrawsFit(d, draws) && HonestDraws(e, draws)
    requires d.description.numberElected < UINT64
    requires |d.description.selections| + |d.placeholderSelections| < UINT64
    requires EncryptedContest(e, contest, d, nonceSeed, false, draws).Ok?
    ensures var c := EncryptedContest(e, contest, d, nonceSeed, false, draws).value;
            var overvote := ValidityFor(contest, d) == Overvote;
            && Encrypts(e.ctx.grp, e.publicKey, c.ciphertextAccumulation, VotesOf(PlanFor(contest, d, overvote)),
                        SumModQ(NoncesOf(c.GetSelections())))
            && (ContestIsValid(e.ctx, c, c.descriptionHash, e.publicKey) <==>
                PlanFits(contest, d, overvote) && LimitInBounds(c))
  {
    hide EncryptedContest, PlanFor, Sum, ContestIsValid, PlanFits, Encrypts, AllBits, SumModQ, Accumulated, Standard,
         Sort, MadeContest, HashElems, TripleFor, ContestNonce, ProofSeed, ValidityFor, DrawsFit, VotesOf, HonestSource;
    var overvote := ValidityFor(contest, d) == Overvote;
    var plan := PlanFor(contest, d, overvote);
    var c := EncryptedContest(e, contest, d, nonceSeed, false, draws).value;
    StandardGives(e.ctx.grp);
    SelectionsEncrypt(e, contest, d, nonceSeed, draws);
    MadeContestKeeps(e, contest, d, nonceSeed, draws);
    AggregateEncrypts(e.ctx, e.publicKey, c.selections, PlannedVotes(plan));
    MadeContestIsValid(e.ctx, c.objectId, c.sequenceOrder, c.descriptionHash, c.selections, e.publicKey,
                       ProofSeed(e, d, nonceSeed), d.description.numberElected, c.nonce, c.hashedElGamal, draws.limit,
                       draws.limitBuffered, PlannedVotes(plan));
    VotesAreSum(plan);
    SmallVotes(plan);
    SumsAgree(VotesOf(plan), d.description.numberElected);
    PlanTotal(contest, d, overvote);
  }

  /** The holder of the secret key reads back exactly the planned bits, and the number elected is their total. */
  lemma EncryptedVotesDecrypt(e: Election, contest: PlaintextContest, d: Description, nonceSeed: Word,
                              draws: ContestDraws, secret: Word)
    requires GoodElection(e) && DrawsFit(d, draws) && HonestDraws(e, draws)
    requires EncryptedContest(e, contest, d, nonceSeed, false, draws).Ok?
    requires e.publicKey == e.ctx.grp.Exp(e.ctx.grp.g, secret)
    ensures var c := EncryptedContest(e, contest, d, nonceSeed, false, draws).value;
            var plan := PlanFor(contest, d, ValidityFor(contest, d) == Overvote);
            && |c.selections| == |plan|
            && forall i :: 0 <= i < |plan| ==>
                 ElGamal.Decrypt(e.ctx.grp, c.selections[i].ciphertext, secret) == plan[i].vote
  {
    hide EncryptedContest, HonestDraws, Standard, PlanFor, ElGamal.Encrypts, ElGamal.Decrypt, Group.Exp;
    StandardGives(e.ctx.grp);
    SelectionsEncrypt(e, contest, d, nonceSeed, draws);
    var c := EncryptedContest(e, contest, d, nonceSeed, false, draws).value;
    var plan := PlanFor(contest, d, ValidityFor(contest, d) == Overvote);
    forall i | 0 <= i < |plan|
      ensures ElGamal.Decrypt(e.ctx.grp, c.selections[i].ciphertext, secret) == plan[i].vote
    {
      ElGamal.DecryptRecovers(e.ctx.grp, secret, c.selections[i].ciphertext, plan[i].vote, c.selections[i].nonce);
    }
  }

  /** The holder of the secret key also reads the extended data back, up to the 510 bytes that are sealed. */
  lemma ExtendedDataRecovers(e: Election, contest: PlaintextContest, d: Description, nonceSeed: Word,
                             draws: ContestDraws, secret: Word)
    requires GoodElection(e) && DrawsFit(d, draws) && e.publicKey == e.ctx.grp.Exp(e.ctx.grp.g, secret)
    requires EncryptedContest(e, contest, d, nonceSeed, false, draws).Ok?
    requires TripleFor(e.ctx.grp, e.publicKey, draws.seal)
    ensures HashedDecryption(e.Env(), EncryptedContest(e, contest, d, nonceSeed, false, draws).value.hashedElGamal,
                             secret, e.ctx.q, true)
            == Ok(Recovered(e.extendedData(contest, ValidityFor(contest, d) == Overvote), Bytes512))
  {
    hide EncryptedSelections, PlanFor, MakeConstant, ElGamal.Accumulated, Sort, SumModQ, HashElems, HashedEncryption,
         HashedDecryption, Recovered, Standard, Group.Exp, PowModPWide, TripleFor, ContestNonce, ProofSeed, ValidityFor;
    StandardGives(e.ctx.grp);
    var message := e.extendedData(contest, ValidityFor(contest, d) == Overvote);
    TripleSeals(e.Env(), secret, draws.seal, message, e.ctx.q, Bytes512, true);
    TripleExponent(e, draws.seal);
    PaddedRoundTrip(e.Env(), secret, draws.seal.exp, message, e.ctx.q, true);
  }

  lemma TripleExponent(e: Election, t: Triple)
    requires 1 < e.ctx.grp.p && TripleFor(e.ctx.grp, e.publicKey, t)
    ensures t.exp < Q
  {
  }

  lemma SelectionForGives(e: Election, p: Planned, nonceSeed: Word, source: Source, s: CiphertextSelection)
    requires 1 < e.ctx.grp.p && 0 < e.ctx.grp.q && SelectionFor(e, p, nonceSeed, source, s)
    ensures s.nonce <= Q && Encrypts(e.ctx.grp, e.publicKey, s.ciphertext, p.vote, s.nonce)
    ensures s.descriptionHash == p.description.CryptoHash(e.ctx.sha) && s.sequenceOrder == p.description.sequenceOrder
    ensures s.objectId == p.objectId && s.isPlaceholder == p.isPlaceholder
    ensures SelectionIsValid(e.ctx, s, s.descriptionHash, e.publicKey) <==> ResponsesInBounds(s.proof)
  {
  }

  lemma {:induction false} SmallVotes(plan: seq<Planned>)
    requires AllBits(plan)
    ensures VotesOf(plan) <= |plan|
  {
    if plan == [] {
    } else {
      SmallVotes(plan[..|plan| - 1]);
    }
  }

  lemma SumsAgree(x: nat, y: nat)
    requires x < UINT64 && y < UINT64
    ensures (x - y) % Q == 0 <==> x == y
  {
    ModDiffZero(x, y, Q);
    ModIs(x, 0, x, Q);
    ModIs(y, 0, y, Q);
  }

  /** Every zero that could make a proof of the contest fail. */
  ghost predicate NoZeroes(c: CiphertextContest) {
    LimitInBounds(c) && forall i :: 0 <= i < |c.selections| ==> ResponsesInBounds(c.selections[i].proof)
  }

  /**
   * encryptContest from end to end. With one placeholder per seat and distinct identifiers, verification can only
   * fail because a challenge or response is zero; otherwise the verified result is the unverified one, its
   * accumulation encrypts exactly the number elected, and every check on the contest passes.
   */
  lemma ContestEndToEnd(e: Election, contest: PlaintextContest, d: Description, nonceSeed: Word, draws: ContestDraws)
    requires GoodElection(e) && DrawsFit(d, draws) && HonestDraws(e, draws)
    requires d.description.numberElected < UINT64
    requires |d.description.selections| + |d.placeholderSelections| < UINT64
    requires Manifests.Distinct(Manifests.SelectionIds(d.description.selections))
    requires |d.placeholderSelections| == d.description.numberElected
    ensures var u := EncryptedContest(e, contest, d, nonceSeed, false, draws);
            var r := EncryptedContest(e, contest, d, nonceSeed, true, draws);
            && (u.Ok? ==> Encrypts(e.ctx.grp, e.publicKey, u.value.ciphertextAccumulation, d.description.numberElected,
                                   SumModQ(NoncesOf(u.value.GetSelections()))))
            && (u.Ok? ==> (ContestVerifies(e.ctx, e.publicKey, u.value) <==> NoZeroes(u.value)))
            && (r.Ok? <==> u.Ok? && NoZeroes(u.value))
            && (r.Ok? ==> r == u)
  {
    hide EncryptedSelections, SelectionFor, HonestSource, TripleFor, PlanFor, HashElems, Accumulated, SumModQ, Sum,
         Encrypts, ConstantIsValid, Sort, Standard, MakeConstant, ContestNonce, ProofSeed, ContestIsValid, PlanFits,
         ResponsesInBounds, SelectionIsValid, VotesOf, MadeContest;
    var overvote := ValidityFor(contest, d) == Overvote;
    var plan := PlanFor(contest, d, overvote);
    StandardGives(e.ctx.grp);
    VerifyingSelections(e, plan, ContestNonce(e, d, nonceSeed), draws.sources);
    var u := EncryptedContest(e, contest, d, nonceSeed, false, draws);
    if u.Ok? {
      EncryptedSelectionsMean(e, plan, ContestNonce(e, d, nonceSeed), false, draws.sources);
      MadeContestKeeps(e, contest, d, nonceSeed, draws);
      forall i | 0 <= i < |u.value.selections|
        ensures SelectionIsValid(e.ctx, u.value.selections[i], u.value.selections[i].descriptionHash, e.publicKey)
                <==> ResponsesInBounds(u.value.selections[i].proof)
      {
        SelectionForGives(e, plan[i], ContestNonce(e, d, nonceSeed), draws.sources[i], u.value.selections[i]);
      }
      PlanReachesLimit(contest, d);
      VotesAreSum(plan);
      EncryptedContestIsValid(e, contest, d, nonceSeed, draws);
    }
  }

  lemma MadeContestKeeps(e: Election, contest: PlaintextContest, d: Description, nonceSeed: Word, draws: ContestDraws)
    requires 1 < e.ctx.grp.p && DrawsFit(d, draws) && EncryptedContest(e, contest, d, nonceSeed, false, draws).Ok?
    ensures var c := EncryptedContest(e, contest, d, nonceSeed, false, draws).value;
            && Ok(c.selections) == EncryptedSelections(e, PlanFor(contest, d, ValidityFor(contest, d) == Overvote),
                                                    ContestNonce(e, d, nonceSeed), false, draws.sources)
            && c == MadeContest(e.ctx, c.objectId, c.sequenceOrder, c.descriptionHash, c.selections, e.publicKey,
                                ProofSeed(e, d, nonceSeed), d.description.numberElected, c.nonce, c.hashedElGamal,
                                draws.limit, draws.limitBuffered)
            && c.ciphertextAccumulation == Accumulated(e.ctx.grp, Ciphertexts(c.GetSelections()))
  {
    hide EncryptedSelections, PlanFor, HashElems, Accumulated, SumModQ, Sort, MakeConstant, ContestNonce, ProofSeed;
  }

  // -------------------------------------------------------------------------- the code

  /** The i-th value comes from the queue of bundles while it lasts, and from rand_q afterwards. */
  ghost predicate DrawnAt(source: Source, bundles: seq<TwoTriplesAndAQuadruple>, i: nat) {
    if i < |bundles| then source == FromBuffer(bundles[i])
    else source.Random? && source.u < Q && source.v < Q && source.w < Q
  }

  ghost predicate DrawnFrom(sources: seq<Source>, bundles: seq<TwoTriplesAndAQuadruple>) {
    forall i :: 0 <= i < |sources| ==> DrawnAt(sources[i], bundles, i)
  }

  function Remaining<T>(queue: seq<T>, taken: nat): seq<T> {
    if taken <= |queue| then queue[taken..] else []
  }

  /** Items only ever leave a queue from its front. */
  ghost predicate IsRest<T>(after: seq<T>, before: seq<T>) {
    |after| <= |before| && after == before[|before| - |after|..]
  }

  lemma RemainingIsRest<T>(queue: seq<T>, taken: nat)
    ensures IsRest(Remaining(queue, taken), queue)
  {
  }

  lemma RestOfRest<T>(after: seq<T>, middle: seq<T>, before: seq<T>)
    requires IsRest(after, middle) && IsRest(middle, before)
    ensures IsRest(after, before)
  {
  }

  /** Integer fields and container sizes of a description are 64-bit values. */
  predicate Sized(d: Description) {
    && d.description.sequenceOrder < UINT64
    && d.description.numberElected < UINT64
    && |d.description.selections| + |d.placeholderSelections| < UINT64
    && (forall s :: s in d.description.selections ==> s.sequenceOrder < UINT64)
    && (forall s :: s in d.placeholderSelections ==> s.sequenceOrder < UINT64)
  }

  method EncryptSelection(e: Election, p: Planned, nonceSeed: Word, verify: bool, buffers: PrecomputeBufferContext)
      returns (r: Result<CiphertextSelection>, ghost source: Source)
    requires 1 < e.ctx.grp.p && p.description.sequenceOrder < UINT64
    modifies buffers`bundleQueue
    ensures r == EncryptedSelection(e, p, nonceSeed, verify, source)
    ensures DrawnAt(source, old(buffers.bundleQueue), 0)
    ensures r.Ok? ==> buffers.bundleQueue == Remaining(old(buffers.bundleQueue), 1)
    ensures IsRest(buffers.bundleQueue, old(buffers.bundleQueue))
  {
    hide PowModPWide, HashElems, MadeSelection, SelectionIsValid;
    var grp, sha, k := e.ctx.grp, e.ctx.sha, e.publicKey;
    source := if buffers.bundleQueue != [] then FromBuffer(buffers.bundleQueue[0]) else Random(0, 0, 0);
    if p.objectId != p.description.objectId || p.vote > 1 {
      return Err("malformed input selection"), source;
    }
    var descriptionHash := p.description.CryptoHash(sha);
    var nonceSequence := new Nonces(sha, descriptionHash, Element(nonceSeed));
    var selectionNonce := nonceSequence.Get(p.description.sequenceOrder);
    var precomputed := buffers.GetTwoTriplesAndAQuadruple();
    var encrypted;
    if precomputed.Ok? {
      var pre := precomputed.value;
      var ciphertext := EncryptWithPrecomputed(grp, p.vote, pre.triple1.gToExp, pre.triple1.pubkeyToExp);
      encrypted := MadeSelection(e.ctx, p.objectId, p.description.sequenceOrder, descriptionHash, ciphertext, k, p.vote,
                                 p.isPlaceholder, pre.triple1.exp, FromBuffer(pre));
    } else {
      var ciphertext := ElGamalEncrypt(grp, p.vote, selectionNonce, k);
      if ciphertext.Err? {
        return Err(ciphertext.reason), source;
      }
      var u := RandQ();
      var v := RandQ();
      var w := RandQ();
      source := Random(u, v, w);
      encrypted := MadeSelection(e.ctx, p.objectId, p.description.sequenceOrder, descriptionHash,
                                 ciphertext.value, k, p.vote,
                                 p.isPlaceholder, selectionNonce, Random(u, v, w));
    }
    if encrypted.Err? || !verify {
      return encrypted, source;
    }
    if SelectionIsValid(e.ctx, encrypted.value, descriptionHash, k) {
      return encrypted, source;
    }
    r := Err("encryptSelection failed validity check");
  }

  /** find_if over the normalised selections. */
  method FindSelection(selections: seq<PlaintextSelection>, id: string) returns (r: Result<PlaintextSelection>)
    ensures r.Ok? <==> exists i :: 0 <= i < |selections| && selections[i].objectId == id
    ensures r.Ok? ==> r.value == Chosen(selections, id)
  {
    for i := 0 to |selections|
      invariant Chosen(selections[i..], id) == Chosen(selections, id)
      invariant forall j :: 0 <= j < i ==> selections[j].objectId != id
    {
      assert selections[i..][1..] == selections[i + 1..];
      if selections[i].objectId == id {
        return Ok(selections[i]);
      }
    }
    r := Err("not found");
  }

  /** What would have been used by the selections after a failure; nothing depends on it. */
  ghost function Unused(bundles: seq<TwoTriplesAndAQuadruple>, done: nat, n: nat): (r: seq<Source>)
    ensures |r| == n && forall i :: 0 <= i < n ==> DrawnAt(r[i], bundles, done + i)
  {
    seq(n, i requires 0 <= i < n => if done + i < |bundles| then FromBuffer(bundles[done + i]) else Random(0, 0, 0))
  }

  /** One more selection. */
  lemma SelectionsStep(e: Election, plan: seq<Planned>, nonceSeed: Word, verify: bool, sources: seq<Source>, i: nat,
                       source: Source)
    requires 1 < e.ctx.grp.p && i < |plan| && |sources| == i
    ensures plan[..i + 1][..i] == plan[..i] && (sources + [source])[..i] == sources
    ensures var front := EncryptedSelections(e, plan[..i], nonceSeed, verify, sources);
            var last := EncryptedSelection(e, plan[i], nonceSeed, verify, source);
            EncryptedSelections(e, plan[..i + 1], nonceSeed, verify, sources + [source])
            == if front.Err? then front else if last.Err? then Err(last.reason) else Ok(front.value + [last.value])
  {
    hide EncryptedSelection;
    assert plan[..i + 1][..i] == plan[..i] && (sources + [source])[..i] == sources;
  }

  /** The first failure is the failure of the whole. */
  lemma {:induction false} FailureStays(e: Election, plan: seq<Planned>, nonceSeed: Word, verify: bool,
                                        sources: seq<Source>, i: nat)
    requires 1 < e.ctx.grp.p && |sources| == |plan| && i <= |plan|
    requires EncryptedSelections(e, plan[..i], nonceSeed, verify, sources[..i]).Err?
    ensures EncryptedSelections(e, plan, nonceSeed, verify, sources)
            == EncryptedSelections(e, plan[..i], nonceSeed, verify, sources[..i])
  {
    hide EncryptedSelection;
    if i == |plan| {
      assert plan[..i] == plan && sources[..i] == sources;
    } else {
      var n := |plan| - 1;
      assert plan[..n][..i] == plan[..i] && sources[..n][..i] == sources[..i];
      FailureStays(e, plan[..n], nonceSeed, verify, sources[..n], i);
    }
  }

  lemma {:induction false} SelectionsConcatenate(e: Election, p: seq<Planned>, q: seq<Planned>,
                                                 nonceSeed: Word, verify: bool,
                                                 s: seq<Source>, t: seq<Source>)
    requires 1 < e.ctx.grp.p && |s| == |p| && |t| == |q|
    ensures var front := EncryptedSelections(e, p, nonceSeed, verify, s);
            var back := EncryptedSelections(e, q, nonceSeed, verify, t);
            EncryptedSelections(e, p + q, nonceSeed, verify, s + t)
            == if front.Err? then front else if back.Err? then back else Ok(front.value + back.value)
  {
    hide EncryptedSelection;
    if q == [] {
      assert p + q == p && s + t == s;
      var front := EncryptedSelections(e, p, nonceSeed, verify, s);
      assert front.Ok? ==> front.value + [] == front.value;
    } else {
      var n := |q| - 1;
      SelectionsConcatenate(e, p, q[..n], nonceSeed, verify, s, t[..n]);
      assert (p + q)[..|p| + n] == p + q[..n] && (s + t)[..|p| + n] == s + t[..n];
      var front := EncryptedSelections(e, p, nonceSeed, verify, s);
      var back := EncryptedSelections(e, q[..n], nonceSeed, verify, t[..n]);
      var last := EncryptedSelection(e, q[n], nonceSeed, verify, t[n]);
      if front.Ok? && back.Ok? && last.Ok? {
        assert front.value + (back.value + [last.value]) == (front.value + back.value) + [last.value];
      }
    }
  }

  lemma DrawnConcatenate(s: seq<Source>, t: seq<Source>, bundles: seq<TwoTriplesAndAQuadruple>)
    requires DrawnFrom(s, bundles) && DrawnFrom(t, Remaining(bundles, |s|))
    ensures DrawnFrom(s + t, bundles)
  {
    forall i | 0 <= i < |s + t| ensures DrawnAt((s + t)[i], bundles, i) {
      if i >= |s| {
        assert DrawnAt(t[i - |s|], Remaining(bundles, |s|), i - |s|);
      }
    }
  }

  /** The encryption of one more selection, as both loops of encryptContest do it. */
  method EncryptNext(e: Election, p: Planned, encrypted: seq<CiphertextSelection>, nonceSeed: Word, verify: bool,
                     buffers: PrecomputeBufferContext, ghost plan: seq<Planned>, ghost sources: seq<Source>,
                     ghost bundles: seq<TwoTriplesAndAQuadruple>)
      returns (r: Result<seq<CiphertextSelection>>, ghost used: seq<Source>)
    requires 1 < e.ctx.grp.p && p.description.sequenceOrder < UINT64
    requires |sources| < |plan| && plan[|sources|] == p
    requires EncryptedSelections(e, plan[..|sources|], nonceSeed, verify, sources) == Ok(encrypted)
    requires DrawnFrom(sources, bundles) && buffers.bundleQueue == Remaining(bundles, |sources|)
    modifies buffers`bundleQueue
    ensures DrawnFrom(used, bundles) && IsRest(buffers.bundleQueue, bundles)
    ensures r.Ok? ==> |used| == |sources| + 1 && r == EncryptedSelections(e, plan[..|used|], nonceSeed, verify, used)
                      && buffers.bundleQueue == Remaining(bundles, |used|) && p.vote <= 1
    ensures r.Err? ==> |used| == |plan| && r == EncryptedSelections(e, plan, nonceSeed, verify, used)
  {
    hide EncryptedSelection, EncryptedSelections, IsRest, Remaining, DrawnAt;
    ghost var i := |sources|;
    RemainingIsRest(bundles, i);
    var next;
    ghost var source;
    next, source := EncryptSelection(e, p, nonceSeed, verify, buffers);
    RestOfRest(buffers.bundleQueue, Remaining(bundles, i), bundles);
    DrawnNext(source, bundles, i);
    SelectionsStep(e, plan, nonceSeed, verify, sources, i, source);
    used := sources + [source];
    if next.Err? {
      ghost var all := used + Unused(bundles, i + 1, |plan| - i - 1);
      assert all[..i + 1] == used;
      FailureStays(e, plan, nonceSeed, verify, all, i + 1);
      return Err(next.reason), all;
    }
    OnlyBits(e, p, nonceSeed, verify, source);
    r := Ok(encrypted + [next.value]);
  }

  /** The loop over the selections of the description. */
  method EncryptReal(e: Election, contest: PlaintextContest, d: Description, overvote: bool, nonceSeed: Word,
                     verify: bool, buffers: PrecomputeBufferContext)
      returns (r: Result<seq<CiphertextSelection>>, selectionCount: nat, ghost sources: seq<Source>)
    requires 1 < e.ctx.grp.p && Sized(d)
    modifies buffers`bundleQueue
    ensures |sources| == |d.description.selections|
    ensures r == EncryptedSelections(e, RealPlanFor(contest, d, overvote), nonceSeed, verify, sources)
    ensures r.Ok? ==> selectionCount == VotesOf(RealPlanFor(contest, d, overvote)) <= |d.description.selections|
    ensures DrawnFrom(sources, old(buffers.bundleQueue))
    ensures r.Ok? ==> buffers.bundleQueue == Remaining(old(buffers.bundleQueue), |sources|)
    ensures IsRest(buffers.bundleQueue, old(buffers.bundleQueue))
  {
    hide EncryptedSelection, Sort, EncryptedSelections, Chosen, ChosenAll, VotesOf;
    ghost var bundles, plan := buffers.bundleQueue, RealPlanFor(contest, d, overvote);
    var normalised := EmplaceMissingSelections(contest, d.description);
    var descriptions := d.description.GetSelections();
    SortSorts(Manifests.SelectionOrder, d.description.selections);
    r := Ok([]);
    selectionCount, sources := 0, [];
    NothingPlanned(e, plan, nonceSeed, verify);
    for i := 0 to |descriptions|
      invariant |sources| == i && r.Ok?
      invariant EncryptedSelections(e, plan[..i], nonceSeed, verify, sources) == r
      invariant selectionCount == VotesOf(plan[..i]) <= i
      invariant DrawnFrom(sources, bundles) && buffers.bundleQueue == Remaining(bundles, i)
    {
      assert descriptions[i] in multiset(d.description.selections);
      NormalisedAt(contest, d.description, i);
      var selection := FindSelection(normalised.selections, descriptions[i].objectId);
      var vote := if overvote then 0 else selection.value.vote;
      VotesStep(plan, i, vote);
      selectionCount := (selectionCount + vote) % UINT64;
      r, sources := EncryptNext(e, Planned(selection.value.objectId, vote, descriptions[i], false),
                                r.value, nonceSeed, verify,
                                buffers, plan, sources, bundles);
      if r.Err? {
        return;
      }
    }
    assert plan[..|descriptions|] == plan;
  }

  lemma VotesStep(plan: seq<Planned>, i: nat, vote: nat)
    requires i < |plan| && plan[i].vote == vote
    ensures VotesOf(plan[..i + 1]) == VotesOf(plan[..i]) + vote
    ensures VotesOf(plan[..i]) + vote < UINT64 ==>
              (VotesOf(plan[..i]) + vote) % UINT64 == VotesOf(plan[..i]) + vote
  {
    assert plan[..i + 1][..i] == plan[..i];
    var total := VotesOf(plan[..i]) + vote;
    if total < UINT64 {
      ModIs(total, 0, total, UINT64);
    }
  }

  lemma NothingPlanned(e: Election, plan: seq<Planned>, nonceSeed: Word, verify: bool)
    requires 1 < e.ctx.grp.p
    ensures EncryptedSelections(e, plan[..0], nonceSeed, verify, []) == Ok([]) && VotesOf(plan[..0]) == 0
  {
  }

  lemma NormalisedAt(contest: PlaintextContest, description: Manifests.ContestDescription, i: nat)
    requires i < |description.selections|
    ensures Normalised(contest, description).selections[i].objectId == description.GetSelections()[i].objectId
  {
  }

  lemma DrawnNext(source: Source, bundles: seq<TwoTriplesAndAQuadruple>, i: nat)
    requires DrawnAt(source, Remaining(bundles, i), 0)
    ensures DrawnAt(source, bundles, i)
    ensures Remaining(Remaining(bundles, i), 1) == Remaining(bundles, i + 1)
  {
  }

  /** Only bits are ever encrypted. */
  lemma OnlyBits(e: Election, p: Planned, nonceSeed: Word, verify: bool, source: Source)
    requires 1 < e.ctx.grp.p && EncryptedSelection(e, p, nonceSeed, verify, source).Ok?
    ensures p.vote <= 1
  {
    hide HashElems, PowModPWide, MadeSelection, SelectionIsValid;
  }

  /** The loop over the placeholders. */
  method EncryptPlaceholders(e: Election, d: Description, overvote: bool, votes: nat, nonceSeed: Word, verify: bool,
                             buffers: PrecomputeBufferContext)
      returns (r: Result<seq<CiphertextSelection>>, ghost sources: seq<Source>)
    requires 1 < e.ctx.grp.p && Sized(d) && votes <= |d.description.selections|
    modifies buffers`bundleQueue
    ensures |sources| == |d.placeholderSelections|
    ensures r == EncryptedSelections(e, PlaceholderPlan(d.GetPlaceholders(), overvote, votes,
                                                        d.description.numberElected),
                                     nonceSeed, verify, sources)
    ensures DrawnFrom(sources, old(buffers.bundleQueue))
    ensures r.Ok? ==> buffers.bundleQueue == Remaining(old(buffers.bundleQueue), |sources|)
    ensures IsRest(buffers.bundleQueue, old(buffers.bundleQueue))
  {
    hide EncryptedSelection, Sort, EncryptedSelections;
    var placeholders := d.GetPlaceholders();
    SortSorts(Manifests.SelectionOrder, d.placeholderSelections);
    ghost var bundles := buffers.bundleQueue;
    ghost var plan := PlaceholderPlan(placeholders, overvote, votes, d.description.numberElected);
    var selectionCount := votes;
    r, sources := Ok([]), [];
    NothingPlanned(e, plan, nonceSeed, verify);
    for i := 0 to |placeholders|
      invariant |sources| == i && r.Ok?
      invariant EncryptedSelections(e, plan[..i], nonceSeed, verify, sources) == r
      invariant !overvote ==>
                  selectionCount == if votes + i <= d.description.numberElected then votes + i
                                    else if votes <= d.description.numberElected then d.description.numberElected
                                    else votes
      invariant DrawnFrom(sources, bundles) && buffers.bundleQueue == Remaining(bundles, i)
    {
      assert placeholders[i] in multiset(d.placeholderSelections);
      var selectPlaceholder := false;
      if overvote {
        selectPlaceholder := true;
      } else {
        if selectionCount < d.description.numberElected {
          selectPlaceholder := true;
          selectionCount := selectionCount + 1;
        }
      }
      var placeholder := Planned(placeholders[i].objectId, if selectPlaceholder then 1 else 0, placeholders[i], true);
      r, sources := EncryptNext(e, placeholder, r.value, nonceSeed, verify, buffers, plan, sources, bundles);
      if r.Err? {
        return;
      }
    }
    assert plan[..|placeholders|] == plan;
  }

  /** Both loops, one after the other. */
  method EncryptSelections(e: Election, contest: PlaintextContest, d: Description, overvote: bool,
                           nonceSeed: Word, verify: bool,
                           buffers: PrecomputeBufferContext)
      returns (r: Result<seq<CiphertextSelection>>, ghost sources: seq<Source>)
    requires 1 < e.ctx.grp.p && Sized(d)
    modifies buffers`bundleQueue
    ensures |sources| == |d.description.selections| + |d.placeholderSelections|
    ensures r == EncryptedSelections(e, PlanFor(contest, d, overvote), nonceSeed, verify, sources)
    ensures DrawnFrom(sources, old(buffers.bundleQueue))
    ensures r.Ok? ==> buffers.bundleQueue == Remaining(old(buffers.bundleQueue), |sources|)
    ensures IsRest(buffers.bundleQueue, old(buffers.bundleQueue))
  {
    hide EncryptedSelections, RealPlanFor, PlaceholderPlan, Sort;
    ghost var bundles := buffers.bundleQueue;
    ghost var actual := RealPlanFor(contest, d, overvote);
    ghost var fill := PlaceholderPlan(d.GetPlaceholders(), overvote, VotesOf(actual), d.description.numberElected);
    var votes;
    r, votes, sources := EncryptReal(e, contest, d, overvote, nonceSeed, verify, buffers);
    if r.Err? {
      ghost var rest := Unused(bundles, |sources|, |d.placeholderSelections|);
      SelectionsConcatenate(e, actual, fill, nonceSeed, verify, sources, rest);
      sources := sources + rest;
      return;
    }
    var selections := r.value;
    ghost var fillSources;
    r, fillSources := EncryptPlaceholders(e, d, overvote, votes, nonceSeed, verify, buffers);
    SelectionsConcatenate(e, actual, fill, nonceSeed, verify, sources, fillSources);
    DrawnConcatenate(sources, fillSources, bundles);
    sources := sources + fillSources;
    if r.Ok? {
      r := Ok(selections + r.value);
    }
  }

  /** The values drawn from the triple queue: one triple for the extended data, then one for the proof. */
  ghost predicate TriplesDrawn(e: Election, d: Description, nonceSeed: Word, draws: ContestDraws, triples: seq<Triple>)
    requires 1 < e.ctx.grp.p
  {
    && draws.seal == (if triples != [] then triples[0]
                      else GenerateTriple(e.ctx.grp, e.publicKey, SealNonce(e, d, nonceSeed)))
    && draws.limitBuffered == (|triples| >= 2)
    && (draws.limitBuffered ==> draws.limit == triples[1])
  }

  /** The second half of encryptContest: the extended data is sealed and the contest assembled. */
  method FinishContest(e: Election, contest: PlaintextContest, d: Description, ghost nonceSeed: Word,
                       contestNonce: Word, chaumPedersenNonce: Word, encryptedSelections: seq<CiphertextSelection>,
                       overvote: bool, buffers: PrecomputeBufferContext, ghost sources: seq<Source>)
      returns (r: Result<CiphertextContest>, ghost draws: ContestDraws)
    requires 1 < e.ctx.grp.p && Sized(d) && overvote == (ValidityFor(contest, d) == Overvote)
    requires contestNonce == ContestNonce(e, d, nonceSeed) && chaumPedersenNonce == ProofSeed(e, d, nonceSeed)
    modifies buffers`tripleQueue
    ensures draws.sources == sources
    ensures r.Err? <==> encryptedSelections == []
    ensures r.Ok? ==> r.value == Assembled(e, contest, d, nonceSeed, encryptedSelections, draws)
    ensures r.Ok? ==> TriplesDrawn(e, d, nonceSeed, draws, old(buffers.tripleQueue))
    ensures r.Ok? ==> buffers.tripleQueue == Remaining(old(buffers.tripleQueue), 2)
    ensures r.Err? ==> !draws.limitBuffered
    ensures IsRest(buffers.tripleQueue, old(buffers.tripleQueue))
  {
    hide MadeContest, HashElems, Sort, PowModPWide, HashedEncryption, GenerateTriple, ContestNonce, ProofSeed,
         ValidityFor, Sealed, Assembled;
    var sha, k := e.ctx.sha, e.publicKey;
    var noncesForExtendedData := new Nonces(sha, contestNonce, Text("constant-extended-data"));
    var extendedDataNonce := noncesForExtendedData.Get(0);
    var hashed;
    ghost var seal;
    hashed, seal := HashedElGamalEncrypt(e.Env(), e.extendedData(contest, overvote), extendedDataNonce,
                                         k, e.ctx.q, Bytes512,
                                         true, buffers);
    SealedIs(e, contest, overvote, seal);
    var encrypted;
    ghost var triple, buffered;
    encrypted, triple, buffered :=
      MakeContest(e.ctx, contest.objectId, d.description.sequenceOrder, d.description.CryptoHash(sha),
                  encryptedSelections, k,
                  chaumPedersenNonce, d.description.numberElected, contestNonce, hashed.value, buffers);
    draws := ContestDraws(sources, seal, triple, encrypted.Ok? && buffered);
    AssembledIs(e, contest, d, nonceSeed, encryptedSelections, draws);
    r := encrypted;
  }

  /** encryptContest: bundles are taken for the selections, then triples. */
  method EncryptContest(e: Election, contest: PlaintextContest, d: Description, nonceSeed: Word, verify: bool,
                        buffers: PrecomputeBufferContext)
      returns (r: Result<CiphertextContest>, ghost draws: ContestDraws)
    requires 1 < e.ctx.grp.p && Sized(d) && |contest.selections| < UINT64
    modifies buffers`tripleQueue, buffers`bundleQueue
    ensures DrawsFit(d, draws)
    ensures r == EncryptedContest(e, contest, d, nonceSeed, verify, draws)
    ensures DrawnFrom(draws.sources, old(buffers.bundleQueue))
    ensures r.Ok? ==> buffers.bundleQueue == Remaining(old(buffers.bundleQueue), |draws.sources|)
    ensures r.Ok? ==> TriplesDrawn(e, d, nonceSeed, draws, old(buffers.tripleQueue))
    ensures r.Ok? ==> buffers.tripleQueue == Remaining(old(buffers.tripleQueue), 2)
    ensures draws.limitBuffered ==> |old(buffers.tripleQueue)| >= 2 && draws.limit == old(buffers.tripleQueue)[1]
    ensures IsRest(buffers.bundleQueue, old(buffers.bundleQueue)) &&
            IsRest(buffers.tripleQueue, old(buffers.tripleQueue))
  {
    hide EncryptedSelections, EncryptedContest, Assembled, PlanFor, HashElems, ContestIsValid, ContestValidity, Unused,
         DrawnAt, GenerateTriple;
    ghost var bundles, triples := buffers.bundleQueue, buffers.tripleQueue;
    draws := ContestDraws(Unused(bundles, 0, |d.description.selections| + |d.placeholderSelections|),
                          Triple(0, 0, 0), Triple(0, 0, 0), false);
    var validity := CheckValidity(contest, d.description.objectId, |d.description.selections|,
                                  d.description.numberElected, d.description.votesAllowed, true);
    if validity != Success && validity != Overvote {
      ContestCases(e, contest, d, nonceSeed, verify, draws);
      return Err("the plaintext contest was invalid"), draws;
    }
    var overvote := validity == Overvote;
    var nonceSequence := new Nonces(e.ctx.sha, d.description.CryptoHash(e.ctx.sha), Element(nonceSeed));
    var contestNonce := nonceSequence.Get(d.description.sequenceOrder);
    var chaumPedersenNonce := nonceSequence.Next();
    var selections;
    ghost var sources;
    selections, sources := EncryptSelections(e, contest, d, overvote, contestNonce, verify, buffers);
    draws := draws.(sources := sources);
    if selections.Err? {
      ContestCases(e, contest, d, nonceSeed, verify, draws);
      return Err(selections.reason), draws;
    }
    var encrypted;
    encrypted, draws := FinishContest(e, contest, d, nonceSeed, contestNonce, chaumPedersenNonce,
                                      selections.value, overvote,
                                      buffers, sources);
    ContestCases(e, contest, d, nonceSeed, verify, draws);
    if encrypted.Err? {
      return Err("mismatching selection state"), draws;
    }
    if !verify {
      return encrypted, draws;
    }
    AssembledSelections(e, contest, d, nonceSeed, selections.value, draws);
    var valid := ContestIsValidEncryption(e.ctx, encrypted.value, d.description.CryptoHash(e.ctx.sha), e.publicKey);
    if valid.value {
      return encrypted, draws;
    }
    return Err("encryptContest failed validity check"), draws;
  }

  /** The cases of encryptContest. */
  lemma ContestCases(e: Election, contest: PlaintextContest, d: Description, nonceSeed: Word, verify: bool,
                     draws: ContestDraws)
    requires 1 < e.ctx.grp.p && DrawsFit(d, draws)
    ensures var validity := ValidityFor(contest, d);
            var r := EncryptedContest(e, contest, d, nonceSeed, verify, draws);
            if validity != Success && validity != Overvote then r == Err("the plaintext contest was invalid")
            else
              var selections := EncryptedSelections(e, PlanFor(contest, d, validity == Overvote),
                                                    ContestNonce(e, d, nonceSeed),
                                                    verify, draws.sources);
              if selections.Err? then r == Err(selections.reason)
              else if selections.value == [] then r == Err("mismatching selection state")
              else
                var made := Assembled(e, contest, d, nonceSeed, selections.value, draws);
                r == if verify && !ContestIsValid(e.ctx, made, d.description.CryptoHash(e.ctx.sha), e.publicKey)
                     then Err("encryptContest failed validity check") else Ok(made)
  {
    hide EncryptedSelections, PlanFor, HashElems, Sort, ContestIsValid, HashedEncryption;
  }

  lemma SealedIs(e: Election, contest: PlaintextContest, overvote: bool, seal: Triple)
    ensures HashedEncryption(e.Env(), e.extendedData(contest, overvote), seal.gToExp, seal.pubkeyToExp,
                             e.ctx.q, Bytes512, true)
            == Sealed(e, contest, overvote, seal)
  {
  }

  lemma AssembledIs(e: Election, contest: PlaintextContest, d: Description, nonceSeed: Word,
                    selections: seq<CiphertextSelection>, draws: ContestDraws)
    requires 1 < e.ctx.grp.p && d.description.sequenceOrder < UINT64
    ensures Assembled(e, contest, d, nonceSeed, selections, draws)
            == MadeContest(e.ctx, contest.objectId, d.description.sequenceOrder,
                           d.description.CryptoHash(e.ctx.sha), selections,
                           e.publicKey, ProofSeed(e, d, nonceSeed), d.description.numberElected,
                           ContestNonce(e, d, nonceSeed),
                           Sealed(e, contest, ValidityFor(contest, d) == Overvote, draws.seal).value,
                           draws.limit, draws.limitBuffered)
  {
  }

  lemma AssembledSelections(e: Election, contest: PlaintextContest, d: Description, nonceSeed: Word,
                            selections: seq<CiphertextSelection>, draws: ContestDraws)
    requires 1 < e.ctx.grp.p
    ensures Assembled(e, contest, d, nonceSeed, selections, draws).selections == selections
    ensures Assembled(e, contest, d, nonceSeed, selections, draws).descriptionHash
            == d.description.CryptoHash(e.ctx.sha)
  {
  }

  /** With buffers filled for the election's key everything drawn is honest. */
  lemma DrawnIsHonest(e: Election, draws: ContestDraws, bundles: seq<TwoTriplesAndAQuadruple>, triples: seq<Triple>)
    requires 1 < e.ctx.grp.p && DrawnFrom(draws.sources, bundles)
    requires draws.limitBuffered ==> |triples| >= 2 && draws.limit == triples[1]
    requires forall b :: b in bundles ==> BundleFor(e.ctx.grp, e.publicKey, b)
    requires forall t :: t in triples ==> TripleFor(e.ctx.grp, e.publicKey, t)
    ensures HonestDraws(e, draws)
  {
    hide BundleFor, TripleFor;
    forall i | 0 <= i < |draws.sources| ensures HonestSource(e, draws.sources[i]) {
      assert DrawnAt(draws.sources[i], bundles, i);
    }
  }
}
