/** Encrypted selections, contests and ballots, and their verification: src/electionguard/ballot.cpp. */
module Ballots {
  import opened Arith
  import opened ModGroup
  import opened ElementQ
  import opened ElementP
  import opened ElGamal
  import opened Hashing
  import opened HashedElGamal
  import opened ChaumPedersen
  import opened Precomputed
  import opened PrecomputeBuffers
  import opened Permutations
  import opened Sorting

  // ------------------------------------------------------------------ selections

  datatype CiphertextSelection = CiphertextSelection(
    objectId: string, sequenceOrder: nat, descriptionHash: Word, ciphertext: Ciphertext, isPlaceholder: bool,
    nonce: Word, cryptoHash: nat, proof: DisjunctiveProof)

  function CiphertextOrder(s: CiphertextSelection): int {
    s.sequenceOrder
  }

  function SelectionHash(sha: Sha, objectId: string, encryptionSeed: Word, c: Ciphertext): (r: nat)
    ensures r < Q
  {
    HashElems(sha, [Text(objectId), Element(encryptionSeed),
                    Element(HashElems(sha, [Element(c.pad), Element(c.data)]))])
  }

  /** Both `make` and `make_with_precomputed`; the proof's error for plaintexts above one is passed on. */
  function MadeSelection(ctx: Context, objectId: string, sequenceOrder: nat, descriptionHash: Word, c: Ciphertext,
                         k: nat, plaintext: nat, isPlaceholder: bool, nonce: Word,
                         source: Source): Result<CiphertextSelection>
    requires 1 < ctx.grp.p
  {
    var proof := Make(ctx, c, nonce, k, source, plaintext);
    if proof.Err? then Err(proof.reason)
    else Ok(CiphertextSelection(objectId, sequenceOrder, descriptionHash, c, isPlaceholder, nonce,
                                SelectionHash(ctx.sha, objectId, descriptionHash, c), proof.value))
  }

  predicate SelectionIsValid(ctx: Context, s: CiphertextSelection, encryptionSeed: Word, k: nat)
    requires 1 < ctx.grp.p
  {
    && encryptionSeed == s.descriptionHash
    && s.cryptoHash == SelectionHash(ctx.sha, s.objectId, encryptionSeed, s.ciphertext)
    && DisjunctiveIsValid(ctx, s.proof, s.ciphertext, k)
  }

  /** A selection made from an encryption of its plaintext passes its own check exactly when no response is zero. */
  lemma MadeSelectionIsValid(ctx: Context, objectId: string, sequenceOrder: nat, descriptionHash: Word,
                             c: Ciphertext, k: nat,
                             plaintext: nat, isPlaceholder: bool, nonce: Word, source: Source)
    requires GoodContext(ctx, k) && GoodSource(ctx, k, nonce, source) && plaintext <= 1
    requires Encrypts(ctx.grp, k, c, plaintext, nonce)
    ensures var s := MadeSelection(ctx, objectId, sequenceOrder, descriptionHash, c, k, plaintext,
                                   isPlaceholder, nonce, source);
            && s.Ok?
            && (SelectionIsValid(ctx, s.value, descriptionHash, k) <==> ResponsesInBounds(s.value.proof))
  {
    hide DisjunctiveIsValid, Make, Standard, HashElems, Group.Form, Group.Exp;
    MakeIsValid(ctx, c, plaintext, nonce, k, source, plaintext);
    ModIs(0, 0, 0, Q);
  }

  // -------------------------------------------------------------------- contests

  datatype CiphertextContest = CiphertextContest(
    objectId: string, sequenceOrder: nat, descriptionHash: Word, selections: seq<CiphertextSelection>, nonce: Word,
    ciphertextAccumulation: Ciphertext, cryptoHash: nat, proof: ConstantProof, hashedElGamal: HashedCiphertext)
  {
    function GetSelections(): seq<CiphertextSelection> {
      Sort(CiphertextOrder, selections)
    }
  }

  function CiphertextOf(s: CiphertextSelection): Ciphertext {
    s.ciphertext
  }

  function NonceOf(s: CiphertextSelection): int {
    s.nonce
  }

  function Ciphertexts(selections: seq<CiphertextSelection>): seq<Ciphertext> {
    Map(CiphertextOf, selections)
  }

  function NoncesOf(selections: seq<CiphertextSelection>): (r: seq<Word>)
    ensures r == Map(NonceOf, selections)
  {
    seq(|selections|, i requires 0 <= i < |selections| => selections[i].nonce)
  }

  function SelectionItems(selections: seq<CiphertextSelection>): seq<Item> {
    Map((s: CiphertextSelection) => Element(s.cryptoHash), selections)
  }

  function ContestHash(sha: Sha, objectId: string, selections: seq<CiphertextSelection>, encryptionSeed: Word): (r: nat)
    ensures r < Q
  {
    HashElems(sha, [Text(objectId), Element(encryptionSeed)] + SelectionItems(selections))
  }

  /** The contest that `make` builds from at least one selection. */
  function MadeContest(ctx: Context, objectId: string, sequenceOrder: nat, descriptionHash: Word,
                       selections: seq<CiphertextSelection>, k: nat, proofSeed: Word, numberElected: nat, nonce: Word,
                       hashedElGamal: HashedCiphertext, triple: Triple, buffered: bool): CiphertextContest
    requires 1 < ctx.grp.p
  {
    var sorted := Sort(CiphertextOrder, selections);
    var accumulation := Accumulated(ctx.grp, Ciphertexts(sorted));
    var aggregate := SumModQ(NoncesOf(sorted));
    CiphertextContest(objectId, sequenceOrder, descriptionHash, selections, nonce, accumulation,
                      ContestHash(ctx.sha, objectId, sorted, descriptionHash),
                      MakeConstant(ctx, accumulation, aggregate, k, proofSeed, triple, buffered,
                                   numberElected), hashedElGamal)
  }

  predicate ContestIsValid(ctx: Context, c: CiphertextContest, encryptionSeed: Word, k: nat)
    requires 1 < ctx.grp.p
  {
    var accumulation := Accumulated(ctx.grp, Ciphertexts(c.GetSelections()));
    && encryptionSeed == c.descriptionHash
    && c.cryptoHash == ContestHash(ctx.sha, c.objectId, c.GetSelections(), encryptionSeed)
    && c.ciphertextAccumulation == accumulation
    && ConstantIsValid(ctx, c.proof, accumulation, k)
  }

  method MakeCryptoHash(sha: Sha, objectId: string, selections: seq<CiphertextSelection>, encryptionSeed: Word)
      returns (r: Result<nat>)
    ensures r == if selections == [] then Err("mismatching selection state")
                 else Ok(ContestHash(sha, objectId, selections, encryptionSeed))
  {
    if selections == [] {
      return Err("mismatching selection state");
    }
    var elems := [Text(objectId), Element(encryptionSeed)];
    for i := 0 to |selections|
      invariant elems == [Text(objectId), Element(encryptionSeed)] + SelectionItems(selections)[..i]
    {
      assert SelectionItems(selections)[..i + 1]
             == SelectionItems(selections)[..i] + [Element(selections[i].cryptoHash)];
      elems := elems + [Element(selections[i].cryptoHash)];
    }
    assert SelectionItems(selections)[..|selections|] == SelectionItems(selections);
    var hash := HashElemsStreaming(sha, elems);
    return Ok(hash);
  }

  method ElGamalAccumulate(grp: Group, selections: seq<CiphertextSelection>) returns (r: Result<Ciphertext>)
    requires 1 < grp.p
    ensures r.Err? <==> selections == []
    ensures r.Ok? ==> r.value == Accumulated(grp, Ciphertexts(selections))
  {
    var ciphertexts := [];
    for i := 0 to |selections|
      invariant ciphertexts == Ciphertexts(selections)[..i]
    {
      assert Ciphertexts(selections)[..i + 1] == Ciphertexts(selections)[..i] + [selections[i].ciphertext];
      ciphertexts := ciphertexts + [selections[i].ciphertext];
    }
    assert ciphertexts == Ciphertexts(selections);
    r := ElGamalAdd(grp, ciphertexts);
  }

  method AggregateNonce(selections: seq<CiphertextSelection>) returns (r: Result<nat>)
    ensures r.Err? <==> selections == []
    ensures r.Ok? ==> r.value == SumModQ(NoncesOf(selections))
  {
    var elements: seq<Word> := [];
    for i := 0 to |selections|
      invariant elements == NoncesOf(selections)[..i]
    {
      assert NoncesOf(selections)[..i + 1] == NoncesOf(selections)[..i] + [selections[i].nonce];
      elements := elements + [selections[i].nonce];
    }
    assert elements == NoncesOf(selections);
    r := AddModQList(elements);
  }

  /** ConstantChaumPedersenProof::make takes a buffered triple if there is one. */
  method MakeContest(ctx: Context, objectId: string, sequenceOrder: nat, descriptionHash: Word,
                     selections: seq<CiphertextSelection>, k: nat, proofSeed: Word, numberElected: nat, nonce: Word,
                     hashedElGamal: HashedCiphertext, buffers: PrecomputeBufferContext)
      returns (r: Result<CiphertextContest>, ghost triple: Triple, ghost buffered: bool)
    requires 1 < ctx.grp.p
    modifies buffers`tripleQueue
    ensures r.Err? <==> selections == []
    ensures r.Ok? ==> r.value == MadeContest(ctx, objectId, sequenceOrder, descriptionHash, selections, k, proofSeed,
                                             numberElected, nonce, hashedElGamal, triple, buffered)
    ensures r.Ok? ==> buffered == (old(buffers.tripleQueue) != [])
    ensures if r.Ok? && buffered then old(buffers.tripleQueue) == [triple] + buffers.tripleQueue
            else buffers.tripleQueue == old(buffers.tripleQueue)
  {
    hide Accumulated, SumModQ, HashElems, PowModPWide, Sort;
    triple, buffered := Triple(0, 0, 0), false;
    var sorted := Sort(CiphertextOrder, selections);
    var hash := MakeCryptoHash(ctx.sha, objectId, sorted, descriptionHash);
    if hash.Err? {
      return Err(hash.reason), triple, buffered;
    }
    var accumulation := ElGamalAccumulate(ctx.grp, sorted);
    var aggregate := AggregateNonce(sorted);
    var taken := buffers.GetTriple();
    buffered := taken.Ok?;
    var t := if taken.Ok? then taken.value else Triple(0, 0, 0);
    triple := t;
    var proof := MakeConstant(ctx, accumulation.value, aggregate.value, k, proofSeed, t, taken.Ok?, numberElected);
    r := Ok(CiphertextContest(objectId, sequenceOrder, descriptionHash, selections, nonce, accumulation.value,
                              hash.value, proof, hashedElGamal));
  }

  /** The contest's check does not look at the proofs of its selections. */
  method ContestIsValidEncryption(ctx: Context, c: CiphertextContest, encryptionSeed: Word, k: nat)
      returns (r: Result<bool>)
    requires 1 < ctx.grp.p
    ensures r.Err? <==> c.selections == []
    ensures r.Ok? ==> (r.value <==> ContestIsValid(ctx, c, encryptionSeed, k))
  {
    hide Accumulated, HashElems, ConstantIsValid, Sort;
    var sorted := c.GetSelections();
    var consistentSeed := encryptionSeed == c.descriptionHash;
    var hash := MakeCryptoHash(ctx.sha, c.objectId, sorted, encryptionSeed);
    if hash.Err? {
      return Err(hash.reason);
    }
    var consistentHash := c.cryptoHash == hash.value;
    var computed := ElGamalAccumulate(ctx.grp, sorted);
    var consistentAccumulation := c.ciphertextAccumulation == computed.value;
    var validProof := ConstantIsValid(ctx, c.proof, computed.value, k);
    return Ok(consistentSeed && consistentHash && consistentAccumulation && validProof);
  }

  lemma {:induction false} SumPermuted(xs: seq<int>, ys: seq<int>)
    requires multiset(xs) == multiset(ys)
    ensures Sum(xs) == Sum(ys)
  {
    if xs == [] {
      EmptyPermutation(ys);
    } else {
      var j := RemoveLast(xs, ys);
      SumPermuted(xs[..|xs| - 1], ys[..j] + ys[j + 1..]);
      assert ys == ys[..j] + [ys[j]] + ys[j + 1..];
      assert (ys[..j] + [ys[j]])[..j] == ys[..j];
      SumSplit(ys[..j] + [ys[j]], ys[j + 1..]);
      SumSplit(ys[..j], ys[j + 1..]);
    }
  }

  lemma {:induction false} SumSplit(xs: seq<int>, ys: seq<int>)
    ensures Sum(xs + ys) == Sum(xs) + Sum(ys)
  {
    if ys == [] {
      assert xs + ys == xs;
    } else {
      var n := |ys| - 1;
      SumSplit(xs, ys[..n]);
      assert (xs + ys)[..|xs| + n] == xs + ys[..n];
    }
  }

  /** The accumulation encrypts the sum of the plaintexts under the aggregate nonce, in whatever order it is formed. */
  lemma AggregateEncrypts(ctx: Context, k: nat, selections: seq<CiphertextSelection>, plaintexts: seq<int>)
    requires GoodContext(ctx, k) && |plaintexts| == |selections|
    requires forall i :: 0 <= i < |selections| ==> selections[i].nonce <= Q
    requires forall i :: 0 <= i < |selections| ==>
               Encrypts(ctx.grp, k, selections[i].ciphertext, plaintexts[i], selections[i].nonce)
    ensures var sorted := Sort(CiphertextOrder, selections);
            Encrypts(ctx.grp, k, Accumulated(ctx.grp, Ciphertexts(sorted)), Sum(plaintexts), SumModQ(NoncesOf(sorted)))
  {
    hide Accumulated, Encrypts, Standard, SumModQ, Sum, Sort;
    StandardGives(ctx.grp);
    var sorted := Sort(CiphertextOrder, selections);
    SortSorts(CiphertextOrder, selections);
    MapPermuted(CiphertextOf, selections, sorted);
    MapPermuted(NonceOf, selections, sorted);
    AccumulationIgnoresOrder(ctx.grp, Ciphertexts(selections), Ciphertexts(sorted));
    SumPermuted(NoncesOf(selections), NoncesOf(sorted));
    AccumulationIsHomomorphic(ctx.grp, k, Ciphertexts(selections), plaintexts, NoncesOf(selections));
    EncryptsModulo(ctx.grp, k, Accumulated(ctx.grp, Ciphertexts(sorted)), Sum(plaintexts), Sum(NoncesOf(sorted)));
    forall i | 0 <= i < |sorted| ensures NoncesOf(sorted)[i] <= Q {
      assert sorted[i] in multiset(selections);
    }
    SumModQIsSum(NoncesOf(sorted));
  }

  /**
   * A contest made from encryptions of any plaintexts passes its own check exactly when they add up to the number
   * elected and neither the challenge nor the response of its proof is zero.
   */
  lemma MadeContestIsValid(ctx: Context, objectId: string, sequenceOrder: nat, descriptionHash: Word,
                           selections: seq<CiphertextSelection>, k: nat, proofSeed: Word, numberElected: nat,
                           nonce: Word, hashedElGamal: HashedCiphertext, triple: Triple, buffered: bool,
                           plaintexts: seq<int>)
    requires GoodContext(ctx, k) && |plaintexts| == |selections| && numberElected < UINT64
    requires forall i :: 0 <= i < |selections| ==> selections[i].nonce <= Q
    requires forall i :: 0 <= i < |selections| ==>
               Encrypts(ctx.grp, k, selections[i].ciphertext, plaintexts[i], selections[i].nonce)
    requires buffered ==> TripleFor(ctx.grp, k, triple)
    ensures var c := MadeContest(ctx, objectId, sequenceOrder, descriptionHash, selections, k, proofSeed,
                                 numberElected, nonce,
                                 hashedElGamal, triple, buffered);
            ContestIsValid(ctx, c, descriptionHash, k) <==>
            (Sum(plaintexts) - numberElected) % Q == 0 && 0 < c.proof.c < Q && 0 < c.proof.v < Q
  {
    hide Accumulated, Encrypts, Standard, SumModQ, Sum, Sort, ConstantIsValid, MakeConstant, HashElems, TripleFor;
    StandardGives(ctx.grp);
    var sorted := Sort(CiphertextOrder, selections);
    AggregateEncrypts(ctx, k, selections, plaintexts);
    MakeConstantIsValid(ctx, Accumulated(ctx.grp, Ciphertexts(sorted)), Sum(plaintexts), SumModQ(NoncesOf(sorted)), k,
                        proofSeed, triple, buffered, numberElected);
  }

  // What the proofs of the selections cannot touch.

  const NO_PROOF := DisjunctiveProof(0, 0, 0, 0, 0, 0, 0, 0, 0)

  /** What the randomness of the proofs cannot touch. */
  function Core(s: CiphertextSelection): CiphertextSelection {
    s.(proof := NO_PROOF)
  }

  lemma SameCores(xs: seq<CiphertextSelection>, ys: seq<CiphertextSelection>)
    requires Map(Core, xs) == Map(Core, ys)
    ensures var sx, sy := Sort(CiphertextOrder, xs), Sort(CiphertextOrder, ys);
            Ciphertexts(sx) == Ciphertexts(sy) && SelectionItems(sx) == SelectionItems(sy)
  {
    hide Sort;
    var sx, sy := Sort(CiphertextOrder, xs), Sort(CiphertextOrder, ys);
    SortMapped(CiphertextOrder, CiphertextOrder, Core, xs);
    SortMapped(CiphertextOrder, CiphertextOrder, Core, ys);
    assert Map(Core, sx) == Map(Core, sy);
    forall i | 0 <= i < |sx| ensures sx[i].ciphertext == sy[i].ciphertext && sx[i].cryptoHash == sy[i].cryptoHash {
      assert Map(Core, sx)[i] == Map(Core, sy)[i];
    }
  }

  // --------------------------------------------------------------------- ballots

  datatype CiphertextBallot = CiphertextBallot(
    objectId: string, styleId: string, manifestHash: Word, ballotCodeSeed: Word, contests: seq<CiphertextContest>,
    ballotCode: nat, timestamp: nat, nonce: Word, cryptoHash: nat)
  {
    function GetContests(): seq<CiphertextContest> {
      Sort(CiphertextContestOrder, contests)
    }
  }

  function CiphertextContestOrder(c: CiphertextContest): int {
    c.sequenceOrder
  }

  function ContestItems(contests: seq<CiphertextContest>): seq<Item> {
    Map((c: CiphertextContest) => Element(c.cryptoHash), contests)
  }

  function BallotHash(sha: Sha, objectId: string, contests: seq<CiphertextContest>, manifestHash: Word): (r: nat)
    ensures r < Q
  {
    HashElems(sha, [Text(objectId), Element(manifestHash)] + ContestItems(contests))
  }

  /** BallotCode::getBallotCode of src/electionguard/ballot_code.cpp. */
  function BallotCode(sha: Sha, seed: Word, timestamp: nat, ballotHash: nat): (r: nat)
    ensures r < Q
  {
    HashElems(sha, [Element(seed), Number(timestamp), Element(ballotHash)])
  }

  function BallotNonceSeed(sha: Sha, manifestHash: Word, objectId: string, nonce: Word): (r: nat)
    ensures r < Q
  {
    HashElems(sha, BallotSeedItems(manifestHash, objectId, nonce))
  }

  function BallotSeedItems(manifestHash: Word, objectId: string, nonce: Word): seq<Item> {
    [Element(manifestHash), Text(objectId), Element(nonce)]
  }

  /**
   * The seed of a ballot's nonces determines the manifest hash, the ballot's identifier, whatever that contains, and
   * the ballot's nonce, or the two hashed texts collide.
   */
  lemma BallotNonceSeedBinds(sha: Sha, manifestHash: Word, objectId: string, nonce: Word,
                             manifestHash': Word, objectId': string, nonce': Word)
    requires BallotNonceSeed(sha, manifestHash, objectId, nonce)
             == BallotNonceSeed(sha, manifestHash', objectId', nonce')
    ensures || (manifestHash == manifestHash' && Printed(objectId) == Printed(objectId') && nonce == nonce')
            || Collide(sha, RenderAll(sha, BallotSeedItems(manifestHash, objectId, nonce)),
                       RenderAll(sha, BallotSeedItems(manifestHash', objectId', nonce')))
  {
    hide Digest, Delimited, Collide, Clean, Hex.ToHex, Delimiters;
    var items, items' := BallotSeedItems(manifestHash, objectId, nonce), BallotSeedItems(manifestHash', objectId',
                                                                                         nonce');
    var xs, ys := RenderAll(sha, items), RenderAll(sha, items');
    EqualDigests(sha, xs, ys);
    if Delimited(xs) == Delimited(ys) {
      NumericClean(sha, items[0]);
      NumericClean(sha, items'[0]);
      NumericClean(sha, items[2]);
      NumericClean(sha, items'[2]);
      MiddleFieldFixed(xs, ys);
      NumericFixed(sha, items[0], items'[0]);
      NumericFixed(sha, items[2], items'[2]);
    }
  }

  /** Between two clean fields, a third one may contain anything. */
  lemma MiddleFieldFixed(xs: seq<string>, ys: seq<string>)
    requires |xs| == |ys| == 3 && Delimited(xs) == Delimited(ys)
    requires Clean(xs[0]) && Clean(ys[0]) && Clean(xs[2]) && Clean(ys[2])
    ensures xs == ys
  {
    hide Clean, Delimiters;
    CutUnique(xs[0], ys[0], Delimited(xs[1..]), Delimited(ys[1..]));
    assert [xs[1]] + [xs[2]] == xs[1..] && [ys[1]] + [ys[2]] == ys[1..];
    SameFields(xs[1], [xs[2]], ys[1], [ys[2]]);
    assert xs == [xs[0], xs[1], xs[2]] && ys == [ys[0], ys[1], ys[2]];
  }

  /** The hash is taken over the contests in the order in which they arrive. */
  function MadeBallot(sha: Sha, objectId: string, styleId: string, manifestHash: Word, contests: seq<CiphertextContest>,
                      nonce: Word, timestamp: nat, ballotCodeSeed: Word): Result<CiphertextBallot>
  {
    if contests == [] then Err("ballot must have at least some contests")
    else
      var hash := BallotHash(sha, objectId, contests, manifestHash);
      Ok(CiphertextBallot(objectId, styleId, manifestHash, ballotCodeSeed, contests,
                          BallotCode(sha, ballotCodeSeed, timestamp, hash), timestamp, nonce, hash))
  }

  // What the verifier writes into its map of proofs, in the order in which it writes.

  function SelectionChecks(ctx: Context, k: nat, contestId: string,
                           selections: seq<CiphertextSelection>): (r: seq<(string, bool)>)
    requires 1 < ctx.grp.p
    ensures |r| == |selections|
  {
    seq(|selections|, i requires 0 <= i < |selections| =>
      (contestId + "-" + selections[i].objectId,
       SelectionIsValid(ctx, selections[i], selections[i].descriptionHash, k)))
  }

  function ContestCheck(ctx: Context, k: nat, c: CiphertextContest): seq<(string, bool)>
    requires 1 < ctx.grp.p
  {
    SelectionChecks(ctx, k, c.objectId, c.GetSelections())
    + [(c.objectId, ContestIsValid(ctx, c, c.descriptionHash, k))]
  }

  function BallotChecks(ctx: Context, k: nat, contests: seq<CiphertextContest>): seq<(string, bool)>
    requires 1 < ctx.grp.p
  {
    if contests == [] then []
    else BallotChecks(ctx, k, contests[..|contests| - 1]) + ContestCheck(ctx, k, contests[|contests| - 1])
  }

  /** The map after the writes: each key holds the last value written to it. */
  function Written(checks: seq<(string, bool)>): map<string, bool> {
    if checks == [] then map[]
    else Written(checks[..|checks| - 1])[checks[|checks| - 1].0 := checks[|checks| - 1].1]
  }

  predicate AllTrue(proofs: map<string, bool>) {
    forall key :: key in proofs ==> proofs[key]
  }

  predicate BallotIsValid(ctx: Context, b: CiphertextBallot, manifestHash: Word, k: nat)
    requires 1 < ctx.grp.p
  {
    && manifestHash == b.manifestHash
    && b.cryptoHash == BallotHash(ctx.sha, b.objectId, b.GetContests(), manifestHash)
    && AllTrue(Written(BallotChecks(ctx, k, b.GetContests())))
  }

  /** Hashing throws for a ballot without contests and for a contest without selections. */
  method BallotIsValidEncryption(ctx: Context, b: CiphertextBallot, manifestHash: Word, k: nat)
      returns (r: Result<bool>)
    requires 1 < ctx.grp.p
    ensures r.Err? <==>
            && manifestHash == b.manifestHash
            && (b.contests == [] || (&& b.cryptoHash == BallotHash(ctx.sha, b.objectId, b.GetContests(), manifestHash)
                                     && exists c :: c in b.contests && c.selections == []))
    ensures r.Ok? ==> (r.value <==> BallotIsValid(ctx, b, manifestHash, k))
  {
    hide Sort, BallotHash, BallotChecks, Written, AllTrue;
    if manifestHash != b.manifestHash {
      return Ok(false);
    }
    if b.contests == [] {
      return Err("mismatching contests state");
    }
    var contests := b.GetContests();
    if b.cryptoHash != BallotHash(ctx.sha, b.objectId, contests, manifestHash) {
      return Ok(false);
    }
    SortSorts(CiphertextContestOrder, b.contests);
    SameMembers(b.contests, contests);
    var validProofs := CheckContests(ctx, k, contests);
    if validProofs.Err? {
      return Err(validProofs.reason);
    }
    r := Ok(AllTrue(validProofs.value));
  }

  lemma SameMembers<T>(xs: seq<T>, ys: seq<T>)
    requires multiset(xs) == multiset(ys)
    ensures forall x :: x in xs <==> x in ys
  {
    assert forall x :: x in xs <==> x in multiset(xs);
    assert forall x :: x in ys <==> x in multiset(ys);
  }

  /** The loop that fills the map. */
  method CheckContests(ctx: Context, k: nat, contests: seq<CiphertextContest>) returns (r: Result<map<string, bool>>)
    requires 1 < ctx.grp.p
    ensures r.Err? <==> exists c :: c in contests && c.selections == []
    ensures r.Ok? ==> r.value == Written(BallotChecks(ctx, k, contests))
  {
    hide ContestIsValid, Sort, BallotChecks, SelectionChecks, Written, Map;
    var validProofs: map<string, bool> := map[];
    NothingChecked(ctx, k, contests);
    for i := 0 to |contests|
      invariant validProofs == Written(BallotChecks(ctx, k, contests[..i]))
      invariant forall j :: 0 <= j < i ==> contests[j].selections != []
    {
      var contest := contests[i];
      ChecksStep(ctx, k, contests, i);
      validProofs := RecordSelections(ctx, k, contest, BallotChecks(ctx, k, contests[..i]), validProofs);
      var contestValid := ContestIsValidEncryption(ctx, contest, contest.descriptionHash, k);
      if contestValid.Err? {
        assert contest in contests;
        return Err(contestValid.reason);
      }
      validProofs := validProofs[contest.objectId := contestValid.value];
      ghost var checks := BallotChecks(ctx, k, contests[..i])
          + SelectionChecks(ctx, k, contest.objectId, contest.GetSelections());
      WrittenStep(checks, (contest.objectId, contestValid.value));
    }
    assert contests[..|contests|] == contests;
    r := Ok(validProofs);
  }

  lemma NothingChecked(ctx: Context, k: nat, contests: seq<CiphertextContest>)
    requires 1 < ctx.grp.p
    ensures Written(BallotChecks(ctx, k, contests[..0])) == map[]
  {
  }

  lemma ChecksStep(ctx: Context, k: nat, contests: seq<CiphertextContest>, i: nat)
    requires 1 < ctx.grp.p && i < |contests|
    ensures var c := contests[i];
            BallotChecks(ctx, k, contests[..i + 1])
            == BallotChecks(ctx, k, contests[..i]) + SelectionChecks(ctx, k, c.objectId, c.GetSelections())
               + [(c.objectId, ContestIsValid(ctx, c, c.descriptionHash, k))]
  {
    hide ContestIsValid, Sort, SelectionChecks;
    var front, c := BallotChecks(ctx, k, contests[..i]), contests[i];
    assert contests[..i + 1][..i] == contests[..i];
    assert front + ContestCheck(ctx, k, c)
           == front + SelectionChecks(ctx, k, c.objectId, c.GetSelections())
              + [(c.objectId, ContestIsValid(ctx, c, c.descriptionHash, k))];
  }

  method RecordSelections(ctx: Context, k: nat, contest: CiphertextContest, ghost before: seq<(string, bool)>,
                          proofs: map<string, bool>) returns (validProofs: map<string, bool>)
    requires 1 < ctx.grp.p && proofs == Written(before)
    ensures validProofs == Written(before + SelectionChecks(ctx, k, contest.objectId, contest.GetSelections()))
  {
    hide SelectionIsValid, Sort;
    validProofs := proofs;
    var selections := contest.GetSelections();
    ghost var checks := SelectionChecks(ctx, k, contest.objectId, selections);
    assert before + checks[..0] == before;
    for i := 0 to |selections|
      invariant validProofs == Written(before + checks[..i])
    {
      var key := contest.objectId + "-" + selections[i].objectId;
      var valid := SelectionIsValid(ctx, selections[i], selections[i].descriptionHash, k);
      validProofs := validProofs[key := valid];
      WrittenStep(before + checks[..i], (key, valid));
      assert before + checks[..i + 1] == before + checks[..i] + [(key, valid)];
    }
    assert checks[..|selections|] == checks;
  }

  lemma WrittenStep(checks: seq<(string, bool)>, last: (string, bool))
    ensures Written(checks + [last]) == Written(checks)[last.0 := last.1]
  {
    assert (checks + [last])[..|checks|] == checks;
  }

  predicate DistinctCheckKeys(checks: seq<(string, bool)>) {
    forall i, j :: 0 <= i < j < |checks| ==> checks[i].0 != checks[j].0
  }

  predicate AllPass(checks: seq<(string, bool)>) {
    forall i :: 0 <= i < |checks| ==> checks[i].1
  }

  lemma AllPassSplits(xs: seq<(string, bool)>, ys: seq<(string, bool)>)
    ensures AllPass(xs + ys) <==> AllPass(xs) && AllPass(ys)
  {
    assert forall i :: 0 <= i < |xs| ==> (xs + ys)[i] == xs[i];
    assert forall i :: 0 <= i < |ys| ==> (xs + ys)[|xs| + i] == ys[i];
    if AllPass(xs + ys) {
      forall i | 0 <= i < |ys| ensures ys[i].1 {
        assert (xs + ys)[|xs| + i].1;
      }
      forall i | 0 <= i < |xs| ensures xs[i].1 {
        assert (xs + ys)[i].1;
      }
    }
  }

  /** The map is all true if every check is; with distinct keys, only if. */
  lemma {:induction false} AllTrueMeans(checks: seq<(string, bool)>)
    ensures AllPass(checks) ==> AllTrue(Written(checks))
    ensures DistinctCheckKeys(checks) ==> (AllTrue(Written(checks)) <==> AllPass(checks))
    ensures forall key :: key in Written(checks) ==> exists i :: 0 <= i < |checks| && checks[i].0 == key
  {
    if checks == [] {
    } else {
      var n := |checks| - 1;
      var front, last := checks[..n], checks[n];
      AllTrueMeans(front);
      AllPassSplits(front, [last]);
      assert checks == front + [last];
      assert AllPass([last]) <==> last.1;
      forall key | key in Written(checks) ensures exists i :: 0 <= i < |checks| && checks[i].0 == key {
        if key in Written(front) {
          var i :| 0 <= i < n && front[i].0 == key;
          assert checks[i].0 == key;
        } else {
          assert checks[n].0 == key;
        }
      }
      UpdateAllTrue(Written(front), last.0, last.1);
      if DistinctCheckKeys(checks) {
        assert last.0 !in Written(front);
      }
    }
  }

  lemma UpdateAllTrue(proofs: map<string, bool>, key: string, value: bool)
    ensures AllTrue(proofs) && value ==> AllTrue(proofs[key := value])
    ensures key !in proofs ==> (AllTrue(proofs[key := value]) <==> AllTrue(proofs) && value)
  {
    var after := proofs[key := value];
    if key !in proofs && AllTrue(after) {
      assert after[key] == value;
      forall other | other in proofs ensures proofs[other] {
        assert after[other] == proofs[other];
      }
    }
  }

  /** All the proofs and recomputed hashes of a contest. */
  predicate ContestVerifies(ctx: Context, k: nat, c: CiphertextContest)
    requires 1 < ctx.grp.p
  {
    && (forall s :: s in c.selections ==> SelectionIsValid(ctx, s, s.descriptionHash, k))
    && ContestIsValid(ctx, c, c.descriptionHash, k)
  }

  lemma {:induction false} AllChecks(ctx: Context, k: nat, contests: seq<CiphertextContest>)
    requires 1 < ctx.grp.p
    ensures AllPass(BallotChecks(ctx, k, contests)) <==> forall c :: c in contests ==> ContestVerifies(ctx, k, c)
  {
    hide ContestVerifies, ContestCheck, AllPass;
    if contests != [] {
      var n := |contests| - 1;
      AllChecks(ctx, k, contests[..n]);
      OneContest(ctx, k, contests[n]);
      AllPassSplits(BallotChecks(ctx, k, contests[..n]), ContestCheck(ctx, k, contests[n]));
      assert contests == contests[..n] + [contests[n]];
    } else {
      NothingToCheck();
    }
  }

  lemma NothingToCheck()
    ensures AllPass([])
  {
  }

  lemma OneContest(ctx: Context, k: nat, c: CiphertextContest)
    requires 1 < ctx.grp.p
    ensures AllPass(ContestCheck(ctx, k, c)) <==> ContestVerifies(ctx, k, c)
  {
    hide SelectionIsValid, ContestIsValid, Sort;
    var sorted := c.GetSelections();
    SortSorts(CiphertextOrder, c.selections);
    var checks := SelectionChecks(ctx, k, c.objectId, sorted);
    var last := (c.objectId, ContestIsValid(ctx, c, c.descriptionHash, k));
    AllPassSplits(checks, [last]);
    assert AllPass([last]) <==> [last][0].1;
    if forall s :: s in c.selections ==> SelectionIsValid(ctx, s, s.descriptionHash, k) {
      forall i | 0 <= i < |sorted| ensures checks[i].1 {
        assert sorted[i] in multiset(c.selections);
      }
    }
    if AllPass(checks) {
      forall s | s in c.selections ensures SelectionIsValid(ctx, s, s.descriptionHash, k) {
        var i :| 0 <= i < |sorted| && sorted[i] == s by {
          assert s in multiset(sorted);
        }
        assert checks[i].1;
      }
    }
  }

  /**
   * A ballot made from contests in strictly increasing order passes its hash comparison, so it is accepted if all of
   * its proofs are; if no two proofs are filed under one key, only if.
   */
  lemma OrderedBallotIsValid(ctx: Context, k: nat, objectId: string, styleId: string, manifestHash: Word,
                             contests: seq<CiphertextContest>, nonce: Word, timestamp: nat, ballotCodeSeed: Word)
    requires 1 < ctx.grp.p && contests != []
    requires Sorted(CiphertextContestOrder, contests) && DistinctKeys(CiphertextContestOrder, contests)
    ensures var b := MadeBallot(ctx.sha, objectId, styleId, manifestHash, contests, nonce, timestamp,
                                ballotCodeSeed).value;
            && ((forall c :: c in contests ==> ContestVerifies(ctx, k, c)) ==> BallotIsValid(ctx, b, manifestHash, k))
            && (DistinctCheckKeys(BallotChecks(ctx, k, contests)) && BallotIsValid(ctx, b, manifestHash, k) ==>
                forall c :: c in contests ==> ContestVerifies(ctx, k, c))
  {
    hide ContestVerifies, BallotChecks, HashElems, Sort, AllTrue, Written, AllPass, DistinctCheckKeys;
    SortOfSorted(CiphertextContestOrder, contests);
    AllTrueMeans(BallotChecks(ctx, k, contests));
    AllChecks(ctx, k, contests);
  }

  /**
   * A ballot whose contests are not in the order of the getter is accepted only if the text it was made with and the
   * one it is checked with are different and collide.
   */
  lemma UnorderedBallotNeedsCollision(ctx: Context, k: nat, objectId: string, styleId: string, manifestHash: Word,
                                      contests: seq<CiphertextContest>, nonce: Word, timestamp: nat,
                                      ballotCodeSeed: Word)
    requires 1 < ctx.grp.p && contests != []
    requires ContestItems(Sort(CiphertextContestOrder, contests)) != ContestItems(contests)
    ensures var b := MadeBallot(ctx.sha, objectId, styleId, manifestHash, contests, nonce, timestamp,
                                ballotCodeSeed).value;
            var header := [Text(objectId), Element(manifestHash)];
            BallotIsValid(ctx, b, manifestHash, k) ==>
              Collide(ctx.sha, RenderAll(ctx.sha, header + ContestItems(contests)),
                      RenderAll(ctx.sha, header + ContestItems(b.GetContests())))
  {
    hide BallotChecks, HashElems, Sort, AllTrue, Written, Collide, RenderAll, AllClean, Delimiters;
    var sorted := Sort(CiphertextContestOrder, contests);
    var header := [Text(objectId), Element(manifestHash)];
    var items, items' := header + ContestItems(contests), header + ContestItems(sorted);
    var i :| 0 <= i < |contests| && ContestItems(sorted)[i] != ContestItems(contests)[i];
    assert items[i + 2] == Element(contests[i].cryptoHash) && items'[i + 2] == Element(sorted[i].cryptoHash);
    RenderedClean(ctx.sha, items);
    RenderedClean(ctx.sha, items');
    if HashElems(ctx.sha, items) == HashElems(ctx.sha, items') {
      HashFixesItems(ctx.sha, items, items');
      if RenderAll(ctx.sha, items) == RenderAll(ctx.sha, items') {
        ElementsRendered(ctx.sha, items, items', i + 2);
      }
    }
  }
}
