/**
 * The keys under which CiphertextBallot::isValidEncryption of src/electionguard/ballot.cpp files its results: exactly
 * when its map decides whether every proof is valid.
 */
module ProofKeys {
  import opened ElementQ
  import opened ChaumPedersen
  import opened Ballots
  import opened Permutations
  import opened Sorting
  import BallotEncryption
  import ContestEncryption
  import ElementP
  import ElGamal
  import Hashing
  import Manifests
  import Plaintexts

  // ------------------------------------------------------------- what the map decides

  /** No later result is filed under the same key. */
  predicate IsLast(checks: seq<(string, bool)>, i: nat)
    requires i < |checks|
  {
    forall j :: i < j < |checks| ==> checks[j].0 != checks[i].0
  }

  lemma {:induction false} LastWins(checks: seq<(string, bool)>, i: nat)
    requires i < |checks| && IsLast(checks, i)
    ensures checks[i].0 in Written(checks) && Written(checks)[checks[i].0] == checks[i].1
  {
    var n := |checks| - 1;
    if i == n {
    } else {
      assert checks[n].0 != checks[i].0;
      assert IsLast(checks[..n], i);
      LastWins(checks[..n], i);
    }
  }

  lemma {:induction false} LastOf(checks: seq<(string, bool)>, key: string) returns (i: nat)
    requires key in Written(checks)
    ensures i < |checks| && checks[i].0 == key && IsLast(checks, i)
  {
    var n := |checks| - 1;
    if checks[n].0 == key {
      i := n;
    } else {
      i := LastOf(checks[..n], key);
    }
  }

  /** The map holds for each key the last result filed under it, so those results decide. */
  lemma LastResultsCount(checks: seq<(string, bool)>)
    ensures AllTrue(Written(checks)) <==> forall i :: 0 <= i < |checks| && IsLast(checks, i) ==> checks[i].1
  {
    hide Written;
    if AllTrue(Written(checks)) {
      forall i | 0 <= i < |checks| && IsLast(checks, i) ensures checks[i].1 {
        LastWins(checks, i);
      }
    }
    if forall i :: 0 <= i < |checks| && IsLast(checks, i) ==> checks[i].1 {
      forall key | key in Written(checks) ensures Written(checks)[key] {
        var i := LastOf(checks, key);
        LastWins(checks, i);
      }
    }
  }

  function Filed(keys: seq<string>, results: seq<bool>): (r: seq<(string, bool)>)
    requires |keys| == |results|
    ensures |r| == |keys| && forall i :: 0 <= i < |r| ==> r[i] == (keys[i], results[i])
  {
    seq(|keys|, i requires 0 <= i < |keys| => (keys[i], results[i]))
  }

  /** The map of a list of keys decides whether all results are positive, whatever they are. */
  ghost predicate MapDecides(keys: seq<string>) {
    forall results: seq<bool> :: |results| == |keys| ==>
      (AllTrue(Written(Filed(keys, results))) <==> AllPass(Filed(keys, results)))
  }

  /** It does so exactly when the keys are distinct. */
  lemma MapDecidesExactly(keys: seq<string>)
    ensures MapDecides(keys) <==> Manifests.Distinct(keys)
  {
    hide AllTrue, Written;
    if Manifests.Distinct(keys) {
      forall results: seq<bool> | |results| == |keys|
        ensures AllTrue(Written(Filed(keys, results))) <==> AllPass(Filed(keys, results))
      {
        AllTrueMeans(Filed(keys, results));
      }
    } else {
      var i, j :| 0 <= i < j < |keys| && keys[i] == keys[j];
      var results := seq(|keys|, l => l != i);
      var checks := Filed(keys, results);
      assert !checks[i].1;
      forall l | 0 <= l < |checks| && IsLast(checks, l) ensures checks[l].1 {
        assert checks[j].0 == checks[i].0;
      }
      LastResultsCount(checks);
      assert !MapDecides(keys);
    }
  }

  // ------------------------------------------------------------- the keys of a ballot

  function CheckCount(contests: seq<CiphertextContest>): nat {
    if contests == [] then 0
    else CheckCount(contests[..|contests| - 1]) + |contests[|contests| - 1].selections| + 1
  }

  /** The p-th key of a contest: one for each of its selections, then its own. */
  function KeyOf(c: CiphertextContest, p: nat): string
    requires p <= |c.selections|
  {
    if p < |c.selections| then c.objectId + "-" + c.GetSelections()[p].objectId else c.objectId
  }

  predicate ResultOf(ctx: Context, k: nat, c: CiphertextContest, p: nat)
    requires 1 < ctx.grp.p && p <= |c.selections|
  {
    if p < |c.selections|
    then SelectionIsValid(ctx, c.GetSelections()[p], c.GetSelections()[p].descriptionHash, k)
    else ContestIsValid(ctx, c, c.descriptionHash, k)
  }

  lemma {:induction false} CheckAt(ctx: Context, k: nat, contests: seq<CiphertextContest>, i: nat, p: nat)
    requires 1 < ctx.grp.p && i < |contests| && p <= |contests[i].selections|
    ensures |BallotChecks(ctx, k, contests)| == CheckCount(contests)
    ensures var n := CheckCount(contests[..i]) + p;
            && n < CheckCount(contests)
            && BallotChecks(ctx, k, contests)[n] == (KeyOf(contests[i], p), ResultOf(ctx, k, contests[i], p))
  {
    hide SelectionIsValid, ContestIsValid, Sort;
    var last := |contests| - 1;
    CheckTotal(ctx, k, contests);
    CheckTotal(ctx, k, contests[..last]);
    if i < last {
      CheckAt(ctx, k, contests[..last], i, p);
      assert contests[..last][..i] == contests[..i];
    } else {
      assert contests[..i] == contests[..last];
    }
  }

  lemma {:induction false} CheckTotal(ctx: Context, k: nat, contests: seq<CiphertextContest>)
    requires 1 < ctx.grp.p
    ensures |BallotChecks(ctx, k, contests)| == CheckCount(contests)
  {
    hide SelectionIsValid, ContestIsValid, Sort;
    if contests == [] {
    } else {
      CheckTotal(ctx, k, contests[..|contests| - 1]);
    }
  }

  lemma {:induction false} Locate(contests: seq<CiphertextContest>, n: nat) returns (i: nat, p: nat)
    requires n < CheckCount(contests)
    ensures i < |contests| && p <= |contests[i].selections| && n == CheckCount(contests[..i]) + p
  {
    var last := |contests| - 1;
    if n < CheckCount(contests[..last]) {
      i, p := Locate(contests[..last], n);
      assert contests[..last][..i] == contests[..i];
    } else {
      i, p := last, n - CheckCount(contests[..last]);
    }
  }

  /** Contests file their results one after the other. */
  lemma {:induction false} LaterContest(contests: seq<CiphertextContest>, i: nat, j: nat)
    requires i < j <= |contests|
    ensures CheckCount(contests[..i]) + |contests[i].selections| < CheckCount(contests[..j])
  {
    assert contests[..j][..j - 1] == contests[..j - 1];
    if i == j - 1 {
    } else {
      LaterContest(contests, i, j - 1);
    }
  }

  /** No two contests share an identifier, no two selections a key, and no contest has the key of a selection. */
  predicate UnambiguousIds(contests: seq<CiphertextContest>) {
    && (forall i, j :: 0 <= i < j < |contests| ==> contests[i].objectId != contests[j].objectId)
    && (forall i, p, j :: 0 <= i < |contests| && 0 <= p < |contests[i].selections| && 0 <= j < |contests| ==>
          contests[j].objectId != contests[i].objectId + "-" + contests[i].GetSelections()[p].objectId)
    && (forall i, p, j, q ::
          && 0 <= i < |contests| && 0 <= p < |contests[i].selections|
          && 0 <= j < |contests| && 0 <= q < |contests[j].selections| && (i, p) != (j, q) ==>
            contests[i].objectId + "-" + contests[i].GetSelections()[p].objectId
            != contests[j].objectId + "-" + contests[j].GetSelections()[q].objectId)
  }

  predicate DistinctKeysOf(contests: seq<CiphertextContest>) {
    forall i, p, j, q ::
      && 0 <= i < |contests| && 0 <= p <= |contests[i].selections|
      && 0 <= j < |contests| && 0 <= q <= |contests[j].selections| && (i, p) != (j, q) ==>
        KeyOf(contests[i], p) != KeyOf(contests[j], q)
  }

  lemma KeysAreUnambiguous(contests: seq<CiphertextContest>)
    ensures DistinctKeysOf(contests) <==> UnambiguousIds(contests)
  {
    hide Sort;
    if DistinctKeysOf(contests) {
      forall i, j | 0 <= i < j < |contests| ensures contests[i].objectId != contests[j].objectId {
        assert KeyOf(contests[i], |contests[i].selections|) != KeyOf(contests[j], |contests[j].selections|);
      }
      forall i, p, j | 0 <= i < |contests| && 0 <= p < |contests[i].selections| && 0 <= j < |contests|
        ensures contests[j].objectId != contests[i].objectId + "-" + contests[i].GetSelections()[p].objectId
      {
        assert KeyOf(contests[i], p) != KeyOf(contests[j], |contests[j].selections|);
      }
      forall i, p, j, q | 0 <= i < |contests| && 0 <= p < |contests[i].selections| && 0 <= j < |contests|
                          && 0 <= q < |contests[j].selections| && (i, p) != (j, q)
        ensures contests[i].objectId + "-" + contests[i].GetSelections()[p].objectId
                != contests[j].objectId + "-" + contests[j].GetSelections()[q].objectId
      {
        assert KeyOf(contests[i], p) != KeyOf(contests[j], q);
      }
    }
  }

  /** The keys of a ballot are distinct exactly when its identifiers are unambiguous. */
  lemma BallotKeysDistinct(ctx: Context, k: nat, contests: seq<CiphertextContest>)
    requires 1 < ctx.grp.p
    ensures DistinctCheckKeys(BallotChecks(ctx, k, contests)) <==> UnambiguousIds(contests)
  {
    hide KeyOf, ResultOf, BallotChecks, CheckCount, UnambiguousIds;
    KeysAreUnambiguous(contests);
    CheckTotal(ctx, k, contests);
    var checks := BallotChecks(ctx, k, contests);
    if DistinctCheckKeys(checks) {
      forall i, p, j, q | 0 <= i < |contests| && 0 <= p <= |contests[i].selections| && 0 <= j < |contests|
                          && 0 <= q <= |contests[j].selections| && (i, p) != (j, q)
        ensures KeyOf(contests[i], p) != KeyOf(contests[j], q)
      {
        CheckAt(ctx, k, contests, i, p);
        CheckAt(ctx, k, contests, j, q);
        DifferentPlaces(contests, i, p, j, q);
      }
    }
    if DistinctKeysOf(contests) {
      forall m, n | 0 <= m < n < |checks| ensures checks[m].0 != checks[n].0 {
        var i, p := Locate(contests, m);
        var j, q := Locate(contests, n);
        CheckAt(ctx, k, contests, i, p);
        CheckAt(ctx, k, contests, j, q);
        assert (i, p) != (j, q);
      }
    }
  }

  lemma DifferentPlaces(contests: seq<CiphertextContest>, i: nat, p: nat, j: nat, q: nat)
    requires i < |contests| && p <= |contests[i].selections| && j < |contests| && q <= |contests[j].selections|
    requires (i, p) != (j, q)
    ensures CheckCount(contests[..i]) + p != CheckCount(contests[..j]) + q
  {
    hide CheckCount;
    if i < j {
      LaterContest(contests, i, j);
    } else if j < i {
      LaterContest(contests, j, i);
    }
  }

  /** With unambiguous identifiers an ordered ballot is accepted if and only if every one of its proofs verifies. */
  lemma UnambiguousBallotIsValid(ctx: Context, k: nat, objectId: string, styleId: string, manifestHash: Word,
                                 contests: seq<CiphertextContest>, nonce: Word, timestamp: nat, ballotCodeSeed: Word)
    requires 1 < ctx.grp.p && contests != [] && UnambiguousIds(contests)
    requires Sorted(CiphertextContestOrder, contests) && DistinctKeys(CiphertextContestOrder, contests)
    ensures var b := MadeBallot(ctx.sha, objectId, styleId, manifestHash, contests, nonce, timestamp,
                                ballotCodeSeed).value;
            BallotIsValid(ctx, b, manifestHash, k) <==> forall c :: c in contests ==> ContestVerifies(ctx, k, c)
  {
    hide UnambiguousIds, BallotIsValid, ContestVerifies, MadeBallot;
    BallotKeysDistinct(ctx, k, contests);
    OrderedBallotIsValid(ctx, k, objectId, styleId, manifestHash, contests, nonce, timestamp, ballotCodeSeed);
  }

  // ------------------------------------------------- where an overwritten result is lost

  /** The ballot with the proof of one selection replaced by zeros. */
  function SpoiledContest(c: CiphertextContest, p: nat): CiphertextContest
    requires p < |c.selections|
  {
    c.(selections := c.selections[p := Core(c.selections[p])])
  }

  function Spoiled(b: CiphertextBallot, i: nat, p: nat): CiphertextBallot
    requires i < |b.contests| && p < |b.contests[i].selections|
  {
    b.(contests := b.contests[i := SpoiledContest(b.contests[i], p)])
  }

  lemma SpoiledContestPasses(ctx: Context, k: nat, c: CiphertextContest, p: nat)
    requires 1 < ctx.grp.p && p < |c.selections| && ContestVerifies(ctx, k, c)
    ensures var d := SpoiledContest(c, p);
            && ContestIsValid(ctx, d, d.descriptionHash, k)
            && !SelectionIsValid(ctx, d.selections[p], d.selections[p].descriptionHash, k)
            && forall s :: s in d.GetSelections() ==>
                 s == d.selections[p] || SelectionIsValid(ctx, s, s.descriptionHash, k)
  {
    hide Sort, ConstantIsValid, ElGamal.Accumulated, Hashing.HashElems;
    var d := SpoiledContest(c, p);
    assert Map(Core, d.selections) == Map(Core, c.selections);
    SameCores(d.selections, c.selections);
    SortSorts(CiphertextOrder, d.selections);
    forall s | s in d.GetSelections() ensures s == d.selections[p] || s in c.selections {
      assert s in multiset(d.selections);
      var x :| 0 <= x < |d.selections| && d.selections[x] == s;
      assert x != p ==> s == c.selections[x];
    }
  }

  /**
   * A failed proof that goes unnoticed: take any ordered ballot all of whose proofs verify, with a contest whose
   * identifier is the key of a selection of an earlier contest. Replacing that selection's proof by zeros leaves the
   * ballot accepted, although the selection and hence its contest no longer verify.
   */
  lemma OverwrittenFailure(ctx: Context, k: nat, b: CiphertextBallot, manifestHash: Word, i: nat, p: nat, j: nat)
    requires 1 < ctx.grp.p && BallotIsValid(ctx, b, manifestHash, k)
    requires Sorted(CiphertextContestOrder, b.contests) && DistinctKeys(CiphertextContestOrder, b.contests)
    requires forall c :: c in b.contests ==> ContestVerifies(ctx, k, c)
    requires i < j < |b.contests| && p < |b.contests[i].selections|
    requires b.contests[j].objectId == b.contests[i].objectId + "-" + b.contests[i].selections[p].objectId
    ensures BallotIsValid(ctx, Spoiled(b, i, p), manifestHash, k)
    ensures !ContestVerifies(ctx, k, Spoiled(b, i, p).contests[i])
  {
    hide BallotChecks, Written, AllTrue, Sort, ContestIsValid, SelectionIsValid, Hashing.HashElems, CheckCount;
    var after := Spoiled(b, i, p);
    var contests := after.contests;
    SpoiledContestPasses(ctx, k, b.contests[i], p);
    SortOfSorted(CiphertextContestOrder, b.contests);
    SortOfSorted(CiphertextContestOrder, contests);
    assert ContestItems(contests) == ContestItems(b.contests);
    assert contests[i].selections[p] in contests[i].selections;
    var checks := BallotChecks(ctx, k, contests);
    CheckTotal(ctx, k, contests);
    CheckAt(ctx, k, contests, j, |contests[j].selections|);
    LaterContest(contests, i, j);
    forall n | 0 <= n < |checks| && IsLast(checks, n) ensures checks[n].1 {
      var l, q := Locate(contests, n);
      CheckAt(ctx, k, contests, l, q);
      if l == i {
        ResultOfSpoiled(ctx, k, b.contests[i], p, q);
      } else {
        ResultOfGood(ctx, k, contests[l], q);
      }
    }
    LastResultsCount(checks);
  }

  lemma ResultOfSpoiled(ctx: Context, k: nat, c: CiphertextContest, p: nat, q: nat)
    requires 1 < ctx.grp.p && p < |c.selections| && q <= |c.selections| && ContestVerifies(ctx, k, c)
    ensures var d := SpoiledContest(c, p);
            ResultOf(ctx, k, d, q) || (q < |c.selections| && KeyOf(d, q) == c.objectId + "-" + c.selections[p].objectId)
  {
    hide Sort, ContestIsValid, SelectionIsValid;
    SpoiledContestPasses(ctx, k, c, p);
  }

  lemma ResultOfGood(ctx: Context, k: nat, c: CiphertextContest, q: nat)
    requires 1 < ctx.grp.p && q <= |c.selections| && ContestVerifies(ctx, k, c)
    ensures ResultOf(ctx, k, c, q)
  {
    hide Sort, ContestIsValid, SelectionIsValid;
    SortSorts(CiphertextOrder, c.selections);
    if q < |c.selections| {
      assert c.GetSelections()[q] in multiset(c.selections);
    }
  }

  // --------------------------------------- a valid manifest whose identifiers are ambiguous

  const FIRST := Manifests.ContestDescription("a", "unit", 0, Manifests.OneOfM, 1, 1, "", Manifests.Untitled,
                                              [Manifests.SelectionDescription("b", "x", 0)])
  const SECOND := Manifests.ContestDescription("a-b", "unit", 1, Manifests.OneOfM, 1, 1, "", Manifests.Untitled,
                                               [Manifests.SelectionDescription("c", "y", 0)])
  const AMBIGUOUS := Manifests.Manifest(["unit"], [], [], [FIRST, SECOND], [Manifests.BallotStyle("style", ["unit"])])

  lemma OneSelectionIsValid(c: Manifests.ContestDescription)
    requires |c.selections| == 1 && c.numberElected == 1 == c.votesAllowed
    requires c.selections[0].objectId != "" && c.selections[0].candidateId != ""
    ensures Manifests.ValidContest(c)
  {
  }

  lemma AmbiguousIsValid()
    ensures Manifests.ValidManifest(AMBIGUOUS)
  {
    OneSelectionIsValid(FIRST);
    OneSelectionIsValid(SECOND);
    assert "unit" in Manifests.NonEmpty(["unit"]);
    assert Manifests.ContestIds(AMBIGUOUS.contests)[0] == "a" && Manifests.ContestIds(AMBIGUOUS.contests)[1] == "a-b";
  }

  lemma AmbiguousIsSized(manifestHash: Word)
    ensures var contests := Manifests.InternalFrom(AMBIGUOUS, manifestHash).contests;
            && (forall c :: c in contests ==> ContestEncryption.Sized(c))
            && Manifests.WithPlaceholders(FIRST) in contests
            && Manifests.WithPlaceholders(SECOND) in contests
  {
    hide Manifests.FirstPlaceholder;
    SortOfSorted(Manifests.DescriptionOrder, AMBIGUOUS.contests);
    Manifests.PlaceholderOrders(FIRST);
    Manifests.PlaceholderOrders(SECOND);
    var contests := Manifests.InternalFrom(AMBIGUOUS, manifestHash).contests;
    assert contests[0] == Manifests.WithPlaceholders(FIRST);
    assert contests[1] == Manifests.WithPlaceholders(SECOND);
  }

  /**
   * The failure at real ballots: for every election and every ballot that encryptBallot returns, verified, for this
   * valid manifest, the ballot with a spoiled proof of selection "b" in contest "a" is still accepted, because the
   * result of contest "a-b" is filed under the same key.
   */
  lemma AcceptedWithFailedProof(e: ContestEncryption.Election, manifestHash: Word, ballot: Plaintexts.PlaintextBallot,
                                nonce: Word, codeSeed: Word, timestamp: nat, now: BallotEncryption.Clock,
                                draws: seq<ContestEncryption.ContestDraws>) returns (i: nat)
    requires ContestEncryption.GoodElection(e) && ballot.styleId == "style"
    requires var manifest := Manifests.InternalFrom(AMBIGUOUS, manifestHash);
             && BallotEncryption.AllFit(BallotEncryption.DescriptionsOf(manifest, ballot), draws)
             && BallotEncryption.AllHonest(e, draws)
             && BallotEncryption.EncryptedBallot(e, manifest, ballot, nonce, codeSeed, timestamp, now, true, draws).Ok?
    ensures Manifests.ValidManifest(AMBIGUOUS)
    ensures var manifest := Manifests.InternalFrom(AMBIGUOUS, manifestHash);
            var b := BallotEncryption.EncryptedBallot(e, manifest, ballot, nonce, codeSeed, timestamp, now, true,
                                                      draws).value;
            && i < |b.contests| && b.contests[i].objectId == "a"
            && b.contests[i].selections != [] && b.contests[i].selections[0].objectId == "b"
            && BallotIsValid(e.ctx, Spoiled(b, i, 0), manifestHash, e.publicKey)
            && !ContestVerifies(e.ctx, e.publicKey, Spoiled(b, i, 0).contests[i])
  {
    hide BallotEncryption.EncryptedBallot, ElementP.Standard, BallotEncryption.AllHonest, BallotIsValid,
         ContestVerifies, ContestEncryption.NoZeroes, ContestEncryption.Sized, Manifests.Encryptable, Sort,
         Manifests.Placeholders, Manifests.ValidManifest, Spoiled, ElGamal.Encrypts, BallotEncryption.AllFit,
         Manifests.ContestsFor;
    var manifest := Manifests.InternalFrom(AMBIGUOUS, manifestHash);
    ElementP.StandardGives(e.ctx.grp);
    AmbiguousIsValid();
    AmbiguousIsSized(manifestHash);
    assert AMBIGUOUS.ballotStyles[0].geopoliticalUnitIds == ["unit"];
    BallotEncryption.ValidManifestSuffices(AMBIGUOUS, manifestHash, ballot, 0);
    BallotEncryption.BallotEndToEnd(e, manifest, ballot, nonce, codeSeed, timestamp, now, draws);
    var b := BallotEncryption.EncryptedBallot(e, manifest, ballot, nonce, codeSeed, timestamp, now, true, draws).value;
    var descriptions := BallotEncryption.DescriptionsOf(manifest, ballot);
    i := PlaceOf(ballot, manifestHash, FIRST);
    var j := PlaceOf(ballot, manifestHash, SECOND);
    assert Manifests.ContestOrder(descriptions[i]) == 0 && Manifests.ContestOrder(descriptions[j]) == 1;
    BallotEncryption.ContestsInOrder(e, descriptions, b.contests);
    forall c | c in b.contests ensures ContestVerifies(e.ctx, e.publicKey, c) {
      var x :| 0 <= x < |b.contests| && b.contests[x] == c;
      BallotEncryption.ContestForGives(e, descriptions[x], c);
    }
    OnlySelection(FIRST);
    OverwrittenFailure(e.ctx, e.publicKey, b, manifestHash, i, 0, j);
  }

  lemma OnlySelection(c: Manifests.ContestDescription)
    requires |c.selections| == 1
    ensures c.GetSelections() == c.selections && c.Copied().GetSelections() == c.selections
  {
    SortOfSorted(Manifests.SelectionOrder, c.selections);
  }

  lemma PlaceOf(ballot: Plaintexts.PlaintextBallot, manifestHash: Word, c: Manifests.ContestDescription)
      returns (i: nat)
    requires ballot.styleId == "style" && (c == FIRST || c == SECOND)
    ensures var descriptions := BallotEncryption.DescriptionsOf(Manifests.InternalFrom(AMBIGUOUS, manifestHash),
                                                                ballot);
            i < |descriptions| &&
            descriptions[i] == Manifests.WithPlaceholders(c)
  {
    hide Sort, Manifests.Placeholders, ContestEncryption.Sized, Manifests.ContestsFor;
    var manifest := Manifests.InternalFrom(AMBIGUOUS, manifestHash);
    AmbiguousIsValid();
    AmbiguousIsSized(manifestHash);
    Manifests.ValidManifestGives(AMBIGUOUS, manifestHash);
    assert AMBIGUOUS.ballotStyles[0].geopoliticalUnitIds == ["unit"];
    Manifests.ContestsForStyle(manifest, "style", 0);
    var descriptions := BallotEncryption.DescriptionsOf(manifest, ballot);
    var d := Manifests.WithPlaceholders(c);
    assert d in descriptions;
    i :| 0 <= i < |descriptions| && descriptions[i] == d;
  }
}
