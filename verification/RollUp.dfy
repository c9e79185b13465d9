/** What the roll-up of hashes on a ballot commits to: the makeCryptoHash functions of src/electionguard/ballot.cpp. */
module HashRollUp {
  import opened ElementQ
  import opened Hashing
  import opened ElGamal
  import opened ChaumPedersen
  import opened Ballots
  import Hex
  import Sorting

  // The items hashed at each level.

  function CiphertextItems(c: Ciphertext): seq<Item> {
    [Element(c.pad), Element(c.data)]
  }

  function ItemsOf(sha: Sha, s: CiphertextSelection): seq<Item> {
    [Text(s.objectId), Element(s.descriptionHash), Element(HashElems(sha, CiphertextItems(s.ciphertext)))]
  }

  function ItemsOfContest(c: CiphertextContest): seq<Item> {
    [Text(c.objectId), Element(c.descriptionHash)] + SelectionItems(c.GetSelections())
  }

  function ItemsOfBallot(b: CiphertextBallot): seq<Item> {
    [Text(b.objectId), Element(b.manifestHash)] + ContestItems(b.GetContests())
  }

  /** Every hash on the ballot is the one its check recomputes. */
  predicate Consistent(sha: Sha, b: CiphertextBallot) {
    && b.cryptoHash == HashElems(sha, ItemsOfBallot(b))
    && forall i :: 0 <= i < |b.contests| ==> ContestConsistent(sha, b.GetContests()[i])
  }

  predicate ContestConsistent(sha: Sha, c: CiphertextContest) {
    && c.cryptoHash == HashElems(sha, ItemsOfContest(c))
    && forall j :: 0 <= j < |c.selections| ==>
         c.GetSelections()[j].cryptoHash == HashElems(sha, ItemsOf(sha, c.GetSelections()[j]))
  }

  /** The texts hashed for the ballot, for one of its contests, for a selection or for a ciphertext. */
  predicate HashedFor(sha: Sha, b: CiphertextBallot, texts: seq<string>) {
    || texts == RenderAll(sha, ItemsOfBallot(b))
    || exists i :: 0 <= i < |b.contests| && HashedForContest(sha, b.GetContests()[i], texts)
  }

  predicate HashedForContest(sha: Sha, c: CiphertextContest, texts: seq<string>) {
    || texts == RenderAll(sha, ItemsOfContest(c))
    || exists j :: 0 <= j < |c.selections| && HashedForSelection(sha, c.GetSelections()[j], texts)
  }

  predicate HashedForSelection(sha: Sha, s: CiphertextSelection, texts: seq<string>) {
    texts == RenderAll(sha, ItemsOf(sha, s)) || texts == RenderAll(sha, CiphertextItems(s.ciphertext))
  }

  ghost predicate SelectionsCollide(sha: Sha, s: CiphertextSelection, s': CiphertextSelection) {
    exists xs, ys :: HashedForSelection(sha, s, xs) && HashedForSelection(sha, s', ys) && Collide(sha, xs, ys)
  }

  ghost predicate ContestsCollide(sha: Sha, c: CiphertextContest, c': CiphertextContest) {
    exists xs, ys :: HashedForContest(sha, c, xs) && HashedForContest(sha, c', ys) && Collide(sha, xs, ys)
  }

  ghost predicate BallotsCollide(sha: Sha, b: CiphertextBallot, b': CiphertextBallot) {
    exists xs, ys :: HashedFor(sha, b, xs) && HashedFor(sha, b', ys) && Collide(sha, xs, ys)
  }

  predicate SameCiphertexts(c: CiphertextContest, c': CiphertextContest) {
    && |c.selections| == |c'.selections|
    && forall j :: 0 <= j < |c.selections| ==> c.GetSelections()[j].ciphertext == c'.GetSelections()[j].ciphertext
  }

  predicate SameBallotCiphertexts(b: CiphertextBallot, b': CiphertextBallot) {
    && |b.contests| == |b'.contests|
    && forall i :: 0 <= i < |b.contests| ==> SameCiphertexts(b.GetContests()[i], b'.GetContests()[i])
  }

  lemma CiphertextCommits(sha: Sha, c: Ciphertext, c': Ciphertext)
    requires HashElems(sha, CiphertextItems(c)) == HashElems(sha, CiphertextItems(c'))
    ensures c == c' || Collide(sha, RenderAll(sha, CiphertextItems(c)), RenderAll(sha, CiphertextItems(c')))
  {
    hide HashElems, RenderAll, Collide;
    RenderedClean(sha, CiphertextItems(c));
    RenderedClean(sha, CiphertextItems(c'));
    HashFixesItems(sha, CiphertextItems(c), CiphertextItems(c'));
    if RenderAll(sha, CiphertextItems(c)) == RenderAll(sha, CiphertextItems(c')) {
      ElementsRendered(sha, CiphertextItems(c), CiphertextItems(c'), 0);
      ElementsRendered(sha, CiphertextItems(c), CiphertextItems(c'), 1);
    }
  }

  /** Identifiers are fixed up to the empty one, which prints like "null". */
  predicate SamePrint(sha: Sha, id: string, id': string) {
    Render(sha, Text(id)) == Render(sha, Text(id'))
  }

  /**
   * The hash of a selection commits to its ciphertext, its description hash and its identifier, whatever that
   * contains.
   */
  lemma SelectionCommits(sha: Sha, s: CiphertextSelection, s': CiphertextSelection)
    requires HashElems(sha, ItemsOf(sha, s)) == HashElems(sha, ItemsOf(sha, s'))
    ensures || (&& s.ciphertext == s'.ciphertext && s.descriptionHash == s'.descriptionHash
                && SamePrint(sha, s.objectId, s'.objectId))
            || SelectionsCollide(sha, s, s')
  {
    hide HashElems, RenderAll, Collide, AllClean;
    var items, items' := ItemsOf(sha, s), ItemsOf(sha, s');
    var inner, inner' := CiphertextItems(s.ciphertext), CiphertextItems(s'.ciphertext);
    RenderedClean(sha, items);
    RenderedClean(sha, items');
    HashFixesItems(sha, items, items');
    if RenderAll(sha, items) == RenderAll(sha, items') {
      assert RenderAll(sha, items)[0] == Render(sha, items[0]) && RenderAll(sha, items')[0] == Render(sha, items'[0]);
      ElementsRendered(sha, items, items', 1);
      ElementsRendered(sha, items, items', 2);
      CiphertextCommits(sha, s.ciphertext, s'.ciphertext);
      assert HashedForSelection(sha, s, RenderAll(sha, inner)) && HashedForSelection(sha, s', RenderAll(sha, inner'));
    } else {
      assert HashedForSelection(sha, s, RenderAll(sha, items)) && HashedForSelection(sha, s', RenderAll(sha, items'));
    }
  }

  /** How many delimiters an identifier puts into the hashed text. */
  function IdDelimiters(id: string): nat {
    Delimiters(if id == "" then "null" else id)
  }

  /**
   * The hash of a contest commits to its ciphertexts exactly as far as the text can be read: unless two texts hashed
   * for the contests collide, two contests with one hash have the same ciphertexts if and only if they have equally
   * many selections, and that is so if and only if their identifiers contain equally many delimiters. Then they also
   * have the same description hash and identifier.
   */
  lemma ContestCommits(sha: Sha, c: CiphertextContest, c': CiphertextContest)
    requires ContestConsistent(sha, c) && ContestConsistent(sha, c') && c.cryptoHash == c'.cryptoHash
    ensures || ContestsCollide(sha, c, c')
            || (&& (SameCiphertexts(c, c') <==> |c.selections| == |c'.selections|)
                && (|c.selections| == |c'.selections| <==> IdDelimiters(c.objectId) == IdDelimiters(c'.objectId))
                && (SameCiphertexts(c, c') ==>
                      c.descriptionHash == c'.descriptionHash && SamePrint(sha, c.objectId, c'.objectId)))
  {
    hide HashElems, RenderAll, Collide, AllClean, Sorting.Sort, SelectionsCollide, HashedForSelection, Delimiters;
    var items, items' := ItemsOfContest(c), ItemsOfContest(c');
    RenderedClean(sha, items);
    RenderedClean(sha, items');
    HashFixesItems(sha, items, items');
    assert HashedForContest(sha, c, RenderAll(sha, items)) && HashedForContest(sha, c', RenderAll(sha, items'));
    if !ContestsCollide(sha, c, c') && |c.selections| == |c'.selections| {
      assert RenderAll(sha, items)[0] == Render(sha, items[0]) && RenderAll(sha, items')[0] == Render(sha, items'[0]);
      assert items[1] == Element(c.descriptionHash) && items'[1] == Element(c'.descriptionHash);
      ElementsRendered(sha, items, items', 1);
      forall j | 0 <= j < |c.selections| ensures c.GetSelections()[j].ciphertext == c'.GetSelections()[j].ciphertext {
        assert items[j + 2] == Element(c.GetSelections()[j].cryptoHash);
        assert items'[j + 2] == Element(c'.GetSelections()[j].cryptoHash);
        ElementsRendered(sha, items, items', j + 2);
        SelectionCommits(sha, c.GetSelections()[j], c'.GetSelections()[j]);
        CollisionInContest(sha, c, c', j);
      }
    }
  }

  lemma CollisionInContest(sha: Sha, c: CiphertextContest, c': CiphertextContest, j: nat)
    requires j < |c.selections| == |c'.selections|
    ensures SelectionsCollide(sha, c.GetSelections()[j], c'.GetSelections()[j]) ==> ContestsCollide(sha, c, c')
  {
    hide HashedForSelection, Collide, Sorting.Sort, RenderAll;
    var s, s' := c.GetSelections()[j], c'.GetSelections()[j];
    if SelectionsCollide(sha, s, s') {
      var xs, ys :| HashedForSelection(sha, s, xs) && HashedForSelection(sha, s', ys) && Collide(sha, xs, ys);
      assert HashedForContest(sha, c, xs) && HashedForContest(sha, c', ys);
    }
  }

  lemma CollisionOnBallot(sha: Sha, b: CiphertextBallot, b': CiphertextBallot, i: nat)
    requires i < |b.contests| == |b'.contests|
    ensures ContestsCollide(sha, b.GetContests()[i], b'.GetContests()[i]) ==> BallotsCollide(sha, b, b')
  {
    hide HashedForContest, Collide, Sorting.Sort, RenderAll;
    var c, c' := b.GetContests()[i], b'.GetContests()[i];
    if ContestsCollide(sha, c, c') {
      var xs, ys :| HashedForContest(sha, c, xs) && HashedForContest(sha, c', ys) && Collide(sha, xs, ys);
      assert HashedFor(sha, b, xs) && HashedFor(sha, b', ys);
    }
  }

  /** The same numbers of contests and of selections in them. */
  predicate SameShape(b: CiphertextBallot, b': CiphertextBallot) {
    && |b.contests| == |b'.contests|
    && forall i :: 0 <= i < |b.contests| ==> |b.GetContests()[i].selections| == |b'.GetContests()[i].selections|
  }

  /** What a caller can check instead: the identifiers contain equally many delimiters, place by place. */
  predicate SameDelimiters(b: CiphertextBallot, b': CiphertextBallot) {
    && IdDelimiters(b.objectId) == IdDelimiters(b'.objectId)
    && forall i :: 0 <= i < |b.contests| && i < |b'.contests| ==>
         IdDelimiters(b.GetContests()[i].objectId) == IdDelimiters(b'.GetContests()[i].objectId)
  }

  lemma ContestOfBallotCommits(sha: Sha, b: CiphertextBallot, b': CiphertextBallot, i: nat)
    requires Consistent(sha, b) && Consistent(sha, b') && !BallotsCollide(sha, b, b')
    requires i < |b.contests| == |b'.contests| && RenderAll(sha, ItemsOfBallot(b)) == RenderAll(sha, ItemsOfBallot(b'))
    ensures var c, c' := b.GetContests()[i], b'.GetContests()[i];
            && (SameCiphertexts(c, c') <==> |c.selections| == |c'.selections|)
            && (|c.selections| == |c'.selections| <==> IdDelimiters(c.objectId) == IdDelimiters(c'.objectId))
  {
    hide HashElems, RenderAll, Sorting.Sort, ContestsCollide, BallotsCollide, SameCiphertexts, ContestConsistent,
         IdDelimiters;
    var items, items' := ItemsOfBallot(b), ItemsOfBallot(b');
    assert items[i + 2] == Element(b.GetContests()[i].cryptoHash);
    assert items'[i + 2] == Element(b'.GetContests()[i].cryptoHash);
    ElementsRendered(sha, items, items', i + 2);
    ContestCommits(sha, b.GetContests()[i], b'.GetContests()[i]);
    CollisionOnBallot(sha, b, b', i);
  }

  /**
   * The hash of a ballot commits to every ciphertext on it. Unless two texts hashed for the ballots collide, two
   * ballots with consistent hashes and one ballot hash have the same ciphertexts in the same places if and only if
   * they have the same shape, and that is so if and only if their identifiers contain equally many delimiters.
   */
  lemma BallotHashCommits(sha: Sha, b: CiphertextBallot, b': CiphertextBallot)
    requires Consistent(sha, b) && Consistent(sha, b') && b.cryptoHash == b'.cryptoHash
    ensures || BallotsCollide(sha, b, b')
            || (&& (SameBallotCiphertexts(b, b') <==> SameShape(b, b'))
                && (SameShape(b, b') <==> SameDelimiters(b, b'))
                && (SameShape(b, b') ==> b.manifestHash == b'.manifestHash && SamePrint(sha, b.objectId, b'.objectId)))
  {
    hide HashElems, RenderAll, Collide, AllClean, Sorting.Sort, HashedForContest, SameCiphertexts, ContestConsistent,
         Delimiters;
    var items, items' := ItemsOfBallot(b), ItemsOfBallot(b');
    RenderedClean(sha, items);
    RenderedClean(sha, items');
    HashFixesItems(sha, items, items');
    assert HashedFor(sha, b, RenderAll(sha, items)) && HashedFor(sha, b', RenderAll(sha, items'));
    if !BallotsCollide(sha, b, b') {
      assert |b.contests| == |b'.contests| <==> IdDelimiters(b.objectId) == IdDelimiters(b'.objectId);
      if |b.contests| == |b'.contests| {
        assert RenderAll(sha, items)[0] == Render(sha, items[0]);
        assert RenderAll(sha, items')[0] == Render(sha, items'[0]);
        assert items[1] == Element(b.manifestHash) && items'[1] == Element(b'.manifestHash);
        ElementsRendered(sha, items, items', 1);
        forall i | 0 <= i < |b.contests|
          ensures var c, c' := b.GetContests()[i], b'.GetContests()[i];
                  && (SameCiphertexts(c, c') <==> |c.selections| == |c'.selections|)
                  && (|c.selections| == |c'.selections| <==> IdDelimiters(c.objectId) == IdDelimiters(c'.objectId))
        {
          ContestOfBallotCommits(sha, b, b', i);
        }
      }
    }
  }

  function Rehashed(sha: Sha, c: CiphertextContest): CiphertextContest {
    c.(cryptoHash := HashElems(sha, ItemsOfContest(c)))
  }

  /**
   * Where the condition fails: any two consistent selections in a contest "a", and only the later of them in a contest
   * whose identifier is "a", the delimiter and the first contest's printed description hash. The two contests have
   * consistent hashes and hash the same text, so that no collision is needed for them to share their hash.
   */
  lemma DelimiterInIdHidesSelection(sha: Sha, s: CiphertextSelection, s': CiphertextSelection, base: CiphertextContest)
    requires s.sequenceOrder < s'.sequenceOrder
    requires s.cryptoHash == HashElems(sha, ItemsOf(sha, s)) && s'.cryptoHash == HashElems(sha, ItemsOf(sha, s'))
    ensures var c := Rehashed(sha, base.(objectId := "a", selections := [s, s']));
            var c' := Rehashed(sha, base.(objectId := "a|" + Hex.ToHex(base.descriptionHash),
                                          descriptionHash := s.cryptoHash, selections := [s']));
            && ContestConsistent(sha, c) && ContestConsistent(sha, c')
            && Delimited(RenderAll(sha, ItemsOfContest(c))) == Delimited(RenderAll(sha, ItemsOfContest(c')))
            && c.cryptoHash == c'.cryptoHash && !SameCiphertexts(c, c')
  {
    hide Digest, RenderAll, ItemsOf, Delimited, Sorting.Sort, Hex.ToHex;
    var c := Rehashed(sha, base.(objectId := "a", selections := [s, s']));
    var c' := Rehashed(sha, base.(objectId := "a|" + Hex.ToHex(base.descriptionHash),
                                  descriptionHash := s.cryptoHash, selections := [s']));
    Sorting.SortOfSorted(CiphertextOrder, c.selections);
    Sorting.SortOfSorted(CiphertextOrder, c'.selections);
    var id, x, y, z := "a", Hex.ToHex(base.descriptionHash), Hex.ToHex(s.cryptoHash), Hex.ToHex(s'.cryptoHash);
    RenderedFields(sha, c, [id, x, y, z]);
    RenderedFields(sha, c', [id + "|" + x, y, z]);
    FourFields(id, x, y, z);
    ThreeFields(id + "|" + x, y, z);
    assert id + "|" + x + "|" + y + "|" + z + "|" == (id + "|" + x) + "|" + y + "|" + z + "|";
    assert "a|" + x == id + "|" + x;
    SameTextSameDigest(sha, [id, x, y, z], [id + "|" + x, y, z]);
  }

  lemma SameTextSameDigest(sha: Sha, xs: seq<string>, ys: seq<string>)
    requires xs != [] && ys != [] && Delimited(xs) == Delimited(ys)
    ensures Digest(sha, xs) == Digest(sha, ys)
  {
    hide Delimited;
  }

  lemma RenderedFields(sha: Sha, c: CiphertextContest, fields: seq<string>)
    requires c.objectId != "" && |fields| == |c.selections| + 2
    requires fields[0] == c.objectId && fields[1] == Hex.ToHex(c.descriptionHash)
    requires forall j :: 0 <= j < |c.selections| ==> fields[j + 2] == Hex.ToHex(c.GetSelections()[j].cryptoHash)
    ensures RenderAll(sha, ItemsOfContest(c)) == fields
  {
    hide RenderAll, Sorting.Sort;
    var items := ItemsOfContest(c);
    forall i | 0 <= i < |fields| ensures RenderAll(sha, items)[i] == fields[i] {
      assert RenderAll(sha, items)[i] == Render(sha, items[i]);
      if i >= 2 {
        assert items[i] == Element(c.GetSelections()[i - 2].cryptoHash);
      }
    }
  }

  lemma ThreeFields(x: string, y: string, z: string)
    ensures Delimited([x, y, z]) == x + "|" + y + "|" + z + "|"
  {
    hide Delimited;
    DelimitedAppend([], x);
    DelimitedAppend([x], y);
    DelimitedAppend([x, y], z);
    NoFields();
    assert [] + [x] == [x] && [x] + [y] == [x, y] && [x, y] + [z] == [x, y, z];
    assert "" + x + DELIMITER == x + DELIMITER;
  }

  lemma FourFields(w: string, x: string, y: string, z: string)
    ensures Delimited([w, x, y, z]) == w + "|" + x + "|" + y + "|" + z + "|"
  {
    hide Delimited;
    ThreeFields(w, x, y);
    DelimitedAppend([w, x, y], z);
    assert [w, x, y] + [z] == [w, x, y, z];
  }

  /** A ballot that passes its check and whose contests pass theirs has consistent hashes. */
  lemma ValidIsConsistent(ctx: Context, b: CiphertextBallot, manifestHash: Word, k: nat)
    requires 1 < ctx.grp.p && BallotIsValid(ctx, b, manifestHash, k)
    requires forall c :: c in b.contests ==> ContestVerifies(ctx, k, c)
    ensures Consistent(ctx.sha, b) && b.manifestHash == manifestHash
  {
    hide HashElems, Sorting.Sort, BallotChecks, ConstantIsValid, DisjunctiveIsValid, ElGamal.Accumulated;
    Sorting.SortSorts(CiphertextContestOrder, b.contests);
    forall i | 0 <= i < |b.contests| ensures ContestConsistent(ctx.sha, b.GetContests()[i]) {
      assert b.GetContests()[i] in multiset(b.contests);
      ContestVerifiesGives(ctx, b.GetContests()[i], k);
    }
  }

  lemma ContestVerifiesGives(ctx: Context, c: CiphertextContest, k: nat)
    requires 1 < ctx.grp.p && ContestVerifies(ctx, k, c)
    ensures ContestConsistent(ctx.sha, c)
  {
    hide HashElems, Sorting.Sort, ConstantIsValid, DisjunctiveIsValid, ElGamal.Accumulated;
    Sorting.SortSorts(CiphertextOrder, c.selections);
    forall j | 0 <= j < |c.selections|
      ensures c.GetSelections()[j].cryptoHash == HashElems(ctx.sha, ItemsOf(ctx.sha, c.GetSelections()[j]))
    {
      assert c.GetSelections()[j] in multiset(c.selections);
    }
  }

  /** What acceptance adds: the seed a selection is checked with is its description hash, and the hash is right. */
  lemma AcceptedSelectionsAgree(ctx: Context, s: CiphertextSelection, seed: Word, k: nat,
                                s': CiphertextSelection, seed': Word, k': nat)
    requires 1 < ctx.grp.p && SelectionIsValid(ctx, s, seed, k) && SelectionIsValid(ctx, s', seed', k')
    requires s.cryptoHash == s'.cryptoHash
    ensures seed == s.descriptionHash && seed' == s'.descriptionHash
    ensures (seed == seed' && s.ciphertext == s'.ciphertext) || SelectionsCollide(ctx.sha, s, s')
  {
    hide HashElems, SelectionsCollide, DisjunctiveIsValid, SamePrint;
    SelectionCommits(ctx.sha, s, s');
  }

  /**
   * Two contests accepted with one hash, of equally many selections that are accepted too, were checked with one
   * description hash and have the same ciphertexts and the same stored accumulation.
   */
  lemma AcceptedContestsAgree(ctx: Context, c: CiphertextContest, seed: Word, k: nat,
                              c': CiphertextContest, seed': Word, k': nat)
    requires 1 < ctx.grp.p && ContestIsValid(ctx, c, seed, k) && ContestIsValid(ctx, c', seed', k')
    requires ContestVerifies(ctx, k, c) && ContestVerifies(ctx, k', c')
    requires c.cryptoHash == c'.cryptoHash && |c.selections| == |c'.selections|
    ensures seed == c.descriptionHash && seed' == c'.descriptionHash
    ensures || (&& seed == seed' && SameCiphertexts(c, c')
                && c.ciphertextAccumulation == c'.ciphertextAccumulation)
            || ContestsCollide(ctx.sha, c, c')
  {
    hide HashElems, ContestsCollide, ConstantIsValid, SamePrint, Sorting.Sort, ElGamal.Accumulated, ContestVerifies,
         IdDelimiters, ContestConsistent;
    ContestVerifiesGives(ctx, c, k);
    ContestVerifiesGives(ctx, c', k');
    ContestCommits(ctx.sha, c, c');
    if SameCiphertexts(c, c') {
      assert Ciphertexts(c.GetSelections()) == Ciphertexts(c'.GetSelections());
    }
  }

  /** In an accepted contest of encryptions the stored accumulation encrypts the sum of what they encrypt. */
  lemma AcceptedContestAccumulates(ctx: Context, c: CiphertextContest, seed: Word, k: nat,
                                   ms: seq<int>, nonces: seq<int>)
    requires GoodContext(ctx, k) && ContestIsValid(ctx, c, seed, k) && |ms| == |nonces| == |c.selections|
    requires forall i :: 0 <= i < |ms| ==>
               ElGamal.Encrypts(ctx.grp, k, c.GetSelections()[i].ciphertext, ms[i], nonces[i])
    ensures ElGamal.Encrypts(ctx.grp, k, c.ciphertextAccumulation, ElementQ.Sum(ms), ElementQ.Sum(nonces))
  {
    hide HashElems, ConstantIsValid, Sorting.Sort, ElGamal.Accumulated, ElGamal.Encrypts;
    ElGamal.AccumulationIsHomomorphic(ctx.grp, k, Ciphertexts(c.GetSelections()), ms, nonces);
  }
}
