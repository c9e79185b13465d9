/** Deterministic nonces: src/electionguard/nonces.cpp. */
module NonceSequence {
  import opened ElementQ
  import opened Hashing
  import opened Hex

  /** The seed stored by the constructor with a header. */
  function SeedWith(sha: Sha, seed: Word, header: Item): (r: nat)
    ensures r < Q
  {
    HashElems(sha, [Element(seed), header])
  }

  /** The nonce at an index of a sequence. */
  function NonceAt(sha: Sha, storedSeed: nat, item: nat): (r: nat)
    ensures r < Q
  {
    HashElems(sha, [Element(storedSeed), Number(item)])
  }

  /** The fields hashed for a nonce, and for a stored seed. */
  function NonceTexts(sha: Sha, storedSeed: nat, item: nat): seq<string> {
    RenderAll(sha, [Element(storedSeed), Number(item)])
  }

  function SeedTexts(sha: Sha, seed: Word, header: Item): seq<string> {
    RenderAll(sha, [Element(seed), header])
  }

  /** A nonce determines the stored seed and the index it was derived from, unless the texts hashed collide. */
  lemma NonceBinds(sha: Sha, storedSeed: nat, item: nat, storedSeed': nat, item': nat)
    ensures NonceAt(sha, storedSeed, item) == NonceAt(sha, storedSeed', item') ==>
              || (storedSeed == storedSeed' && item == item')
              || Collide(sha, NonceTexts(sha, storedSeed, item), NonceTexts(sha, storedSeed', item'))
  {
    hide HashElems, RenderAll, Collide;
    if NonceAt(sha, storedSeed, item) == NonceAt(sha, storedSeed', item') {
      NumericItemsFixed(sha, [Element(storedSeed), Number(item)], [Element(storedSeed'), Number(item')]);
    }
  }

  /** A stored seed determines the seed it was made from and what the header prints, whatever that contains. */
  lemma SeedBinds(sha: Sha, seed: Word, header: Item, seed': Word, header': Item)
    ensures SeedWith(sha, seed, header) == SeedWith(sha, seed', header') ==>
              || (seed == seed' && Render(sha, header) == Render(sha, header'))
              || Collide(sha, SeedTexts(sha, seed, header), SeedTexts(sha, seed', header'))
  {
    hide Digest, Delimited, Render, ToHex, Collide;
    var xs, ys := SeedTexts(sha, seed, header), SeedTexts(sha, seed', header');
    EqualDigests(sha, xs, ys);
    if Delimited(xs) == Delimited(ys) {
      NumericClean(sha, Element(seed));
      NumericClean(sha, Element(seed'));
      assert xs == [xs[0]] + [xs[1]] && ys == [ys[0]] + [ys[1]];
      CleanFrontFixesFields([xs[0]], xs[1], [ys[0]], ys[1]);
      NumericFixed(sha, Element(seed), Element(seed'));
    }
  }

  class Nonces {
    const sha: Sha
    const seed: nat
    var nextItem: nat

    constructor (sha: Sha, seed: Word, header: Item)
      ensures this.sha == sha && this.seed == SeedWith(sha, seed, header) && nextItem == 0
    {
      this.sha, this.seed, this.nextItem := sha, SeedWith(sha, seed, header), 0;
    }

    method Get(item: nat) returns (r: nat)
      requires item < UINT64
      modifies this
      ensures r == NonceAt(sha, seed, item) && nextItem == (item + 1) % UINT64
    {
      nextItem := (item + 1) % UINT64;
      r := HashElemsStreaming(sha, [Element(seed), Number(item)]);
    }

    method Next() returns (r: nat)
      requires nextItem < UINT64
      modifies this
      ensures r == NonceAt(sha, seed, old(nextItem)) && nextItem == (old(nextItem) + 1) % UINT64
    {
      r := Get(nextItem);
    }

    /** A slice of the sequence; an end past 2^64 wraps, and then the slice is empty
     * and the counter stays. */
    method GetRange(startItem: nat, count: nat) returns (result: seq<nat>)
      requires startItem < UINT64 && count < UINT64
      modifies this
      ensures startItem + count < UINT64 ==> |result| == count
      ensures startItem + count >= UINT64 ==> result == []
      ensures forall j :: 0 <= j < |result| ==> result[j] == NonceAt(sha, seed, startItem + j)
      ensures nextItem == if result == [] then old(nextItem) else startItem + count
    {
      result := [];
      var endItem := (startItem + count) % UINT64;
      var i := startItem;
      while i < endItem
        invariant startItem <= i
        invariant startItem + count < UINT64 ==> i <= endItem
        invariant startItem + count >= UINT64 ==> endItem < startItem == i
        invariant |result| == i - startItem
        invariant nextItem == if result == [] then old(nextItem) else i
        invariant forall j :: 0 <= j < |result| ==> result[j] == NonceAt(sha, seed, startItem + j)
      {
        var nonce := Get(i);
        result := result + [nonce];
        i := i + 1;
      }
    }
  }
}
