/**
 * The chain of ballot codes: EncryptionMediator of src/electionguard/encrypt.cpp and src/electionguard/ballot_code.cpp.
 */
module BallotCodeChain {
  import opened ElementQ
  import opened Hashing
  import opened PrecomputeBuffers
  import opened Ballots
  import opened Plaintexts
  import opened ContestEncryption
  import opened BallotEncryption
  import opened CompactBallots
  import Hex
  import Manifests

  datatype Device = Device(deviceUuid: nat, sessionUuid: nat, launchCode: nat, location: string)

  function DeviceItems(device: Device): seq<Item> {
    [Number(device.deviceUuid), Number(device.sessionUuid), Number(device.launchCode), Text(device.location)]
  }

  /** BallotCode::getHashForDevice. */
  function DeviceHash(sha: Sha, device: Device): (r: nat)
    ensures r < Q
  {
    HashElems(sha, DeviceItems(device))
  }

  /** What a ballot contributes to the chain. */
  datatype Entry = Entry(timestamp: nat, ballotHash: nat)

  /** The code after a run: each code hashes the one before it. */
  function LastCode(sha: Sha, seed: Word, entries: seq<Entry>): (r: Word)
    ensures seed < Q ==> r < Q
  {
    if entries == [] then seed
    else
      var last := entries[|entries| - 1];
      BallotCode(sha, LastCode(sha, seed, entries[..|entries| - 1]), last.timestamp, last.ballotHash)
  }

  // -------------------------------------------------------------------- the mediator

  datatype Seed = NoSeed | Seed(value: Word)

  class EncryptionMediator {
    const election: Election
    const manifest: InternalManifest
    const device: Device
    var ballotCodeSeed: Seed

    /** The ballots encrypted so far. */
    ghost var history: seq<Entry>

    ghost predicate Valid()
      reads this
    {
      && 1 < election.ctx.grp.p
      && (forall c :: c in manifest.contests ==> Sized(c))
      && (ballotCodeSeed.NoSeed? ==> history == [])
      && (ballotCodeSeed.Seed? ==> ballotCodeSeed.value == CurrentCode())
    }

    /** The device hash before the first ballot, the last ballot's code afterwards. */
    ghost function CurrentCode(): Word
      reads this
    {
      LastCode(election.ctx.sha, DeviceHash(election.ctx.sha, device), history)
    }

    constructor (election: Election, manifest: InternalManifest, device: Device)
      requires 1 < election.ctx.grp.p && forall c :: c in manifest.contests ==> Sized(c)
      ensures Valid() && history == [] && ballotCodeSeed == NoSeed
      ensures this.election == election && this.manifest == manifest && this.device == device
    {
      this.election, this.manifest, this.device := election, manifest, device;
      ballotCodeSeed, history := NoSeed, [];
    }

    /** The first seed is the device hash. */
    method EnsureSeed() returns (seed: Word)
      requires Valid()
      modifies this`ballotCodeSeed
      ensures Valid() && seed == CurrentCode() && ballotCodeSeed == Seed(seed)
    {
      hide HashElems;
      if ballotCodeSeed.NoSeed? {
        ballotCodeSeed := Seed(HashElems(election.ctx.sha, DeviceItems(device)));
      }
      seed := ballotCodeSeed.value;
    }

    method Encrypt(ballot: PlaintextBallot, nonce: Word, now: Clock, verify: bool, buffers: PrecomputeBufferContext)
        returns (r: Result<CiphertextBallot>, ghost draws: seq<ContestDraws>)
      requires Valid()
      modifies this, buffers`tripleQueue, buffers`bundleQueue
      ensures Valid()
      ensures AllFit(DescriptionsOf(manifest, ballot), draws)
      ensures r == EncryptedBallot(election, manifest, ballot, nonce, old(CurrentCode()), now, now, verify, draws)
      ensures r.Ok? ==> && history == old(history) + [Entry(now, r.value.cryptoHash)]
                        && ballotCodeSeed == Seed(r.value.ballotCode)
      ensures r.Err? ==> history == old(history) && ballotCodeSeed == Seed(old(CurrentCode()))
    {
      hide EncryptedBallot, HashElems, Sized, LastCode, BallotDrawn, AllFit;
      var seed := EnsureSeed();
      r, draws := EncryptBallot(election, ballot, manifest, seed, nonce, now, now, verify, buffers);
      if r.Ok? {
        MadeCode(election, manifest, ballot, nonce, seed, now, now, verify, draws);
        CodeStep(election.ctx.sha, DeviceHash(election.ctx.sha, device), history, Entry(now, r.value.cryptoHash));
        history := history + [Entry(now, r.value.cryptoHash)];
        ballotCodeSeed := Seed(r.value.ballotCode);
      }
    }

    /** As encrypt, after normalising the ballot. */
    method CompactEncrypt(ballot: PlaintextBallot, nonce: Word, now: Clock, verify: bool,
                          buffers: PrecomputeBufferContext)
        returns (r: Result<CompactCiphertextBallot>, ghost draws: seq<ContestDraws>)
      requires Valid()
      modifies this, buffers`tripleQueue, buffers`bundleQueue
      ensures Valid()
      ensures AllFit(DescriptionsOf(manifest, ballot), draws)
      ensures r == CompactEncrypted(election, manifest, ballot, nonce, old(CurrentCode()), now, now, verify, draws)
      ensures r.Ok? ==>
                var encrypted := EncryptedBallot(election, manifest, NormalisedBallot(ballot, manifest).value, nonce,
                                                 old(CurrentCode()), now, now, verify, draws);
                && encrypted.Ok? && history == old(history) + [Entry(now, encrypted.value.cryptoHash)]
                && r.value.timestamp == now && r.value.ballotCodeSeed == old(CurrentCode())
                && ballotCodeSeed == Seed(r.value.ballotCode)
      ensures r.Err? ==> history == old(history) && ballotCodeSeed == Seed(old(CurrentCode()))
    {
      hide EncryptedBallot, HashElems, Sized, LastCode, BallotDrawn, AllFit, Compressed;
      var seed := EnsureSeed();
      r, draws := EncryptCompactBallot(election, ballot, manifest, seed, nonce, now, now, verify, buffers);
      if r.Ok? {
        ghost var normalised := NormalisedBallot(ballot, manifest).value;
        ghost var made := EncryptedBallot(election, manifest, normalised, nonce, seed, now, now, verify, draws).value;
        MadeCode(election, manifest, normalised, nonce, seed, now, now, verify, draws);
        CodeStep(election.ctx.sha, DeviceHash(election.ctx.sha, device), history, Entry(now, made.cryptoHash));
        history := history + [Entry(now, made.cryptoHash)];
        ballotCodeSeed := Seed(r.value.ballotCode);
      }
    }
  }

  /** The constructor's check compares the printed hashes. */
  method MakeMediator(election: Election, manifest: InternalManifest, contextManifestHash: Word, device: Device)
      returns (r: Result<EncryptionMediator>)
    requires 1 < election.ctx.grp.p && forall c :: c in manifest.contests ==> Sized(c)
    ensures r.Ok? <==> manifest.manifestHash == contextManifestHash
    ensures r.Ok? ==> fresh(r.value) && r.value.Valid() && r.value.history == []
  {
    hide Sized;
    Hex.ToHexInjective(manifest.manifestHash, contextManifestHash);
    if Hex.ToHex(manifest.manifestHash) != Hex.ToHex(contextManifestHash) {
      return Err("manifest and context do not match hashes");
    }
    var mediator := new EncryptionMediator(election, manifest, device);
    r := Ok(mediator);
  }

  lemma MadeCode(e: Election, manifest: InternalManifest, ballot: PlaintextBallot, nonce: Word, codeSeed: Word,
                 timestamp: nat, now: Clock, verify: bool, draws: seq<ContestDraws>)
    requires 1 < e.ctx.grp.p && AllFit(DescriptionsOf(manifest, ballot), draws)
    ensures var r := EncryptedBallot(e, manifest, ballot, nonce, codeSeed, timestamp, now, verify, draws);
            r.Ok? ==> && r.value.ballotCodeSeed == codeSeed
                      && r.value.timestamp == (if timestamp == 0 then now else timestamp)
                      && r.value.ballotCode == BallotCode(e.ctx.sha, codeSeed, r.value.timestamp, r.value.cryptoHash)
  {
    hide AllFit, ContestsOf, BallotIsValid, HashElems, Manifests.ContestsFor;
  }

  lemma CodeStep(sha: Sha, seed: Word, entries: seq<Entry>, entry: Entry)
    ensures LastCode(sha, seed, entries + [entry])
            == BallotCode(sha, LastCode(sha, seed, entries), entry.timestamp, entry.ballotHash)
  {
    hide HashElems;
    assert (entries + [entry])[..|entries|] == entries;
  }

  // ------------------------------------------------------- the last code fixes the run

  /** The texts hashed for the i-th code of a run. */
  function HashedAt(sha: Sha, seed: Word, entries: seq<Entry>, i: nat): seq<string>
    requires i < |entries|
  {
    RenderAll(sha, [Element(LastCode(sha, seed, entries[..i])), Number(entries[i].timestamp),
                    Element(entries[i].ballotHash)])
  }

  /** The texts hashed for a code determine the previous code, the timestamp and the ballot hash. */
  lemma CodeTextsInjective(sha: Sha, seed: nat, timestamp: nat, hash: nat, seed': nat, timestamp': nat, hash': nat)
    requires var xs := RenderAll(sha, [Element(seed), Number(timestamp), Element(hash)]);
             var ys := RenderAll(sha, [Element(seed'), Number(timestamp'), Element(hash')]);
             Delimited(xs) == Delimited(ys)
    ensures seed == seed' && timestamp == timestamp' && hash == hash'
  {
    hide Digest, Delimited, Clean, Decimal;
    var items := [Element(seed), Number(timestamp), Element(hash)];
    var items' := [Element(seed'), Number(timestamp'), Element(hash')];
    var xs, ys := RenderAll(sha, items), RenderAll(sha, items');
    forall i | 0 <= i < 3 ensures Clean(xs[i]) && Clean(ys[i]) {
      assert xs[i] == Render(sha, items[i]) && ys[i] == Render(sha, items'[i]);
      HexClean(seed);
      HexClean(hash);
      HexClean(seed');
      HexClean(hash');
      NumberInjective(sha, timestamp, timestamp');
      NumberInjective(sha, timestamp', timestamp);
    }
    DelimitedInjective(xs, ys);
    assert forall i :: 0 <= i < 3 ==> Render(sha, items[i]) == Render(sha, items'[i]) by {
      assert forall i :: 0 <= i < 3 ==> xs[i] == Render(sha, items[i]) && ys[i] == Render(sha, items'[i]);
    }
    assert Render(sha, items[0]) == Hex.ToHex(seed) && Render(sha, items'[0]) == Hex.ToHex(seed');
    assert Render(sha, items[2]) == Hex.ToHex(hash) && Render(sha, items'[2]) == Hex.ToHex(hash');
    Hex.ToHexInjective(seed, seed');
    Hex.ToHexInjective(hash, hash');
    NumberInjective(sha, timestamp, timestamp');
  }

  /**
   * For two runs of the same length that end in the same code: either the runs began with the same seed and every
   * timestamp and ballot hash agrees, or two texts hashed in the course of these very runs are a collision.
   */
  lemma {:induction false} LastCodeDeterminesRun(sha: Sha, seed: Word, entries: seq<Entry>, seed': Word,
                                                 entries': seq<Entry>)
    requires |entries| == |entries'| && LastCode(sha, seed, entries) == LastCode(sha, seed', entries')
    ensures || (seed == seed' && entries == entries')
            || exists i ::
                 0 <= i < |entries| && Collide(sha, HashedAt(sha, seed, entries, i), HashedAt(sha, seed', entries', i))
  {
    hide Digest, Delimited, RenderAll;
    if entries == [] {
    } else {
      var n := |entries| - 1;
      var last, last' := entries[n], entries'[n];
      var xs, ys := HashedAt(sha, seed, entries, n), HashedAt(sha, seed', entries', n);
      assert Digest(sha, xs) == Digest(sha, ys);
      EqualDigests(sha, xs, ys);
      if Delimited(xs) == Delimited(ys) {
        CodeTextsInjective(sha, LastCode(sha, seed, entries[..n]), last.timestamp, last.ballotHash,
                           LastCode(sha, seed', entries'[..n]), last'.timestamp, last'.ballotHash);
        LastCodeDeterminesRun(sha, seed, entries[..n], seed', entries'[..n]);
        assert entries == entries[..n] + [last] && entries' == entries'[..n] + [last'];
        if i :| 0 <= i < n && Collide(sha, HashedAt(sha, seed, entries[..n], i),
                                      HashedAt(sha, seed', entries'[..n], i)) {
          assert entries[..n][..i] == entries[..i] && entries'[..n][..i] == entries'[..i];
          assert Collide(sha, HashedAt(sha, seed, entries, i), HashedAt(sha, seed', entries', i));
        }
      } else {
        assert Collide(sha, xs, ys);
      }
    }
  }

  /** The device hash determines the device, up to a collision; an empty location prints like the location "null". */
  lemma DeviceHashDeterminesDevice(sha: Sha, device: Device, device': Device)
    requires DeviceHash(sha, device) == DeviceHash(sha, device')
    ensures || (&& Render(sha, Text(device.location)) == Render(sha, Text(device'.location))
                && device == device'.(location := device.location))
            || Collide(sha, RenderAll(sha, DeviceItems(device)), RenderAll(sha, DeviceItems(device')))
  {
    hide Digest, Delimited, Decimal, RenderAll, Collide;
    var xs, ys := RenderAll(sha, DeviceItems(device)), RenderAll(sha, DeviceItems(device'));
    EqualDigests(sha, xs, ys);
    if Delimited(xs) == Delimited(ys) {
      NumberInjective(sha, device.deviceUuid, device'.deviceUuid);
      NumberInjective(sha, device.sessionUuid, device'.sessionUuid);
      NumberInjective(sha, device.launchCode, device'.launchCode);
      NumberInjective(sha, device'.deviceUuid, device.deviceUuid);
      NumberInjective(sha, device'.sessionUuid, device.sessionUuid);
      NumberInjective(sha, device'.launchCode, device.launchCode);
      forall i | 0 <= i < 4
        ensures xs[i] == Render(sha, DeviceItems(device)[i]) && ys[i] == Render(sha, DeviceItems(device')[i])
      {
      }
      assert xs == xs[..3] + [xs[3]] && ys == ys[..3] + [ys[3]];
      CleanFrontFixesFields(xs[..3], xs[3], ys[..3], ys[3]);
      assert xs[0] == xs[..3][0] && xs[1] == xs[..3][1] && xs[2] == xs[..3][2];
      assert ys[0] == ys[..3][0] && ys[1] == ys[..3][1] && ys[2] == ys[..3][2];
    }
  }
}
