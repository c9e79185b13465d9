/** Hashed ElGamal for byte strings: src/electionguard/elgamal.cpp and hmac.cpp. */
module HashedElGamal {
  import opened Arith
  import opened Bits
  import opened ModGroup
  import opened ElementQ
  import opened ElementP
  import opened Hashing
  import opened Hex
  import opened Precomputed
  import opened PrecomputeBuffers

  type Bytes = seq<Byte>

  type Block = b: Bytes | |b| == 32 witness seq(32, i => 0)

  /** HMAC-SHA-256 as an arbitrary function of key and message. */
  type Hmac = (Bytes, Bytes) -> Block

  datatype Env = Env(grp: Group, sha: Sha, hmac: Hmac)

  datatype HashedCiphertext = HashedCiphertext(pad: nat, data: Bytes, mac: Bytes)

  /** padded_data_size_t: no padding, or a 512-byte buffer of which two bytes hold the padding length. */
  datatype PaddedSize = NoPadding | Bytes512

  const BLOCK: nat := 32
  const MAX_LEN: nat := 510

  function ToBytes(n: nat, size: nat): Bytes {
    BigEndian(n, size)
  }

  function XorByte(x: Byte, y: Byte): Byte {
    BitOpBelow(XOR, x, y, 8);
    assert Pow(2, 8) == 256;
    BitOp(XOR, x, y, 8)
  }

  function LittleEndian32(n: nat): Bytes
    requires n < UINT32
  {
    LittleEndian(n, 4)
  }

  /** get_hmac: the counter and the length in bits frame the message unless the length is zero. */
  function GetHmac(env: Env, key: Bytes, message: Bytes, length: nat, start: nat): Block
    requires length < UINT32 && start < UINT32
  {
    env.hmac(key, if length > 0 then LittleEndian32(start) + message + LittleEndian32(length) else message)
  }

  // ------------------------------------------------------------- specification

  function SessionKey(env: Env, gToR: nat, kToR: nat): Bytes {
    ToBytes(HashElems(env.sha, [Element(gToR), Element(kToR)]), 32)
  }

  /** The 32-bit count of bits in all blocks, with its wrap-around. */
  function BitLength(blocks: nat): (r: nat)
    ensures r < UINT32
  {
    blocks * 256 % UINT32
  }

  function KeyBlock(env: Env, session: Bytes, seed: nat, blocks: nat, i: nat): Block {
    GetHmac(env, session, ToBytes(seed, 32), BitLength(blocks), i % UINT32)
  }

  /** XOR of the first `blocks` blocks with the key blocks numbered from one. */
  function Masked(env: Env, session: Bytes, seed: nat, blocks: nat, data: Bytes): (r: Bytes)
    requires BLOCK * blocks <= |data|
    ensures |r| == BLOCK * blocks
  {
    seq(BLOCK * blocks, j requires 0 <= j < BLOCK * blocks =>
      XorByte(data[j], KeyBlock(env, session, seed, blocks, j / BLOCK + 1)[j % BLOCK]))
  }

  function Mac(env: Env, session: Bytes, seed: nat, blocks: nat, pad: nat, data: Bytes): Bytes {
    GetHmac(env, KeyBlock(env, session, seed, blocks, 0), ToBytes(pad, 512) + data, 0, 0)
  }

  function Zeros(n: nat): (r: Bytes)
    ensures |r| == n && forall j :: 0 <= j < n ==> r[j] == 0
  {
    seq(n, i => 0)
  }

  /** The bytes that are masked: padding length, text, zero bytes; or the text alone. */
  function OnBoundary(message: Bytes, size: PaddedSize, allowTruncation: bool): Result<Bytes> {
    match size
    case Bytes512 =>
      if |message| <= MAX_LEN then
        Ok(PadLength(MAX_LEN - |message|) + message + Zeros(MAX_LEN - |message|))
      else if allowTruncation then Ok(PadLength(0) + message[..MAX_LEN])
      else Err("the plaintext is greater than max_len")
    case NoPadding =>
      if |message| % BLOCK == 0 then Ok(message) else Err("the plaintext is not a multiple of the block length")
  }

  function PadLength(n: nat): (r: Bytes)
    requires n <= MAX_LEN
    ensures |r| == 2
  {
    [n / 256, n % 256]
  }

  function HashedEncryption(env: Env, message: Bytes, gToR: nat, kToR: nat, seed: nat,
                            size: PaddedSize, allowTruncation: bool): Result<HashedCiphertext>
  {
    var text := OnBoundary(message, size, allowTruncation);
    if text.Err? then Err(text.reason)
    else
      var blocks := |text.value| % UINT32 / BLOCK;
      var session := SessionKey(env, gToR, kToR);
      var data := Masked(env, session, seed, blocks, text.value);
      Ok(HashedCiphertext(gToR, data, Mac(env, session, seed, blocks, gToR, data)))
  }

  /** Reads the padding length and checks that the padding consists of zero bytes. */
  function Unpadded(text: Bytes): Result<Bytes>
    requires |text| >= 2
  {
    var padLength: int := (text[0] as int) * 256 + text[1];
    if padLength > |text| - 2 then Err("the padding is incorrect")
    else if exists i :: |text| - padLength <= i < |text| && text[i] != 0 then Err("the padding is incorrect")
    else Ok(text[2..|text| - padLength])
  }

  function HashedDecryption(env: Env, c: HashedCiphertext, secret: Word, seed: nat, lookForPadding: bool): Result<Bytes>
    requires 1 < env.grp.p
  {
    var length := |c.data| % UINT32;
    var blocks := length / BLOCK;
    if length % BLOCK != 0 || length == 0 then Err("the ciphertext is not a multiple of the block length 32")
    else
      var session := SessionKey(env, c.pad, PowModP(env.grp, c.pad, secret));
      if c.mac != Mac(env, session, seed, blocks, c.pad, c.data)
      then Err("the calculated mac didn't match the passed in mac")
      else
        var text := Masked(env, session, seed, blocks, c.data);
        if lookForPadding then Unpadded(text) else Ok(text)
  }

  // ------------------------------------------------------------- the key stream

  lemma XorByteGivesKey(x: Byte, y: Byte)
    ensures XorByte(x, XorByte(x, y)) == y
  {
    assert Pow(2, 8) == 256;
    XorGivesMask(x, y, 8);
  }

  /** Text and data together show the key block of every position, and nothing else masks the text. */
  predicate MaskedBy(env: Env, session: Bytes, seed: nat, text: Bytes, data: Bytes) {
    var blocks := |text| % UINT32 / BLOCK;
    && |data| == BLOCK * blocks <= |text|
    && forall j :: 0 <= j < |data| ==>
         XorByte(text[j], data[j]) == KeyBlock(env, session, seed, blocks, j / BLOCK + 1)[j % BLOCK]
  }

  lemma MaskedIsMaskedBy(env: Env, session: Bytes, seed: nat, text: Bytes)
    ensures MaskedBy(env, session, seed, text, Masked(env, session, seed, |text| % UINT32 / BLOCK, text))
  {
    hide KeyBlock, XorByte;
    var blocks := |text| % UINT32 / BLOCK;
    var data := Masked(env, session, seed, blocks, text);
    forall j | 0 <= j < |data|
      ensures XorByte(text[j], data[j]) == KeyBlock(env, session, seed, blocks, j / BLOCK + 1)[j % BLOCK]
    {
      XorByteGivesKey(text[j], KeyBlock(env, session, seed, blocks, j / BLOCK + 1)[j % BLOCK]);
    }
  }

  /** Two different inputs of HMAC with one value. */
  predicate HmacCollide(hmac: Hmac, key: Bytes, message: Bytes, key': Bytes, message': Bytes) {
    (key, message) != (key', message') && hmac(key, message) == hmac(key', message')
  }

  /** The framed message of a key block: counter, seed, length in bits. */
  function CounterText(seed: Word, bits: nat, counter: nat): Bytes
    requires bits < UINT32 && counter < UINT32
  {
    LittleEndian(counter, 4) + BigEndian(seed, 32) + LittleEndian(bits, 4)
  }

  lemma CounterTextInjective(seed: Word, bits: nat, counter: nat, seed': Word, bits': nat, counter': nat)
    requires bits < UINT32 && counter < UINT32 && bits' < UINT32 && counter' < UINT32
    requires CounterText(seed, bits, counter) == CounterText(seed', bits', counter')
    ensures seed == seed' && bits == bits' && counter == counter'
  {
    hide BigEndian, LittleEndian;
    var s, t := CounterText(seed, bits, counter), CounterText(seed', bits', counter');
    SeedBytes(seed);
    SeedBytes(seed');
    FourBytes(bits);
    FourBytes(bits');
    FourBytes(counter);
    FourBytes(counter');
    assert LittleEndian(counter, 4) == s[..4] && LittleEndian(counter', 4) == t[..4];
    assert BigEndian(seed, 32) == s[4..36] && BigEndian(seed', 32) == t[4..36];
    assert LittleEndian(bits, 4) == s[36..] && LittleEndian(bits', 4) == t[36..];
  }

  lemma FourBytes(n: nat)
    requires n < UINT32
    ensures |LittleEndian(n, 4)| == 4 && LittleValue(LittleEndian(n, 4)) == n
  {
    LittleEndianSize(n, 4);
    assert Pow(256, 4) == UINT32;
    PartialCopy(n, 4, 4, []);
    assert LittleEndian(n, 4)[..4] + [] == LittleEndian(n, 4);
  }

  lemma SeedBytes(n: Word)
    ensures |BigEndian(n, 32)| == 32 && Value(BigEndian(n, 32)) == n
  {
    assert Pow(256, 8) == 0x1_00000000_00000000;
    PowAdd(256, 8, 8);
    PowAdd(256, 16, 16);
    BigEndianValue(n, 32);
  }

  /**
   * A key block determines session key, seed, length and counter, or two different inputs of HMAC have one value: no
   * two blocks of a message are masked alike. This holds as long as the length in bits is not zero modulo 2^32.
   */
  lemma KeyBlockBinds(env: Env, session: Bytes, seed: Word, blocks: nat, i: nat,
                      session': Bytes, seed': Word, blocks': nat, i': nat)
    requires BitLength(blocks) > 0 && BitLength(blocks') > 0 && i < UINT32 && i' < UINT32
    ensures KeyBlock(env, session, seed, blocks, i) == KeyBlock(env, session', seed', blocks', i') ==>
              || (session == session' && seed == seed' && BitLength(blocks) == BitLength(blocks') && i == i')
              || HmacCollide(env.hmac, session, CounterText(seed, BitLength(blocks), i),
                             session', CounterText(seed', BitLength(blocks'), i'))
  {
    hide BigEndian, LittleEndian, BitLength;
    var bits, bits' := BitLength(blocks), BitLength(blocks');
    ModIs(i, 0, i, UINT32);
    ModIs(i', 0, i', UINT32);
    if CounterText(seed, bits, i) == CounterText(seed', bits', i') {
      CounterTextInjective(seed, bits, i, seed', bits', i');
    }
  }

  /**
   * Below 2^24 blocks the length counts eight bits a byte. It wraps to zero for multiples of 2^24 blocks, and then all
   * blocks are masked alike.
   */
  lemma LengthWraps(env: Env, session: Bytes, seed: Word, blocks: nat, i: nat, i': nat)
    ensures blocks < 0x100_0000 ==> BitLength(blocks) == 8 * (BLOCK * blocks)
    ensures BitLength(blocks) == 0 <==> blocks % 0x100_0000 == 0
    ensures BitLength(blocks) == 0 ==>
            KeyBlock(env, session, seed, blocks, i) == KeyBlock(env, session, seed, blocks, i')
  {
  }

  /** The session key determines g^r and K^r, unless the two texts hashed collide. */
  lemma SessionKeyBinds(env: Env, gToR: nat, kToR: nat, gToR': nat, kToR': nat)
    ensures SessionKey(env, gToR, kToR) == SessionKey(env, gToR', kToR') ==>
              || (gToR == gToR' && kToR == kToR')
              || Collide(env.sha, RenderAll(env.sha, [Element(gToR), Element(kToR)]),
                         RenderAll(env.sha, [Element(gToR'), Element(kToR')]))
  {
    hide HashElems, BigEndian, RenderAll, Collide;
    SeedBytes(HashElems(env.sha, [Element(gToR), Element(kToR)]));
    SeedBytes(HashElems(env.sha, [Element(gToR'), Element(kToR')]));
    if SessionKey(env, gToR, kToR) == SessionKey(env, gToR', kToR') {
      NumericItemsFixed(env.sha, [Element(gToR), Element(kToR)], [Element(gToR'), Element(kToR')]);
    }
  }

  /** The MAC determines its key, the pad and the data, or two different inputs of HMAC have one value. */
  lemma MacBinds(env: Env, session: Bytes, seed: nat, blocks: nat, pad: nat, data: Bytes,
                 session': Bytes, seed': nat, blocks': nat, pad': nat, data': Bytes)
    requires pad < Pow(256, 512) && pad' < Pow(256, 512)
    ensures Mac(env, session, seed, blocks, pad, data) == Mac(env, session', seed', blocks', pad', data') ==>
              || (pad == pad' && data == data'
                  && KeyBlock(env, session, seed, blocks, 0) == KeyBlock(env, session', seed', blocks', 0))
              || HmacCollide(env.hmac, KeyBlock(env, session, seed, blocks, 0), BigEndian(pad, 512) + data,
                             KeyBlock(env, session', seed', blocks', 0), BigEndian(pad', 512) + data')
  {
    hide BigEndian, KeyBlock, Pow, Value;
    BigEndianValue(pad, 512);
    BigEndianValue(pad', 512);
    var s, t := BigEndian(pad, 512) + data, BigEndian(pad', 512) + data';
    if s == t {
      assert BigEndian(pad, 512) == s[..512] && BigEndian(pad', 512) == t[..512];
      assert data == s[512..] && data' == t[512..];
    }
  }

  // ------------------------------------------------------------------ the code

  /** XORs one block after the other, as both loops of the source do. */
  method MaskBlocks(env: Env, session: Bytes, seed: nat, blocks: nat, data: Bytes) returns (result: Bytes)
    requires BLOCK * blocks <= |data|
    ensures result == Masked(env, session, seed, blocks, data)
  {
    result := [];
    var index := 0;
    ghost var all := Masked(env, session, seed, blocks, data);
    for i := 0 to blocks
      invariant index == BLOCK * i && |result| == index && result == all[..index]
    {
      var xorKey := KeyBlock(env, session, seed, blocks, i + 1);
      var block: Bytes := [];
      for j := 0 to BLOCK
        invariant index == BLOCK * i + j && |block| == j && result + block == all[..index]
      {
        assert index < BLOCK * blocks;
        assert index / BLOCK == i && index % BLOCK == j;
        block := block + [XorByte(data[index], xorKey[j])];
        index := index + 1;
      }
      result := result + block;
    }
  }

  method PadToBoundary(message: Bytes, size: PaddedSize, allowTruncation: bool) returns (r: Result<Bytes>)
    ensures r == OnBoundary(message, size, allowTruncation)
  {
    var plaintextOnBoundary := [];
    match size {
      case Bytes512 =>
        if allowTruncation && |message| > MAX_LEN {
          plaintextOnBoundary := plaintextOnBoundary + PadLength(0);
          plaintextOnBoundary := plaintextOnBoundary + message[..MAX_LEN];
          assert plaintextOnBoundary == PadLength(0) + message[..MAX_LEN];
        } else {
          if |message| > MAX_LEN {
            return Err("the plaintext is greater than max_len");
          }
          var padLen := MAX_LEN - |message|;
          plaintextOnBoundary := plaintextOnBoundary + PadLength(padLen);
          plaintextOnBoundary := plaintextOnBoundary + message;
          if padLen > 0 {
            plaintextOnBoundary := plaintextOnBoundary + Zeros(padLen);
          }
          assert plaintextOnBoundary == PadLength(padLen) + message + Zeros(padLen);
        }
      case NoPadding =>
        if |message| % BLOCK != 0 {
          return Err("the plaintext is not a multiple of the block length");
        }
        plaintextOnBoundary := plaintextOnBoundary + message;
        assert plaintextOnBoundary == message;
    }
    return Ok(plaintextOnBoundary);
  }

  method HashedElGamalEncrypt(env: Env, message: Bytes, nonce: Word, publicKey: nat, seed: nat, size: PaddedSize,
                              allowTruncation: bool, buffers: PrecomputeBufferContext)
      returns (r: Result<HashedCiphertext>, ghost used: Triple)
    requires 1 < env.grp.p
    modifies buffers`tripleQueue
    ensures r == HashedEncryption(env, message, used.gToExp, used.pubkeyToExp, seed, size, allowTruncation)
    ensures r.Err? || old(buffers.tripleQueue) == [] ==>
              used == GenerateTriple(env.grp, publicKey, nonce) && buffers.tripleQueue == old(buffers.tripleQueue)
    ensures r.Ok? && old(buffers.tripleQueue) != [] ==> old(buffers.tripleQueue) == [used] + buffers.tripleQueue
    ensures r.Ok? ==> r.value.pad == used.gToExp
                      && MaskedBy(env, SessionKey(env, used.gToExp, used.pubkeyToExp), seed,
                                  OnBoundary(message, size, allowTruncation).value, r.value.data)
  {
    hide Masked, Mac, SessionKey, PowModPWide, MaskedBy;
    used := GenerateTriple(env.grp, publicKey, nonce);
    var plaintext := PadToBoundary(message, size, allowTruncation);
    if plaintext.Err? {
      return Err(plaintext.reason), used;
    }
    var plaintextOnBoundary := plaintext.value;
    var numberOfBlocks := |plaintextOnBoundary| % UINT32 / BLOCK;
    var gToR, publicKeyToR;
    var triple := buffers.GetTriple();
    if triple.Ok? {
      gToR, publicKeyToR := triple.value.gToExp, triple.value.pubkeyToExp;
      used := triple.value;
    } else {
      gToR, publicKeyToR := PowModP(env.grp, env.grp.g, nonce), PowModP(env.grp, publicKey, nonce);
    }
    var session := SessionKey(env, gToR, publicKeyToR);
    var ciphertext := MaskBlocks(env, session, seed, numberOfBlocks, plaintextOnBoundary);
    var mac := Mac(env, session, seed, numberOfBlocks, gToR, ciphertext);
    MaskedIsMaskedBy(env, session, seed, plaintextOnBoundary);
    r := Ok(HashedCiphertext(gToR, ciphertext, mac));
  }

  method Decrypt(env: Env, c: HashedCiphertext, secret: Word, seed: nat, lookForPadding: bool)
      returns (r: Result<Bytes>)
    requires 1 < env.grp.p
    ensures r == HashedDecryption(env, c, secret, seed, lookForPadding)
  {
    hide Masked, Mac, SessionKey, PowModPWide;
    var length := |c.data| % UINT32;
    var numberOfBlocks := length / BLOCK;
    if length % BLOCK != 0 || length == 0 {
      return Err("the ciphertext is not a multiple of the block length 32");
    }
    var session := SessionKey(env, c.pad, PowModP(env.grp, c.pad, secret));
    if c.mac != Mac(env, session, seed, numberOfBlocks, c.pad, c.data) {
      return Err("the calculated mac didn't match the passed in mac");
    }
    var text := MaskBlocks(env, session, seed, numberOfBlocks, c.data);
    if !lookForPadding {
      return Ok(text);
    }
    var padLen: int := (text[0] as int) * 256 + text[1];
    if padLen > |text| - 2 {
      return Err("the padding is incorrect");
    }
    for i := 1 to padLen + 1
      invariant forall j :: |text| - i < j < |text| ==> text[j] == 0
    {
      if text[|text| - i] != 0 {
        return Err("the padding is incorrect");
      }
    }
    r := Ok(text[2..|text| - padLen]);
  }

  // ---------------------------------------------------------------- round trip

  lemma XorByteTwice(x: Byte, y: Byte)
    ensures XorByte(XorByte(x, y), y) == x
  {
    assert Pow(2, 8) == 256;
    XorTwice(x, y, 8);
  }

  /** Masking twice with the same keys gives the bytes back. */
  lemma MaskedTwice(env: Env, session: Bytes, seed: nat, blocks: nat, data: Bytes)
    requires BLOCK * blocks <= |data|
    ensures Masked(env, session, seed, blocks, Masked(env, session, seed, blocks, data)) == data[..BLOCK * blocks]
  {
    hide KeyBlock, XorByte;
    var once := Masked(env, session, seed, blocks, data);
    forall j | 0 <= j < BLOCK * blocks
      ensures Masked(env, session, seed, blocks, once)[j] == data[j]
    {
      XorByteTwice(data[j], KeyBlock(env, session, seed, blocks, j / BLOCK + 1)[j % BLOCK]);
    }
  }

  /** The receiver's pad^s is the sender's K^r. */
  lemma SharedSecret(grp: Group, secret: Word, r: Word)
    requires Standard(grp)
    ensures PowModP(grp, PowModP(grp, grp.g, r), secret) == PowModP(grp, grp.Exp(grp.g, secret), r)
  {
    hide Group.Exp, PowModPWide, Standard, Group.IsResidue;
    StandardGives(grp);
    PowModPIsExp(grp, grp.g, r);
    grp.ExpExp(grp.g, r, secret);
    grp.ExpExp(grp.g, secret, r);
    PowModPIsExp(grp, grp.Exp(grp.g, r), secret);
    PowModPIsExp(grp, grp.Exp(grp.g, secret), r);
    assert r * secret == secret * r;
  }

  lemma PadLengthRead(n: nat)
    requires n <= MAX_LEN
    ensures (PadLength(n)[0] as int) * 256 + PadLength(n)[1] == n
  {
  }

  /** What decryption returns for each kind of message. */
  function Recovered(message: Bytes, size: PaddedSize): Bytes {
    if size == Bytes512 && |message| > MAX_LEN then message[..MAX_LEN] else message
  }

  lemma UnpaddedText(message: Bytes, allowTruncation: bool)
    requires |message| <= MAX_LEN || allowTruncation
    ensures OnBoundary(message, Bytes512, allowTruncation).Ok?
    ensures |OnBoundary(message, Bytes512, allowTruncation).value| == 512
    ensures Unpadded(OnBoundary(message, Bytes512, allowTruncation).value) == Ok(Recovered(message, Bytes512))
  {
    var text := OnBoundary(message, Bytes512, allowTruncation).value;
    if |message| <= MAX_LEN {
      var n := MAX_LEN - |message|;
      PadLengthRead(n);
      assert text[0] == PadLength(n)[0] && text[1] == PadLength(n)[1];
      assert text[2..|text| - n] == message;
    } else {
      PadLengthRead(0);
      assert text == PadLength(0) + message[..MAX_LEN];
      assert text[0] == PadLength(0)[0] && text[1] == PadLength(0)[1];
      assert text[2..|text| - 0] == message[..MAX_LEN];
    }
  }

  /** The encryption under the nonce r for the key K = g^secret. */
  function Sealed(env: Env, secret: Word, r: Word, message: Bytes, seed: nat, size: PaddedSize,
                  allowTruncation: bool): Result<HashedCiphertext>
    requires 1 < env.grp.p && 0 < env.grp.q
  {
    HashedEncryption(env, message, PowModP(env.grp, env.grp.g, r), PowModP(env.grp, env.grp.Exp(env.grp.g, secret), r),
                     seed, size, allowTruncation)
  }

  /** What the receiver makes of the text, of which 32-bit lengths only show the first part. */
  function Opened(text: Bytes, lookForPadding: bool): Result<Bytes> {
    var read := text[..|text| % UINT32];
    if lookForPadding && |read| >= 2 then Unpadded(read) else Ok(read)
  }

  /** Encrypting to K = g^s and decrypting with s gives back the masked text. */
  lemma MaskedRoundTrip(env: Env, secret: Word, r: Word, message: Bytes, seed: nat, size: PaddedSize,
                        allowTruncation: bool, lookForPadding: bool)
    requires Standard(env.grp) && OnBoundary(message, size, allowTruncation).Ok?
    requires 0 < |OnBoundary(message, size, allowTruncation).value| % UINT32
    requires |OnBoundary(message, size, allowTruncation).value| % BLOCK == 0
    ensures var c := Sealed(env, secret, r, message, seed, size, allowTruncation);
            && c.Ok?
            && HashedDecryption(env, c.value, secret, seed, lookForPadding)
               == Opened(OnBoundary(message, size, allowTruncation).value, lookForPadding)
  {
    hide PowModPWide, Group.Exp, Masked, Mac, SessionKey, Standard, Unpadded, OnBoundary;
    StandardGives(env.grp);
    var k := env.grp.Exp(env.grp.g, secret);
    var session := SessionKey(env, PowModP(env.grp, env.grp.g, r), PowModP(env.grp, k, r));
    SharedSecret(env.grp, secret, r);
    var text := OnBoundary(message, size, allowTruncation).value;
    BlocksOf(|text|);
    MaskedTwice(env, session, seed, |text| % UINT32 / BLOCK, text);
  }

  lemma BlocksOf(n: nat)
    requires n % BLOCK == 0
    ensures BLOCK * (n % UINT32 / BLOCK) == n % UINT32 <= n
    ensures n % UINT32 % BLOCK == 0 && n % UINT32 % UINT32 == n % UINT32
  {
  }

  /** With padding, the first 510 bytes of the message come back. */
  lemma PaddedRoundTrip(env: Env, secret: Word, r: Word, message: Bytes, seed: nat, allowTruncation: bool)
    requires Standard(env.grp)
    ensures var c := Sealed(env, secret, r, message, seed, Bytes512, allowTruncation);
            && (c.Ok? <==> |message| <= MAX_LEN || allowTruncation)
            && (c.Ok? ==> HashedDecryption(env, c.value, secret, seed, true) == Ok(Recovered(message, Bytes512)))
  {
    hide PowModPWide, Group.Exp, Masked, Mac, SessionKey, Standard, Unpadded, HashedDecryption;
    StandardGives(env.grp);
    if |message| <= MAX_LEN || allowTruncation {
      UnpaddedText(message, allowTruncation);
      var text := OnBoundary(message, Bytes512, allowTruncation).value;
      assert text[..512] == text;
      MaskedRoundTrip(env, secret, r, message, seed, Bytes512, allowTruncation, true);
    }
  }

  /**
   * Without padding, the message comes back unchanged exactly when its length is a positive multiple of the block
   * length below 2^32; the 32-bit length drops the rest of longer messages.
   */
  lemma UnpaddedRoundTrip(env: Env, secret: Word, r: Word, message: Bytes, seed: nat, allowTruncation: bool)
    requires Standard(env.grp)
    ensures var c := Sealed(env, secret, r, message, seed, NoPadding, allowTruncation);
            && (c.Ok? <==> |message| % BLOCK == 0)
            && (c.Ok? ==>
                (HashedDecryption(env, c.value, secret, seed, false) == Ok(message) <==> 0 < |message| < UINT32))
  {
    hide PowModPWide, Group.Exp, Masked, Mac, SessionKey, Standard, Unpadded;
    StandardGives(env.grp);
    if |message| % BLOCK == 0 {
      BlocksOf(|message|);
      if |message| % UINT32 > 0 {
        MaskedRoundTrip(env, secret, r, message, seed, NoPadding, allowTruncation, false);
        if |message| < UINT32 {
          assert message[..|message|] == message;
        }
      }
    }
  }

  /** A well-formed triple seals exactly as its exponent would, so both round trips hold on the precomputed path. */
  lemma TripleSeals(env: Env, secret: Word, t: Triple, message: Bytes, seed: nat, size: PaddedSize,
                    allowTruncation: bool)
    requires Standard(env.grp) && TripleFor(env.grp, env.grp.Exp(env.grp.g, secret), t)
    ensures HashedEncryption(env, message, t.gToExp, t.pubkeyToExp, seed, size, allowTruncation)
            == Sealed(env, secret, t.exp, message, seed, size, allowTruncation)
  {
    hide HashedEncryption, Group.Exp, Standard, PowModPWide;
    StandardGives(env.grp);
    PowModPExact(env.grp, env.grp.g, t.exp);
    PowModPExact(env.grp, env.grp.Exp(env.grp.g, secret), t.exp);
  }

  // ------------------------------------------------------- what decryption accepts

  lemma TextOfUnpadded(text: Bytes, message: Bytes)
    requires |text| == 512
    ensures Unpadded(text) == Ok(message) <==>
            |message| <= MAX_LEN && OnBoundary(message, Bytes512, true) == Ok(text)
  {
    if |message| <= MAX_LEN && OnBoundary(message, Bytes512, true) == Ok(text) {
      UnpaddedText(message, true);
    }
    if Unpadded(text) == Ok(message) {
      var n := (text[0] as int) * 256 + text[1];
      assert |message| == MAX_LEN - n && PadLength(n) == text[..2];
      var again := PadLength(n) + message + Zeros(n);
      forall j | 0 <= j < 512 ensures again[j] == text[j] {
      }
      assert again == text;
    }
  }

  /**
   * Decryption with padding returns a message for exactly one ciphertext over a given pad, the encryption of that
   * message: a changed MAC, changed data or changed padding is refused.
   */
  lemma PaddedDecryptionInverts(env: Env, c: HashedCiphertext, secret: Word, seed: nat, message: Bytes)
    requires 1 < env.grp.p && |c.data| == 512
    ensures HashedDecryption(env, c, secret, seed, true) == Ok(message) <==>
            && |message| <= MAX_LEN
            && HashedEncryption(env, message, c.pad, PowModP(env.grp, c.pad, secret), seed, Bytes512, true) == Ok(c)
  {
    hide Masked, Mac, SessionKey, PowModPWide, Unpadded, OnBoundary;
    var session := SessionKey(env, c.pad, PowModP(env.grp, c.pad, secret));
    var text := Masked(env, session, seed, 16, c.data);
    TextOfUnpadded(text, message);
    MaskedTwice(env, session, seed, 16, c.data);
    assert c.data[..512] == c.data;
    if |message| <= MAX_LEN {
      UnpaddedText(message, true);
      var padded := OnBoundary(message, Bytes512, true).value;
      MaskedTwice(env, session, seed, 16, padded);
      assert padded[..512] == padded;
    }
  }

  lemma WholeBlocks(env: Env, session: Bytes, seed: nat, data: Bytes)
    requires |data| < UINT32
    ensures |data| % UINT32 == |data|
    ensures |data| % BLOCK == 0 ==>
              && BLOCK * (|data| / BLOCK) == |data|
              && Masked(env, session, seed, |data| / BLOCK, Masked(env, session, seed, |data| / BLOCK, data)) == data
  {
    hide Masked;
    ModIs(|data|, 0, |data|, UINT32);
    if |data| % BLOCK == 0 {
      BlocksOf(|data|);
      MaskedTwice(env, session, seed, |data| / BLOCK, data);
      assert data[..|data|] == data;
    }
  }

  /** The same without padding, for data whose length 32 bits can hold. */
  lemma UnpaddedDecryptionInverts(env: Env, c: HashedCiphertext, secret: Word, seed: nat, message: Bytes)
    requires 1 < env.grp.p && |c.data| < UINT32
    ensures HashedDecryption(env, c, secret, seed, false) == Ok(message) <==>
            && 0 < |message| < UINT32
            && HashedEncryption(env, message, c.pad, PowModP(env.grp, c.pad, secret), seed, NoPadding, true) == Ok(c)
  {
    hide Masked, Mac, SessionKey, PowModPWide;
    var session := SessionKey(env, c.pad, PowModP(env.grp, c.pad, secret));
    WholeBlocks(env, session, seed, c.data);
    if |message| < UINT32 {
      WholeBlocks(env, session, seed, message);
    }
  }

  /** Two ciphertexts over one pad that are accepted with one MAC hold the same data, or HMAC collides. */
  lemma AcceptedDataAgree(env: Env, c: HashedCiphertext, c': HashedCiphertext, secret: Word, seed: nat,
                          lookForPadding: bool, lookForPadding': bool)
    requires 1 < env.grp.p && c.pad == c'.pad < Pow(256, 512) && c.mac == c'.mac
    requires HashedDecryption(env, c, secret, seed, lookForPadding).Ok?
    requires HashedDecryption(env, c', secret, seed, lookForPadding').Ok?
    ensures var session := SessionKey(env, c.pad, PowModP(env.grp, c.pad, secret));
            var key := KeyBlock(env, session, seed, |c.data| % UINT32 / BLOCK, 0);
            var key' := KeyBlock(env, session, seed, |c'.data| % UINT32 / BLOCK, 0);
            || c.data == c'.data
            || HmacCollide(env.hmac, key, BigEndian(c.pad, 512) + c.data, key', BigEndian(c.pad, 512) + c'.data)
  {
    hide KeyBlock, SessionKey, PowModPWide, Masked, Unpadded, Pow, BigEndian, Mac, HmacCollide;
    var session := SessionKey(env, c.pad, PowModP(env.grp, c.pad, secret));
    MacBinds(env, session, seed, |c.data| % UINT32 / BLOCK, c.pad, c.data,
             session, seed, |c'.data| % UINT32 / BLOCK, c.pad, c'.data);
  }
}
