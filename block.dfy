/** A ledger entry (src/block.rs): a record whose digest binds its index, timestamp,
    payload, predecessor digest and proof-of-work nonce, and which may carry an ECDSA
    signature over the same five fields.

    The cryptographic primitives are not modelled: the digest function (SHA-256 over the
    fields, hex-encoded) and the signature scheme (ECDSA over P-256) are values handed to
    the operations, so nothing is known about them except what a `requires` states. */
module Blocks {

  datatype Option<T> = None | Some(value: T)

  type Bytes = seq<bv8>
  type SigningKey = Bytes
  type VerifyingKey = Bytes
  type Signature = Bytes

  /** `Block::calculate_hash(index, timestamp, data, previous_hash, nonce)`. */
  type HashFn = (nat, nat, string, string, nat) -> string

  /** The signing primitives: derive the verifying half of a key pair, sign a message,
      check a signature. */
  datatype SignatureScheme = SignatureScheme(
    publicKey: SigningKey -> VerifyingKey,
    sign: (SigningKey, string) -> Signature,
    verify: (VerifyingKey, string, Signature) -> bool)

  /** The one property of the signature scheme the ledger relies on: a signature made
      with a signing key verifies under the matching verifying key. */
  ghost predicate Sound(scheme: SignatureScheme) {
    forall sk: SigningKey, m: string :: scheme.verify(scheme.publicKey(sk), m, scheme.sign(sk, m))
  }

  /** Collision-freedom of the digest in its payload argument, assumed only where a
      property needs it. */
  ghost predicate DataInjective(digest: HashFn) {
    forall index: nat, timestamp: nat, d1: string, d2: string, prev: string, nonce: nat ::
      digest(index, timestamp, d1, prev, nonce) == digest(index, timestamp, d2, prev, nonce) ==> d1 == d2
  }

  datatype Block = Block(
    index: nat,
    timestamp: nat,
    data: string,
    previousHash: string,
    hash: string,
    nonce: nat,
    signature: Option<Signature>,
    patientId: string,
    eventType: string)

  /** The difficulty target: four leading zero hex digits. */
  const DIFFICULTY_PREFIX: string := "0000"

  /** Nonces are `u64`: every nonce the search may return lies below this bound. */
  const NONCE_BOUND: nat := 0x1_0000_0000_0000_0000

  /** `hash.starts_with("0000")` */
  predicate MeetsDifficulty(hash: string) {
    DIFFICULTY_PREFIX <= hash
  }

  /** The stored digest is the one recomputed from the block's own fields. */
  predicate HashIntact(digest: HashFn, b: Block) {
    b.hash == digest(b.index, b.timestamp, b.data, b.previousHash, b.nonce)
  }

  /** Some `u64` nonce meets the target, so the search ends before the counter overflows. */
  ghost predicate Minable(digest: HashFn, index: nat, timestamp: nat, data: string, previousHash: string) {
    exists nonce: nat :: nonce < NONCE_BOUND && MeetsDifficulty(digest(index, timestamp, data, previousHash, nonce))
  }

  /** `nonce` meets the target and no smaller nonce does. */
  ghost predicate IsLeastNonce(digest: HashFn, index: nat, timestamp: nat, data: string, previousHash: string, nonce: nat) {
    && MeetsDifficulty(digest(index, timestamp, data, previousHash, nonce))
    && forall m: nat :: m < nonce ==> !MeetsDifficulty(digest(index, timestamp, data, previousHash, m))
  }

  /** `b` is what `Block::new` returns for these arguments: the given fields copied, the
      least qualifying nonce with its digest, and no signature. */
  ghost predicate Constructed(digest: HashFn, b: Block, index: nat, timestamp: nat, data: string,
                              previousHash: string, patientId: string, eventType: string)
  {
    && b.index == index && b.timestamp == timestamp && b.data == data
    && b.previousHash == previousHash && b.patientId == patientId && b.eventType == eventType
    && b.signature == None
    && HashIntact(digest, b)
    && IsLeastNonce(digest, index, timestamp, data, previousHash, b.nonce)
    && b.nonce < NONCE_BOUND
  }

  /** `Block::mine_block`: try nonces 0, 1, 2, ... until the digest meets the target. */
  method MineBlock(digest: HashFn, index: nat, timestamp: nat, data: string, previousHash: string)
    returns (hash: string, nonce: nat)
    requires Minable(digest, index, timestamp, data, previousHash)
    ensures hash == digest(index, timestamp, data, previousHash, nonce)
    ensures MeetsDifficulty(hash)
    ensures forall m: nat :: m < nonce ==> !MeetsDifficulty(digest(index, timestamp, data, previousHash, m))
    ensures nonce < NONCE_BOUND
  {
    ghost var target: nat :| target < NONCE_BOUND && MeetsDifficulty(digest(index, timestamp, data, previousHash, target));
    nonce := 0;
    while true
      invariant nonce <= target
      invariant forall m: nat :: m < nonce ==> !MeetsDifficulty(digest(index, timestamp, data, previousHash, m))
      decreases target - nonce
    {
      hash := digest(index, timestamp, data, previousHash, nonce);
      if MeetsDifficulty(hash) {
        return;
      }
      nonce := nonce + 1;
    }
  }

  /** `Block::new`: mine, then copy the arguments into a fresh unsigned block. */
  method NewBlock(digest: HashFn, index: nat, timestamp: nat, data: string, previousHash: string,
                  patientId: string, eventType: string)
    returns (b: Block)
    requires Minable(digest, index, timestamp, data, previousHash)
    ensures Constructed(digest, b, index, timestamp, data, previousHash, patientId, eventType)
    ensures |b.hash| > 0
  {
    var hash, nonce := MineBlock(digest, index, timestamp, data, previousHash);
    b := Block(index, timestamp, data, previousHash, hash, nonce, None, patientId, eventType);
  }

  /** Mining is deterministic: the four inputs fix the nonce, hence the digest. */
  lemma MiningDeterministic(digest: HashFn, b1: Block, b2: Block, index: nat, timestamp: nat,
                            data: string, previousHash: string,
                            patientId1: string, eventType1: string, patientId2: string, eventType2: string)
    requires Constructed(digest, b1, index, timestamp, data, previousHash, patientId1, eventType1)
    requires Constructed(digest, b2, index, timestamp, data, previousHash, patientId2, eventType2)
    ensures b1.nonce == b2.nonce && b1.hash == b2.hash
  {
  }

  // ---- The signed message: format!("{}{}{}{}{}", index, timestamp, data, previous_hash, nonce)

  function DigitChar(d: nat): (c: char)
    requires d < 10
    ensures '0' <= c <= '9' && (c as int) - ('0' as int) == d
  {
    (('0' as int) + d) as char
  }

  /** An unsigned integer written in decimal with no leading zero, as `{}` prints it. */
  function Decimal(n: nat): (s: string)
    ensures |s| > 0
    ensures forall k :: 0 <= k < |s| ==> '0' <= s[k] <= '9'
    ensures s[0] == '0' ==> n == 0 && |s| == 1
    decreases n
  {
    if n < 10 then [DigitChar(n)] else Decimal(n / 10) + [DigitChar(n % 10)]
  }

  /** The number a string of decimal digits denotes. */
  function DecimalValue(s: string): nat
    requires forall k :: 0 <= k < |s| ==> '0' <= s[k] <= '9'
  {
    if s == [] then 0 else DecimalValue(s[..|s| - 1]) * 10 + ((s[|s| - 1] as int) - ('0' as int))
  }

  /** Reading the decimal rendering back gives the number. */
  lemma {:induction false} DecimalRoundTrip(n: nat)
    ensures DecimalValue(Decimal(n)) == n
    decreases n
  {
    if n >= 10 {
      var prefix := Decimal(n / 10);
      DecimalRoundTrip(n / 10);
      assert (prefix + [DigitChar(n % 10)])[..|prefix|] == prefix;
    }
  }

  /** The string both `sign_block` and `verify_signature` build: the decimal index,
      the decimal timestamp, the payload, the predecessor digest and the decimal nonce,
      back to back in that order. */
  function Message(b: Block): (m: string)
    ensures var i, t, d, p := |Decimal(b.index)|, |Decimal(b.timestamp)|, |b.data|, |b.previousHash|;
      && |m| == i + t + d + p + |Decimal(b.nonce)|
      && m[..i] == Decimal(b.index)
      && m[i..i + t] == Decimal(b.timestamp)
      && m[i + t..i + t + d] == b.data
      && m[i + t + d..i + t + d + p] == b.previousHash
      && m[i + t + d + p..] == Decimal(b.nonce)
  {
    Decimal(b.index) + Decimal(b.timestamp) + b.data + b.previousHash + Decimal(b.nonce)
  }

  /** `Block::sign_block`: store a signature over the message; nothing else changes. */
  function SignBlock(scheme: SignatureScheme, sk: SigningKey, b: Block): (signed: Block)
    ensures signed.signature == Some(scheme.sign(sk, Message(b)))
    ensures signed.(signature := b.signature) == b
  {
    b.(signature := Some(scheme.sign(sk, Message(b))))
  }

  /** `Block::verify_signature`: false without a signature, otherwise whether the stored
      signature checks against the rebuilt message. */
  function VerifySignature(scheme: SignatureScheme, vk: VerifyingKey, b: Block): (ok: bool)
    ensures b.signature == None ==> !ok
    ensures ok <==> b.signature.Some? && scheme.verify(vk, Message(b), b.signature.value)
  {
    match b.signature
    case None => false
    case Some(sig) => scheme.verify(vk, Message(b), sig)
  }

  /** Signing and verifying agree: a freshly signed block verifies under the matching key. */
  lemma SignThenVerify(scheme: SignatureScheme, sk: SigningKey, b: Block)
    requires Sound(scheme)
    ensures VerifySignature(scheme, scheme.publicKey(sk), SignBlock(scheme, sk, b))
  {
    var signed := SignBlock(scheme, sk, b);
    assert Message(signed) == Message(b);
  }

  /** Neither signing nor verifying looks at the digest or at the metadata fields. */
  lemma SignatureIgnoresUnsignedFields(scheme: SignatureScheme, sk: SigningKey, vk: VerifyingKey,
                                       b: Block, hash: string, patientId: string, eventType: string)
    ensures var b' := b.(hash := hash, patientId := patientId, eventType := eventType);
      && SignBlock(scheme, sk, b').signature == SignBlock(scheme, sk, b).signature
      && VerifySignature(scheme, vk, b') == VerifySignature(scheme, vk, b)
  {
    var b' := b.(hash := hash, patientId := patientId, eventType := eventType);
    assert Message(b') == Message(b);
  }

  /** The message concatenates the fields with no separator, so it does not determine
      them: index 12 at timestamp 3 and index 1 at timestamp 23 give the same message,
      and a signature made for one block verifies for the other. */
  lemma MessageAmbiguous(scheme: SignatureScheme, vk: VerifyingKey, b: Block)
    ensures var b12 := b.(index := 12, timestamp := 3);
      var b1 := b.(index := 1, timestamp := 23);
      && b12 != b1
      && Message(b12) == Message(b1)
      && VerifySignature(scheme, vk, b12) == VerifySignature(scheme, vk, b1)
  {
    assert Decimal(12) == "12" by {
      assert Decimal(1) == "1";
      assert Decimal(2) == "2";
    }
    assert Decimal(23) == "23" by {
      assert Decimal(2) == "2";
      assert Decimal(3) == "3";
    }
    assert Decimal(12) + Decimal(3) == Decimal(1) + Decimal(23);
  }
}
