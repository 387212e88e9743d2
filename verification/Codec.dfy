/**
 The payload codec: the agent compresses then encrypts, and two differently
 guarded receivers undo it. The ciphers and gzip are foreign; they enter as
 function values under the contract `Lawful`, which `ToyIsLawful` satisfies.
 */
module Codec {
  import opened Prelude
  import Base64

  const KEY_SIZE := 32
  const NONCE_SIZE := 12
  const TAG_SIZE := 16

  /** The first two octets of every gzip stream. */
  ghost predicate HasGzipMagic(z: Bytes) {
    |z| >= 2 && z[0] == 0x1f && z[1] == 0x8b
  }

  /** AES-256-GCM sealing and opening, and gzip. */
  datatype Primitives = Primitives(
    seal: (Bytes, Bytes, Bytes) -> Bytes,
    unseal: (Bytes, Bytes, Bytes) -> Option<Bytes>,
    deflate: (int, Bytes) -> Bytes,
    inflate: Bytes -> Option<Bytes>)
  {
    ghost predicate TellsApart(key: Bytes, other: Bytes, data: Bytes) {
      exists nonce | |nonce| == NONCE_SIZE :: unseal(other, nonce, seal(key, nonce, data)).None?
    }

    ghost predicate SealingLaws() {
      && (forall key, nonce, data | |key| == KEY_SIZE && |nonce| == NONCE_SIZE ::
            && unseal(key, nonce, seal(key, nonce, data)) == Some(data)
            && |seal(key, nonce, data)| == |data| + TAG_SIZE)
      // A different key is told apart under some nonce. (Under every nonce would be
      // unsatisfiable: there are more keys than tags.)
      && (forall key, other, data | |key| == |other| == KEY_SIZE && key != other :: TellsApart(key, other, data))
    }

    ghost predicate CompressionLaws() {
      && (forall level, data | 1 <= level <= 9 ::
            && inflate(deflate(level, data)) == Some(data)
            && HasGzipMagic(deflate(level, data)))
      && (forall z | inflate(z).Some? :: HasGzipMagic(z))
    }

    ghost predicate Lawful() {
      SealingLaws() && CompressionLaws()
    }
  }

  /** The security section of a component's configuration. */
  datatype Security = Security(encrypt: bool, key: Bytes, compress: bool, level: int)

  /** A request body with its X-Encrypted and X-Compressed headers. */
  datatype Message = Message(body: Bytes, encrypted: bool, compressed: bool)

  datatype CodecError = DecryptionNotConfigured | DecryptionFailed | DecompressionFailed

  /** The 32-octet key of a configured one: zero-padded or cut. */
  function NormalKey(key: Bytes): Bytes {
    seq(KEY_SIZE, i requires 0 <= i < KEY_SIZE => if i < |key| then key[i] else 0)
  }

  function Encrypted(p: Primitives, key: Bytes, nonce: Bytes, data: Bytes): Bytes {
    if key == [] then data else Base64.Encode(nonce + p.seal(NormalKey(key), nonce, data))
  }

  function Decrypted(p: Primitives, key: Bytes, data: Bytes): Option<Bytes> {
    if key == [] then Some(data)
    else
      var decoded := Base64.Decode(data);
      if decoded.None? || |decoded.value| < NONCE_SIZE then None
      else p.unseal(NormalKey(key), decoded.value[..NONCE_SIZE], decoded.value[NONCE_SIZE..])
  }

  function Compressed(p: Primitives, level: int, data: Bytes): Bytes {
    p.deflate(if level < 1 || level > 9 then 6 else level, data)
  }

  /** What the agent posts. The headers follow the switches even when an empty key leaves the body alone. */
  function Sent(p: Primitives, agent: Security, nonce: Bytes, payload: Bytes): Message {
    var packed := if agent.compress then Compressed(p, agent.level, payload) else payload;
    Message(if agent.encrypt then Encrypted(p, agent.key, nonce, packed) else packed, agent.encrypt, agent.compress)
  }

  /** The step both receivers end with, once decryption is behind them. */
  function Unpacked(p: Primitives, packed: Bytes, compressed: bool): Result<Bytes, CodecError> {
    if !compressed then Ok(packed)
    else
      var plain := p.inflate(packed);
      if plain.None? then Err(DecompressionFailed) else Ok(plain.value)
  }

  /** The aggregator refuses encryption it cannot undo and always decompresses. */
  function AggregatorReceived(p: Primitives, own: Security, m: Message): Result<Bytes, CodecError> {
    if m.encrypted && !own.encrypt then Err(DecryptionNotConfigured)
    else
      var packed := if m.encrypted then Decrypted(p, own.key, m.body) else Some(m.body);
      if packed.None? then Err(DecryptionFailed) else Unpacked(p, packed.value, m.compressed)
  }

  /** The control plane skips every stage its own switches turn off. */
  function ControlPlaneReceived(p: Primitives, own: Security, m: Message): Result<Bytes, CodecError> {
    var packed := if m.encrypted && own.encrypt then Decrypted(p, own.key, m.body) else Some(m.body);
    if packed.None? then Err(DecryptionFailed) else Unpacked(p, packed.value, m.compressed && own.compress)
  }

  /** Both keys unset, or both set and equal once padded or cut to 32 octets. */
  predicate KeysAgree(a: Bytes, b: Bytes) {
    (a == [] <==> b == []) && NormalKey(a) == NormalKey(b)
  }

  /** The octet at a place of a key, as the cipher reads it: zero behind its end. */
  function OctetAt(key: Bytes, i: nat): Byte {
    if i < |key| then key[i] else 0
  }

  /** What it takes for two keys to agree, in terms of the keys as configured. */
  lemma KeysAgreeIff(a: Bytes, b: Bytes)
    ensures KeysAgree(a, b) <==>
              || (a == [] && b == [])
              || (a != [] && b != [] && forall i: nat | i < 32 :: OctetAt(a, i) == OctetAt(b, i))
  {
    if forall i: nat | i < 32 :: OctetAt(a, i) == OctetAt(b, i) {
      forall i: nat | i < 32 ensures NormalKey(a)[i] == NormalKey(b)[i] {
        assert OctetAt(a, i) == OctetAt(b, i);
      }
    } else {
      var i: nat :| i < 32 && OctetAt(a, i) != OctetAt(b, i);
      assert NormalKey(a)[i] != NormalKey(b)[i];
    }
  }

  /** `k` is the cipher key that a configured key stands for: its first 32 octets, or itself with zeros behind. */
  ghost predicate IsCipherKey(key: Bytes, k: Bytes) {
    && |k| == 32
    && (|key| >= 32 ==> k == key[..32])
    && (|key| < 32 ==> k[..|key|] == key && forall i | |key| <= i < 32 :: k[i] == 0)
  }

  lemma NormalIsCipherKey(key: Bytes)
    ensures IsCipherKey(key, NormalKey(key))
  {
  }

  // ----- the imperative code -----

  class EncryptionService {
    const algorithm: string

    constructor (algorithm: string)
      ensures this.algorithm == if algorithm == "" then "aes-256-gcm" else algorithm
    {
      this.algorithm := if algorithm == "" then "aes-256-gcm" else algorithm;
    }

    /** Builds the cipher key in a fresh buffer, or cuts the given one. */
    static method NormalizeKey(key: Bytes) returns (keyBytes: Bytes)
      ensures keyBytes == NormalKey(key)
      ensures |keyBytes| == 32
      ensures |key| <= 32 ==> key <= keyBytes && forall i | |key| <= i < 32 :: keyBytes[i] == 0
      ensures |key| > 32 ==> keyBytes == key[..32]
    {
      keyBytes := key;
      if |keyBytes| < KEY_SIZE {
        var newKey := new Byte[KEY_SIZE](_ => 0);
        for i := 0 to |key|
          invariant forall j | 0 <= j < KEY_SIZE :: newKey[j] == if j < i then key[j] else 0
        {
          newKey[i] := key[i];
        }
        keyBytes := newKey[..];
      } else if |keyBytes| > KEY_SIZE {
        keyBytes := keyBytes[..KEY_SIZE];
      }
    }

    method Encrypt(p: Primitives, data: Bytes, key: Bytes, nonce: Bytes) returns (encoded: Bytes)
      ensures encoded == Encrypted(p, key, nonce, data)
      ensures key == [] ==> encoded == data
      ensures key != [] ==>
        exists k :: IsCipherKey(key, k) && Base64.Decode(encoded) == Some(nonce + p.seal(k, nonce, data))
    {
      if |key| == 0 {
        return data;
      }
      var keyBytes := NormalizeKey(key);
      var ciphertext := nonce + p.seal(keyBytes, nonce, data);
      encoded := Base64.Encode(ciphertext);
      NormalIsCipherKey(key);
      Base64.RoundTrip(ciphertext);
    }

    method Decrypt(p: Primitives, data: Bytes, key: Bytes) returns (plaintext: Option<Bytes>)
      ensures plaintext == Decrypted(p, key, data)
      ensures key == [] ==> plaintext == Some(data)
      ensures key != [] ==>
                var decoded := Base64.Decode(data);
                if decoded.None? || |decoded.value| < 12 then plaintext == None
                else exists k ::
                  IsCipherKey(key, k) && plaintext == p.unseal(k, decoded.value[..12], decoded.value[12..])
    {
      if |key| == 0 {
        return Some(data);
      }
      var decoded := Base64.Decode(data);
      if decoded.None? {
        return None;
      }
      var keyBytes := NormalizeKey(key);
      NormalIsCipherKey(key);
      if |decoded.value| < NONCE_SIZE {
        return None;
      }
      plaintext := p.unseal(keyBytes, decoded.value[..NONCE_SIZE], decoded.value[NONCE_SIZE..]);
    }
  }

  /** What a receiver answers once it has tried to decompress. */
  function Inflated(plain: Option<Bytes>): Result<Bytes, CodecError> {
    if plain.None? then Err(DecompressionFailed) else Ok(plain.value)
  }

  /** HTTPReporter.processData with the headers Report derives from the same configuration. */
  method AgentProcessData(p: Primitives, service: EncryptionService, agent: Security, nonce: Bytes, data: Bytes)
    returns (m: Message)
    ensures m == Sent(p, agent, nonce, data)
    ensures m.encrypted == agent.encrypt && m.compressed == agent.compress
    ensures var level := if 1 <= agent.level <= 9 then agent.level else 6;
            var packed := if agent.compress then p.deflate(level, data) else data;
            if !agent.encrypt || agent.key == [] then m.body == packed
            else exists k ::
              IsCipherKey(agent.key, k) && Base64.Decode(m.body) == Some(nonce + p.seal(k, nonce, packed))
  {
    var processedData := data;
    if agent.compress {
      processedData := Compressed(p, agent.level, processedData);
    }
    if agent.encrypt {
      processedData := service.Encrypt(p, processedData, agent.key, nonce);
    }
    m := Message(processedData, agent.encrypt, agent.compress);
  }

  /** Server.processIncomingData of the aggregator. */
  method AggregatorProcessData(p: Primitives, service: EncryptionService, own: Security, m: Message)
    returns (r: Result<Bytes, CodecError>)
    ensures r == AggregatorReceived(p, own, m)
    ensures r == Err(DecryptionNotConfigured) <==> m.encrypted && !own.encrypt
    ensures !m.encrypted && !m.compressed ==> r == Ok(m.body)
    ensures m.encrypted && own.encrypt && own.key == [] && !m.compressed ==> r == Ok(m.body)
    ensures !m.encrypted && m.compressed ==> r == Inflated(p.inflate(m.body))
  {
    var processedData := m.body;
    if m.encrypted {
      if !own.encrypt {
        return Err(DecryptionNotConfigured);
      }
      var plain := service.Decrypt(p, processedData, own.key);
      if plain.None? {
        return Err(DecryptionFailed);
      }
      processedData := plain.value;
    }
    if m.compressed {
      var plain := p.inflate(processedData);
      if plain.None? {
        return Err(DecompressionFailed);
      }
      processedData := plain.value;
    }
    r := Ok(processedData);
  }

  /** MetricsHandler.processData of the control plane. */
  method ControlPlaneProcessData(p: Primitives, service: EncryptionService, own: Security, m: Message)
    returns (r: Result<Bytes, CodecError>)
    ensures r == ControlPlaneReceived(p, own, m)
    ensures !(m.encrypted && own.encrypt) && !(m.compressed && own.compress) ==> r == Ok(m.body)
    ensures !(m.encrypted && own.encrypt) && m.compressed && own.compress ==> r == Inflated(p.inflate(m.body))
    ensures r != Err(DecryptionNotConfigured)
  {
    var processedData := m.body;
    if m.encrypted && own.encrypt {
      var plain := service.Decrypt(p, processedData, own.key);
      if plain.None? {
        return Err(DecryptionFailed);
      }
      processedData := plain.value;
    }
    if m.compressed && own.compress {
      var plain := p.inflate(processedData);
      if plain.None? {
        return Err(DecompressionFailed);
      }
      processedData := plain.value;
    }
    r := Ok(processedData);
  }

  // ----- decryption -----

  lemma DecryptInverts(p: Primitives, key: Bytes, other: Bytes, nonce: Bytes, data: Bytes)
    requires p.SealingLaws() && |nonce| == NONCE_SIZE && KeysAgree(key, other)
    ensures Decrypted(p, other, Encrypted(p, key, nonce, data)) == Some(data)
  {
    if key != [] {
      var sealed := p.seal(NormalKey(key), nonce, data);
      Base64.RoundTrip(nonce + sealed);
      assert (nonce + sealed)[..NONCE_SIZE] == nonce && (nonce + sealed)[NONCE_SIZE..] == sealed;
    }
  }

  /** Base64 text is longer than what was sealed and is never a gzip stream. */
  lemma CiphertextIsForeign(p: Primitives, key: Bytes, nonce: Bytes, data: Bytes)
    requires p.SealingLaws() && |nonce| == NONCE_SIZE && key != []
    ensures |Encrypted(p, key, nonce, data)| > |data|
    ensures !HasGzipMagic(Encrypted(p, key, nonce, data))
  {
    var raw := nonce + p.seal(NormalKey(key), nonce, data);
    Base64.EncodedLonger(raw);
    assert Base64.Encode(raw)[0] == Base64.CharOf(Base64.EncodeSymbols(raw)[0]);
  }

  /** The text of a JSON object, which is what agents report. */
  predicate IsObject(payload: Bytes) {
    payload != [] && payload[0] == 0x7b
  }

  /** Neither a JSON object nor a gzip stream survives decryption with a key. */
  lemma PlainIsForeign(p: Primitives, key: Bytes, packed: Bytes)
    requires key != [] && (IsObject(packed) || HasGzipMagic(packed))
    ensures Decrypted(p, key, packed).None?
  {
    assert Base64.StripLineBreaks(packed)[0] == packed[0];
    assert Base64.SymbolOf(Base64.StripLineBreaks(packed)[0]).None?;
  }

  lemma WrongKeyRejected(p: Primitives, key: Bytes, other: Bytes, data: Bytes) returns (nonce: Bytes)
    requires p.SealingLaws() && key != [] && other != [] && NormalKey(key) != NormalKey(other)
    ensures |nonce| == NONCE_SIZE && Decrypted(p, other, Encrypted(p, key, nonce, data)).None?
  {
    assert p.TellsApart(NormalKey(key), NormalKey(other), data);
    nonce :| |nonce| == NONCE_SIZE && p.unseal(NormalKey(other), nonce, p.seal(NormalKey(key), nonce, data)).None?;
    var sealed := p.seal(NormalKey(key), nonce, data);
    Base64.RoundTrip(nonce + sealed);
    assert (nonce + sealed)[..NONCE_SIZE] == nonce && (nonce + sealed)[NONCE_SIZE..] == sealed;
  }

  // ----- the two round trips, with their exact conditions -----

  /** The text of the empty JSON object. */
  const EMPTY_OBJECT: Bytes := [0x7b, 0x7d]

  ghost predicate AggregatorInverts(p: Primitives, agent: Security, own: Security) {
    forall nonce, payload | |nonce| == NONCE_SIZE ::
      AggregatorReceived(p, own, Sent(p, agent, nonce, payload)) == Ok(payload)
  }

  ghost predicate ControlPlaneInverts(p: Primitives, agent: Security, own: Security) {
    forall nonce, payload | |nonce| == NONCE_SIZE ::
      ControlPlaneReceived(p, own, Sent(p, agent, nonce, payload)) == Ok(payload)
  }

  /** Compression needs no agreement, encryption does. */
  predicate AggregatorCompatible(agent: Security, own: Security) {
    agent.encrypt ==> own.encrypt && KeysAgree(agent.key, own.key)
  }

  /** Compression must be on at the receiver; an unset key at the agent tolerates a receiver that does not decrypt. */
  predicate ControlPlaneCompatible(agent: Security, own: Security) {
    && (agent.compress ==> own.compress)
    && (agent.encrypt ==> if own.encrypt then KeysAgree(agent.key, own.key) else agent.key == [])
  }

  /** With disagreeing keys even the empty object does not come back, under some nonce. */
  lemma DisagreementFails(p: Primitives, agent: Security, own: Security) returns (nonce: Bytes)
    requires p.Lawful() && agent.encrypt && !KeysAgree(agent.key, own.key)
    ensures |nonce| == NONCE_SIZE
    ensures var d := Decrypted(p, own.key, Sent(p, agent, nonce, EMPTY_OBJECT).body);
            d.None? || Unpacked(p, d.value, agent.compress) != Ok(EMPTY_OBJECT)
  {
    var payload := EMPTY_OBJECT;
    nonce := seq(NONCE_SIZE, _ => 0);
    var packed := if agent.compress then Compressed(p, agent.level, payload) else payload;
    if agent.key == [] {
      PlainIsForeign(p, own.key, packed);
    } else if own.key == [] {
      CiphertextIsForeign(p, agent.key, nonce, packed);
    } else {
      nonce := WrongKeyRejected(p, agent.key, own.key, packed);
    }
  }

  /** The exact condition; where it fails, it is for an object that an agent can send. */
  lemma AggregatorInvertsIff(p: Primitives, agent: Security, own: Security)
    requires p.Lawful()
    ensures AggregatorInverts(p, agent, own) <==> AggregatorCompatible(agent, own)
    ensures !AggregatorCompatible(agent, own) ==>
              exists nonce, payload | |nonce| == NONCE_SIZE && IsObject(payload) ::
                AggregatorReceived(p, own, Sent(p, agent, nonce, payload)) != Ok(payload)
  {
    if AggregatorCompatible(agent, own) {
      forall nonce, payload | |nonce| == NONCE_SIZE
        ensures AggregatorReceived(p, own, Sent(p, agent, nonce, payload)) == Ok(payload)
      {
        if agent.encrypt {
          var packed := if agent.compress then Compressed(p, agent.level, payload) else payload;
          DecryptInverts(p, agent.key, own.key, nonce, packed);
        }
      }
    } else {
      var nonce := seq(NONCE_SIZE, _ => 0);
      if own.encrypt {
        nonce := DisagreementFails(p, agent, own);
      }
      assert AggregatorReceived(p, own, Sent(p, agent, nonce, EMPTY_OBJECT)) != Ok(EMPTY_OBJECT);
    }
  }

  /** Base64 text does not start with a brace. */
  lemma ObjectIsNoCiphertext(p: Primitives, key: Bytes, nonce: Bytes, data: Bytes)
    requires p.SealingLaws() && |nonce| == NONCE_SIZE && key != []
    ensures !IsObject(Encrypted(p, key, nonce, data))
  {
    var raw := nonce + p.seal(NormalKey(key), nonce, data);
    Base64.EncodedLonger(raw);
    assert Base64.Encode(raw)[0] == Base64.CharOf(Base64.EncodeSymbols(raw)[0]);
  }

  /** Keys that disagree, and a receiver that does not decompress. */
  lemma StillCompressedFails(p: Primitives, agent: Security, own: Security) returns (nonce: Bytes)
    requires p.Lawful() && agent.encrypt && own.encrypt && !KeysAgree(agent.key, own.key)
    requires agent.compress && !own.compress
    ensures |nonce| == NONCE_SIZE
    ensures ControlPlaneReceived(p, own, Sent(p, agent, nonce, EMPTY_OBJECT)) != Ok(EMPTY_OBJECT)
  {
    nonce := seq(NONCE_SIZE, _ => 0);
    var packed := Compressed(p, agent.level, EMPTY_OBJECT);
    if agent.key == [] {
      PlainIsForeign(p, own.key, packed);
    } else if own.key == [] {
      ObjectIsNoCiphertext(p, agent.key, nonce, packed);
    } else {
      nonce := WrongKeyRejected(p, agent.key, own.key, packed);
    }
  }

  lemma ControlPlaneFails(p: Primitives, agent: Security, own: Security) returns (nonce: Bytes)
    requires p.Lawful() && !ControlPlaneCompatible(agent, own)
    ensures |nonce| == NONCE_SIZE
    ensures ControlPlaneReceived(p, own, Sent(p, agent, nonce, EMPTY_OBJECT)) != Ok(EMPTY_OBJECT)
  {
    var payload := EMPTY_OBJECT;
    nonce := seq(NONCE_SIZE, _ => 0);
    var packed := if agent.compress then Compressed(p, agent.level, payload) else payload;
    if agent.encrypt && own.encrypt && !KeysAgree(agent.key, own.key) {
      if agent.compress == own.compress || !agent.compress {
        nonce := DisagreementFails(p, agent, own);
      } else {
        nonce := StillCompressedFails(p, agent, own);
      }
    } else if agent.encrypt && !own.encrypt && agent.key != [] {
      CiphertextIsForeign(p, agent.key, nonce, packed);
    } else {
      // The payload arrives still compressed, and no gzip stream is an object.
      if agent.encrypt && own.encrypt {
        DecryptInverts(p, agent.key, own.key, nonce, packed);
      }
      assert packed[0] == 0x1f;
    }
  }

  /** Likewise for the control plane. */
  lemma ControlPlaneInvertsIff(p: Primitives, agent: Security, own: Security)
    requires p.Lawful()
    ensures ControlPlaneInverts(p, agent, own) <==> ControlPlaneCompatible(agent, own)
    ensures !ControlPlaneCompatible(agent, own) ==>
              exists nonce, payload | |nonce| == NONCE_SIZE && IsObject(payload) ::
                ControlPlaneReceived(p, own, Sent(p, agent, nonce, payload)) != Ok(payload)
  {
    if ControlPlaneCompatible(agent, own) {
      forall nonce, payload | |nonce| == NONCE_SIZE
        ensures ControlPlaneReceived(p, own, Sent(p, agent, nonce, payload)) == Ok(payload)
      {
        if agent.encrypt && own.encrypt {
          var packed := if agent.compress then Compressed(p, agent.level, payload) else payload;
          DecryptInverts(p, agent.key, own.key, nonce, packed);
        }
      }
    } else {
      var nonce := ControlPlaneFails(p, agent, own);
    }
  }

  // ----- the contract is satisfiable -----

  function ToyTag(key: Bytes, nonce: Bytes): (tag: Bytes)
    ensures |tag| == TAG_SIZE
  {
    var k := NormalKey(key);
    if nonce != [] && nonce[0] == 1 then k[TAG_SIZE..] else k[..TAG_SIZE]
  }

  /** Half of the key, chosen by the nonce, serves as the tag; compression only adds the magic. */
  function Toy(): Primitives {
    Primitives(
      (key, nonce, data) => ToyTag(key, nonce) + data,
      (key, nonce, z) => if |z| >= TAG_SIZE && z[..TAG_SIZE] == ToyTag(key, nonce) then Some(z[TAG_SIZE..]) else None,
      (level, data) => [0x1f, 0x8b] + data,
      z => if |z| >= 2 && z[0] == 0x1f && z[1] == 0x8b then Some(z[2..]) else None)
  }

  lemma ToyIsLawful()
    ensures Toy().Lawful()
  {
    var p := Toy();
    forall key, nonce, data
      ensures p.unseal(key, nonce, p.seal(key, nonce, data)) == Some(data)
    {
      assert (ToyTag(key, nonce) + data)[TAG_SIZE..] == data;
    }
    forall key, other: Bytes, data | |key| == |other| == KEY_SIZE && key != other
      ensures p.TellsApart(key, other, data)
    {
      var low, high := seq(NONCE_SIZE, _ => 0), seq(NONCE_SIZE, _ => 1);
      assert NormalKey(key) == key && NormalKey(other) == other;
      assert key == key[..TAG_SIZE] + key[TAG_SIZE..] && other == other[..TAG_SIZE] + other[TAG_SIZE..];
      var nonce := if key[..TAG_SIZE] != other[..TAG_SIZE] then low else high;
      assert ToyTag(key, nonce) != ToyTag(other, nonce);
      assert (ToyTag(key, nonce) + data)[..TAG_SIZE] == ToyTag(key, nonce);
      assert p.unseal(other, nonce, p.seal(key, nonce, data)).None?;
    }
    forall level, data
      ensures p.inflate(p.deflate(level, data)) == Some(data)
    {
      assert ([0x1f, 0x8b] + data)[2..] == data;
    }
  }
}
