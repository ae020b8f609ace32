/**
 From a list of entries to the bytes that are stored, and back: JSON, private key framing,
 encryption, payload framing, signature, dataset framing.  Cryptography and JSON are
 parameters with their laws.
 */
module Sealing {
  import opened Outcomes
  import opened Bytes
  import opened Codec

  type Content = map<string, string>

  /** `None` stands for a thrown error.  Seeds and signature nonces are random, so callers supply them. */
  datatype Crypto = Crypto(
    encrypt: (Buffer, Buffer, Buffer) -> Buffer,           // key, seed, plaintext
    decrypt: (Buffer, Buffer, Buffer) -> Option<Buffer>,   // key, seed, ciphertext
    sign: (Buffer, Buffer, Buffer) -> Option<Buffer>,      // private key, data, nonce
    verify: (string, Buffer, Buffer) -> bool,              // vault id, data, signature
    idOf: Buffer -> string,                                // the vault id of a private key
    stringify: Content -> Buffer,
    parse: Buffer -> Option<Content>)
  {
    /** The id accepts whatever the private key signs. */
    ghost predicate Owns(id: string, sk: Buffer) {
      forall data, nonce :: sign(sk, data, nonce).Some? ==> verify(id, data, sign(sk, data, nonce).value)
    }

    /** Decryption inverts encryption, a vault id accepts its own key, parsing inverts printing. */
    ghost predicate Lawful() {
      && (forall key, seed, data :: decrypt(key, seed, encrypt(key, seed, data)) == Some(data))
      && (forall sk :: Owns(idOf(sk), sk))
      && (forall content :: parse(stringify(content)) == Some(content))
    }

    /** If the id accepts one signature of the private key, it accepts all of them. */
    ghost predicate UniformAt(id: string, sk: Buffer) {
      forall data, nonce ::
        sign(sk, data, nonce).Some? && verify(id, data, sign(sk, data, nonce).value) ==> Owns(id, sk)
    }
  }

  /** The random values of one sealing. */
  datatype Noise = Noise(seed: Buffer, nonce: Buffer)

  /** A private key that is too large, content that is too large or an unusable key throws. */
  function Seal(c: Crypto, key: Buffer, sk: Buffer, content: Content, noise: Noise): Attempt<Buffer> {
    match Joined(sk, c.stringify(content))
    case Thrown => Thrown
    case Returned(plain) =>
      match Wrapped(VaultPayload(0, noise.seed, c.encrypt(key, noise.seed, plain)))
      case Thrown => Thrown
      case Returned(payload) =>
        match c.sign(sk, payload, noise.nonce)
        case None => Thrown
        case Some(signature) => Serialized(Dataset(signature, payload))
  }

  /** Everything fits its 32-bit length field, and the key can sign. */
  predicate Sealable(c: Crypto, key: Buffer, sk: Buffer, content: Content, noise: Noise) {
    && |sk| <= INT32_MAX && |c.stringify(content)| <= INT32_MAX && |noise.seed| <= INT32_MAX
    && var inside := c.encrypt(key, noise.seed, KeyFrame(sk, c.stringify(content)));
       && |inside| <= INT32_MAX
       && var payload := Framed(0, 0, noise.seed, inside);
          && |payload| <= INT32_MAX && c.sign(sk, payload, noise.nonce).Some?
          && |c.sign(sk, payload, noise.nonce).value| <= INT32_MAX
  }

  /** Sealing succeeds exactly then, and yields the signed payload of the encrypted key and content. */
  lemma SealSucceedsIff(c: Crypto, key: Buffer, sk: Buffer, content: Content, noise: Noise)
    ensures Seal(c, key, sk, content, noise).Returned? <==> Sealable(c, key, sk, content, noise)
    ensures Sealable(c, key, sk, content, noise) ==>
              var payload := Framed(0, 0, noise.seed, c.encrypt(key, noise.seed, KeyFrame(sk, c.stringify(content))));
              Seal(c, key, sk, content, noise) == Returned(Framed(0, 0, c.sign(sk, payload, noise.nonce).value, payload))
  {
  }

  /** The bytes deserialize and carry a signature valid under the vault id. */
  predicate Verifies(c: Crypto, id: string, raw: Buffer) {
    match Deserialize(raw)
    case Returned(Some(d)) => c.verify(id, d.payload, d.signature)
    case _ => false
  }

  /** Split and parse what decryption gave; any failure reads as no content. */
  function Unsealed(c: Crypto, plain: Option<Buffer>): Option<(Buffer, Content)> {
    match plain
    case None => None
    case Some(p) =>
      match SplitKey(p)
      case Thrown => None
      case Returned((sk, data)) =>
        match c.parse(data)
        case None => None
        case Some(content) => Some((sk, content))
  }

  /** Verify, decrypt, split and parse; any failure on the way reads as no content. */
  function Open(c: Crypto, key: Buffer, id: string, raw: Buffer): Option<(Buffer, Content)> {
    if !Verifies(c, id, raw) then None
    else
      match UnwrapPayload(Deserialize(raw).value.value.payload)
      case Thrown => None
      case Returned(p) => Unsealed(c, c.decrypt(key, p.seed, p.vault))
  }

  /** The ciphertext inside a sealing. */
  function Inside(c: Crypto, key: Buffer, sk: Buffer, content: Content, noise: Noise): Buffer
    requires Joined(sk, c.stringify(content)).Returned?
  {
    c.encrypt(key, noise.seed, Joined(sk, c.stringify(content)).value)
  }

  /** The way back to signature and ciphertext is the same for every reader: what remains is one decryption. */
  lemma OpenWith(c: Crypto, key: Buffer, sk: Buffer, content: Content, noise: Noise, id: string, key': Buffer)
    requires Seal(c, key, sk, content, noise).Returned?
    ensures var raw := Seal(c, key, sk, content, noise).value;
            && (c.Owns(id, sk) ==> Verifies(c, id, raw))
            && (c.UniformAt(id, sk) && Verifies(c, id, raw) ==> c.Owns(id, sk))
            && Open(c, key', id, raw) ==
               if Verifies(c, id, raw) then Unsealed(c, c.decrypt(key', noise.seed, Inside(c, key, sk, content, noise))) else None
  {
    var p := VaultPayload(0, noise.seed, Inside(c, key, sk, content, noise));
    var payload := Wrapped(p).value;
    var d := Dataset(c.sign(sk, payload, noise.nonce).value, payload);
    assert Serialized(d).value + [] == Serialized(d).value && payload + [] == payload;
    DeserializeSerialize(d, []);
    UnwrapWrap(p, []);
  }

  /** Whatever the password decrypts to, its frame decides what opening finds. */
  lemma OpensTo(
    c: Crypto, key: Buffer, sk: Buffer, content: Content, noise: Noise, id: string,
    key': Buffer, sk': Buffer, data: Buffer)
    requires c.Owns(id, sk) && Seal(c, key, sk, content, noise).Returned? && Joined(sk', data).Returned?
    requires c.decrypt(key', noise.seed, Inside(c, key, sk, content, noise)) == Some(Joined(sk', data).value)
    ensures Verifies(c, id, Seal(c, key, sk, content, noise).value)
    ensures Open(c, key', id, Seal(c, key, sk, content, noise).value) ==
            if c.parse(data).Some? then Some((sk', c.parse(data).value)) else None
  {
    OpenWith(c, key, sk, content, noise, id, key');
    assert KeyFrame(sk', data) + [] == KeyFrame(sk', data);
    SplitJoin(sk', data, []);
  }

  /**
   What was sealed verifies under every id that owns the key, and opens to the same
   private key and content under the same password.
   */
  lemma OpenSeal(c: Crypto, key: Buffer, sk: Buffer, content: Content, noise: Noise, id: string)
    requires c.Lawful() && c.Owns(id, sk) && Seal(c, key, sk, content, noise).Returned?
    ensures Verifies(c, id, Seal(c, key, sk, content, noise).value)
    ensures Open(c, key, id, Seal(c, key, sk, content, noise).value) == Some((sk, content))
  {
    OpensTo(c, key, sk, content, noise, id, key, sk, c.stringify(content));
  }

  /** It verifies under an id exactly if that owns the key, provided the id treats all signatures of the key alike. */
  lemma SealVerifies(c: Crypto, key: Buffer, sk: Buffer, content: Content, noise: Noise, id: string)
    requires c.UniformAt(id, sk) && Seal(c, key, sk, content, noise).Returned?
    ensures Verifies(c, id, Seal(c, key, sk, content, noise).value) <==> c.Owns(id, sk)
  {
    OpenWith(c, key, sk, content, noise, id, key);
  }

  // ---- the laws are consistent, and they leave room for a wrong password ----

  /** A toy instance over given JSON: ciphers as given, a signature is the bare key, the id spells the key out. */
  ghost function Toy(
    cipher: (Buffer, Buffer, Buffer) -> Buffer, stringify: Content -> Buffer, parse: Buffer -> Option<Content>): Crypto
  {
    var idOf: Buffer -> string := sk => seq(|sk|, i requires 0 <= i < |sk| => sk[i] as char);
    Crypto(cipher, (key, seed, data) => Some(cipher(key, seed, data)), (sk, data, nonce) => Some(sk),
           (id, data, signature) => id == idOf(signature), idOf, stringify, parse)
  }

  /** Given JSON that parses what it prints, every self-inverse cipher makes a lawful instance, uniform everywhere. */
  lemma ToyIsLawful(
    cipher: (Buffer, Buffer, Buffer) -> Buffer, stringify: Content -> Buffer, parse: Buffer -> Option<Content>)
    requires forall key, seed, data :: cipher(key, seed, cipher(key, seed, data)) == data
    requires forall content :: parse(stringify(content)) == Some(content)
    ensures Toy(cipher, stringify, parse).Lawful()
    ensures forall id, sk :: Toy(cipher, stringify, parse).UniformAt(id, sk)
  {
    var c := Toy(cipher, stringify, parse);
    assert forall id, sk :: id == c.idOf(sk) ==> c.Owns(id, sk);
  }

  /** A cipher that does nothing under the empty key and exchanges two texts under every other. */
  ghost function Exchanging(one: Buffer, other: Buffer): (Buffer, Buffer, Buffer) -> Buffer {
    (key, seed, data) => if key == [] then data else if data == one then other else if data == other then one else data
  }

  /** Under it a wrong password opens what was sealed, to a foreign private key. */
  lemma WrongPasswordOpens(stringify: Content -> Buffer, parse: Buffer -> Option<Content>, noise: Noise, key: Buffer)
    requires forall content :: parse(stringify(content)) == Some(content)
    requires |stringify(map[])| <= 1000 && |noise.seed| <= 1000 && key != []
    ensures var (one, other) := (KeyFrame([1], stringify(map[])), KeyFrame([2], stringify(map[])));
            var c := Toy(Exchanging(one, other), stringify, parse);
            var sealed := Seal(c, [], [1], map[], noise);
            && c.Lawful() && (forall id, sk :: c.UniformAt(id, sk)) && sealed.Returned?
            && c.idOf([1]) != "" && !c.Owns(c.idOf([1]), [2])
            && Open(c, key, c.idOf([1]), sealed.value) == Some(([2], map[]))
            && Seal(c, key, [2], map[], noise).Returned?
  {
    var data := stringify(map[]);
    var (one, other) := (KeyFrame([1], data), KeyFrame([2], data));
    var c := Toy(Exchanging(one, other), stringify, parse);
    ToyIsLawful(Exchanging(one, other), stringify, parse);
    ToySeals(c, [], [1], noise, one);
    ToySeals(c, key, [2], noise, one);
    OpensTo(c, [], [1], map[], noise, c.idOf([1]), key, [2], data);
    assert c.idOf([1])[0] != c.idOf([2])[0];
    assert c.sign([2], [], []) == Some([2]) && !c.verify(c.idOf([1]), [], [2]);
  }

  lemma ToySeals(c: Crypto, key: Buffer, sk: Buffer, noise: Noise, inside: Buffer)
    requires |sk| <= 1000 && |c.stringify(map[])| <= 1000 && |noise.seed| <= 1000 && |inside| <= 10_000
    requires c.encrypt(key, noise.seed, KeyFrame(sk, c.stringify(map[]))) == inside
    requires forall data, nonce :: c.sign(sk, data, nonce) == Some(sk)
    ensures Seal(c, key, sk, map[], noise).Returned? && Inside(c, key, sk, map[], noise) == inside
  {
  }
}
