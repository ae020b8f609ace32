/**
 The three frames of a stored vault in TypeScript: key and data inside the ciphertext,
 seed and ciphertext inside the payload, signature and payload in the stored dataset.
 */
module Codec {
  import opened Outcomes
  import opened Bytes

  /** Two integers, two lengths, two buffers: the layout of the payload and of the dataset. */
  function Framed(a: int, b: int, first: Buffer, second: Buffer): Buffer
    requires IsInt32(a) && IsInt32(b) && |first| <= INT32_MAX && |second| <= INT32_MAX
  {
    Int32LE(a) + Int32LE(b) + Int32LE(|first|) + Int32LE(|second|) + first + second
  }

  /** Each buffer behind its own length: the layout of key and data. */
  function KeyFrame(key: Buffer, data: Buffer): Buffer
    requires |key| <= INT32_MAX && |data| <= INT32_MAX
  {
    Int32LE(|key|) + key + Int32LE(|data|) + data
  }

  // ---- encoders: headers are filled in place ----

  /** Writes four integers into a fresh 16-byte header; any out of range throws. */
  method FillHeader(a: int, b: int, c: int, d: int) returns (header: Attempt<Buffer>)
    ensures header == if IsInt32(a) && IsInt32(b) && IsInt32(c) && IsInt32(d)
                      then Returned(Int32LE(a) + Int32LE(b) + Int32LE(c) + Int32LE(d)) else Thrown
  {
    var h := new Byte[16](_ => 0);
    var ok := WriteInt32LE(h, a, 0);
    if !ok {
      return Thrown;
    }
    assert h[..4] == h[0..4];
    ok := WriteInt32LE(h, b, 4);
    if !ok {
      return Thrown;
    }
    assert h[..8] == h[..4] + h[4..8];
    ok := WriteInt32LE(h, c, 8);
    if !ok {
      return Thrown;
    }
    assert h[..12] == h[..8] + h[8..12];
    ok := WriteInt32LE(h, d, 12);
    if !ok {
      return Thrown;
    }
    assert h[..] == h[..12] + h[12..16];
    header := Returned(h[..]);
  }

  datatype VaultPayload = VaultPayload(payloadType: int, seed: Buffer, vault: Buffer)

  method WrapPayload(payload: VaultPayload) returns (frame: Attempt<Buffer>)
    ensures frame == Wrapped(payload)
  {
    var header := FillHeader(payload.payloadType, 0, |payload.seed|, |payload.vault|);
    if header.Thrown? {
      return Thrown;
    }
    frame := Returned(header.value + payload.seed + payload.vault);
  }

  function Wrapped(p: VaultPayload): Attempt<Buffer> {
    if IsInt32(p.payloadType) && |p.seed| <= INT32_MAX && |p.vault| <= INT32_MAX
    then Returned(Framed(p.payloadType, 0, p.seed, p.vault)) else Thrown
  }

  /** The parts of a version 0 dataset that vary; its signature algorithm is always SHA512, number 0. */
  datatype Dataset = Dataset(signature: Buffer, payload: Buffer)

  const SHA512 := 0

  method Serialize(d: Dataset) returns (frame: Attempt<Buffer>)
    ensures frame == Serialized(d)
  {
    var header := FillHeader(0, SHA512, |d.signature|, |d.payload|);
    if header.Thrown? {
      return Thrown;
    }
    frame := Returned(header.value + d.signature + d.payload);
  }

  function Serialized(d: Dataset): Attempt<Buffer> {
    if |d.signature| <= INT32_MAX && |d.payload| <= INT32_MAX
    then Returned(Framed(0, SHA512, d.signature, d.payload)) else Thrown
  }

  method JoinKey(payload: Buffer, privateKey: Buffer) returns (frame: Attempt<Buffer>)
    ensures frame == Joined(privateKey, payload)
  {
    var size := new Byte[8](_ => 0);
    var ok := WriteInt32LE(size, |privateKey|, 0);
    if !ok {
      return Thrown;
    }
    assert size[..4] == size[0..4];
    ok := WriteInt32LE(size, |payload|, 4);
    if !ok {
      return Thrown;
    }
    frame := Returned(size[..4] + privateKey + size[4..8] + payload);
  }

  function Joined(key: Buffer, data: Buffer): Attempt<Buffer> {
    if |key| <= INT32_MAX && |data| <= INT32_MAX then Returned(KeyFrame(key, data)) else Thrown
  }

  // ---- decoders ----

  /** The algorithm field is left out: no number maps back to an algorithm, so it is always undefined. */
  function UnwrapPayload(wrapped: Buffer): Attempt<VaultPayload> {
    match (ReadInt32LE(wrapped, 8), ReadInt32LE(wrapped, 12), ReadInt32LE(wrapped, 0), ReadInt32LE(wrapped, 4))
    case (Returned(seedSize), Returned(vaultSize), Returned(payloadType), Returned(_)) =>
      var seedStart := SliceFrom(wrapped, 16);
      var vaultStart := SliceFrom(seedStart, seedSize);
      Returned(VaultPayload(payloadType, Slice(seedStart, 0, seedSize), Slice(vaultStart, 0, vaultSize)))
    case _ => Thrown
  }

  /** Version 0: any algorithm number ends up as SHA512 through the default parameter. */
  function DeserializeV0(content: Buffer): Attempt<Dataset> {
    match (ReadInt32LE(content, 0), ReadInt32LE(content, 4), ReadInt32LE(content, 8))
    case (Returned(_), Returned(signatureSize), Returned(payloadSize)) =>
      var signatureStart := SliceFrom(content, 12);
      Returned(Dataset(Slice(signatureStart, 0, signatureSize),
                       Slice(signatureStart, signatureSize, signatureSize + payloadSize)))
    case _ => Thrown
  }

  /** The version dispatch: only version 0 is known, any other is null. */
  function Deserialize(content: Buffer): Attempt<Option<Dataset>> {
    match ReadInt32LE(content, 0)
    case Thrown => Thrown
    case Returned(version) =>
      if version != 0 then Returned(None)
      else
        match DeserializeV0(SliceFrom(content, 4))
        case Thrown => Thrown
        case Returned(d) => Returned(Some(d))
  }

  /** The private key and the data. */
  function SplitKey(payload: Buffer): Attempt<(Buffer, Buffer)> {
    match ReadInt32LE(payload, 0)
    case Thrown => Thrown
    case Returned(keySize) =>
      var keyStart := SliceFrom(payload, 4);
      match ReadInt32LE(keyStart, keySize)
      case Thrown => Thrown
      case Returned(dataSize) =>
        var dataStart := SliceFrom(keyStart, 4 + keySize);
        Returned((Slice(keyStart, 0, keySize), Slice(dataStart, 0, dataSize)))
  }

  // ---- round trips, with anything appended ----

  /** Where the header integers and the two buffers lie in a frame. */
  lemma FramedParts(a: int, b: int, first: Buffer, second: Buffer, tail: Buffer)
    requires IsInt32(a) && IsInt32(b) && |first| <= INT32_MAX && |second| <= INT32_MAX
    ensures var (f, m, n) := (Framed(a, b, first, second) + tail, |first|, |second|);
            && |f| == 16 + m + n + |tail|
            && Int32At(f, 0) == a && Int32At(f, 4) == b && Int32At(f, 8) == m && Int32At(f, 12) == n
            && f[16..16 + m] == first && f[16 + m..16 + m + n] == second
  {
  }

  lemma FramedAlone(a: int, b: int, first: Buffer, second: Buffer)
    requires IsInt32(a) && IsInt32(b) && |first| <= INT32_MAX && |second| <= INT32_MAX
    ensures var (f, m, n) := (Framed(a, b, first, second), |first|, |second|);
            && |f| == 16 + m + n && f[16..] == first + second
            && Int32At(f, 0) == a && Int32At(f, 4) == b && Int32At(f, 8) == m && Int32At(f, 12) == n
  {
    var f := Framed(a, b, first, second);
    FramedParts(a, b, first, second, []);
    assert f + [] == f;
  }

  /** When each encoder succeeds, and what stands where in its frame. */
  lemma WrappedLayout(p: VaultPayload)
    ensures Wrapped(p).Returned? <==> IsInt32(p.payloadType) && |p.seed| <= INT32_MAX && |p.vault| <= INT32_MAX
    ensures Wrapped(p).Returned? ==>
              var f := Wrapped(p).value;
              && |f| == 16 + |p.seed| + |p.vault| && f[16..] == p.seed + p.vault
              && Int32At(f, 0) == p.payloadType && Int32At(f, 4) == 0
              && Int32At(f, 8) == |p.seed| && Int32At(f, 12) == |p.vault|
  {
    if Wrapped(p).Returned? {
      FramedAlone(p.payloadType, 0, p.seed, p.vault);
    }
  }

  lemma SerializedLayout(d: Dataset)
    ensures Serialized(d).Returned? <==> |d.signature| <= INT32_MAX && |d.payload| <= INT32_MAX
    ensures Serialized(d).Returned? ==>
              var f := Serialized(d).value;
              && |f| == 16 + |d.signature| + |d.payload| && f[16..] == d.signature + d.payload
              && Int32At(f, 0) == 0 && Int32At(f, 4) == 0
              && Int32At(f, 8) == |d.signature| && Int32At(f, 12) == |d.payload|
  {
    if Serialized(d).Returned? {
      FramedAlone(0, 0, d.signature, d.payload);
    }
  }

  lemma JoinedLayout(key: Buffer, data: Buffer)
    ensures Joined(key, data).Returned? <==> |key| <= INT32_MAX && |data| <= INT32_MAX
    ensures Joined(key, data).Returned? ==>
              var (f, m, n) := (Joined(key, data).value, |key|, |data|);
              && |f| == 8 + m + n && Int32At(f, 0) == m && f[4..4 + m] == key
              && Int32At(f, 4 + m) == n && f[8 + m..] == data
  {
    if Joined(key, data).Returned? {
      KeyFrameParts(key, data, []);
      assert Joined(key, data).value + [] == Joined(key, data).value;
    }
  }

  /** What unwrapping makes of any buffer that announces parts which are all there. */
  lemma UnwrapFrame(f: Buffer, m: nat, n: nat)
    requires |f| >= 16 + m + n && Int32At(f, 8) == m && Int32At(f, 12) == n
    ensures UnwrapPayload(f) == Returned(VaultPayload(Int32At(f, 0), f[16..16 + m], f[16 + m..16 + m + n]))
  {
    assert SliceFrom(f, 16) == f[16..];
    Behind(f, 16, 16, 16 + m);
    assert SliceFrom(f[16..], m) == f[16 + m..];
    Behind(f, 16 + m, 16 + m, 16 + m + n);
  }

  lemma UnwrapWrap(p: VaultPayload, tail: Buffer)
    requires Wrapped(p).Returned?
    ensures UnwrapPayload(Wrapped(p).value + tail) == Returned(p)
  {
    FramedParts(p.payloadType, 0, p.seed, p.vault, tail);
    UnwrapFrame(Wrapped(p).value + tail, |p.seed|, |p.vault|);
  }

  lemma DeserializeV0Frame(g: Buffer, m: nat, n: nat)
    requires |g| >= 12 + m + n && Int32At(g, 4) == m && Int32At(g, 8) == n
    ensures DeserializeV0(g) == Returned(Dataset(g[12..12 + m], g[12 + m..12 + m + n]))
  {
    assert SliceFrom(g, 12) == g[12..];
    Behind(g, 12, 12, 12 + m);
    Behind(g, 12, 12 + m, 12 + m + n);
  }

  /** What deserializing makes of any buffer of version 0 that announces parts which are all there. */
  lemma DeserializeFrame(f: Buffer, m: nat, n: nat)
    requires |f| >= 16 + m + n && Int32At(f, 0) == 0 && Int32At(f, 8) == m && Int32At(f, 12) == n
    ensures Deserialize(f) == Returned(Some(Dataset(f[16..16 + m], f[16 + m..16 + m + n])))
  {
    var g := SliceFrom(f, 4);
    assert g == f[4..];
    DeserializeV0Frame(g, m, n);
    Behind(f, 4, 16, 16 + m);
    Behind(f, 4, 16 + m, 16 + m + n);
  }

  lemma Behind(f: Buffer, start: nat, from: nat, to: nat)
    requires start <= from <= to <= |f|
    ensures f[start..][from - start..to - start] == f[from..to]
  {
  }

  lemma DeserializeSerialize(d: Dataset, tail: Buffer)
    requires Serialized(d).Returned?
    ensures Deserialize(Serialized(d).value + tail) == Returned(Some(d))
  {
    FramedParts(0, SHA512, d.signature, d.payload, tail);
    DeserializeFrame(Serialized(d).value + tail, |d.signature|, |d.payload|);
  }

  /** What splitting makes of any buffer that announces parts which are all there. */
  lemma SplitFrame(f: Buffer, m: nat, n: nat)
    requires |f| >= 8 + m + n && Int32At(f, 0) == m && Int32At(f, 4 + m) == n
    ensures SplitKey(f) == Returned((f[4..4 + m], f[8 + m..8 + m + n]))
  {
    assert SliceFrom(f, 4) == f[4..];
    Behind(f, 4, 4, 4 + m);
    assert SliceFrom(f[4..], 4 + m) == f[8 + m..];
    Behind(f, 8 + m, 8 + m, 8 + m + n);
  }

  lemma KeyFrameParts(key: Buffer, data: Buffer, tail: Buffer)
    requires |key| <= INT32_MAX && |data| <= INT32_MAX
    ensures var (f, m, n) := (KeyFrame(key, data) + tail, |key|, |data|);
            && |f| == 8 + m + n + |tail|
            && Int32At(f, 0) == m && f[4..4 + m] == key
            && Int32At(f, 4 + m) == n && f[8 + m..8 + m + n] == data
  {
  }

  lemma SplitJoin(key: Buffer, data: Buffer, tail: Buffer)
    requires Joined(key, data).Returned?
    ensures SplitKey(Joined(key, data).value + tail) == Returned((key, data))
  {
    KeyFrameParts(key, data, tail);
    SplitFrame(KeyFrame(key, data) + tail, |key|, |data|);
  }

  /** Encoders are injective; an encoding fails exactly when a part exceeds the 32-bit length field. */
  lemma EncodersInjective(p: VaultPayload, q: VaultPayload, d: Dataset, e: Dataset, k: Buffer, x: Buffer, l: Buffer, y: Buffer)
    ensures Wrapped(p).Returned? && Wrapped(p) == Wrapped(q) ==> p == q
    ensures Serialized(d).Returned? && Serialized(d) == Serialized(e) ==> d == e
    ensures Joined(k, x).Returned? && Joined(k, x) == Joined(l, y) ==> k == l && x == y
  {
    if Wrapped(p).Returned? && Wrapped(p) == Wrapped(q) {
      UnwrapWrap(p, []);
      UnwrapWrap(q, []);
    }
    if Serialized(d).Returned? && Serialized(d) == Serialized(e) {
      DeserializeSerialize(d, []);
      DeserializeSerialize(e, []);
    }
    if Joined(k, x).Returned? && Joined(k, x) == Joined(l, y) {
      SplitJoin(k, x, []);
      SplitJoin(l, y, []);
    }
  }
}
