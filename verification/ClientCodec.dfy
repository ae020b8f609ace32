/**
 The same frames in the C# client, written and read through streams with a cursor, and
 where the two implementations agree.
 */
module ClientCodec {
  import opened Outcomes
  import opened Bytes
  import opened Codec

  /** `BinaryWriter`: every write appends.  Over a memory stream, outgrowing it throws; a cipher stream takes everything. */
  class BinaryWriter {
    const inMemory: bool
    var bytes: Buffer
    var overflown: bool
    /** All that was to be written. */
    ghost var content: Buffer

    ghost predicate Valid()
      reads this
    {
      overflown == (inMemory && |content| > INT32_MAX) && (!overflown ==> bytes == content)
    }

    constructor (inMemory: bool)
      ensures Valid() && content == [] && this.inMemory == inMemory
    {
      this.inMemory, bytes, overflown, content := inMemory, [], false, [];
    }

    method Write(data: Buffer)
      requires Valid()
      modifies this
      ensures Valid() && content == old(content) + data
    {
      overflown := overflown || (inMemory && |bytes| + |data| > INT32_MAX);
      if !overflown {
        bytes := bytes + data;
      }
      content := content + data;
    }

    method WriteInt(n: int)
      requires Valid() && IsInt32(n)
      modifies this
      ensures Valid() && content == old(content) + Int32LE(n)
    {
      Write(Int32LE(n));
    }
  }

  /** `BinaryReader` over a memory stream: every read starts at the cursor and advances it. */
  class BinaryReader {
    const data: Buffer
    var pos: nat

    ghost predicate Valid()
      reads this
    {
      pos <= |data|
    }

    constructor (data: Buffer)
      ensures this.data == data && pos == 0 && Valid()
    {
      this.data, pos := data, 0;
    }

    /** Throws at the end of the stream. */
    method ReadInt32() returns (n: Attempt<int>)
      requires Valid()
      modifies this
      ensures Valid() && n == ReadInt32LE(data, old(pos))
      ensures n.Returned? ==> pos == old(pos) + 4
    {
      if pos + 4 > |data| {
        return Thrown;
      }
      n := Returned(Int32At(data, pos));
      pos := pos + 4;
    }

    /** At most `count` bytes, fewer at the end of the stream; a negative count throws. */
    method ReadBytes(count: int) returns (b: Attempt<Buffer>)
      requires Valid()
      modifies this
      ensures Valid() && b == if count < 0 then Thrown else Returned(Upto(data, old(pos), count))
      ensures b.Returned? ==> pos == old(pos) + |b.value|
    {
      if count < 0 {
        return Thrown;
      }
      var read := Upto(data, pos, count);
      b := Returned(read);
      pos := pos + |read|;
    }

    /** Fills a given array from the cursor on; what the stream does not hold stays as it was. */
    method Read(a: array<Byte>)
      requires Valid()
      modifies this, a
      ensures Valid() && pos == old(pos) + |Upto(data, old(pos), a.Length)|
      ensures a[..] == Upto(data, old(pos), a.Length) + old(a[..])[|Upto(data, old(pos), a.Length)|..]
    {
      var read := Upto(data, pos, a.Length);
      forall i | 0 <= i < |read| {
        a[i] := read[i];
      }
      pos := pos + |read|;
    }
  }

  /** The bytes from `pos` on, but no more than `count`. */
  function Upto(data: Buffer, pos: nat, count: nat): Buffer
    requires pos <= |data|
  {
    if pos + count <= |data| then data[pos..pos + count] else data[pos..]
  }

  // ---- encoders ----

  /** A frame that fits a memory stream. */
  function InStream(frame: Buffer): Attempt<Buffer> {
    if |frame| <= INT32_MAX then Returned(frame) else Thrown
  }

  /** The client's stream holds what the service writes, unless the frame outgrows a memory stream. */
  lemma StreamAgreement(p: VaultPayload, d: Dataset)
    requires Wrapped(p).Returned? && Serialized(d).Returned?
    ensures InStream(Wrapped(p).value) == Wrapped(p) <==> 16 + |p.seed| + |p.vault| <= 0x7fff_ffff
    ensures InStream(Serialized(d).value) == Serialized(d) <==> 16 + |d.signature| + |d.payload| <= 0x7fff_ffff
  {
  }

  /** C# array lengths never exceed the 32-bit range. */
  method SerializePayload(seed: Buffer, vault: Buffer) returns (frame: Attempt<Buffer>)
    requires |seed| <= INT32_MAX && |vault| <= INT32_MAX
    ensures frame == InStream(Wrapped(VaultPayload(0, seed, vault)).value)
  {
    frame := WriteFramed(0, 0, seed, vault);
  }

  method SerializeDataset(signature: Buffer, payload: Buffer) returns (frame: Attempt<Buffer>)
    requires |signature| <= INT32_MAX && |payload| <= INT32_MAX
    ensures frame == InStream(Serialized(Dataset(signature, payload)).value)
  {
    frame := WriteFramed(0, SHA512, signature, payload);
  }

  method WriteFramed(a: int, b: int, first: Buffer, second: Buffer) returns (frame: Attempt<Buffer>)
    requires IsInt32(a) && IsInt32(b) && |first| <= INT32_MAX && |second| <= INT32_MAX
    ensures frame == InStream(Framed(a, b, first, second))
  {
    var writer := new BinaryWriter(true);
    writer.WriteInt(a);
    writer.WriteInt(b);
    writer.WriteInt(|first|);
    writer.WriteInt(|second|);
    writer.Write(first);
    writer.Write(second);
    assert writer.content == Framed(a, b, first, second);
    frame := if writer.overflown then Thrown else Returned(writer.bytes);
  }

  /** What `Encrypt` feeds to the cipher stream. */
  method WriteKeyAndData(privateKey: Buffer, plaintext: Buffer) returns (frame: Buffer)
    requires |privateKey| <= INT32_MAX && |plaintext| <= INT32_MAX
    ensures Joined(privateKey, plaintext) == Returned(frame)
  {
    var writer := new BinaryWriter(false);
    writer.WriteInt(|privateKey|);
    writer.Write(privateKey);
    writer.WriteInt(|plaintext|);
    writer.Write(plaintext);
    assert writer.content == KeyFrame(privateKey, plaintext);
    frame := writer.bytes;
  }

  // ---- decoders ----

  /** `RawVaultPayload.Deserialize`: arrays of the announced sizes, padded with zeros when the stream ends early. */
  function PayloadOf(b: Buffer): Attempt<(Buffer, Buffer)> {
    if |b| < 16 then Thrown
    else
      var (m, n) := (Int32At(b, 8), Int32At(b, 12));
      if m < 0 || n < 0 then Thrown
      else
        var seed := Upto(b, 16, m);
        var vault := Upto(b, 16 + |seed|, n);
        Returned((Padded(seed, m), Padded(vault, n)))
  }

  function Zeros(n: nat): Buffer {
    seq(n, _ => 0)
  }

  lemma ZerosTail(n: nat, k: nat)
    requires k <= n
    ensures Zeros(n)[k..] == Zeros(n - k)
  {
  }

  function Padded(b: Buffer, n: nat): Buffer
    requires |b| <= n
  {
    b + Zeros(n - |b|)
  }

  method DeserializePayload(payload: Buffer) returns (r: Attempt<(Buffer, Buffer)>)
    ensures r == PayloadOf(payload)
  {
    var reader := new BinaryReader(payload);
    var payloadType := reader.ReadInt32();
    if payloadType.Thrown? { return Thrown; }
    var algorithm := reader.ReadInt32();
    if algorithm.Thrown? { return Thrown; }
    var seedSize := reader.ReadInt32();
    if seedSize.Thrown? || seedSize.value < 0 { return Thrown; }
    var seed := new Byte[seedSize.value](_ => 0);
    var vaultSize := reader.ReadInt32();
    if vaultSize.Thrown? || vaultSize.value < 0 { return Thrown; }
    var vault := new Byte[vaultSize.value](_ => 0);
    ghost var (m, n) := (seedSize.value, vaultSize.value);
    assert seed[..] == Zeros(m) && vault[..] == Zeros(n);
    reader.Read(seed);
    ZerosTail(m, |Upto(payload, 16, m)|);
    ghost var at := reader.pos;
    reader.Read(vault);
    ZerosTail(n, |Upto(payload, at, n)|);
    r := Returned((seed[..], vault[..]));
  }

  /** `VaultDataset.Deserialize`: the version is stored unchecked, the algorithm ignored. */
  function DatasetOf(b: Buffer): Attempt<(int, Dataset)> {
    if |b| < 16 then Thrown
    else
      var (m, n) := (Int32At(b, 8), Int32At(b, 12));
      if m < 0 || n < 0 then Thrown
      else
        var signature := Upto(b, 16, m);
        Returned((Int32At(b, 0), Dataset(signature, Upto(b, 16 + |signature|, n))))
  }

  method DeserializeDataset(serializedData: Buffer) returns (r: Attempt<(int, Dataset)>)
    ensures r == DatasetOf(serializedData)
  {
    var reader := new BinaryReader(serializedData);
    var version := reader.ReadInt32();
    if version.Thrown? { return Thrown; }
    var algorithm := reader.ReadInt32();
    if algorithm.Thrown? { return Thrown; }
    var signatureSize := reader.ReadInt32();
    if signatureSize.Thrown? { return Thrown; }
    var payloadSize := reader.ReadInt32();
    if payloadSize.Thrown? { return Thrown; }
    var signature := reader.ReadBytes(signatureSize.value);
    if signature.Thrown? { return Thrown; }
    var payload := reader.ReadBytes(payloadSize.value);
    if payload.Thrown? { return Thrown; }
    r := Returned((version.value, Dataset(signature.value, payload.value)));
  }

  /** The framing inside `DecryptBytes`: a key cut short leaves no length to read. */
  function KeyAndDataOf(b: Buffer): Attempt<(Buffer, Buffer)> {
    if |b| < 4 || Int32At(b, 0) < 0 then Thrown
    else
      var key := Upto(b, 4, Int32At(b, 0));
      match ReadInt32LE(b, 4 + |key|)
      case Thrown => Thrown
      case Returned(n) => if n < 0 then Thrown else Returned((key, Upto(b, 8 + |key|, n)))
  }

  method ReadKeyAndData(plaintext: Buffer) returns (r: Attempt<(Buffer, Buffer)>)
    ensures r == KeyAndDataOf(plaintext)
  {
    var binary := new BinaryReader(plaintext);
    var keySize := binary.ReadInt32();
    if keySize.Thrown? { return Thrown; }
    var privateKey := binary.ReadBytes(keySize.value);
    if privateKey.Thrown? { return Thrown; }
    var dataSize := binary.ReadInt32();
    if dataSize.Thrown? { return Thrown; }
    var data := binary.ReadBytes(dataSize.value);
    if data.Thrown? { return Thrown; }
    r := Returned((privateKey.value, data.value));
  }

  // ---- agreement with the TypeScript side, on every input ----

  /** Both throw, or both return the same seed and ciphertext. */
  predicate SamePayload(ts: Attempt<VaultPayload>, cs: Attempt<(Buffer, Buffer)>) {
    if cs.Thrown? then ts.Thrown? else ts.Returned? && (ts.value.seed, ts.value.vault) == cs.value
  }

  predicate SameDataset(ts: Attempt<Option<Dataset>>, cs: Attempt<(int, Dataset)>) {
    if cs.Thrown? then ts.Thrown? else ts == Returned(Some(cs.value.1)) && cs.value.0 == 0
  }

  /** The payload decoders agree exactly on headers cut short and on frames that are all there. */
  lemma PayloadAgreement(b: Buffer)
    ensures SamePayload(UnwrapPayload(b), PayloadOf(b)) <==>
      || |b| < 16
      || (var (m, n) := (Int32At(b, 8), Int32At(b, 12)); m >= 0 && n >= 0 && 16 + m + n <= |b|)
  {
    if |b| >= 16 {
      var (m, n) := (Int32At(b, 8), Int32At(b, 12));
      if m >= 0 && n >= 0 {
        SlicesAreUpto(b, 16, m, n);
        PaddedWhole(Upto(b, 16, m), m);
        PaddedWhole(Upto(b, 16 + |Upto(b, 16, m)|, n), n);
      }
    }
  }

  lemma PaddedAt(b: Buffer, at: nat, n: nat, i: nat)
    requires at <= |b| && i < n
    ensures Padded(Upto(b, at, n), n)[i] == if at + i < |b| then b[at + i] else 0
  {
    var read := Upto(b, at, n);
    assert i < |read| ==> read[i] == b[at + i];
  }

  /** Of a payload cut short the client keeps the announced sizes: what is there, then zeros, seed first. */
  lemma TruncatedPayload(b: Buffer)
    requires |b| >= 16 && Int32At(b, 8) >= 0 && Int32At(b, 12) >= 0
    ensures PayloadOf(b).Returned?
    ensures var (m, n, (seed, vault)) := (Int32At(b, 8), Int32At(b, 12), PayloadOf(b).value);
            && |seed| == m && |vault| == n
            && (forall i :: 0 <= i < m ==> seed[i] == if 16 + i < |b| then b[16 + i] else 0)
            && (forall i :: 0 <= i < n ==> vault[i] == if 16 + m + i < |b| then b[16 + m + i] else 0)
  {
    var (m, n) := (Int32At(b, 8), Int32At(b, 12));
    var at := 16 + |Upto(b, 16, m)|;
    forall i | 0 <= i < m ensures Padded(Upto(b, 16, m), m)[i] == if 16 + i < |b| then b[16 + i] else 0 {
      PaddedAt(b, 16, m, i);
    }
    forall i | 0 <= i < n ensures Padded(Upto(b, at, n), n)[i] == if 16 + m + i < |b| then b[16 + m + i] else 0 {
      PaddedAt(b, at, n, i);
    }
  }

  lemma PaddedWhole(b: Buffer, n: nat)
    requires |b| <= n
    ensures Padded(b, n) == b <==> |b| == n
  {
  }

  /** The dataset decoders agree even on truncated buffers; they part on other versions and negative sizes. */
  lemma DatasetAgreement(b: Buffer)
    ensures SameDataset(Deserialize(b), DatasetOf(b)) <==>
      || |b| < 4
      || (Int32At(b, 0) == 0 && (|b| < 16 || (Int32At(b, 8) >= 0 && Int32At(b, 12) >= 0)))
  {
    var rest := SliceFrom(b, 4);
    if |b| >= 16 {
      var (m, n) := (Int32At(b, 8), Int32At(b, 12));
      assert SliceFrom(rest, 12) == b[16..];
      if m >= 0 && n >= 0 {
        assert Slice(b[16..], 0, m) == Upto(b, 16, m);
        assert Slice(b[16..], m, m + n) == Upto(b, 16 + |Upto(b, 16, m)|, n);
      }
    }
  }

  /** The key and data decoders agree on all inputs but one kind: a whole key followed by a negative data size. */
  lemma KeyAndDataAgreement(b: Buffer)
    ensures SplitKey(b) == KeyAndDataOf(b) <==>
      !(|b| >= 8 && (var m := Int32At(b, 0); 0 <= m <= |b| - 8 && Int32At(b, 4 + m) < 0))
  {
    if |b| >= 4 && Int32At(b, 0) >= 0 {
      var (m, keyStart) := (Int32At(b, 0), SliceFrom(b, 4));
      assert keyStart == b[4..];
      if 8 + m <= |b| {
        assert Slice(keyStart, 0, m) == Upto(b, 4, m);
        var n := Int32At(b, 4 + m);
        if n >= 0 {
          assert SliceFrom(keyStart, 4 + m) == b[8 + m..];
          assert Slice(b[8 + m..], 0, n) == Upto(b, 8 + m, n);
        }
      }
    }
  }

  /** Hence the client reads every frame the service writes, whatever follows it. */
  lemma ClientReadsFrames(p: VaultPayload, d: Dataset, key: Buffer, data: Buffer, tail: Buffer)
    ensures Wrapped(p).Returned? ==> PayloadOf(Wrapped(p).value + tail) == Returned((p.seed, p.vault))
    ensures Serialized(d).Returned? ==> DatasetOf(Serialized(d).value + tail) == Returned((0, d))
    ensures Joined(key, data).Returned? ==> KeyAndDataOf(Joined(key, data).value + tail) == Returned((key, data))
  {
    if Wrapped(p).Returned? {
      FramedParts(p.payloadType, 0, p.seed, p.vault, tail);
      UnwrapWrap(p, tail);
      PayloadAgreement(Wrapped(p).value + tail);
    }
    if Serialized(d).Returned? {
      FramedParts(0, SHA512, d.signature, d.payload, tail);
      DeserializeSerialize(d, tail);
      DatasetAgreement(Serialized(d).value + tail);
    }
    if Joined(key, data).Returned? {
      KeyFrameParts(key, data, tail);
      SplitJoin(key, data, tail);
      KeyAndDataAgreement(KeyFrame(key, data) + tail);
    }
  }

  lemma SlicesAreUpto(b: Buffer, start: nat, m: nat, n: nat)
    requires start <= |b|
    ensures var tail := SliceFrom(b, start);
            && Slice(tail, 0, m) == Upto(b, start, m)
            && Slice(SliceFrom(tail, m), 0, n) == Upto(b, start + |Upto(b, start, m)|, n)
  {
    var tail := SliceFrom(b, start);
    assert Slice(tail, 0, m) == Upto(b, start, m);
    assert SliceFrom(tail, m) == b[start + |Upto(b, start, m)|..];
  }
}
