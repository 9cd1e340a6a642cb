/** The SCALE encoding of proofs and certificates. Compact integers are those of the SCALE codec: the two low bits of
    the first byte tell whether the number takes one, two or four bytes, or gives its own length. */
module Scale {
  import opened MerkleTree
  import opened Labels

  /** A decoder's result: a value and the bytes it did not read, or an error. */
  datatype Decoded<T> = Ok(value: T, rest: Bytes) | Error

  // ---------------------------------------------------------------------------------------------
  // Little-endian numbers and compact integers.

  function LittleEndian(x: nat, n: nat): (b: Bytes)
    ensures |b| == n
    decreases n
  {
    if n == 0 then [] else [x % 256] + LittleEndian(x / 256, n - 1)
  }

  function FromLittleEndian(b: Bytes): nat {
    if b == [] then 0 else b[0] + 256 * FromLittleEndian(b[1..])
  }

  lemma {:induction false} LittleEndianRoundTrip(x: nat, n: nat)
    requires x < Power256(n)
    ensures FromLittleEndian(LittleEndian(x, n)) == x
    decreases n
  {
    if n > 0 {
      LittleEndianRoundTrip(x / 256, n - 1);
      var b := LittleEndian(x, n);
      assert b[0] == x % 256 && b[1..] == LittleEndian(x / 256, n - 1);
    }
  }

  function Reversed(b: Bytes): (r: Bytes)
    ensures |r| == |b|
  {
    if b == [] then [] else Reversed(b[1..]) + [b[0]]
  }

  /** Little-endian is big-endian the other way round. */
  lemma {:induction false} LittleEndianIsReversed(b: Bytes)
    ensures FromLittleEndian(b) == Number(Reversed(b))
  {
    if b != [] {
      LittleEndianIsReversed(b[1..]);
      var r := Reversed(b);
      assert r[..|r| - 1] == Reversed(b[1..]);
    }
  }

  /** No other byte string of its length stands for a number. */
  lemma {:induction false} LittleEndianIsUnique(b: Bytes)
    ensures LittleEndian(FromLittleEndian(b), |b|) == b
  {
    if b != [] {
      LittleEndianIsUnique(b[1..]);
      var x, low: nat := FromLittleEndian(b), b[0];
      assert x == low + 256 * FromLittleEndian(b[1..]);
      assert x / 256 == FromLittleEndian(b[1..]) && x % 256 == low;
      assert b == [b[0]] + b[1..];
    }
  }

  /** The number of bytes that x needs, four at least. */
  function ByteCount(x: nat): (n: nat)
    ensures n >= 4 && x < Power256(n)
  {
    CountFrom(x, 4)
  }

  function CountFrom(x: nat, n: nat): (r: nat)
    ensures r >= n && x < Power256(r)
    decreases if x >= Power256(n) then x - Power256(n) + 1 else 0
  {
    if x < Power256(n) then n
    else
      PowerIsPositive(n);
      CountFrom(x, n + 1)
  }

  lemma {:induction false} PowerIsPositive(n: nat)
    ensures Power256(n) > 0
  {
    if n > 0 {
      PowerIsPositive(n - 1);
    }
  }

  lemma {:induction false} CountIsLeast(x: nat, n: nat, r: nat)
    requires n <= r && x < Power256(r)
    ensures CountFrom(x, n) <= r
    decreases r - n
  {
    if x >= Power256(n) {
      CountIsLeast(x, n + 1, r);
    }
  }

  const MODE_1: nat := 0x40
  const MODE_2: nat := 0x4000
  const MODE_3: nat := 0x4000_0000

  function Compact(x: nat): Bytes
    requires x < 0x1_0000_0000_0000_0000
  {
    if x < MODE_1 then LittleEndian(4 * x, 1)
    else if x < MODE_2 then LittleEndian(4 * x + 1, 2)
    else if x < MODE_3 then LittleEndian(4 * x + 2, 4)
    else
      FitsIn64Bits(x);
      [4 * (ByteCount(x) - 4) + 3] + LittleEndian(x, ByteCount(x))
  }

  /** The thresholds of the SCALE codec: numbers below 2^6, 2^14 and 2^30 take one, two and four bytes, others a length
      and as many bytes as they need, four at least. */
  lemma CompactSize(x: nat)
    requires x < 0x1_0000_0000_0000_0000
    ensures x < 64 ==> Compact(x) == [4 * x]
    ensures 64 <= x < 16384 ==> |Compact(x)| == 2 && FromLittleEndian(Compact(x)) == 4 * x + 1
    ensures 16384 <= x < 1073741824 ==> |Compact(x)| == 4 && FromLittleEndian(Compact(x)) == 4 * x + 2
    ensures 1073741824 <= x ==>
              var n := |Compact(x)| - 1;
              && 4 <= n <= 8 && Compact(x)[0] == 4 * (n - 4) + 3 && FromLittleEndian(Compact(x)[1..]) == x
              && (n > 4 ==> x >= Power256(n - 1))
  {
    if x < 64 {
      assert LittleEndian(4 * x, 1) == [4 * x % 256] + LittleEndian(4 * x / 256, 0);
    } else {
      hide LittleEndian, FromLittleEndian, ByteCount, Power256;
      SmallPowers();
      if x < 16384 {
        LittleEndianRoundTrip(4 * x + 1, 2);
      } else if x < 1073741824 {
        LittleEndianRoundTrip(4 * x + 2, 4);
      } else {
        FitsIn64Bits(x);
        LittleEndianRoundTrip(x, ByteCount(x));
        CountIsTight(x, 4);
        assert ByteCount(x) == CountFrom(x, 4);
        assert Compact(x)[1..] == LittleEndian(x, ByteCount(x));
      }
    }
  }

  lemma {:induction false} CountIsTight(x: nat, n: nat)
    ensures CountFrom(x, n) > n ==> x >= Power256(CountFrom(x, n) - 1)
    ensures ByteCount(x) == CountFrom(x, 4)
    decreases CountFrom(x, n) - n
  {
    if x >= Power256(n) {
      CountIsTight(x, n + 1);
    }
  }

  lemma FitsIn64Bits(x: nat)
    requires x < 0x1_0000_0000_0000_0000
    ensures ByteCount(x) <= 8
  {
    FourAndEightBytes();
    CountIsLeast(x, 4, 8);
  }

  function Take(b: Bytes, n: nat): Decoded<Bytes> {
    if n <= |b| then Ok(b[..n], b[n..]) else Error
  }

  function ShiftedNumber(b: Bytes, n: nat): Decoded<nat> {
    if n <= |b| then Ok(FromLittleEndian(b[..n]) / 4, b[n..]) else Error
  }

  function DecodeCompact(b: Bytes): Decoded<nat> {
    if b == [] then Error
    else
      var mode := b[0] % 4;
      if mode == 0 then ShiftedNumber(b, 1)
      else if mode == 1 then ShiftedNumber(b, 2)
      else if mode == 2 then ShiftedNumber(b, 4)
      else
        var n := b[0] / 4 + 4;
        if n <= 8 && n + 1 <= |b| then Ok(FromLittleEndian(b[1..n + 1]), b[n + 1..]) else Error
  }

  lemma {:induction false} LittleEndianBound(b: Bytes)
    ensures FromLittleEndian(b) < Power256(|b|)
  {
    if b != [] {
      LittleEndianBound(b[1..]);
    }
  }

  lemma {:induction false} PowerGrows(n: nat, n': nat)
    requires n <= n'
    ensures Power256(n) <= Power256(n')
    decreases n'
  {
    if n < n' {
      PowerGrows(n, n' - 1);
    }
  }

  /** Whatever the bytes, a decoded number has 64 bits. */
  lemma DecodedFits(b: Bytes)
    ensures var d := DecodeCompact(b); d.Ok? ==> d.value < 0x1_0000_0000_0000_0000
  {
    hide FromLittleEndian, Power256;
    var d := DecodeCompact(b);
    if d.Ok? {
      var n := b[0] / 4 + 4;
      var digits := match b[0] % 4 case 0 => b[..1] case 1 => b[..2] case 2 => b[..4] case _ => b[1..n + 1];
      LittleEndianBound(digits);
      PowerGrows(|digits|, 8);
      FourAndEightBytes();
    }
  }

  lemma LittleEndianHead(x: nat, n: nat)
    requires n > 0
    ensures LittleEndian(x, n)[0] % 4 == x % 4
  {
    assert LittleEndian(x, n)[0] == x % 256;
    assert x == 256 * (x / 256) + x % 256;
  }

  lemma ShiftedRoundTrip(v: nat, n: nat, rest: Bytes)
    requires v < Power256(n) && n > 0
    ensures ShiftedNumber(LittleEndian(v, n) + rest, n) == Ok(v / 4, rest)
    ensures (LittleEndian(v, n) + rest)[0] % 4 == v % 4
  {
    hide LittleEndian, FromLittleEndian, Power256;
    var b := LittleEndian(v, n);
    LittleEndianRoundTrip(v, n);
    LittleEndianHead(v, n);
    assert (b + rest)[..n] == b && (b + rest)[n..] == rest;
  }

  lemma CompactRoundTrip(x: nat, rest: Bytes)
    requires x < 0x1_0000_0000_0000_0000
    ensures DecodeCompact(Compact(x) + rest) == Ok(x, rest)
  {
    hide LittleEndian, FromLittleEndian, ShiftedNumber, ByteCount, Power256;
    if x < MODE_3 {
      SmallPowers();
      if x < MODE_1 {
        ShiftedRoundTrip(4 * x, 1, rest);
      } else if x < MODE_2 {
        ShiftedRoundTrip(4 * x + 1, 2, rest);
      } else {
        ShiftedRoundTrip(4 * x + 2, 4, rest);
      }
    } else {
      BigRoundTrip(x, rest);
    }
  }

  lemma SmallPowers()
    ensures Power256(1) == 0x100 && Power256(2) == 0x1_0000 && Power256(4) == 0x1_0000_0000
  {
  }

  lemma BigRoundTrip(x: nat, rest: Bytes)
    requires MODE_3 <= x < 0x1_0000_0000_0000_0000
    ensures DecodeCompact(Compact(x) + rest) == Ok(x, rest)
  {
    hide LittleEndian, FromLittleEndian, ShiftedNumber, ByteCount, Power256;
    FitsIn64Bits(x);
    var n := ByteCount(x);
    var digits := LittleEndian(x, n);
    LittleEndianRoundTrip(x, n);
    var b := [4 * (n - 4) + 3] + digits + rest;
    assert Compact(x) + rest == b;
    assert b[1..n + 1] == digits && b[n + 1..] == rest;
  }

  // ---------------------------------------------------------------------------------------------
  // Byte slices and slices of byte slices.

  predicate Fits(data: Bytes, limit: nat) {
    |data| <= limit < 0x1_0000_0000
  }

  predicate AllFit(slices: seq<Bytes>, limit: nat) {
    forall s | s in slices :: Fits(s, limit)
  }

  function SliceBytes(data: Bytes): Bytes
    requires |data| < 0x1_0000_0000
  {
    Compact(|data|) + data
  }

  function SlicesBytes(slices: seq<Bytes>): Bytes
    requires forall s | s in slices :: |s| < 0x1_0000_0000
  {
    if slices == [] then [] else SliceBytes(slices[0]) + SlicesBytes(slices[1..])
  }

  function DecodeLen(b: Bytes, limit: nat): Decoded<nat> {
    match DecodeCompact(b)
    case Error => Error
    case Ok(n, rest) => if n <= limit then Ok(n, rest) else Error
  }

  function DecodeSlice(b: Bytes, limit: nat): Decoded<Bytes> {
    match DecodeLen(b, limit)
    case Error => Error
    case Ok(n, rest) => Take(rest, n)
  }

  function DecodeMany(b: Bytes, count: nat, limit: nat): Decoded<seq<Bytes>>
    decreases count
  {
    if count == 0 then Ok([], b)
    else
      match DecodeSlice(b, limit)
      case Error => Error
      case Ok(first, rest) =>
        match DecodeMany(rest, count - 1, limit)
        case Error => Error
        case Ok(others, rest) => Ok([first] + others, rest)
  }

  function DecodeSlices(b: Bytes, outerLimit: nat, innerLimit: nat): Decoded<seq<Bytes>> {
    match DecodeLen(b, outerLimit)
    case Error => Error
    case Ok(n, rest) => DecodeMany(rest, n, innerLimit)
  }

  // Whatever the bytes, what is decoded is within limits.

  lemma DecodedSliceFits(b: Bytes, limit: nat)
    ensures var d := DecodeSlice(b, limit); d.Ok? ==> |d.value| <= limit
  {
    hide DecodeCompact;
  }

  lemma {:induction false} DecodedManyFit(b: Bytes, count: nat, limit: nat)
    ensures var d := DecodeMany(b, count, limit);
            d.Ok? ==> |d.value| == count && forall s | s in d.value :: |s| <= limit
    decreases count
  {
    hide DecodeSlice;
    if count > 0 {
      DecodedSliceFits(b, limit);
      var first := DecodeSlice(b, limit);
      if first.Ok? {
        DecodedManyFit(first.rest, count - 1, limit);
      }
    }
  }

  lemma DecodedSlicesFit(b: Bytes, outerLimit: nat, innerLimit: nat)
    ensures var d := DecodeSlices(b, outerLimit, innerLimit);
            d.Ok? ==> |d.value| <= outerLimit && forall s | s in d.value :: |s| <= innerLimit
  {
    hide DecodeCompact, DecodeMany;
    var n := DecodeLen(b, outerLimit);
    if n.Ok? {
      DecodedManyFit(n.rest, n.value, innerLimit);
    }
  }

  lemma SliceRoundTrip(data: Bytes, limit: nat, rest: Bytes)
    requires Fits(data, limit)
    ensures DecodeSlice(SliceBytes(data) + rest, limit) == Ok(data, rest)
  {
    hide Compact, DecodeCompact;
    CompactRoundTrip(|data|, data + rest);
    assert SliceBytes(data) + rest == Compact(|data|) + (data + rest);
    assert (data + rest)[..|data|] == data && (data + rest)[|data|..] == rest;
  }

  lemma {:induction false} ManyRoundTrip(slices: seq<Bytes>, limit: nat, rest: Bytes)
    requires AllFit(slices, limit)
    ensures DecodeMany(SlicesBytes(slices) + rest, |slices|, limit) == Ok(slices, rest)
    decreases |slices|
  {
    hide SliceBytes, DecodeSlice;
    if slices == [] {
      assert SlicesBytes(slices) + rest == rest;
    } else {
      assert forall x | x in slices[1..] :: x in slices;
      SliceRoundTrip(slices[0], limit, SlicesBytes(slices[1..]) + rest);
      ManyRoundTrip(slices[1..], limit, rest);
      assert slices == [slices[0]] + slices[1..];
      assert SlicesBytes(slices) + rest == SliceBytes(slices[0]) + (SlicesBytes(slices[1..]) + rest);
    }
  }

  lemma SlicesRoundTrip(slices: seq<Bytes>, outerLimit: nat, innerLimit: nat, rest: Bytes)
    requires AllFit(slices, innerLimit) && |slices| <= outerLimit < 0x1_0000_0000
    ensures DecodeSlices(Compact(|slices|) + SlicesBytes(slices) + rest, outerLimit, innerLimit) == Ok(slices, rest)
  {
    hide Compact, DecodeCompact, SlicesBytes, DecodeMany;
    var tail := SlicesBytes(slices) + rest;
    CompactRoundTrip(|slices|, tail);
    ManyRoundTrip(slices, innerLimit, rest);
    assert Compact(|slices|) + SlicesBytes(slices) + rest == Compact(|slices|) + tail;
  }

  // ---------------------------------------------------------------------------------------------
  // Proofs.

  const MAX_LEAVES: nat := 150
  const MAX_NODES: nat := 5400

  /** A proof as it comes off the wire, where nodes are byte slices of any length up to the limit. */
  datatype WireProof = WireProof(root: Bytes, provenLeaves: seq<Bytes>, proofNodes: seq<Bytes>)

  predicate WithinLimits(p: WireProof) {
    && Fits(p.root, NODE_SIZE)
    && |p.provenLeaves| <= MAX_LEAVES && AllFit(p.provenLeaves, NODE_SIZE)
    && |p.proofNodes| <= MAX_NODES && AllFit(p.proofNodes, NODE_SIZE)
  }

  function ProofBytes(p: WireProof): Bytes
    requires WithinLimits(p)
  {
    SliceBytes(p.root)
    + (Compact(|p.provenLeaves|) + SlicesBytes(p.provenLeaves))
    + (Compact(|p.proofNodes|) + SlicesBytes(p.proofNodes))
  }

  function DecodeProof(b: Bytes): Decoded<WireProof> {
    match DecodeSlice(b, NODE_SIZE)
    case Error => Error
    case Ok(root, rest) =>
      match DecodeSlices(rest, MAX_LEAVES, NODE_SIZE)
      case Error => Error
      case Ok(leaves, rest) =>
        match DecodeSlices(rest, MAX_NODES, NODE_SIZE)
        case Error => Error
        case Ok(nodes, rest) => Ok(WireProof(root, leaves, nodes), rest)
  }

  /** Whatever the bytes, a decoded proof has at most 150 leaves and 5400 nodes, of at most 32 bytes each. */
  lemma DecodedProofFits(b: Bytes)
    ensures var d := DecodeProof(b);
            d.Ok? ==>
              && |d.value.root| <= 32 && |d.value.provenLeaves| <= 150 && |d.value.proofNodes| <= 5400
              && (forall s | s in d.value.provenLeaves :: |s| <= 32)
              && (forall s | s in d.value.proofNodes :: |s| <= 32)
  {
    hide DecodeSlice, DecodeSlices;
    DecodedSliceFits(b, 32);
    var root := DecodeSlice(b, 32);
    if root.Ok? {
      DecodedSlicesFit(root.rest, 150, 32);
      var leaves := DecodeSlices(root.rest, 150, 32);
      if leaves.Ok? {
        DecodedSlicesFit(leaves.rest, 5400, 32);
      }
    }
  }

  /** The fields of a proof come in order: root, leaves, nodes. */
  lemma ProofVector()
    ensures ProofBytes(WireProof([9], [[8]], [[7], []])) == [4, 9] + [4, 4, 8] + [8, 4, 7, 0]
  {
    var root, leaves: seq<Bytes>, nodes: seq<Bytes> := [9], [[8]], [[7], []];
    assert leaves[1..] == [] && nodes[1..] == [[]] && nodes[1..][1..] == [];
    assert Compact(0) == [0] && Compact(1) == [4] && Compact(2) == [8];
    assert SlicesBytes(leaves) == [4, 8];
    assert SlicesBytes([[]]) == [0];
    assert SlicesBytes(nodes) == [4, 7] + [0];
  }

  /** Decoding an encoded proof gives it back and leaves exactly the bytes that follow. */
  lemma ProofRoundTrip(p: WireProof, rest: Bytes)
    requires WithinLimits(p)
    ensures DecodeProof(ProofBytes(p) + rest) == Ok(p, rest)
  {
    hide SliceBytes, DecodeSlice, Compact, SlicesBytes, DecodeSlices;
    var nodes := Compact(|p.proofNodes|) + SlicesBytes(p.proofNodes) + rest;
    var leaves := Compact(|p.provenLeaves|) + SlicesBytes(p.provenLeaves) + nodes;
    SliceRoundTrip(p.root, NODE_SIZE, leaves);
    SlicesRoundTrip(p.provenLeaves, MAX_LEAVES, NODE_SIZE, nodes);
    SlicesRoundTrip(p.proofNodes, MAX_NODES, NODE_SIZE, rest);
    assert ProofBytes(p) + rest == SliceBytes(p.root) + leaves;
  }

  // ---------------------------------------------------------------------------------------------
  // Certificates.

  /** A point in time: Unix seconds, which may be negative, and nanoseconds. */
  datatype Time = Time(seconds: int, nanos: nat)
  datatype Cert = Cert(pubkey: Bytes, expiration: Option<Time>)

  predicate IsTime(t: Time) {
    -0x8000_0000_0000_0000 <= t.seconds < 0x8000_0000_0000_0000 && t.nanos < 1_000_000_000
  }

  /** uint64 of an int64, and back. */
  function Unsigned(s: int): nat {
    if s < 0 then (s + 0x1_0000_0000_0000_0000) % 0x1_0000_0000_0000_0000 else s
  }

  function Signed(u: nat): int {
    if u < 0x8000_0000_0000_0000 then u else u - 0x1_0000_0000_0000_0000
  }

  /** The conversions are those of two's complement. */
  lemma ConversionsWrapAround(s: int, u: nat)
    requires -0x8000_0000_0000_0000 <= s < 0x8000_0000_0000_0000 && u < 0x1_0000_0000_0000_0000
    ensures 0 <= s ==> Unsigned(s) == s
    ensures Unsigned(s) < 0x1_0000_0000_0000_0000 && (Unsigned(s) == s || Unsigned(s) == s + 0x1_0000_0000_0000_0000)
    ensures Signed(u) == u || Signed(u) == u - 0x1_0000_0000_0000_0000
    ensures Signed(Unsigned(s)) == s
  {
  }

  function CertBytes(c: Cert): Bytes
    requires Fits(c.pubkey, 32) && (c.expiration.Some? ==> IsTime(c.expiration.value))
  {
    SliceBytes(c.pubkey)
    + match c.expiration
      case None => [0]
      case Some(t) => [1] + Compact(Unsigned(t.seconds))
  }

  function DecodeOption(b: Bytes): Decoded<Option<Time>> {
    if b == [] then Error
    else if b[0] == 0 then Ok(None, b[1..])
    else if b[0] == 1 then
      match DecodeCompact(b[1..])
      case Error => Error
      case Ok(u, rest) => Ok(Some(Time(Signed(u), 0)), rest)
    else Error
  }

  function DecodeCert(b: Bytes): Decoded<Cert> {
    match DecodeSlice(b, 32)
    case Error => Error
    case Ok(pubkey, rest) =>
      match DecodeOption(rest)
      case Error => Error
      case Ok(expiration, rest) => Ok(Cert(pubkey, expiration), rest)
  }

  /** Whatever the bytes, a decoded key has at most 32 bytes, and a decoded expiration is a time. */
  lemma DecodedCertFits(b: Bytes)
    ensures var d := DecodeCert(b);
            d.Ok? ==> |d.value.pubkey| <= 32 && (d.value.expiration.Some? ==> IsTime(d.value.expiration.value))
  {
    hide DecodeSlice, DecodeCompact;
    DecodedSliceFits(b, 32);
    match DecodeSlice(b, 32)
    case Error =>
    case Ok(_, rest) =>
      if rest != [] {
        DecodedFits(rest[1..]);
      }
  }

  function WholeSeconds(c: Cert): Cert {
    Cert(c.pubkey, match c.expiration case None => None case Some(t) => Some(Time(t.seconds, 0)))
  }

  /** A key, then the option of a number of seconds. */
  lemma CertVector()
    ensures CertBytes(Cert([7], None)) == [4, 7, 0]
    ensures CertBytes(Cert([7], Some(Time(1, 999)))) == [4, 7, 1, 4]
  {
    assert Compact(1) == [4];
  }

  /** A certificate survives encoding, with its expiration cut to whole seconds; so it expires no later. */
  lemma CertRoundTrip(c: Cert, rest: Bytes)
    requires Fits(c.pubkey, 32) && (c.expiration.Some? ==> IsTime(c.expiration.value))
    ensures DecodeCert(CertBytes(c) + rest) == Ok(WholeSeconds(c), rest)
  {
    hide SliceBytes, DecodeSlice, Compact, DecodeCompact;
    match c.expiration {
      case None =>
        SliceRoundTrip(c.pubkey, 32, [0] + rest);
        assert CertBytes(c) + rest == SliceBytes(c.pubkey) + ([0] + rest);
      case Some(t) =>
        var number := Compact(Unsigned(t.seconds));
        var tail := [1] + number + rest;
        SliceRoundTrip(c.pubkey, 32, tail);
        CompactRoundTrip(Unsigned(t.seconds), rest);
        assert tail[1..] == number + rest;
        assert CertBytes(c) + rest == SliceBytes(c.pubkey) + tail;
    }
  }
}
