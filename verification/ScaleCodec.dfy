/** The hand-written encoder and decoder of proofs, and those of certificates. */
module ScaleCodec {
  import opened MerkleTree
  import opened Labels
  import opened Scale

  class Encoder {
    var out: Bytes

    constructor ()
      ensures out == []
    {
      out := [];
    }

    method EncodeLen(n: nat, limit: nat) returns (ok: bool, written: nat)
      requires limit < 0x1_0000_0000
      modifies this
      ensures ok <==> n <= limit
      ensures ok ==> out == old(out) + Compact(n) && written == |Compact(n)|
      ensures !ok ==> out == old(out)
    {
      if n > limit {
        return false, 0;
      }
      out := out + Compact(n);
      return true, |Compact(n)|;
    }

    method EncodeByteSliceWithLimit(data: Bytes, limit: nat) returns (ok: bool, written: nat)
      requires limit < 0x1_0000_0000
      modifies this
      ensures ok <==> Fits(data, limit)
      ensures ok ==> out == old(out) + SliceBytes(data) && written == |SliceBytes(data)|
      ensures !ok ==> out == old(out)
    {
      ok, written := EncodeLen(|data|, limit);
      if ok {
        out := out + data;
        written := written + |data|;
      }
    }

    method EncodeSlices(slices: seq<Bytes>, outerLimit: nat, innerLimit: nat) returns (ok: bool, total: nat)
      requires outerLimit < 0x1_0000_0000 && innerLimit < 0x1_0000_0000
      modifies this
      ensures ok <==> |slices| <= outerLimit && AllFit(slices, innerLimit)
      ensures ok ==> out == old(out) + (Compact(|slices|) + SlicesBytes(slices))
                     && total == |Compact(|slices|) + SlicesBytes(slices)|
      ensures old(out) <= out
    {
      hide Compact;
      var n;
      ok, total := EncodeLen(|slices|, outerLimit);
      if !ok {
        return;
      }
      ghost var start, head := old(out), Compact(|slices|);
      ghost var done: Bytes := [];
      assert slices[0..] == slices;
      for i := 0 to |slices|
        invariant AllFit(slices[..i], innerLimit)
        invariant out == start + (head + done) && total == |head + done|
        invariant AllFit(slices, innerLimit) ==>
                    AllFit(slices[i..], innerLimit) && done + SlicesBytes(slices[i..]) == SlicesBytes(slices)
      {
        ok, n := EncodeByteSliceWithLimit(slices[i], innerLimit);
        if !ok {
          assert slices[i] in slices;
          return;
        }
        assert slices[..i + 1] == slices[..i] + [slices[i]];
        NextSlice(slices, i, innerLimit, done);
        done := done + SliceBytes(slices[i]);
        total := total + n;
      }
      assert slices[..|slices|] == slices;
      ok := true;
    }

    /** Everything within limits is encoded, and the byte count is reported; anything beyond is refused. */
    method EncodeProof(p: WireProof) returns (ok: bool, total: nat)
      modifies this
      ensures ok <==> WithinLimits(p)
      ensures ok ==> out == old(out) + ProofBytes(p) && total == |ProofBytes(p)|
      ensures old(out) <= out
    {
      hide Compact, SliceBytes, SlicesBytes;
      var n;
      ok, total := EncodeByteSliceWithLimit(p.root, NODE_SIZE);
      if !ok {
        return;
      }
      ok, n := EncodeSlices(p.provenLeaves, MAX_LEAVES, NODE_SIZE);
      if !ok {
        return;
      }
      total := total + n;
      ok, n := EncodeSlices(p.proofNodes, MAX_NODES, NODE_SIZE);
      if !ok {
        return;
      }
      total := total + n;
    }

    /** The expiration goes out in whole seconds, as an option; a key that is too long is refused. */
    method EncodeCert(c: Cert) returns (ok: bool, total: nat)
      requires c.expiration.Some? ==> IsTime(c.expiration.value)
      modifies this
      ensures ok <==> Fits(c.pubkey, 32)
      ensures ok ==> out == old(out) + CertBytes(c) && total == |CertBytes(c)|
      ensures !ok ==> out == old(out)
    {
      hide Compact, SliceBytes;
      ok, total := EncodeByteSliceWithLimit(c.pubkey, 32);
      if !ok {
        return;
      }
      match c.expiration {
        case None =>
          out, total := out + [0], total + 1;
        case Some(t) =>
          var number := Compact(Unsigned(t.seconds));
          out, total := out + [1], total + 1;
          out, total := out + number, total + |number|;
      }
    }
  }

  lemma NextSlice(slices: seq<Bytes>, i: nat, limit: nat, done: Bytes)
    requires i < |slices| && Fits(slices[i], limit)
    ensures AllFit(slices[i..], limit) ==>
              && AllFit(slices[i + 1..], limit)
              && done + SlicesBytes(slices[i..]) == (done + SliceBytes(slices[i])) + SlicesBytes(slices[i + 1..])
  {
    if AllFit(slices[i..], limit) {
      assert slices[i..][1..] == slices[i + 1..];
      assert forall s | s in slices[i + 1..] :: s in slices[i..];
    }
  }

  class Decoder {
    /** What has not been read yet. */
    var input: Bytes

    constructor (input: Bytes)
      ensures this.input == input
    {
      this.input := input;
    }

    method DecodeByteSliceWithLimit(limit: nat) returns (data: Option<Bytes>, read: nat)
      modifies this
      ensures match DecodeSlice(old(input), limit)
              case Error => data.None?
              case Ok(v, rest) => data == Some(v) && input == rest && read == |old(input)| - |rest|
      ensures data.Some? ==> |data.value| <= limit
    {
      DecodedSliceFits(input, limit);
      var before := input;
      match DecodeSlice(input, limit) {
        case Error => return None, 0;
        case Ok(v, rest) =>
          input := rest;
          DecodingShrinks(before, limit);
          return Some(v), |before| - |rest|;
      }
    }

    /** A failure reports no bytes at all. */
    method DecodeSliceOfByteSliceWithLimit(outerLimit: nat, innerLimit: nat) returns (r: Option<seq<Bytes>>, total: nat)
      modifies this
      ensures match DecodeSlices(old(input), outerLimit, innerLimit)
              case Error => r.None? && total == 0
              case Ok(v, rest) => r == Some(v) && input == rest && total == |old(input)| - |rest|
      ensures r.Some? ==> |r.value| <= outerLimit && forall s | s in r.value :: |s| <= innerLimit
    {
      hide DecodeCompact, DecodeSlice;
      DecodedSlicesFit(input, outerLimit, innerLimit);
      ghost var start := input;
      var before := |input|;
      var count := 0;
      match DecodeLen(input, outerLimit) {
        case Error => return None, 0;
        case Ok(n, rest) =>
          LenShrinks(input, outerLimit);
          count, input := n, rest;
      }
      total := before - |input|;
      var result: seq<Bytes> := [];
      ghost var all := DecodeMany(input, count, innerLimit);
      assert all.Ok? ==> result + all.value == all.value;
      for i := 0 to count
        invariant total == before - |input|
        invariant DecodeSlices(start, outerLimit, innerLimit)
                  == match DecodeMany(input, count - i, innerLimit)
                     case Error => Error
                     case Ok(others, rest) => Ok(result + others, rest)
      {
        ghost var last := input;
        var val, n := DecodeByteSliceWithLimit(innerLimit);
        if val.None? {
          return None, 0;
        }
        ghost var tail := DecodeMany(input, count - i - 1, innerLimit);
        if tail.Ok? {
          assert result + ([val.value] + tail.value) == (result + [val.value]) + tail.value;
        }
        result := result + [val.value];
        total := total + n;
      }
      assert result + [] == result;
      r := Some(result);
    }

    /** The decoder reads a proof, exactly as many bytes as it reports. */
    method DecodeProof() returns (p: Option<WireProof>, total: nat)
      modifies this
      ensures match Scale.DecodeProof(old(input))
              case Error => p.None?
              case Ok(v, rest) => p == Some(v) && input == rest && total == |old(input)| - |rest|
      ensures p.Some? ==> WithinLimits(p.value)
    {
      hide DecodeSlice, DecodeSlices;
      DecodedProofFits(input);
      total := 0;
      var root, n := DecodeByteSliceWithLimit(NODE_SIZE);
      if root.None? {
        return None, total;
      }
      total := total + n;
      var leaves, nodes;
      leaves, n := DecodeSliceOfByteSliceWithLimit(MAX_LEAVES, NODE_SIZE);
      if leaves.None? {
        return None, total;
      }
      total := total + n;
      nodes, n := DecodeSliceOfByteSliceWithLimit(MAX_NODES, NODE_SIZE);
      if nodes.None? {
        return None, total;
      }
      total := total + n;
      p := Some(WireProof(root.value, leaves.value, nodes.value));
    }

    method DecodeCert() returns (c: Option<Cert>, total: nat)
      modifies this
      ensures match Scale.DecodeCert(old(input))
              case Error => c.None?
              case Ok(v, rest) => c == Some(v) && input == rest && total == |old(input)| - |rest|
      ensures c.Some? ==> |c.value.pubkey| <= 32
      ensures c.Some? && c.value.expiration.Some? ==> IsTime(c.value.expiration.value)
    {
      hide DecodeSlice, DecodeOption;
      DecodedCertFits(input);
      var pubkey, n := DecodeByteSliceWithLimit(32);
      if pubkey.None? {
        return None, 0;
      }
      total := n;
      var before := input;
      match DecodeOption(input) {
        case Error => return None, total;
        case Ok(expiration, rest) =>
          OptionShrinks(before);
          input, total := rest, total + (|before| - |rest|);
          return Some(Cert(pubkey.value, expiration)), total;
      }
    }
  }

  lemma OptionShrinks(b: Bytes)
    ensures var d := DecodeOption(b); d.Ok? ==> |d.rest| <= |b|
  {
  }

  lemma LenShrinks(b: Bytes, limit: nat)
    ensures var d := DecodeLen(b, limit); d.Ok? ==> |d.rest| <= |b|
  {
  }

  lemma DecodingShrinks(b: Bytes, limit: nat)
    ensures var d := DecodeSlice(b, limit); d.Ok? ==> |d.rest| <= |b|
  {
    LenShrinks(b, limit);
  }

  /** What the encoder writes, the decoder reads back, whatever follows, and both report the same byte count. */
  method EncodeThenDecode(p: WireProof, following: Bytes) returns (decoded: Option<WireProof>, written: nat, read: nat)
    requires WithinLimits(p)
    ensures decoded == Some(p) && written == read == |ProofBytes(p)|
  {
    hide ProofBytes, Scale.DecodeProof;
    var ok;
    var enc := new Encoder();
    ok, written := enc.EncodeProof(p);
    ProofRoundTrip(p, following);
    var dec := new Decoder(enc.out + following);
    assert enc.out + following == ProofBytes(p) + following;
    decoded, read := dec.DecodeProof();
    assert |dec.input| == |following|;
  }

  /** What the encoder writes for a certificate, the decoder reads back, its expiration cut to whole seconds; and both
      report the same byte count. */
  method EncodeThenDecodeCert(c: Cert, following: Bytes) returns (decoded: Option<Cert>, written: nat, read: nat)
    requires Fits(c.pubkey, 32) && (c.expiration.Some? ==> IsTime(c.expiration.value))
    ensures decoded == Some(WholeSeconds(c)) && written == read == |CertBytes(c)|
  {
    hide CertBytes, Scale.DecodeCert;
    var ok;
    var enc := new Encoder();
    ok, written := enc.EncodeCert(c);
    CertRoundTrip(c, following);
    var dec := new Decoder(enc.out + following);
    assert enc.out + following == CertBytes(c) + following;
    decoded, read := dec.DecodeCert();
    assert |dec.input| == |following|;
  }
}
