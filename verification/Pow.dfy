/** The proof of work that accompanied a submission: its hash input, its difficulty test and the nonce search. */
module Pow {
  import opened MerkleTree
  import opened Labels
  import opened FiatShamir
  import opened Scale

  const NONCES: nat := 0x1_0000_0000_0000_0000

  /** The first `expected` bits of the data are zero, as a bound on the number that the data stands for. */
  predicate HasLeadingZeros(data: Bytes, expected: nat) {
    expected <= 8 * |data| && Number(data) < Shl(1, 8 * |data| - expected)
  }

  // ---------------------------------------------------------------------------------------------
  // The leading non-zero byte tells the magnitude.

  predicate AllZero(data: Bytes) {
    forall b | b in data :: b == 0
  }

  lemma {:induction false} ShlAdds(a: nat, g: nat, h: nat)
    ensures Shl(Shl(a, g), h) == Shl(a, g + h)
    decreases g
  {
    if g != 0 {
      ShlAdds(2 * a, g - 1, h);
    }
  }

  lemma ShlByte(a: nat, h: nat)
    ensures Shl(a, h + 8) == 256 * Shl(a, h)
  {
    hide Shl;
    ShlAdds(a, h, 8);
    EightBits(Shl(a, h));
  }

  lemma EightBits(a: nat)
    ensures Shl(a, 8) == 256 * a
  {
    assert Shl(a, 8) == Shl(16 * a, 4);
  }

  lemma {:induction false} ZeroNumber(data: Bytes)
    requires AllZero(data)
    ensures Number(data) == 0
  {
    if data != [] {
      var front := data[..|data| - 1];
      assert forall b | b in front :: b in data;
      ZeroNumber(front);
      assert data[|data| - 1] in data;
    }
  }

  lemma {:induction false} Magnitude(data: Bytes, i: nat)
    requires i < |data| && AllZero(data[..i])
    ensures var (b: nat, h) := (data[i], 8 * (|data| - 1 - i)); Shl(b, h) <= Number(data) < Shl(b + 1, h)
    decreases |data|
  {
    hide Shl;
    var front, b: nat := data[..|data| - 1], data[i];
    if i == |data| - 1 {
      ZeroNumber(front);
      NoShift(b);
      NoShift(b + 1);
    } else {
      assert front[..i] == data[..i];
      Magnitude(front, i);
      var h := 8 * (|front| - 1 - i);
      ShlByte(b, h);
      ShlByte(b + 1, h);
    }
  }

  lemma NoShift(a: nat)
    ensures Shl(a, 0) == a
  {
  }

  /** A non-zero byte among the leading ones is too much. */
  lemma NonZeroByte(data: Bytes, i: nat, expected: nat)
    requires i < |data| && AllZero(data[..i]) && data[i] != 0 && 8 * (i + 1) <= expected <= 8 * |data|
    ensures !HasLeadingZeros(data, expected)
  {
    hide Shl, Number;
    var h := 8 * (|data| - 1 - i);
    Magnitude(data, i);
    ShlMonotone(1, data[i], h);
    ShlGrows(8 * |data| - expected, h);
  }

  /** Behind zero bytes, the remaining bits decide. */
  lemma RemainingBits(data: Bytes, i: nat, bits: nat)
    requires i < |data| && AllZero(data[..i]) && bits <= 8
    ensures HasLeadingZeros(data, 8 * i + bits) <==> data[i] < Shl(1, 8 - bits)
  {
    hide Shl, Number;
    var h, b: nat := 8 * (|data| - 1 - i), data[i];
    Magnitude(data, i);
    ShlAdds(1, 8 - bits, h);
    if b < Shl(1, 8 - bits) {
      ShlMonotone(b + 1, Shl(1, 8 - bits), h);
    } else {
      ShlMonotone(Shl(1, 8 - bits), b, h);
    }
  }

  /** Where whole bytes are asked for, nothing remains to be decided. */
  lemma WholeBytes(data: Bytes, i: nat)
    requires i <= |data| && AllZero(data[..i])
    ensures HasLeadingZeros(data, 8 * i)
  {
    hide Shl, Number;
    if i < |data| {
      RemainingBits(data, i, 0);
      EightBits(1);
    } else {
      assert data[..i] == data;
      ZeroNumber(data);
      NoShift(1);
    }
  }

  method CheckLeadingZeroBits(data: Bytes, expected: nat) returns (r: bool)
    requires expected < 0x8000_0000_0000_0000
    ensures r == HasLeadingZeros(data, expected)
  {
    hide Shl, Number, HasLeadingZeros, Shr;
    if |data| * 8 < expected {
      TooFew(data, expected);
      return false;
    }
    var whole, bits := expected / 8, expected % 8;
    for i := 0 to whole
      invariant AllZero(data[..i])
    {
      if data[i] != 0 {
        NonZeroByte(data, i, expected);
        return false;
      }
      assert data[..i + 1] == data[..i] + [data[i]];
    }
    if bits != 0 {
      RemainingBits(data, whole, bits);
      ShiftedOut(data[whole], 8 - bits);
      if Shr(data[whole], 8 - bits) != 0 {
        return false;
      }
    } else {
      WholeBytes(data, whole);
    }
    return true;
  }

  lemma TooFew(data: Bytes, expected: nat)
    requires |data| * 8 < expected
    ensures !HasLeadingZeros(data, expected)
  {
  }

  // ---------------------------------------------------------------------------------------------

  /** The hasher, which keeps one buffer whose last eight bytes it overwrites with each nonce. */
  class PowHasher {
    const h: Bytes -> Node
    const input: array<Byte>

    ghost predicate Valid()
      reads input
    {
      input.Length >= 8
    }

    ghost function Inputs(): Bytes
      requires Valid()
      reads input
    {
      input[..input.Length - 8]
    }

    constructor (h: Bytes -> Node, inputs: seq<Bytes>)
      ensures Valid() && fresh(input) && this.h == h && Inputs() == Flatten(inputs)
    {
      var bytes: Bytes := [];
      assert inputs[0..] == inputs;
      for k := 0 to |inputs|
        invariant bytes + Flatten(inputs[k..]) == Flatten(inputs)
      {
        FlattenNext(bytes, inputs, k);
        bytes := bytes + inputs[k];
      }
      assert bytes == Flatten(inputs);
      var all := bytes + Zeros(8);
      this.h := h;
      this.input := new Byte[|all|](k requires 0 <= k < |all| => all[k]);
      new;
      assert input[..|bytes|] == bytes;
    }

    /** Whatever nonces were hashed before, exactly the inputs followed by this nonce are hashed. */
    method Hash(nonce: nat, output: Bytes) returns (sum: Bytes)
      requires Valid()
      modifies input
      ensures Valid() && Inputs() == old(Inputs())
      ensures sum == output + h(Inputs() + LittleEndian(nonce, 8))
      ensures forall c: Bytes | |c| == 8 && Number(Reversed(c)) == nonce :: sum == output + h(Inputs() + c)
    {
      hide LittleEndian, Number, Reversed;
      NonceBytes(nonce);
      var digits := LittleEndian(nonce, 8);
      var start := input.Length - 8;
      forall k | 0 <= k < 8 {
        input[start + k] := digits[k];
      }
      assert input[..] == Inputs() + digits;
      sum := output + h(input[..]);
    }
  }

  /** A nonce is represented by the one string of eight bytes that stands for it, read backwards. */
  lemma NonceBytes(nonce: nat)
    ensures forall c: Bytes | |c| == 8 && Number(Reversed(c)) == nonce :: c == LittleEndian(nonce, 8)
  {
    hide LittleEndian, FromLittleEndian, Number, Reversed;
    forall c: Bytes | |c| == 8 && Number(Reversed(c)) == nonce
      ensures c == LittleEndian(nonce, 8)
    {
      LittleEndianIsReversed(c);
      LittleEndianIsUnique(c);
    }
  }

  predicate Passes(h: Bytes -> Node, inputs: Bytes, difficulty: nat, nonce: nat) {
    HasLeadingZeros(h(inputs + LittleEndian(nonce, 8)), difficulty)
  }

  method Attempt(p: PowHasher, difficulty: nat, nonce: nat) returns (ok: bool)
    requires p.Valid() && difficulty < 0x8000_0000_0000_0000
    modifies p.input
    ensures p.Valid() && p.Inputs() == old(p.Inputs()) && ok == Passes(p.h, p.Inputs(), difficulty, nonce)
  {
    hide Shl, Number, HasLeadingZeros, LittleEndian, Reversed;
    var hash := p.Hash(nonce, []);
    assert hash == p.h(p.Inputs() + LittleEndian(nonce, 8));
    ok := CheckLeadingZeroBits(hash, difficulty);
  }

  lemma FlattenThree(a: Bytes, b: Bytes, c: Bytes)
    ensures Flatten([a, b, c]) == a + b + c
  {
    assert [a, b, c][1..] == [b, c] && [b, c][1..] == [c] && [c][1..] == [];
    assert Flatten([c]) == c;
    assert Flatten([b, c]) == b + c;
    assert a + (b + c) == a + b + c;
  }

  /** The search: it finds the least passing nonce, unless it is cancelled, as the `cancelled`-th turn finds out,
      before it reaches one. The nonce is a uint64 and wraps around. */
  method FindSubmitPowNonce(h: Bytes -> Node, powChallenge: Bytes, poetChallenge: Bytes, nodeID: Bytes,
                            difficulty: nat, cancelled: nat) returns (r: Option<nat>)
    requires difficulty < 0x8000_0000_0000_0000
    ensures var inputs := powChallenge + nodeID + poetChallenge;
            match r
            case Some(nonce) =>
              && nonce < NONCES && nonce < cancelled && Passes(h, inputs, difficulty, nonce)
              && forall m | 0 <= m < nonce :: !Passes(h, inputs, difficulty, m)
            case None =>
              forall m: nat | m < cancelled && m < NONCES :: !Passes(h, inputs, difficulty, m)
  {
    hide Shl, Number, HasLeadingZeros, LittleEndian, Flatten, Reversed;
    ghost var inputs := powChallenge + nodeID + poetChallenge;
    var p := new PowHasher(h, [powChallenge, nodeID, poetChallenge]);
    FlattenThree(powChallenge, nodeID, poetChallenge);
    var nonce := 0;
    for turn := 0 to cancelled
      invariant p.Valid() && p.Inputs() == inputs
      invariant nonce < NONCES && nonce <= turn
      invariant turn < NONCES ==> nonce == turn
      invariant forall m: nat | m < turn && m < NONCES :: !Passes(h, inputs, difficulty, m)
    {
      var ok := Attempt(p, difficulty, nonce);
      if ok {
        return Some(nonce);
      }
      nonce := if nonce + 1 == NONCES then 0 else nonce + 1;
    }
    return None;
  }
}
