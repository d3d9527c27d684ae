/** The Regev-style Learning-With-Errors bit-encryption scheme of
    src/lattice_crypt.py: key generation, encryption and decryption of single
    bits, and the string wrapper that encrypts one bit per ciphertext.
    The random draws (s, A, e and each selector r) are inputs here, each
    constrained only by the range its sampler produces. */
module LatticeCrypt {
  import opened ModArith
  import opened LinAlg
  import opened BitCodec

  /** A bit's ciphertext `(u, v)`: u = A.T @ r mod q, v a scalar mod q. */
  datatype Ciphertext = Ciphertext(u: seq<int>, v: int)

  /** The public key `(A, b)` that generate_keys returns. */
  datatype PublicKey = PublicKey(A: seq<seq<int>>, b: seq<int>)

  function Abs(x: int): nat {
    if x < 0 then -x else x
  }

  function Min(x: int, y: int): int {
    if x <= y then x else y
  }

  /** A rows x cols matrix with every entry in [0, q). */
  ghost predicate IsMatrix(A: seq<seq<int>>, rows: int, cols: int, q: int) {
    |A| == rows && HasCols(A, cols) && forall i :: 0 <= i < |A| ==> InRange(A[i], q)
  }

  /** A subset selector of length m, as `randint(0, 2, m)` draws it. */
  ghost predicate IsSelector(r: seq<int>, m: int) {
    |r| == m && IsBinary(r)
  }

  /** `(A @ s + e) % q`: the second half of the public key. */
  function PublicB(q: int, A: seq<seq<int>>, s: seq<int>, e: seq<int>): (b: seq<int>)
    requires 0 < q && HasCols(A, |s|) && |e| == |A|
    ensures |b| == |A| && InRange(b, q)
  {
    ModVec(Add(MatVec(A, s), e), q)
  }

  /** Each b[i] differs from A[i]·s + e[i] by a multiple of q, whatever the sign of e[i]. */
  lemma {:induction false} PublicBCongruent(q: int, A: seq<seq<int>>, s: seq<int>, e: seq<int>)
    requires 0 < q && HasCols(A, |s|) && |e| == |A|
    ensures forall i :: 0 <= i < |A| ==> (PublicB(q, A, s, e)[i] - (Dot(A[i], s) + e[i])) % q == 0
  {
    forall i | 0 <= i < |A|
      ensures (PublicB(q, A, s, e)[i] - (Dot(A[i], s) + e[i])) % q == 0
    {
      ModCongruent(Dot(A[i], s) + e[i], q);
    }
  }

  /** The decision of decrypt_bit on the reduced value x: 0 when the circular
      distance from x to 0 is strictly smaller than its distance to q // 2,
      1 otherwise (ties give 1). On [0, q) the result is 0 exactly on the arc
      around 0 where 2x < q // 2 or 2x > q + q // 2. */
  function Decode(q: int, x: int): (bit: int)
    ensures bit == 0 || bit == 1
    ensures 0 <= x < q ==> (bit == 0 <==> 2 * x < q / 2 || 2 * x > q + q / 2)
  {
    var distanceTo0 := Min(x, q - x);
    var distanceToHalf := Abs(x - q / 2);
    if distanceTo0 < distanceToHalf then 0 else 1
  }

  /** A bit encoded as bit * (q // 2) and perturbed by noise decodes back to
      itself when 4 |noise| + 2 <= q (over the integers: 2 |noise| < q // 2). */
  lemma DecodeNoisy(q: int, bit: int, noise: int)
    requires 0 < q && (bit == 0 || bit == 1) && 4 * Abs(noise) + 2 <= q
    ensures Decode(q, (noise + bit * (q / 2)) % q) == bit
  {
    var h := q / 2;
    var x := noise + bit * h;
    var wraps := noise < 0 && bit == 0;
    var raw := if wraps then x + q else x;
    ModUnique(x, q, if wraps then -1 else 0, raw);
    assert 0 <= raw < q;
    assert bit == 0 <==> 2 * raw < h || 2 * raw > q + h;
  }

  /** The bound of DecodeNoisy cannot be relaxed: for every modulus, an
      encrypted 0 with the smallest noise that reaches the tie between 0 and
      q // 2 misses the bound by at most four, and the tie decodes to 1. */
  lemma NoiseBoundTight(q: int)
    requires 0 < q
    ensures var noise := (q / 2 + 1) / 2;
      q < 4 * noise + 2 <= q + 4 && Decode(q, (noise + 0 * (q / 2)) % q) == 1
  {
    var noise := (q / 2 + 1) / 2;
    ModUnique(noise, q, 0, noise);
  }

  class LWESystem {
    /** Lattice dimension, modulus, noise deviation and sample count. */
    const n: int
    const q: int
    const sigma: real
    const m: int

    /** Session keys stored by generate_keys. */
    var s: seq<int>
    var A: seq<seq<int>>
    var b: seq<int>

    /** Whether generate_keys has run (before that the key attributes do not exist). */
    ghost var HasKeys: bool
    /** The noise vector e drawn by the last generate_keys (discarded by the source). */
    ghost var Noise: seq<int>

    ghost predicate Valid()
      reads this
    {
      m == 2 * n &&
      (HasKeys ==>
        0 <= n && 0 < q &&
        |s| == n && InRange(s, q) &&
        IsMatrix(A, m, n, q) &&
        |Noise| == m &&
        b == PublicB(q, A, s, Noise))
    }

    constructor (n: int := 128, q: int := 2048, sigma: real := 2.0)
      ensures this.n == n && this.q == q && this.sigma == sigma && this.m == 2 * n
      ensures Valid() && !HasKeys
    {
      this.n := n;
      this.q := q;
      this.sigma := sigma;
      this.m := 2 * n;
      HasKeys := false;
    }

    /** generate_keys with its draws given: s from [0, q)^n, A from [0, q)^(m x n)
        and the truncated Gaussian noise e, any integers. */
    method GenerateKeys(sSample: seq<int>, aSample: seq<seq<int>>, e: seq<int>)
      returns (pubKey: PublicKey, secKey: seq<int>)
      requires Valid() && 0 <= n && 0 < q && 0.0 <= sigma
      requires |sSample| == n && InRange(sSample, q)
      requires IsMatrix(aSample, m, n, q)
      requires |e| == m
      modifies this
      ensures Valid() && HasKeys
      ensures s == sSample && A == aSample && Noise == e
      ensures b == PublicB(q, A, s, e)
      ensures pubKey == PublicKey(A, b) && secKey == s
    {
      s := sSample;
      A := aSample;
      b := PublicB(q, A, s, e);
      Noise := e;
      HasKeys := true;
      pubKey, secKey := PublicKey(A, b), s;
    }

    /** encrypt_bit with its selector r given. The pubKey argument is accepted
        and ignored: the stored A and b are used. */
    function EncryptBit(bit: int, pubKey: PublicKey, r: seq<int>): (c: Ciphertext)
      reads this
      requires Valid() && HasKeys && IsSelector(r, m)
      ensures |c.u| == n && InRange(c.u, q) && 0 <= c.v < q
      ensures forall j :: 0 <= j < n ==> c.u[j] == SubsetSum(Column(A, j), r) % q
      ensures c.v == (SubsetSum(b, r) + bit * (q / 2)) % q
    {
      var u := ModVec(TransposeMul(A, r, n), q);
      var vPre := Dot(b, r) % q;
      var encoding := bit * (q / 2);
      SelectedSums(A, r, n);
      SubsetSumIsDot(b, r);
      ModCongruent(Dot(b, r), q);
      ModLinear(vPre, Dot(b, r), encoding, encoding, q);
      Ciphertext(u, (vPre + encoding) % q)
    }

    /** Which public key is passed makes no difference to encrypt_bit. */
    lemma EncryptBitIgnoresPublicKey(bit: int, pubKey: PublicKey, otherKey: PublicKey, r: seq<int>)
      requires Valid() && HasKeys && IsSelector(r, m)
      ensures EncryptBit(bit, pubKey, r) == EncryptBit(bit, otherKey, r)
    {
    }

    /** decrypt_bit: reduce v - sec·u modulo q and decode it. */
    function DecryptBit(c: Ciphertext, sec: seq<int>): (bit: int)
      requires 0 < q && |sec| == |c.u|
      ensures bit == 0 || bit == 1
    {
      var decrypted := (c.v - Dot(sec, c.u)) % q;
      Decode(q, decrypted)
    }

    /** The bits decrypt_message recovers, one per ciphertext, in order. */
    function DecryptBits(cts: seq<Ciphertext>, sec: seq<int>): (bits: seq<int>)
      requires cts == [] || 0 < q
      requires forall k :: 0 <= k < |cts| ==> |cts[k].u| == |sec|
      ensures |bits| == |cts| && IsBinary(bits)
      ensures forall k :: 0 <= k < |cts| ==> bits[k] == DecryptBit(cts[k], sec)
    {
      seq(|cts|, k requires 0 <= k < |cts| => DecryptBit(cts[k], sec))
    }

    /** With the stored keys, v - s·u is congruent to e·r + bit * (q // 2):
        the secret terms cancel and only the selected noise remains. */
    lemma NoiseIdentity(bit: int, pubKey: PublicKey, r: seq<int>)
      requires Valid() && HasKeys && IsSelector(r, m)
      ensures var c := EncryptBit(bit, pubKey, r);
        (c.v - Dot(s, c.u)) % q == (Dot(Noise, r) + bit * (q / 2)) % q
    {
      var c := EncryptBit(bit, pubKey, r);
      var T := TransposeMul(A, r, n);
      var As := MatVec(A, s);
      var encoding := bit * (q / 2);
      var X, Y, E, S := Dot(b, r), Dot(As, r), Dot(Noise, r), Dot(s, c.u);
      // b·r ≡ (A s + e)·r = (A s)·r + e·r
      DotModLeft(Add(As, Noise), r, q);
      DotAddLeft(As, Noise, r);
      assert X % q == (Y + E) % q;
      // s·u ≡ s·(A.T r) = (A s)·r
      DotComm(s, c.u);
      DotModLeft(T, s, q);
      DotComm(T, s);
      TransposeDot(A, s, r);
      assert S % q == Y % q;
      // v ≡ b·r + encoding
      ModCongruent(X, q);
      ModLinear(X % q, X, encoding, encoding, q);
      ModCongruent(X % q + encoding, q);
      ModLinear(X, Y + E, encoding, encoding, q);
      assert c.v % q == (Y + E + encoding) % q;
      ModLinear(c.v, Y + E + encoding, S, Y, q);
      assert (Y + E + encoding) - Y == E + encoding;
    }

    /** decrypt_bit(encrypt_bit(bit)) == bit when the selected noise is small. */
    lemma BitRoundTrip(bit: int, pubKey: PublicKey, r: seq<int>)
      requires Valid() && HasKeys && IsSelector(r, m)
      requires bit == 0 || bit == 1
      requires 4 * Abs(Dot(Noise, r)) + 2 <= q
      ensures DecryptBit(EncryptBit(bit, pubKey, r), s) == bit
    {
      NoiseIdentity(bit, pubKey, r);
      DecodeNoisy(q, bit, Dot(Noise, r));
    }

    /** encrypt_message with one selector per bit: one ciphertext per bit of
        the packed text, in order, all under the stored public key. */
    method EncryptMessage(message: string, rs: seq<seq<int>>) returns (cts: seq<Ciphertext>)
      requires Valid() && (HasKeys || message == "")
      requires |rs| == |MessageBits(message)|
      requires forall k :: 0 <= k < |rs| ==> IsSelector(rs[k], m)
      ensures |cts| == |MessageBits(message)|
      ensures forall k :: 0 <= k < |cts| ==>
        cts[k] == EncryptBit(MessageBits(message)[k], PublicKey(A, b), rs[k])
    {
      var bits := MessageBits(message);
      cts := [];
      for k := 0 to |bits|
        invariant |cts| == k
        invariant forall j :: 0 <= j < k ==> cts[j] == EncryptBit(bits[j], PublicKey(A, b), rs[j])
      {
        cts := cts + [EncryptBit(bits[k], PublicKey(A, b), rs[k])];
      }
    }

    /** decrypt_message: decrypt every ciphertext with the stored secret key,
        then regroup the bits eight at a time into characters. */
    method DecryptMessage(cts: seq<Ciphertext>) returns (text: string)
      requires Valid() && (HasKeys || cts == [])
      requires forall k :: 0 <= k < |cts| ==> |cts[k].u| == |s|
      ensures text == DecodeBits(DecryptBits(cts, s))
    {
      assert cts != [] ==> 0 < q && |s| == n;
      var decryptedBits: seq<int> := [];
      for k := 0 to |cts|
        invariant |decryptedBits| == k
        invariant forall j :: 0 <= j < k ==> decryptedBits[j] == DecryptBit(cts[j], s)
      {
        decryptedBits := decryptedBits + [DecryptBit(cts[k], s)];
      }
      assert decryptedBits == DecryptBits(cts, s);
      var chars: string := "";
      var i := 0;
      while i < |decryptedBits|
        invariant i == 8 * |chars| && i < |decryptedBits| + 8
        invariant DecodedPrefix(decryptedBits, chars)
      {
        var group := decryptedBits[i .. if i + 8 <= |decryptedBits| then i + 8 else |decryptedBits|];
        assert group == Group(decryptedBits, |chars|);
        DecodeBitsNext(decryptedBits, chars, group);
        chars := chars + [FromBits(group) as char];
        i := i + 8;
      }
      text := chars;
    }

    /** The whole message comes back when every selector keeps the noise small
        and every code point is below 256. */
    lemma MessageRoundTrip(message: string, rs: seq<seq<int>>, cts: seq<Ciphertext>)
      requires Valid() && HasKeys && IsByteString(message)
      requires |rs| == |MessageBits(message)|
      requires forall k :: 0 <= k < |rs| ==> IsSelector(rs[k], m) && 4 * Abs(Dot(Noise, rs[k])) + 2 <= q
      requires |cts| == |rs|
      requires forall k :: 0 <= k < |cts| ==>
        cts[k] == EncryptBit(MessageBits(message)[k], PublicKey(A, b), rs[k])
      ensures forall k :: 0 <= k < |cts| ==> |cts[k].u| == |s|
      ensures DecodeBits(DecryptBits(cts, s)) == message
    {
      var bits := MessageBits(message);
      forall k | 0 <= k < |cts|
        ensures DecryptBit(cts[k], s) == bits[k]
      {
        BitRoundTrip(bits[k], PublicKey(A, b), rs[k]);
      }
      assert DecryptBits(cts, s) == bits;
      DecodeMessageBits(message);
    }
  }

  /** For a 0/1 selector, every column's dot product with r is the sum of the
      selected entries of that column. */
  lemma SelectedSums(A: seq<seq<int>>, r: seq<int>, cols: nat)
    requires HasCols(A, cols) && |r| == |A| && IsBinary(r)
    ensures forall j :: 0 <= j < cols ==> SubsetSum(Column(A, j), r) == Dot(Column(A, j), r)
  {
    forall j | 0 <= j < cols
      ensures SubsetSum(Column(A, j), r) == Dot(Column(A, j), r)
    {
      SubsetSumIsDot(Column(A, j), r);
    }
  }

  /** Encrypting a text and decrypting the result with the same session keys
      returns the text, under the noise bound of BitRoundTrip. */
  method EncryptThenDecrypt(sys: LWESystem, message: string, rs: seq<seq<int>>) returns (decrypted: string)
    requires sys.Valid() && sys.HasKeys && IsByteString(message)
    requires |rs| == |MessageBits(message)|
    requires forall k :: 0 <= k < |rs| ==>
      IsSelector(rs[k], sys.m) && 4 * Abs(Dot(sys.Noise, rs[k])) + 2 <= sys.q
    ensures decrypted == message
  {
    var cts := sys.EncryptMessage(message, rs);
    sys.MessageRoundTrip(message, rs, cts);
    decrypted := sys.DecryptMessage(cts);
  }
}
