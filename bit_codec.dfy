/** The text <-> bit-sequence conversion of the string API:
    `format(ord(c), '08b')` (binary, most significant bit first, padded to
    at least eight digits, never truncated) on the way in, and
    `chr(int(group, 2))` over consecutive groups of eight bits on the way out. */
module BitCodec {
  import opened LinAlg

  function Pow2(k: nat): (p: nat)
    ensures p >= 1
  {
    if k == 0 then 1 else 2 * Pow2(k - 1)
  }

  lemma {:induction false} Pow2Mono(a: nat, b: nat)
    requires a <= b
    ensures Pow2(a) <= Pow2(b)
  {
    if a < b {
      Pow2Mono(a, b - 1);
    }
  }

  /** Number of digits of `format(x, 'b')` (one digit for 0). */
  function BitLength(x: nat): (w: nat)
    ensures 1 <= w && x < Pow2(w)
  {
    if x < 2 then 1 else 1 + BitLength(x / 2)
  }

  /** BitLength is the least width that holds x. */
  lemma {:induction false} BitLengthLeast(x: nat, k: nat)
    requires 1 <= k && x < Pow2(k)
    ensures BitLength(x) <= k
  {
    if x >= 2 {
      assert Pow2(1) == 2;
      BitLengthLeast(x / 2, k - 1);
    }
  }

  /** Number of digits `format(x, '08b')` produces: at least eight. */
  function Width(x: nat): nat {
    if BitLength(x) < 8 then 8 else BitLength(x)
  }

  /** x fits in Width(x) bits, which is 8 exactly when x fits in 8 bits. */
  lemma WidthFits(x: nat)
    ensures x < Pow2(Width(x))
    ensures x < 256 <==> Width(x) == 8
  {
    Pow2Mono(BitLength(x), Width(x));
    assert Pow2(8) == 256;
    Pow2Mono(if BitLength(x) <= 8 then BitLength(x) else 8, 8);
    if x < 256 {
      BitLengthLeast(x, 8);
    }
  }

  /** The w low bits of x, most significant first. */
  function ToBits(x: nat, w: nat): (bits: seq<int>)
    ensures |bits| == w && IsBinary(bits)
  {
    if w == 0 then [] else ToBits(x / 2, w - 1) + [x % 2]
  }

  /** `int(bits, 2)`: the value of a most-significant-first bit string. */
  function FromBits(bits: seq<int>): (x: nat)
    requires IsBinary(bits)
    ensures x < Pow2(|bits|)
  {
    if |bits| == 0 then 0 else 2 * FromBits(bits[..|bits| - 1]) + bits[|bits| - 1]
  }

  lemma {:induction false} FromToBits(x: nat, w: nat)
    requires x < Pow2(w)
    ensures FromBits(ToBits(x, w)) == x
  {
    if w > 0 {
      FromToBits(x / 2, w - 1);
      assert ToBits(x, w)[..w - 1] == ToBits(x / 2, w - 1);
    }
  }

  lemma {:induction false} ToFromBits(bits: seq<int>)
    requires IsBinary(bits)
    ensures ToBits(FromBits(bits), |bits|) == bits
  {
    if |bits| > 0 {
      var w := |bits|;
      ToFromBits(bits[..w - 1]);
      assert bits == bits[..w - 1] + [bits[w - 1]];
    }
  }

  /** The code points of s all fit in eight bits. */
  ghost predicate IsByteString(s: string) {
    forall i :: 0 <= i < |s| ==> s[i] as int < 256
  }

  /** `format(ord(c), '08b')`: exactly eight bits for code points below 256,
      more bits (never fewer) above; the bits always read back as `ord(c)`. */
  function CharBits(c: char): (bits: seq<int>)
    ensures IsBinary(bits) && FromBits(bits) == c as int
    ensures c as int < 256 ==> |bits| == 8
    ensures c as int >= 256 ==> |bits| > 8
  {
    var x := c as int;
    WidthFits(x);
    FromToBits(x, Width(x));
    ToBits(x, Width(x))
  }

  /** `''.join(format(ord(c), '08b') for c in s)`. */
  function MessageBits(s: string): (bits: seq<int>)
    ensures IsBinary(bits)
    ensures IsByteString(s) ==> |bits| == 8 * |s|
  {
    if |s| == 0 then [] else CharBits(s[0]) + MessageBits(s[1..])
  }

  /** `bits[8*i : 8*i + 8]`, clamped at the end as Python slices are: the
      i-th group of at most eight bits. */
  function Group(bits: seq<int>, i: nat): (g: seq<int>)
    requires 8 * i < |bits|
    ensures 1 <= |g| <= 8 && (IsBinary(bits) ==> IsBinary(g))
    ensures 8 * i + 8 <= |bits| ==> |g| == 8
  {
    bits[8 * i .. if 8 * i + 8 <= |bits| then 8 * i + 8 else |bits|]
  }

  /** A slice of a suffix is a slice of the whole, shifted by the dropped length. */
  lemma SliceOfDrop(bits: seq<int>, d: nat, lo: nat, hi: nat)
    requires d <= |bits| && lo <= hi <= |bits| - d
    ensures bits[d..][lo .. hi] == bits[d + lo .. d + hi]
  {
    forall k | 0 <= k < hi - lo
      ensures bits[d..][lo .. hi][k] == bits[d + lo .. d + hi][k]
    {
    }
  }

  /** Dropping the first eight bits shifts every later group down by one. */
  lemma GroupsShift(bits: seq<int>)
    ensures forall i: nat :: 1 <= i && 8 * i < |bits| ==> Group(bits, i) == Group(bits[8..], i - 1)
  {
    forall i: nat | 1 <= i && 8 * i < |bits|
      ensures Group(bits, i) == Group(bits[8..], i - 1)
    {
      var lo := 8 * i;
      var hi := if lo + 8 <= |bits| then lo + 8 else |bits|;
      assert 8 * (i - 1) == lo - 8;
      SliceOfDrop(bits, 8, lo - 8, hi - 8);
    }
  }

  /** Groups the bits eight at a time, most significant first, into characters;
      a shorter final group (when |bits| is not a multiple of 8) is still converted. */
  function DecodeBits(bits: seq<int>): (text: string)
    requires IsBinary(bits)
    ensures |text| == (|bits| + 7) / 8
    ensures forall i :: 0 <= i < |text| ==>
      text[i] as int == FromBits(Group(bits, i))
    decreases |bits|
  {
    if |bits| == 0 then ""
    else
      var k := if |bits| < 8 then |bits| else 8;
      var x := FromBits(bits[..k]);
      Pow2Mono(k, 8);
      assert Pow2(8) == 256;
      var rest := DecodeBits(bits[k..]);
      var text := [x as char] + rest;
      GroupsShift(bits);
      text
  }

  /** text is the first |text| characters of DecodeBits(bits). */
  ghost predicate DecodedPrefix(bits: seq<int>, text: string)
    requires IsBinary(bits)
  {
    |text| <= |DecodeBits(bits)| && text == DecodeBits(bits)[..|text|]
  }

  /** Decoding the next group of (at most) eight bits extends a decoded prefix by one character. */
  lemma DecodeBitsNext(bits: seq<int>, text: string, group: seq<int>)
    requires IsBinary(bits) && DecodedPrefix(bits, text) && 8 * |text| < |bits|
    requires group == Group(bits, |text|)
    ensures IsBinary(group) && FromBits(group) < 256
    ensures DecodedPrefix(bits, text + [FromBits(group) as char])
  {
    var decoded := DecodeBits(bits);
    Pow2Mono(|group|, 8);
    assert Pow2(8) == 256;
    assert decoded[|text|] as int == FromBits(group);
    assert decoded[..|text| + 1] == text + [decoded[|text|]];
  }

  /** Every character of a decoded text fits in eight bits. */
  lemma DecodeBitsIsByteString(bits: seq<int>)
    requires IsBinary(bits)
    ensures IsByteString(DecodeBits(bits))
  {
    var text := DecodeBits(bits);
    forall i | 0 <= i < |text|
      ensures text[i] as int < 256
    {
      var g := Group(bits, i);
      Pow2Mono(|g|, 8);
      assert Pow2(8) == 256;
    }
  }

  /** Packing then unpacking returns the text, for code points below 256. */
  lemma {:induction false} DecodeMessageBits(s: string)
    requires IsByteString(s)
    ensures DecodeBits(MessageBits(s)) == s
  {
    if |s| > 0 {
      var bits := MessageBits(s);
      assert IsByteString(s[1..]);
      DecodeMessageBits(s[1..]);
      assert bits[..8] == CharBits(s[0]);
      assert bits[8..] == MessageBits(s[1..]);
    }
  }

  /** A group of eight bits is exactly the packing of the character it decodes to. */
  lemma CharBitsOfGroup(g: seq<int>)
    requires IsBinary(g) && |g| == 8
    ensures FromBits(g) < 256 && CharBits(FromBits(g) as char) == g
  {
    assert Pow2(8) == 256;
    WidthFits(FromBits(g));
    ToFromBits(g);
  }

  /** Unpacking then packing returns the bits, for whole groups of eight. */
  lemma {:induction false} MessageBitsDecode(bits: seq<int>)
    requires IsBinary(bits) && |bits| % 8 == 0
    ensures MessageBits(DecodeBits(bits)) == bits
  {
    if |bits| > 0 {
      var text := DecodeBits(bits);
      var g, rest := bits[..8], bits[8..];
      assert bits == g + rest;
      CharBitsOfGroup(g);
      MessageBitsDecode(rest);
      assert text == [FromBits(g) as char] + DecodeBits(rest);
    }
  }
}
