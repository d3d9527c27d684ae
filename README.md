# LWE bit encryption, modelled in Dafny

This project models `LWESystem` from `src/lattice_crypt.py`. It is a toy
Regev-style Learning-With-Errors public-key scheme that encrypts one bit at a
time. The model covers:

- key generation: `b = (A·s + e) mod q`, with `s`, `A` and `b` kept as session
  keys on the object;
- bit encryption by subset sums: `u = Aᵀr mod q` and
  `v = (b·r mod q + bit·⌊q/2⌋) mod q`;
- bit decryption: the circular distance of `v − s·u` to 0 is compared with its
  distance to `⌊q/2⌋`, and a tie gives 1;
- the string wrapper: each character's code point becomes a most-significant-first
  bit string of at least 8 bits, and the decrypted bits are regrouped 8 at a time
  into characters.

Randomness is modelled as input. The secret `s`, the matrix `A`, the noise `e`
and one selector `r` per encrypted bit are parameters. Each is constrained only
by the range its sampler produces: `s` and `A` in `[0, q)`, `e` any integers,
and `r` a 0/1 vector of length `m = 2n`.

Files:

- `mod_arith.dfy` (module `ModArith`): facts about Euclidean `%` for a positive
  modulus. For `q > 0` this agrees with Python's and numpy's `%`.
- `lin_alg.dfy` (module `LinAlg`): dot products, `A @ s`, `A.T @ r`, reduction
  mod `q`, subset sums, and the summation-exchange identity
  `s·(Aᵀr) = (A s)·r`.
- `bit_codec.dfy` (module `BitCodec`): `format(ord(c), '08b')`, `int(g, 2)`,
  `chr`, and the regrouping of bits into characters.
- `lattice_crypt.dfy` (module `LatticeCrypt`): the class `LWESystem` and the
  decryption rule. It also proves the algebraic noise identity, per-bit
  correctness under a noise bound that cannot be relaxed for any modulus, and the message
  round trip.

The class keeps the source's state. `n`, `q`, `sigma` and `m` are constants,
because the source never reassigns them. `s`, `A` and `b` are fields that
`GenerateKeys` reassigns. Two ghost fields record what the source leaves
implicit:

- `HasKeys` says whether `generate_keys` has run. Before that, the attributes
  `s`, `A` and `b` do not exist and any use of them raises.
- `Noise` holds the noise vector `e` of the last key generation. The source
  throws it away, but the correctness argument is stated in terms of it.

`Valid()` ties `b` to `A`, `s` and `Noise`.

Points where the code's behaviour is easy to misread, and which the model
follows:

- `format(ord(c), '08b')` widens code points above 255 rather than truncating
  them, so `CharBits` gives more than 8 bits for such characters.
- A bit count that is not a multiple of 8 is not rejected at decode time:
  `bit_string[i:i+8]` clamps, so the short trailing group is still converted,
  and `DecodeBits` does the same.
- The constructor checks nothing. An invalid `n`, `q` or `sigma` only fails
  later, in numpy's samplers, and `GenerateKeys` requires
  `0 <= n && 0 < q && 0.0 <= sigma` for that reason.
- `encrypt_bit` accepts a public key but uses the stored `self.A` and `self.b`.
  `EncryptBitIgnoresPublicKey` states this.

## Model

| member | source | states |
|---|---|---|
| LatticeCrypt.LWESystem.constructor | src/lattice_crypt.py:5-9 | the parameters are stored as given (defaults 128, 2048, 2.0), `m = 2n`, and no keys exist yet |
| LatticeCrypt.LWESystem.GenerateKeys | src/lattice_crypt.py:11-25 | stores `s` and `A` as drawn and `b = (A s + e) mod q`, returns `((A, b), s)`, and establishes the key invariant: `s` has length n, `A` is m×n, both with entries in [0, q) |
| LatticeCrypt.PublicB | src/lattice_crypt.py:23 | `b` has one entry per row of `A`, each in [0, q) |
| LinAlg.MatVec | src/lattice_crypt.py:23 | `A @ s` has one entry per row of `A`, entry i being the dot product of row i with `s` |
| LinAlg.ModVec | src/lattice_crypt.py:23 | element-wise `% q` keeps the length, puts every entry in [0, q) and reduces entry i of the input |
| LinAlg.Dot | src/lattice_crypt.py:46 | `np.dot`, the sum of x[i]·y[i]; it has no contract of its own, and its properties are the lemmas `SubsetSumIsDot`, `DotComm`, `DotAddLeft` and `DotModLeft` |
| LatticeCrypt.PublicBCongruent | src/lattice_crypt.py:20-23 | each `b[i]` differs from `A[i]·s + e[i]` by a multiple of q, also when `e[i]` is negative |
| LatticeCrypt.LWESystem.EncryptBit | src/lattice_crypt.py:27-50 | `u` has n entries in [0, q) and `u[j]` is the sum of column j over the rows selected by r, reduced mod q; `v` is in [0, q) and equals (sum of the selected entries of b + bit·⌊q/2⌋) mod q |
| LatticeCrypt.LWESystem.EncryptBitIgnoresPublicKey | src/lattice_crypt.py:29-48 | the ciphertext is the same whichever public key is passed, because the stored keys are used |
| LatticeCrypt.IsSelector | src/lattice_crypt.py:35 | the selectors `randint(0, 2, m)` draws: m entries, each 0 or 1 (a definition that `EncryptBit` and the round trips require of every `r`) |
| LinAlg.TransposeMul | src/lattice_crypt.py:38 | `A.T @ r` has one entry per column of `A`, entry j being the dot product of column j with `r` |
| LatticeCrypt.SelectedSums | src/lattice_crypt.py:35-38 | for a 0/1 selector, every column's product with r (`A.T @ r`) is the sum of that column's selected entries |
| LinAlg.SubsetSumIsDot | src/lattice_crypt.py:43-46 | for a 0/1 selector, the dot product with r is the sum of the selected entries |
| LatticeCrypt.LWESystem.DecryptBit | src/lattice_crypt.py:52-73 | always returns exactly 0 or 1 |
| LatticeCrypt.Decode | src/lattice_crypt.py:66-73 | returns 0 or 1; on [0, q) it returns 0 exactly when 2x < ⌊q/2⌋ or 2x > q + ⌊q/2⌋, so equal distances (a tie) give 1 |
| LinAlg.TransposeDot | src/lattice_crypt.py:57-61 | `s·(Aᵀr) = (A s)·r`: the secret-dependent terms of the decryption derivation are equal |
| LinAlg.DotComm | src/lattice_crypt.py:57-64 | `np.dot(s, u) == np.dot(u, s)`, the reordering the decryption derivation uses |
| LinAlg.DotAddLeft | src/lattice_crypt.py:58-60 | `(A s + e)·r = (A s)·r + e·r` |
| LinAlg.DotModLeft | src/lattice_crypt.py:38-64 | reducing a vector mod q before a dot product leaves the residue of the product unchanged |
| LatticeCrypt.LWESystem.NoiseIdentity | src/lattice_crypt.py:57-64 | for a ciphertext from the stored keys, `(v − s·u) mod q = (e·r + bit·⌊q/2⌋) mod q` |
| LatticeCrypt.DecodeNoisy | src/lattice_crypt.py:62-73 | a bit encoded as `bit·⌊q/2⌋` plus noise decodes to itself when `4·|noise| + 2 ≤ q` (over the integers the same as 2·|noise| < ⌊q/2⌋) |
| LatticeCrypt.NoiseBoundTight | src/lattice_crypt.py:67-73 | the bound cannot be relaxed for any modulus q > 0: the noise ⌈⌊q/2⌋/2⌉ misses the bound by at most 4 and makes an encrypted 0 decode to 1 (on the tie when ⌊q/2⌋ is even) |
| LatticeCrypt.LWESystem.BitRoundTrip | src/lattice_crypt.py:27-73 | `decrypt_bit(encrypt_bit(bit), s) == bit` for bit 0 or 1 when `4·|e·r| + 2 ≤ q` |
| BitCodec.CharBits | src/lattice_crypt.py:77 | a character's bits are 0/1 and read back as its code point; exactly 8 bits below 256, more than 8 from 256 on (widened, never truncated) |
| BitCodec.MessageBits | src/lattice_crypt.py:77 | the packed bits are 0/1, and a text whose code points are below 256 gives exactly 8 bits per character (none for the empty text) |
| LatticeCrypt.LWESystem.EncryptMessage | src/lattice_crypt.py:75-81 | one ciphertext per packed bit, in order, each the encryption of that bit under the stored keys with that bit's selector |
| BitCodec.Group | src/lattice_crypt.py:92 | `bit_string[i:i+8]` for group i: between 1 and 8 bits, fewer only at the end, and 0/1 when the input is |
| BitCodec.FromBits | src/lattice_crypt.py:93 | `int(byte, 2)` of a group of k bits is a value below 2^k, so below 256 for a group of at most 8 |
| BitCodec.DecodeBits | src/lattice_crypt.py:89-94 | (len + 7) / 8 characters; character i is the value of the i-th group of at most 8 bits, a short last group included; no bits give "" |
| BitCodec.DecodeBitsIsByteString | src/lattice_crypt.py:91-93 | every decoded character has a code point below 256 |
| LatticeCrypt.LWESystem.DecryptBits | src/lattice_crypt.py:85-87 | one bit per ciphertext, each 0 or 1 and each the decryption of that ciphertext |
| LatticeCrypt.LWESystem.DecryptMessage | src/lattice_crypt.py:83-94 | the text is the regrouping of the bits decrypted with the stored secret key |
| BitCodec.DecodeMessageBits | src/lattice_crypt.py:77-93 | packing then regrouping returns the text when every code point is below 256 |
| BitCodec.MessageBitsDecode | src/lattice_crypt.py:77-93 | regrouping then packing returns the bits when their number is a multiple of 8 |
| BitCodec.FromToBits | src/lattice_crypt.py:77-93 | `int(format(x, w bits), 2) == x` for every x that fits in w bits |
| LatticeCrypt.LWESystem.MessageRoundTrip | src/lattice_crypt.py:75-94 | decrypting the ciphertexts of a text whose code points are below 256 returns the text when every selector keeps the noise within the bound |
| LatticeCrypt.EncryptThenDecrypt | src/main.py:25-36 | encrypting a text and decrypting the result with the same session keys returns the text, under the same conditions |

## Left out

- Sampling: `np.random.randint` for `s`, `A` and `r`, and the truncated `np.random.normal` noise, are inputs with range constraints only. Their distributions are not modelled: the ≥ 99% per-bit success rate, the freshness of `r` between calls and the Gaussian shape of `e`.
- `sigma` is stored and only checked for sign: it is used only by the noise sampler, which is an input here.
- numpy's fixed-width `int64` arithmetic is modelled on unbounded integers. At the default parameters no product comes near 2⁶³.
- LatticeCrypt.LWESystem.GenerateKeys: requires `0 <= n && 0 < q && 0.0 <= sigma`. numpy raises outside those (a negative size, an empty range for `randint(0, q)`, or a negative scale for `normal(0, sigma)`), and the model does not include the exception.
- LatticeCrypt.LWESystem.DecryptBit: requires `0 < q`. For `q == 0` numpy's `%` yields 0 with a warning, and for `q < 0` it yields non-positive residues; moduli of that kind are not modelled.
- LatticeCrypt.LWESystem.EncryptMessage and LatticeCrypt.LWESystem.DecryptMessage: require the keys to exist unless the input is empty. Otherwise the source raises `AttributeError`, and with an empty input it returns `[]` or `""` even without keys, as the model does.
- LatticeCrypt.LWESystem.DecryptMessage: `decrypt_bit` raises when a ciphertext's `u` has the wrong length. The model requires every `u` to have length `n` instead.
- LatticeCrypt.LWESystem.MessageRoundTrip: holds only for texts with code points below 256. A wider character is packed into more than 8 bits and comes back as several characters. This is the input-range limit of the 8-bit format, not an arithmetic error.
- `src/main.py` is command-line plumbing: argument parsing, timing, prints and the exit status. Only its final equality check is modelled, by `EncryptThenDecrypt`.
- Security properties (indistinguishability, resistance to lattice attacks) are not behaviour of the code and are not modelled.
- The unused `secrets` import has no behaviour.
