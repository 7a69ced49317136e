# Ring-LWE toy engine and text codec, modelled in Dafny

This project models two Python files:

- `RingLWECrypto` (`src/rlwe_concept.py`) is an educational encryption engine in the style of Ring-LWE.
  - The engine is built with a ring degree `n` and a modulus `q`.
  - At construction it fixes a secret key: the sum, mod `q`, of two vectors drawn uniformly from `[0, q)^n`.
  - To encrypt, it zero-pads the message to `n` entries (as intended; see below) and adds integer noise mod `q`.
  - The ciphertext is `c = (a ⊛ s + noisy) mod q`, where `a` is a fresh public polynomial and `⊛` is the length-`n` cyclic convolution.
  - To decrypt, it computes `(c − a ⊛ s + q) mod q`. Every entry at or above 256 is then read as having wrapped and becomes `v − q`.
- The text codec (`src/text.py`) has two functions.
  - `text_to_numbers` turns a string into code points and cuts the result with a Python slice.
  - `numbers_to_text` drops zero entries and turns each remaining number `x` into the character `chr(x mod 1200)`.

Files:

- `rlwe_concept.dfy`, module `RingLWE`, holds the engine.
  - It is a class `RingLWECrypto` whose `const` fields `n`, `q` and `secretKey` are set once, by its constructor.
  - `Encrypt` and `Decrypt` are pure function members.
  - The helpers (key generation, padding, noise, cyclic product) are module-level functions over `seq<int>`.
- `text.dfy`, module `Text`, holds the two codec functions and their lemmas.

Randomness is passed in as parameters:

- the two key parts;
- the public polynomial `a`;
- the noise vector.

Each of them is constrained by a precondition to the range of the `np.random.randint` call it replaces.

The FFT product at `src/rlwe_concept.py:31` is modelled as the exact integer cyclic convolution that it approximates:

- entry `k` is `(Σ_i a[i]·b[(k − i) mod n]) mod q`;
- that sum equals the reference sum of `a[i]·b[j]` over all `n·n` index pairs with `i + j ≡ k (mod n)` (`PolyMulIsPairSum`).

What is proved, in short:

- The key, the noisy message and the ciphertext are length-`n` vectors in `[0, q)`.
- The product is commutative.
- Removing the key term from an encryption gives back exactly the noisy padded message.
- Decryption returns the representative of `c − a ⊛ s` in the window `[256 − q, 256)` when `q ≥ 256`, and in `[0, q)` otherwise.
- **Decryption never removes the noise.** The scheme has no scaling or rounding step. A noisy entry `v = m + e` in `[256 − q, 256)` decrypts to `v` itself, not to `m`. For example, `m = [72]` with noise `e = [5]` decrypts to `[77]`.
- Exact recovery (`decrypt(encrypt(m)) == pad(m)`) holds with zero noise, `q ≥ 256` and byte-valued messages (`RoundTripWithoutNoise`). It fails as soon as any noise entry is nonzero (`NoisyRoundTripFails`).
- On the text side:
  - the lengths of both codec functions' outputs;
  - the character produced for each entry;
  - padding zeros are ignored;
  - decoding inverts encoding when every code point is in `[1, 1200)`;
  - the same holds end to end through the engine with zero noise.

In these three points the intended design and the code differ, and the model follows the code:

- **Noise.** The noise is integer and uniform, not Gaussian, and there is no `sigma` parameter. The lower bound is `-self.q // 150`. Python parses this as `(-q) // 150`, which is floor division. So the range is `[(-q) div 150, q div 150]`, for example `[-52, 51]` when `q = 7681`. This is not the symmetric `[-(q div 150), q div 150]`.
- **Decode threshold.** The threshold is the constant 256.
- **Parameter checks.** The constructor validates nothing. The model requires `q > 0`, which is what `randint(0, q)` needs.

Padding goes the other way: the model follows the intended zero padding. As written, a one-axis row shorter than `n` makes `np.pad` raise at `src/rlwe_concept.py:22`. `Pad`, `AddNoise` and `Encrypt` pad such a row with zeros instead. The code's behaviour is modelled by `PadAsWritten` and recorded under "## Findings".

## Model

| member | source | states |
|---|---|---|
| `RingLWE.RingLWECrypto.constructor` | src/rlwe_concept.py:5-8 | The engine keeps the given `n` and `q`, and its key is the one generated from the two drawn parts. The key has length `n` with entries in `[0, q)`. The fields are constants, so no later call changes them. |
| `RingLWE.GenerateSecretKey` | src/rlwe_concept.py:10-16 | The key has the parts' length and entries in `[0, q)`. Each entry is `k1[i] + k2[i]` when that sum is below `q`, and `k1[i] + k2[i] − q` otherwise: a sum of two uniforms wraps at most once. |
| `RingLWE.Pad` | src/rlwe_concept.py:20-24 | For `|m| ≤ n` the result has length `n`, its first `|m|` entries are `m`, and the rest are 0. |
| `RingLWE.PadAsWritten` | src/rlwe_concept.py:20-24 | Padding as written succeeds exactly when the row already has at least `n` entries, and then returns the row unchanged. A shorter row makes `np.pad` raise, shown as `None`. |
| `RingLWE.PadAsWrittenRejectsShortRow` | src/rlwe_concept.py:22 | The row `[72, 105]` with `n = 4` is rejected as written. Zero padding gives `[72, 105, 0, 0]`. |
| `RingLWE.AddNoise` | src/rlwe_concept.py:18-27 | The noise entries are in `[(-q) div 150, q div 150]`. The result has length `n` with entries in `[0, q)`. Entry `i` is `(m[i] + e[i]) mod q` inside the message and `e[i] mod q` in the padding. |
| `RingLWE.PolyMul` | src/rlwe_concept.py:29-31 | The product of two length-`n` vectors has length `n`, and every entry lies in `[0, q)`. |
| `RingLWE.ConvolutionPairs` | src/rlwe_concept.py:31 | For indices in `[0, n)`: `(i + j) mod n == k` holds if and only if `j == (k − i) mod n`. So for each `i` there is exactly one partner `j`. |
| `RingLWE.PolyMulIsPairSum` | src/rlwe_concept.py:29-31 | Entry `k` of `PolyMul(a, b, q)` equals, mod `q`, the reference double sum `PairSum`: the sum of `a[i]·b[j]` over all `n·n` index pairs with `i + j ≡ k (mod n)`. That is the cyclic convolution that `ifft(fft(a)·fft(b))` computes. |
| `RingLWE.PolyMulCommutes` | src/rlwe_concept.py:31 | Swapping the two factors gives the same product. |
| `RingLWE.SubModAddMod` | src/rlwe_concept.py:37-44 | For `s` and `x` in `[0, q)`, subtracting `s` as decrypt does, `(c − s + q) mod q`, exactly undoes adding `s` as encrypt does, `(s + x) mod q`. |
| `RingLWE.RecenterWindow` | src/rlwe_concept.py:47 | On entries in `[0, q)`, the threshold step keeps each entry's residue mod `q`. The result lies in `[256 − q, 256)` when `q ≥ 256`, and in `[0, q)` otherwise. |
| `RingLWE.RingLWECrypto.Encrypt` | src/rlwe_concept.py:33-38 | Encrypt returns `a` unchanged and a ciphertext of length `n` with entries in `[0, q)`. Removing the key term `a ⊛ s` from that ciphertext gives exactly the noisy padded message. |
| `RingLWE.RingLWECrypto.Decrypt` | src/rlwe_concept.py:40-49 | The output has length `n`. Each entry is congruent mod `q` to `c[i] − (a ⊛ s)[i]`. It lies in `[256 − q, 256)` when `q ≥ 256`, and in `[0, q)` otherwise, which makes it the unique such representative. |
| `RingLWE.DecryptEncrypt` | src/rlwe_concept.py:33-49 | Decrypting an encryption with the same `a` gives the threshold step applied to the noisy padded message. |
| `RingLWE.DecryptRecoversNoisyEntry` | src/rlwe_concept.py:25-47 | Take `q ≥ 256` and let `v` be the padded message entry plus its noise, with `v` in `[256 − q, q)`. Decryption returns `v` when `v < 256`, and `v − q` otherwise. The noise is never removed. |
| `RingLWE.RoundTripWithoutNoise` | src/rlwe_concept.py:33-49 | With zero noise, `q ≥ 256` and message entries in `[0, 256)`, decrypting the encryption gives the zero-padded message exactly. |
| `RingLWE.NoisyRoundTripFails` | src/rlwe_concept.py:25-47 | The converse: take `q ≥ 256`, a byte-valued message and in-range `a` and noise. If the noise entry `e[i]` is nonzero, entry `i` of the decryption differs from the padded message, so `decrypt(encrypt(m))` is not `Pad(m, n)`. |
| `Text.TextToNumbers` | src/text.py:4-6 | The result's length is `min(|t|, k)` for `k ≥ 0`, and `max(0, |t| + k)` for a negative `k` (Python slicing). Entry `i` is the code point of `t[i]`. |
| `Text.NumbersToText` | src/text.py:9-11 | The output has one character per nonzero input entry, and every character's code point lies in `[0, 1200)`. This includes negative inputs, because the modulo is floor modulo. |
| `Text.NumbersToTextAppend` | src/text.py:11 | Decoding a concatenation decodes each part and concatenates the results. |
| `Text.NumbersToTextIgnoresPadding` | src/text.py:11 | Appending any number of zeros to the input leaves the output unchanged. |
| `Text.NumbersToTextAt` | src/text.py:11 | Each nonzero entry `numbers[i]` becomes the character `numbers[i] mod 1200`. That character sits at the position equal to the number of nonzero entries before `i`. |
| `Text.TextRoundTrip` | src/text.py:4-11 | When every code point is in `[1, 1200)`, `numbers_to_text(text_to_numbers(t, k))` is the prefix `t[:k]`. |
| `Text.TextRoundTripThroughEngine` | src/text.py:18-29 | Take a string of at most `n` characters with code points in `[1, 256)`. Encoded, encrypted with zero noise, decrypted by the same engine (`q ≥ 256`) and decoded, it gives back the string. |

## Left out

- Random sampling (`np.random.randint` at `src/rlwe_concept.py:13-14`, `25` and `35`) is not modelled. The drawn vectors are parameters, with preconditions for their ranges. Nothing is said about their distribution.
- The floating-point FFT, `ifft`, and truncation by `.real.astype(int)` are not modelled: the model computes the exact integer convolution. `.astype(int)` truncates toward zero, so an FFT result a hair below an integer drops by one, at any size. Floating point is outside this model.
- No encrypt/decrypt lemma depends on the product being exact. `SubModAddMod` holds for any key term in `[0, q)`. Encrypt and decrypt both compute the same deterministic `a ⊛ s` and reduce it mod `q`, so the term cancels. The round-trip results therefore carry over to the FFT product as computed.
- numpy's 64-bit integers are modelled as unbounded integers. The exact convolution stays far below `2^63` for the parameters used (`n = 256`, `q = 7681`), so wrap-around is not modelled.
- RingLWE.RingLWECrypto.Encrypt requires `|message| ≤ n`. A longer message is not cut in the source, and its noisy vector keeps the message's length. For `n ≥ 2`, numpy's broadcasting raises when the key term is added at `src/rlwe_concept.py:37`. For `n = 1`, the length-1 key term broadcasts, and every entry of the longer message is encrypted into a ciphertext of length `|message|`. That case is not modelled.
- RingLWE.RingLWECrypto.Decrypt requires `|a| == |c| == n`. numpy would broadcast length-1 arrays, and that is not modelled.
- With `n = 0`, numpy's FFT rejects the empty input. The model returns empty vectors instead.
- The text demo at `src/text.py:14-32` and its `print` calls are not modelled. `TextRoundTripThroughEngine` states the zero-noise version of its flow. As written, the demo passes a Python list to `encrypt`, and the `.shape` read at `src/rlwe_concept.py:20` fails on a list.
- Text.TextToNumbers takes an integer `maxLength`. Python also accepts `max_length=None`, meaning no cut; no caller passes `None`.
- Characters are Unicode scalar values in Dafny. A Python string may contain lone surrogates, and those are not modelled.
- `src/image.py` is not part of this model. It covers image loading, resampling, array packing and file saving.

## Findings

| source | as written | input that shows it | evidently intended | confidence | as-written member | corrected member |
|---|---|---|---|---|---|---|
| src/rlwe_concept.py:22 | `np.pad` gets a two-axis pad width, `((0, k), (0, 0))`, for a one-axis row. It raises, so only rows that already have `n` entries get through. | message `[72, 105]` with `n = 4` | Zero-pad the row to `n` entries | high; not executed | `RingLWE.PadAsWrittenRejectsShortRow` | `RingLWE.Pad` |
