# Seeded entropy source

A model of `SingleEntropySourceProvider`, the adapter in treasury-crypto that
lets BouncyCastle code which expects an `EntropySourceProvider` be driven by a
fixed, pre-agreed seed instead of a random-number generator.

- The provider holds the seed. Its constructor refuses only a `null` seed.
- `get(bitsRequired)` returns a new `EntropySource` whose private offset
  `index` starts at 0.
- Each `getEntropy()` on a source wants `n = bitsRequired / 8` bytes, with
  truncating division. If `index + n` exceeds the seed length it throws
  `IllegalStateException` before anything changes. Otherwise it copies
  `data[index .. index+n)` into a fresh array and advances `index` by `n`.
- `isPredictionResistant()` is always true.
- `entropySize()` is always the configured `bitsRequired`.

The repository holds the class twice, as `src/main/java/io/iohk/core/SingleEntropySourceProvider.java`
and `src/main/scala/treasury/crypto/core/SingleEntropySourceProvider.java`.
The two copies have identical bodies on identical lines. They are modelled once,
and the table below cites both.

Layout:

- `wrappers.dfy`: module `Wrappers`. `Option` stands for a nullable reference and `Result` for a call that may throw.
- `entropy_source.dfy`: module `SeededEntropy`. It has two parts.
  - The value-level specification: `ByteCount`, `DrawOnce`, `DrawMany` and the lemmas about them.
  - The imperative model: class `Provider` (the immutable seed) and class `Source` (the anonymous `EntropySource`, with its mutable `index`).
  - `Source.GetEntropy` is proved against `DrawOnce`.
  - `Source.Valid()` is the invariant every call keeps: `index <= |data|`, `index` is the number of successful reads times `n` (counted read by read with `Span`, which `SpanIsProduct` equates with the product), and everything handed out so far, concatenated, is `data[..index]`.

The seed is a `seq<bv8>`: Java's `byte` is a signed 8-bit value, and the model
only copies bytes, never interprets them. The copy into the fresh array
(`System.arraycopy`) is the method `ArrayCopy`, a loop over an `array<bv8>`.

The constructor checks only for `null` (line 14 of each copy). An empty seed
is accepted, and every read of a positive number of bytes from it fails.

## Model

| member | source | states |
|---|---|---|
| `SeededEntropy.CheckSeed` | src/main/scala/treasury/crypto/core/SingleEntropySourceProvider.java:13-20 | Construction fails with `InvalidSeed` exactly when the seed is absent (null). Any present seed is kept unchanged, including an empty one. |
| `SeededEntropy.NewProvider` | src/main/java/io/iohk/core/SingleEntropySourceProvider.java:13-20 | Building a provider fails with `InvalidSeed` exactly when the seed is null. Otherwise it yields a new provider holding exactly that seed. |
| `SeededEntropy.Provider.constructor` | src/main/java/io/iohk/core/SingleEntropySourceProvider.java:19 | The provider stores the seed it was given. |
| `SeededEntropy.Provider.Get` | src/main/java/io/iohk/core/SingleEntropySourceProvider.java:22-24 | Each call returns a freshly allocated source over the same seed, with the given bit width and offset 0. Nothing has been dispensed from it yet, and it satisfies the source invariant. |
| `SeededEntropy.Source.constructor` | src/main/scala/treasury/crypto/core/SingleEntropySourceProvider.java:23-24 | A new source starts at offset 0 with nothing dispensed, and its invariant holds. |
| `SeededEntropy.IndependentSources` | src/main/scala/treasury/crypto/core/SingleEntropySourceProvider.java:22-24 | Two sources got from one provider have separate offsets. Reading from the first does not move the second, so both first reads return the same result. That result is `data[..n]`, or it fails exactly when `n > |data|`. |
| `SeededEntropy.ByteCount` | src/main/java/io/iohk/core/SingleEntropySourceProvider.java:31 | The byte count `n` is the whole number of bytes in `bitsRequired` bits: `8n <= bitsRequired < 8n + 8`. |
| `SeededEntropy.DrawOnce` | src/main/scala/treasury/crypto/core/SingleEntropySourceProvider.java:30-43 | One read fails with `InsufficientEntropy(n)` exactly when `index + n > |data|`. On success it returns exactly `n` bytes, the i-th being `data[index + i]`, and the new offset is `index + n <= |data|`. A width under 8 bits always succeeds with no bytes and leaves the offset where it was. |
| `SeededEntropy.DrawManyContiguous` | src/main/java/io/iohk/core/SingleEntropySourceProvider.java:33-41 | From any offset within the seed, `k` successive reads succeed exactly when `index + k*n <= |data|`. Their outputs concatenate to `data[index .. index + k*n)`, with no gap and no overlap, and the final offset is `index + k*n`. |
| `SeededEntropy.FreshSourcePrefix` | src/main/scala/treasury/crypto/core/SingleEntropySourceProvider.java:22-41 | From a fresh source, `k` reads succeed exactly when `k*n <= |data|`. Together they return the prefix `data[..k*n]`, and the offset ends at `k*n`. |
| `SeededEntropy.ArrayCopy` | src/main/java/io/iohk/core/SingleEntropySourceProvider.java:39 | Copying `length` bytes of the seed from `srcPos` into the destination array at `destPos` places exactly that slice there. The rest of the destination is unchanged. |
| `SeededEntropy.Source.GetEntropy` | src/main/java/io/iohk/core/SingleEntropySourceProvider.java:30-44 | The call fails exactly when `DrawOnce` fails, with the same `InsufficientEntropy(n)`. On failure the offset and everything dispensed are unchanged. On success it returns a fresh array holding `DrawOnce`'s bytes, and the offset becomes `DrawOnce`'s next offset. The source invariant is kept either way, so the offset stays in `[0, |data|]` and the dispensed bytes remain `data[..index]`. |
| `SeededEntropy.Source.IsPredictionResistant` | src/main/java/io/iohk/core/SingleEntropySourceProvider.java:26-28 | Always true, whatever the seed or the source's state. |
| `SeededEntropy.Source.EntropySize` | src/main/scala/treasury/crypto/core/SingleEntropySourceProvider.java:46-48 | Always the configured `bitsRequired`, which is a constant of the source that no read changes. |
| `SeededEntropy.SixteenByteSeed` | src/main/scala/treasury/crypto/core/SingleEntropySourceProvider.java:30-44 | Take a 16-byte seed read 64 bits at a time. The first read returns bytes 0..7 and the second bytes 8..15. Two reads from offset 0 return the whole seed. The third read fails needing 8 bytes. |
| `SeededEntropy.TwelveBitsTakeOneByte` | src/main/java/io/iohk/core/SingleEntropySourceProvider.java:31-41 | A 12-bit request takes exactly one byte and advances the offset by one, so the four extra bits are dropped. |

## Left out

- `SeededEntropy.Provider.Get`: the width `bitsRequired` is a `nat` here (also in `Source`'s constructor and `GetEntropy`), while Java's `get` accepts any `int`. For a negative width, `entropySize()` returns it unchanged. `getEntropy()` computes `bitsRequired / 8` truncating toward zero, so a width from -7 to -1 yields an empty array and leaves `index` where it was, and a width of -8 or less throws `NegativeArraySizeException` inside `getEntropy` (line 31), not in `get`. The model covers none of these negative cases.
- `SeededEntropy.Source.GetEntropy`: integers are unbounded. The model does not cover the 32-bit overflow of `index + rv.length` at line 33.
- `SeededEntropy.ArrayCopy`: it requires the bounds that `System.arraycopy` would otherwise reject with `IndexOutOfBoundsException`. Its only caller establishes them with the check at line 33.
- Aliasing of the seed: Java stores the caller's array by reference, with no defensive copy (line 19). The model holds the seed as an immutable `seq<bv8>`. It assumes the caller never writes to the array after handing it over.
- The text of the exception messages (lines 15-16 and 34-36). Failures are the `Error` values `InvalidSeed` and `InsufficientEntropy(needed)`.
- The BouncyCastle `EntropySource` and `EntropySourceProvider` interfaces (lines 3-4) are foreign types. The model has the two classes `Provider` and `Source` with the same operations, and no interface above them.
- `src/main/java/io/iohk/math/Constants.java` holds only numeric constants, with no logic to model.
- Concurrent use of one source: the offset update is not atomic in Java. The model is sequential.
