# ImageGlitcher glitch pass in Dafny

ImageGlitcher turns an image file into "glitch art". It reads the whole file into
a byte buffer and flips 100 random bits in place. Each flip lands at a random
offset past the first 100 bytes, which are left alone so that the file header
survives. Then it writes the buffer out. This project models that pass and
proves what it guarantees.

The model lives in `image_glitcher.dfy`, module `ImageGlitcher`:

- `Draw(offset, bit)` holds the two values one iteration takes from the
  random generator: `nextInt(length - 100)` and `nextInt(8)`. A run of the pass
  receives the sequence of its draws as a parameter. `ValidDraws` states the
  ranges the generator guarantees for them.
- `JavaXorAssign` is Java's `byte ^= int` as it is evaluated. The byte is
  sign-extended to 32 bits and xored with `1 << bit`. The compound assignment
  then narrows the result back to 8 bits.
- `Flip` is one iteration on a byte sequence. `GlitchSpec` applies a whole
  sequence of draws in order and serves as the specification.
- `Glitch` is the loop itself. It works on an `array<bv8>` in place and is
  proved equal to `GlitchSpec`. `GlitchImage` runs it with the program's
  constants: 100 header bytes and 100 flips.
- If the buffer has at most 100 bytes, the generator's bound `length - 100` is
  not positive, and `nextInt` throws before anything is written. The model
  returns `Fail(NonPositiveBound)` in that case and leaves the buffer as it was.

The code throws only when the loop body runs, so the exact condition is
"flips > 0 and length <= skip". With the program's 100 flips this is the same
as "length <= 100". `Glitch` follows the code for every flip count. In
particular, zero flips on a short buffer succeed.

Determinism under a fixed random sequence holds by construction. The result of
`Glitch` is a function (`GlitchSpec`) of the input buffer and the draws.

## Model

| member | source | states |
|---|---|---|
| `ImageGlitcher.Mask` | ImageGlitcher.java:22-23 | `1 << bitPosition` for a position in [0, 8) has exactly that bit set and no other |
| `ImageGlitcher.JavaXorAssign` | ImageGlitcher.java:23 | `byte ^= (1 << bit)`, evaluated with Java's sign extension and narrowing, equals the 8-bit xor with the one-bit mask, including for bit 7 (the sign bit) |
| `ImageGlitcher.Flip` | ImageGlitcher.java:23 | one iteration keeps the length, leaves every other byte as it was, and toggles exactly one bit (the drawn one) of the target byte |
| `ImageGlitcher.GlitchSpec` | ImageGlitcher.java:19-24 | the whole pass keeps the buffer length and never changes any byte before offset `skip` (the header) |
| `ImageGlitcher.Touched` | ImageGlitcher.java:20-21 | the set of written offsets is exactly the set of drawn targets `skip + offset`, and it has at most one element per iteration |
| `ImageGlitcher.WritesInBounds` | ImageGlitcher.java:21-23 | every written index lies in [skip, length): inside the buffer and past the header |
| `ImageGlitcher.UntouchedUnchanged` | ImageGlitcher.java:20-24 | a byte that no draw targets has its input value after the pass |
| `ImageGlitcher.ChangedAtMostDraws` | ImageGlitcher.java:17-24 | the offsets where output and input differ are among the targeted ones, so there are at most as many of them as flips |
| `ImageGlitcher.FinalBit` | ImageGlitcher.java:20-24 | each output bit is the input bit toggled once for every draw that hits that offset and bit: it changes exactly when the number of hits is odd |
| `ImageGlitcher.RepeatedDrawCancels` | ImageGlitcher.java:23 | two consecutive flips of the same bit at the same offset cancel: the buffer is as it was before them |
| `ImageGlitcher.SameHitsSameResult` | ImageGlitcher.java:20-24 | two draw sequences that hit every (offset, bit) pair with the same parity produce the same buffer |
| `ImageGlitcher.SwapAdjacentDraws` | ImageGlitcher.java:20-24 | the order of two consecutive flips does not affect the result |
| `ImageGlitcher.SingleDrawChangesOneByte` | ImageGlitcher.java:21-23 | a pass with a single flip changes exactly one byte, the targeted one |
| `ImageGlitcher.ZeroBufferOneFlip` | ImageGlitcher.java:19-23 | 150 zero bytes with one flip at offset 120 (drawn offset 20), bit 3: only byte 120 changes, and it becomes 0x08 |
| `ImageGlitcher.Glitch` | ImageGlitcher.java:16-24 | the in-place loop fails exactly when flips > 0 and length <= skip, leaving the buffer unchanged; otherwise the buffer ends equal to `GlitchSpec` of its old contents |
| `ImageGlitcher.GlitchImage` | ImageGlitcher.java:16-24 | with 100 header bytes and 100 flips, it fails exactly on buffers of at most 100 bytes; otherwise the header is kept and at most 100 bytes differ |

## Left out

- Reading the input file and writing the output file (ImageGlitcher.java:11-13, 27-29). This is I/O. The buffer is a parameter of the pass.
- The hard-coded paths `input.png` and `glitched.png` (ImageGlitcher.java:6-7). They are configuration and have no behaviour.
- The success message on the console (ImageGlitcher.java:31), and the `IOException` handler that prints a stack trace (ImageGlitcher.java:32-34). Both are I/O reporting.
- How `java.util.Random` computes its numbers (ImageGlitcher.java:16, 21-22). It is a foreign library. Its outputs are the injected `Draw` sequence, constrained to the ranges `nextInt` guarantees. Uniformity is not modelled.
- The uncaught `IllegalArgumentException` that `nextInt` throws for a non-positive bound. It ends the program before the output file is written. Here it is the `Fail(NonPositiveBound)` outcome, with the buffer unchanged.
