# Bitwise: bit access over a byte and a byte array

A Dafny model of `fileSystem.Bitwise`, the UnixFileSystem project's bit-vector utility. It works on a single byte, or on a byte array treated as one bit vector. In the array, the last element holds bits 0..7, the element before it bits 8..15, and so on. Global bit `i` lives in element `length-1 - i/8`, at bit `i % 8`.

- `Arithmetic.dfy`: helper facts about powers of two and Euclidean division.
- `Bitwise.dfy`: the model. It contains:
  - the mask table;
  - single-byte `isset`/`set`/`clear` as functions on `bv8`;
  - array `isset` as a function on the array's contents;
  - array `set`, `clear` and `clearAll` as methods that update an `array<bv8>` in place, each proved equal to a specification function of the old contents;
  - the byte renderer and the four-argument array renderer as methods with loops, proved against specification functions;
  - the two delegating renderer overloads.
- `Examples.dfy`: concrete vectors, namely `5` renders as `00000101`, the indexing of `[0x01, 0x00]`, and two array renderings.

Bytes are `bv8`. Java's signed bytes, and the sign extension in `bitmasks[i] & b`, give the same results for bit indices 0..7, so they are not modelled. Indices are preconditions because the original does no bounds checks: `i < 8` for a byte and `i < 8 * length` for an array. The Java overloads get distinct names:

| Java | Dafny |
|---|---|
| `isset(int, byte)` | `IsSet` |
| `isset(int, byte[])` | `IsSetIn` |
| `set(int, byte)` | `Set` |
| `set(int, byte[])` | `SetIn` |
| `clear(int, byte)` | `Clear` |
| `clear(int, byte[])` | `ClearIn` |
| `clearAll` | `ClearAll` |
| `toString(byte)` | `ByteToString` |
| `toString(byte[], String, String, int)` | `ToString` |
| `toString(byte[], String)` | `ToStringSep` |
| `toString(byte[])` | `ToStringDefault` |

## Model

| member | source | states |
|---|---|---|
| Bitwise.MaskIsShift | src/fileSystem/Bitwise.java:10 | Mask table entry `i` is `1 << i`, the byte with only bit `i` set. |
| Bitwise.IsSetIsShiftedBit | src/fileSystem/Bitwise.java:16-18 | The mask test for bit `i` agrees with reading bit `i` by shifting it down to position 0. |
| Bitwise.IsSetIsBinaryDigit | src/fileSystem/Bitwise.java:16-18 | Bit `k` of a byte is set iff binary digit `k` of the byte's unsigned value is 1. |
| Bitwise.BitsDetermineByte | src/fileSystem/Bitwise.java:16-18 | Two bytes that agree on all eight `isset` tests are equal. |
| Bitwise.Set | src/fileSystem/Bitwise.java:34-36 | In the result, bit `i` is set and every other bit equals that bit of `b`. |
| Bitwise.Clear | src/fileSystem/Bitwise.java:51-53 | In the result, bit `i` is clear and every other bit equals that bit of `b`. The result differs from `b` iff bit `i` of `b` was set. |
| Bitwise.SetClearUnique | src/fileSystem/Bitwise.java:34-53 | Set and Clear are the only bytes that have bit `i` as requested and keep every other bit of `b`. |
| Bitwise.SetAfterClear | src/fileSystem/Bitwise.java:34-53 | Setting bit `i` after clearing it equals setting it directly, and the same holds with the roles swapped. |
| Bitwise.IsSetInIsBinaryDigit | src/fileSystem/Bitwise.java:24-29 | Global bit `i` of the array is binary digit `i` of the unsigned number the array spells, with element 0 most significant. |
| Bitwise.BitsDetermineBytes | src/fileSystem/Bitwise.java:24-29 | Two arrays of equal length that agree on every global bit are equal. |
| Bitwise.WithSet | src/fileSystem/Bitwise.java:41-46 | After setting global bit `i`: the length is unchanged, bit `i` is set, every other global bit is unchanged, and every element except `length-1 - i/8` is unchanged. |
| Bitwise.WithCleared | src/fileSystem/Bitwise.java:59-68 | After clearing global bit `i`: the length is unchanged, bit `i` is clear, other bits and elements are unchanged, and the array is unchanged iff the bit was already clear. |
| Bitwise.WithSetClearedUnique | src/fileSystem/Bitwise.java:41-68 | Any array of the same length that keeps every other bit is WithSet if it has bit `i` set, and WithCleared if not. |
| Bitwise.SetIn | src/fileSystem/Bitwise.java:41-46 | Updates the caller's array in place. Its new contents are WithSet of the old contents. |
| Bitwise.ClearIn | src/fileSystem/Bitwise.java:59-68 | Updates the caller's array in place to WithCleared of the old contents. It returns exactly the old value of `isset(i, bytes)`, found by comparing the element before and after. |
| Bitwise.ClearInIdempotent | src/fileSystem/Bitwise.java:59-68 | Clearing the same bit twice equals clearing it once, and the second clear finds the bit already clear. |
| Bitwise.Zeros | src/fileSystem/Bitwise.java:77-81 | The all-zero array has the given length and no global bit set. |
| Bitwise.ZerosValue | src/fileSystem/Bitwise.java:77-81 | The all-zero array spells the number 0. |
| Bitwise.ClearAll | src/fileSystem/Bitwise.java:77-81 | Afterwards every element is 0, the length is unchanged, and no valid global bit is set. |
| Bitwise.ByteToString | src/fileSystem/Bitwise.java:87-98 | Its loop from bit 7 down to bit 0 returns 8 characters. Character `k` is `'1'` iff bit `7-k` is set, else `'0'`. This is ByteText, the per-byte text the array renderer uses. |
| Bitwise.SeparatorAtBit | src/fileSystem/Bitwise.java:110-114 | After bit `i`, the loop's nested test appends the separator that follows `i`'s element when `i` is that element's lowest bit, and nothing otherwise. That separator is nothing after the last element, `lsep` at a group boundary, and `sep` elsewhere. |
| Bitwise.RenderedBitsStep | src/fileSystem/Bitwise.java:108-115 | One loop turn extends the text rendered so far by one digit, plus the element's separator at an element's lowest bit. |
| Bitwise.ToString | src/fileSystem/Bitwise.java:105-117 | The loop from bit `8*length-1` down to 0 produces Render. Render is each element's 8-character text followed by: nothing after the last element, `lsep` when `every > 0` and the count of elements still to come is a multiple of `every`, and `sep` otherwise. |
| Bitwise.RenderIsBits | src/fileSystem/Bitwise.java:105-117 | With empty separators, the rendering has exactly `8*length` characters. Character `k` is the digit of global bit `8*length-1-k`. |
| Bitwise.RenderUngrouped | src/fileSystem/Bitwise.java:105-125 | With `every <= 0`, the rendering is the elements' 8-character texts joined by `sep`. |
| Bitwise.RenderLongGroups | src/fileSystem/Bitwise.java:105-117 | With `every` at least the array length, no group separator appears. The rendering is the texts joined by `sep`. |
| Bitwise.ToStringSep | src/fileSystem/Bitwise.java:123-125 | Equals the four-argument form with `every = 0`, which is the elements' texts joined by `sep`. |
| Bitwise.ToStringDefault | src/fileSystem/Bitwise.java:132-134 | Equals the four-argument form with `","`, `"\n"` and 8. |
| Bitwise.GroupTestAsWritten | src/fileSystem/Bitwise.java:111 | Uses 32-bit ints. The group test divides by zero exactly when `every > 0` is a multiple of 2^29. For `0 < every < 2^28` it agrees with the unbounded test the model uses. |
| Bitwise.GroupSizeOverflow | src/fileSystem/Bitwise.java:111 | With `every = 2^29`, the test at bit 7 divides by zero. |
| BitwiseExamples.ByteFiveText | src/fileSystem/Bitwise.java:87-98 | Byte 5 renders as `00000101`. |
| BitwiseExamples.TwoByteIndexing | src/fileSystem/Bitwise.java:24-46 | In `[0x01, 0x00]`, bit 8 is set and bit 0 is not. Setting bit 8 of `[0, 0]` gives `[0x01, 0x00]`. |
| BitwiseExamples.TwoByteRendering | src/fileSystem/Bitwise.java:105-125 | `[0x0A, 0xFF]` with `","` and no grouping renders as `00001010,11111111`. |
| BitwiseExamples.GroupedRendering | src/fileSystem/Bitwise.java:105-117 | `[1, 2, 3]` with `","`, `";"` and groups of 2 renders as `00000001;00000010,00000011`. |

## Left out

- Java's signed bytes: the sign extension in `bitmasks[i] & b` and the `(byte)` casts at lines 35 and 52 do not change any bit 0..7, so bytes are modelled as `bv8`.
- Out-of-range indices: they raise `ArrayIndexOutOfBoundsException` in Java. Here they are excluded by preconditions, because the original does no checks of its own.
- The `null` group separator of the two-argument overload: the renderer never appends it when `every` is 0, so the model passes the empty string.
- ToString: arrays of 2^28 or more bytes are not modelled as Java has them. There `bytes.length * 8 - 1` overflows, and the result could not fit in a Java string anyway. The model uses unbounded integers for the loop bound.
- ToString: the model's group test uses unbounded `8 * every`. Java's 32-bit wrap-around of that product is modelled separately, in GroupTestAsWritten (see Findings).
- String building: `StringBuffer.append(int)` and repeated `+=` are not modelled. Only the resulting character sequence is specified.
- Concurrency: the caller owns the array, and the code does nothing concurrent.

## Findings

| source | as written | input that shows it | evidently intended | confidence | as-written member | corrected member |
|---|---|---|---|---|---|---|
| src/fileSystem/Bitwise.java:111 | `i % (8 * every)` is computed on 32-bit ints, so `8 * every` wraps to 0 when `every` is a multiple of 2^29 | `toString(new byte[1], ",", "\n", 536870912)` evaluates `7 % 0` and throws `ArithmeticException` | a group size larger than the array means no group separator, and the result is the bytes joined by `sep` | not executed | Bitwise.GroupSizeOverflow | Bitwise.RenderLongGroups |
