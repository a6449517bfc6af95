# Binary min/max truncation for the Parquet column index

The column index of a Parquet file keeps, per page, the minimum and maximum value of
a column, so that a reader can skip pages that cannot match a predicate. For binary
and string columns these values can be long, so the writer shortens them with a
`BinaryTruncator` before storing them. A shortened minimum must stay at or below the
real minimum, and a shortened maximum at or above the real maximum, both in unsigned
lexicographic byte order. Otherwise readers would skip pages that hold matching rows.

This project models that truncator in Dafny and proves these bound properties.

- `wrappers.dfy` (`Wrappers`): `Option` and `Result`. They stand for the source's null returns and its thrown `IllegalArgumentException`.
- `bytes.dfy` (`Bytes`): unsigned bytes (0..255), the unsigned lexicographic order `LexLe`/`LexLt`, and two facts about it.
- `validity.dfy` (`Utf8Validity`): the tri-state `Validity` and `CheckValidity`. `CheckValidity` is a pure decoder for the UTF-8 grammar of section 4 of RFC 3629 (UTF8-octets). Overlong forms, surrogates, code points above U+10FFFF and characters cut off at the end of the buffer are `Malformed`.
- `truncator.dfy` (`BinaryTruncator`): the two truncator variants (`NoOp`, `DefaultUtf8`).
  - The in-place helpers are methods over arrays, with the source's loops and invariants: `Increment`, `IncrementUtf8`, `TruncateUtf8`. The retry loop nested inside `incrementUtf8` is its own method, `RaiseAt`. `Truncate` builds a fresh array.
  - Each method is proved equal to a specification function: `Incremented`, `IncrementedUtf8` or `TruncatedUtf8`.
  - The entry points `TruncateMin`/`TruncateMax` compose these methods the way the source does. They are proved equal to `TruncatedMin`/`TruncatedMax`, and the bound, shape and idempotence lemmas are stated about those two functions.
- `dispatch.dfy` (`Dispatch`): `GetTruncator`, the table from primitive type and original type to a truncator.
- `examples.dfy` (`TruncatorExamples`): worked examples on concrete values.

Binary values are `seq<byte>`. The source's Java `byte` is signed. The model reads
it as unsigned, and writes its `++` wrap-around (0xFF to 0x00) explicitly as
`(b + 1) % 256`.

Three behaviours of the code are easy to misread, and the model follows the code in each:

- A failed UTF-8 shrink is sometimes described as falling back to a raw cut to `length` bytes. The code does not do that. When the UTF-8 shrink finds no valid prefix, `truncateMin` and `truncateMax` return the original value (parquet-column/src/main/java/org/apache/parquet/internal/column/columnindex/BinaryTruncator.java:96, 111). `TruncatorExamples.ThreeByteCharKeptWhole` shows this case.
- `truncateUtf8` with `length` 0 returns an empty array, not null, because the empty buffer decodes cleanly. So `TruncatedMin(DefaultUtf8, v, 0)` is empty for valid text.
- A failed UTF-8 increment does not mean that no larger valid value of that length exists. The increment only raises one byte at a time, so it can miss a larger value that changes two bytes. For 7F 7F it fails, although C2 80 is valid and greater. `truncateMax` then keeps the whole value, which is still a correct upper bound. `TruncatorExamples.IncrementUtf8MissesLargerValue` shows this case.

## Model

| member | source | states |
|---|---|---|
| `Utf8Validity.CheckValidity` | parquet-column/src/main/java/org/apache/parquet/internal/column/columnindex/BinaryTruncator.java:51-66 | Decoding the whole buffer gives `Valid` exactly when it is RFC 3629 UTF8-octets, a sequence of UTF8-chars. Overlong forms, surrogates (ED A0-BF ..), code points above U+10FFFF and a character cut off at the end of the buffer are `Malformed`. The contract states that the empty buffer is `Valid`, and that valid text neither starts with a continuation byte nor contains C0, C1 or F5-FF anywhere. |
| `Utf8Validity.NeverUnmappable` | parquet-column/src/main/java/org/apache/parquet/internal/column/columnindex/BinaryTruncator.java:51-66 | A UTF-8 decode never ends in `Unmappable`: every buffer is either `Valid` or `Malformed`. |
| `BinaryTruncator.IncrementedAt` | parquet-column/src/main/java/org/apache/parquet/internal/column/columnindex/BinaryTruncator.java:123-133 | When byte i is below 0xFF and every later byte is 0xFF, the increment is the bytes before i, then byte i plus one, then zeros. |
| `BinaryTruncator.IncrementedNoneIff` | parquet-column/src/main/java/org/apache/parquet/internal/column/columnindex/BinaryTruncator.java:124-132 | The raw increment fails (null) if and only if every byte is 0xFF. |
| `BinaryTruncator.IncrementedShape` | parquet-column/src/main/java/org/apache/parquet/internal/column/columnindex/BinaryTruncator.java:124-130 | A successful raw increment has the same length. The rightmost non-0xFF byte is raised by one, every later byte becomes 0, and every earlier byte is unchanged. |
| `BinaryTruncator.IncrementedIsGreater` | parquet-column/src/main/java/org/apache/parquet/internal/column/columnindex/BinaryTruncator.java:123-133 | A successful raw increment is strictly greater than its input in unsigned lexicographic order, and has the same length. |
| `BinaryTruncator.Increment` | parquet-column/src/main/java/org/apache/parquet/internal/column/columnindex/BinaryTruncator.java:123-133 | The in-place loop returns null exactly when the input was all 0xFF, and the array is then all zeros. Otherwise it returns the same array, now holding `Incremented` of the old contents. |
| `BinaryTruncator.Truncate` | parquet-column/src/main/java/org/apache/parquet/internal/column/columnindex/BinaryTruncator.java:115-120 | Returns a fresh array holding exactly the first `length` bytes (requires `length` below the buffer length, as the source asserts). |
| `BinaryTruncator.ShrunkFromLongest` | parquet-column/src/main/java/org/apache/parquet/internal/column/columnindex/BinaryTruncator.java:136-149 | The shrink returns the longest valid prefix of at most `length` bytes. The prefix is non-empty unless `length` is 0. The shrink returns null exactly when `length` > 0 and no prefix of 1..`length` bytes is valid. |
| `BinaryTruncator.TruncateUtf8` | parquet-column/src/main/java/org/apache/parquet/internal/column/columnindex/BinaryTruncator.java:136-149 | The limit-shrinking loop returns null exactly when `TruncatedUtf8` is None. Otherwise it returns a fresh array holding that prefix. |
| `BinaryTruncator.TryAt` | parquet-column/src/main/java/org/apache/parquet/internal/column/columnindex/BinaryTruncator.java:158-171 | Trying values from v upward at position i: a success is valid, has the same length, and differs from the input only at i, where it holds a value of at least v. |
| `BinaryTruncator.IncrementedUtf8FromRightmost` | parquet-column/src/main/java/org/apache/parquet/internal/column/columnindex/BinaryTruncator.java:157-174 | Searching positions k-1 down to 0 yields the trial at the rightmost position that succeeds. It fails exactly when every position's trials fail. |
| `BinaryTruncator.IncrementedUtf8Shape` | parquet-column/src/main/java/org/apache/parquet/internal/column/columnindex/BinaryTruncator.java:152-175 | A successful UTF-8 increment is valid and strictly greater. It differs from the input at exactly one position i, where the byte is larger. Bytes before and after i are the input's, and every position right of i failed. It fails exactly when every position fails. |
| `BinaryTruncator.TryNextUtf8` | parquet-column/src/main/java/org/apache/parquet/internal/column/columnindex/BinaryTruncator.java:160-170 | Because UTF-8 is never unmappable, the trials at a position reduce to one: that byte plus one, kept if the whole buffer is then valid. A 0xFF byte or a malformed result gives up on the position. |
| `BinaryTruncator.IncrementedUtf8Rightmost` | parquet-column/src/main/java/org/apache/parquet/internal/column/columnindex/BinaryTruncator.java:152-175 | The UTF-8 increment raises by one the rightmost byte whose raising leaves the buffer valid. It fails exactly when no byte can be raised that way. |
| `BinaryTruncator.RaiseAt` | parquet-column/src/main/java/org/apache/parquet/internal/column/columnindex/BinaryTruncator.java:158-172 | The retry loop at one position, run in place. It succeeds exactly when `TryNext` does, and the array then holds that trial. Otherwise every byte is restored. |
| `BinaryTruncator.IncrementUtf8` | parquet-column/src/main/java/org/apache/parquet/internal/column/columnindex/BinaryTruncator.java:152-175 | A null input gives null. Otherwise the descending loop over positions, each running `RaiseAt`, returns the same array holding `IncrementedUtf8` of the old contents, or null with every byte restored. |
| `BinaryTruncator.TruncateMin` | parquet-column/src/main/java/org/apache/parquet/internal/column/columnindex/BinaryTruncator.java:84-97 | Returns `TruncatedMin`. The result is the input itself for the no-op truncator (lines 71-73) and whenever its length is at most `length`. |
| `BinaryTruncator.TruncateMax` | parquet-column/src/main/java/org/apache/parquet/internal/column/columnindex/BinaryTruncator.java:99-112 | Returns `TruncatedMax`. The result is the input itself for the no-op truncator (lines 76-78) and whenever its length is at most `length`. |
| `BinaryTruncator.TruncatedMinIsLowerBound` | parquet-column/src/main/java/org/apache/parquet/internal/column/columnindex/BinaryTruncator.java:85-97 | The min result is at most the input in unsigned lexicographic order. It is the input itself or a prefix of at most `length` bytes, and valid text stays valid. |
| `BinaryTruncator.TruncatedMinShape` | parquet-column/src/main/java/org/apache/parquet/internal/column/columnindex/BinaryTruncator.java:89-96 | For an over-long value: invalid text is cut to exactly `length` bytes. Valid text becomes its longest valid prefix of at most `length` bytes, and is returned whole exactly when no prefix of 1..`length` bytes is valid. |
| `BinaryTruncator.TruncatedMaxIsUpperBound` | parquet-column/src/main/java/org/apache/parquet/internal/column/columnindex/BinaryTruncator.java:100-112 | The max result is at least the input. It is the input itself or a value of at most `length` bytes that is strictly greater, and valid text stays valid. |
| `BinaryTruncator.TruncatedMinIdempotent` | parquet-column/src/main/java/org/apache/parquet/internal/column/columnindex/BinaryTruncator.java:86-96 | Applying the min truncation twice with the same `length` gives the same result as applying it once. |
| `BinaryTruncator.TruncatedMaxIdempotent` | parquet-column/src/main/java/org/apache/parquet/internal/column/columnindex/BinaryTruncator.java:101-111 | Applying the max truncation twice with the same `length` gives the same result as applying it once. |
| `BinaryTruncator.MaxPrefixKeepsMax` | parquet-column/src/main/java/org/apache/parquet/internal/column/columnindex/BinaryTruncator.java:106-111 | When the first `length` bytes are all 0xFF, the max is returned whole. The lemma also proves that no value of at most `length` bytes is an upper bound then, so keeping the whole value is the only choice. |
| `Dispatch.GetTruncator` | parquet-column/src/main/java/org/apache/parquet/internal/column/columnindex/BinaryTruncator.java:178-202 | No type or INT96 gives the no-op truncator. BINARY and FIXED_LEN_BYTE_ARRAY give the UTF-8 truncator when unannotated or annotated UTF8/ENUM/JSON/BSON, and the no-op truncator otherwise. Every other primitive type is an `IllegalArgument` error. All three directions are stated as if-and-only-if. |
| `Dispatch.SelectedTruncatorKeepsBounds` | parquet-column/src/main/java/org/apache/parquet/internal/column/columnindex/BinaryTruncator.java:178-202 | Whatever truncator the table selects, truncated min <= value <= truncated max. |
| `TruncatorExamples.HelloWorld` | parquet-column/src/main/java/org/apache/parquet/internal/column/columnindex/BinaryTruncator.java:84-112 | "hello world" with `length` 5 gives min "hello" and max "hellp". |
| `TruncatorExamples.RawBytes` | parquet-column/src/main/java/org/apache/parquet/internal/column/columnindex/BinaryTruncator.java:104-111 | 01 02 03 FF FF is not text. With `length` 3 it gives min 01 02 03 and max 01 02 04. |
| `TruncatorExamples.ThreeByteCharKeptWhole` | parquet-column/src/main/java/org/apache/parquet/internal/column/columnindex/BinaryTruncator.java:89-111 | "€A" with `length` 2 has no valid prefix, so both bounds keep the whole value. |
| `TruncatorExamples.CarryIntoPreviousCharacter` | parquet-column/src/main/java/org/apache/parquet/internal/column/columnindex/BinaryTruncator.java:157-172 | For "a" 7F "b" with `length` 2, raising 7F gives the malformed 80. The increment therefore moves left, giving "b" 7F. |
| `TruncatorExamples.IncrementUtf8MissesLargerValue` | parquet-column/src/main/java/org/apache/parquet/internal/column/columnindex/BinaryTruncator.java:152-175 | The UTF-8 increment of 7F 7F fails, because raising either byte gives a malformed buffer. Yet C2 80 is valid and greater than 7F 7F. |

## Left out

- The decoder plumbing of `CharsetValidator.checkValidity` (lines 42-66) is replaced by the pure function `CheckValidity`. This covers the JDK `CharsetDecoder`, its 1024-char scratch buffer, the overflow loop and the position save/restore. The `Unmappable` case is kept in the datatype and in `IncrementUtf8`'s retry loop, but this decoder never produces it.
- Sharing the validator's scratch buffer between threads is a concurrency concern. It is not modelled.
- `ByteBuffer` views (`slice`, `limit`, `position`, `get`, `wrap`) become sequence slices and arrays. `Binary.toByteBuffer` and `Binary.fromConstantByteArray` become `seq<byte>` and `array[..]`.
- `length` is a `nat`, so the model does not cover a negative `length`. In the source only the UTF-8 truncator throws for a negative `length`. There, `length() <= length` is false, and then `new byte[length]` (line 117) throws `NegativeArraySizeException`, or `limit(...)` (line 139) throws `IllegalArgumentException`. The no-op truncator returns its input for any `length`, negative or not (lines 71-78). The model does not state either behaviour.
- `PrimitiveType` and `OriginalType` are reduced to the primitive type name and the optional original type. The exception message is a constant string; it does not embed the type's text form.
- Java's `assert` statements in `truncate` and `truncateUtf8` (`length < buffer.remaining()`) become `requires` clauses. The entry points always meet them.
