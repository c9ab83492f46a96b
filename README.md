# GenericGF: lazily built GF(2^m) tables for Reed–Solomon coding

This project models `GenericGF`, the finite-field engine underneath the
Reed–Solomon error correction of QR, Data Matrix and Aztec barcodes, in Dafny,
and proves what its tables and operations compute.

A field GF(size) is given by its `size` (a power of two) and a primitive
polynomial written as a bit mask (`primitive`, constant coefficient in bit 0).
Elements are ints in `[0, size)`. Addition is exclusive or. Multiplication,
inversion and logarithms go through two tables built on first use:

- `expTable[i]` is 2^i, obtained by doubling and reducing by the polynomial;
- `logTable` inverts the first `size - 1` entries.

The project has three modules:

- `Bits` (bits.dfy) defines exclusive or and bitwise and on natural numbers
  arithmetically. It also defines the 32-bit two's-complement view of a Java
  `int`. It proves the facts the tables need: masking with `n - 1` is reduction
  modulo a power of two, exclusive or is commutative and self-inverse, and it
  stays below a power of two.
- `GaloisTables` (galois_tables.dfy) states the two tables as pure functions of
  `(primitive, size)`. `ExpAt` is the doubling recurrence. `LogFill` is the
  filling loop step by step. The lemmas prove what the tables mean. Under the
  hypothesis `Generates`, the powers 2^0 … 2^(size-2) are distinct and the
  polynomial has constant term 1. From it the lemmas show that every nonzero
  element is a power of 2 and that the powers repeat with period `size - 1`.
  They also show that `log` and `exp` invert each other, that `multiply`'s
  index trick is reduction modulo `size - 1`, and that `inverse` really
  inverts. The hypothesis is discharged by computation for the Aztec
  mode-message field GF(16) with x^4 + x + 1.
- `ReedSolomon` (generic_gf.dfy) holds the class `GenericGF`.
  - The class has the source's fields: `expTable` and `logTable` as arrays,
    the cached `zero` and `one` polynomials, and the `initialized` flag.
    `Valid()` ties the arrays to the table functions once `initialized` is set.
  - Every table-reading method goes through `CheckInit`. Its contract makes
    initialization a one-way step: it builds fresh tables the first time and
    changes nothing afterwards.
  - Errors are results: `log(0)` gives `IllegalArgument`, `inverse(0)` gives
    `Arithmetic`, and `buildMonomial` with a negative degree gives
    `IllegalArgument`.
  - `GenericGFPoly` is reduced to its field and its coefficient sequence.
  - The class `WellKnownFields` holds the six static fields, with `AztecData8`
    the same object as `DataMatrixField256`.

`multiply` has a branch for operands outside `[0, size)`: it adds 1 to `a` and
reads the tables anyway. That read is out of bounds for every such input
except `a == -1` with `b` a nonzero element: `a` becomes 0, and the lookup adds
the entry `log[0]` to `log[b]`. Under `Generates` no round writes `log[0]`, so
it keeps its 0 and `multiply(-1, b)` returns `b`. Without the hypothesis
`log[0]` can be overwritten: for size 4 and primitive 4, `log[0] == 2`.
`multiply(b, -1)` fails on the array read. The model gives `Multiply` exactly
the inputs on which the source does not fail. For `a == -1` it states the
lookup with `log[0]`, and that this lookup is `b` under `Generates`; see `LookupWithZeroLog`.

## Model

| member | source | states |
|---|---|---|
| ReedSolomon.GenericGF.AddOrSubtract | app/src/main/java/xju/dctcamera/utils/dct/com/google/zxing/common/reedsolomon/GenericGF.java:54-56 | the result is an int whose 32-bit pattern is the exclusive or of the operands' patterns; for non-negative operands it is their exclusive or |
| ReedSolomon.AddCommutes | app/src/main/java/xju/dctcamera/utils/dct/com/google/zxing/common/reedsolomon/GenericGF.java:54-56 | addOrSubtract(a, b) == addOrSubtract(b, a) for every pair of ints |
| ReedSolomon.AddZero | app/src/main/java/xju/dctcamera/utils/dct/com/google/zxing/common/reedsolomon/GenericGF.java:54-56 | 0 is the identity: addOrSubtract(a, 0) == a |
| ReedSolomon.AddSelf | app/src/main/java/xju/dctcamera/utils/dct/com/google/zxing/common/reedsolomon/GenericGF.java:54-56 | every int is its own negative: addOrSubtract(a, a) == 0 |
| ReedSolomon.AddCancels | app/src/main/java/xju/dctcamera/utils/dct/com/google/zxing/common/reedsolomon/GenericGF.java:54-56 | addition and subtraction are one operation: adding b twice gives back a |
| ReedSolomon.AddClosed | app/src/main/java/xju/dctcamera/utils/dct/com/google/zxing/common/reedsolomon/GenericGF.java:54-56 | the sum of two elements of GF(size) lies in [0, size) |
| ReedSolomon.GenericGF.constructor | app/src/main/java/xju/dctcamera/utils/dct/com/google/zxing/common/reedsolomon/GenericGF.java:78-85 | fixes primitive and size; the tables are built right away exactly when size <= INITIALIZATION_THRESHOLD (0) |
| ReedSolomon.GenericGF.BuildMonomial | app/src/main/java/xju/dctcamera/utils/dct/com/google/zxing/common/reedsolomon/GenericGF.java:90-100 | fails with IllegalArgument exactly for a negative degree; gives the cached zero for coefficient 0; otherwise a fresh polynomial over this field with degree + 1 coefficients, the given one first and zeros after it (NegativeArraySize when degree + 1 overflows) |
| ReedSolomon.GenericGF.CheckInit | app/src/main/java/xju/dctcamera/utils/dct/com/google/zxing/common/reedsolomon/GenericGF.java:102-106 | afterwards the field is initialized; if it already was, nothing changed; if not, the tables and polynomials are fresh |
| ReedSolomon.GenericGF.Exp | app/src/main/java/xju/dctcamera/utils/dct/com/google/zxing/common/reedsolomon/GenericGF.java:111-115 | returns 2^a (ExpAt), a nonzero element when the polynomial has constant term 1; leaves the field initialized |
| ReedSolomon.GenericGF.GetOne | app/src/main/java/xju/dctcamera/utils/dct/com/google/zxing/common/reedsolomon/GenericGF.java:117-121 | returns the cached polynomial [1] over this field, initializing first |
| ReedSolomon.GenericGF.GetSize | app/src/main/java/xju/dctcamera/utils/dct/com/google/zxing/common/reedsolomon/GenericGF.java:123-125 | returns the size fixed at construction; as a function with no reads clause it touches no mutable state, so it never initializes |
| ReedSolomon.GenericGF.GetZero | app/src/main/java/xju/dctcamera/utils/dct/com/google/zxing/common/reedsolomon/GenericGF.java:127-131 | returns the cached polynomial [0] over this field, initializing first |
| ReedSolomon.GenericGF.Initialize | app/src/main/java/xju/dctcamera/utils/dct/com/google/zxing/common/reedsolomon/GenericGF.java:133-154 | from the uninitialized state, installs fresh tables equal to ExpTable and LogTable and fresh zero [0] and one [1], and sets initialized |
| ReedSolomon.GenericGF.FillExpTable | app/src/main/java/xju/dctcamera/utils/dct/com/google/zxing/common/reedsolomon/GenericGF.java:136-144 | the doubling loop fills a fresh array equal to ExpTable: entry i is 2^i |
| ReedSolomon.GenericGF.FillLogTable | app/src/main/java/xju/dctcamera/utils/dct/com/google/zxing/common/reedsolomon/GenericGF.java:145-147 | the second loop fills a fresh array equal to LogTable |
| ReedSolomon.StepByMask | app/src/main/java/xju/dctcamera/utils/dct/com/google/zxing/common/reedsolomon/GenericGF.java:139-143 | shift, exclusive or with primitive and mask with size - 1 compute one Step of the table |
| ReedSolomon.GenericGF.Inverse | app/src/main/java/xju/dctcamera/utils/dct/com/google/zxing/common/reedsolomon/GenericGF.java:159-165 | fails with Arithmetic exactly when a == 0; otherwise returns expTable[size - log(a) - 1], which under Generates is nonzero and multiplies a to 1 |
| ReedSolomon.GenericGF.Log | app/src/main/java/xju/dctcamera/utils/dct/com/google/zxing/common/reedsolomon/GenericGF.java:170-176 | fails with IllegalArgument exactly when a == 0; otherwise returns logTable[a] in [0, size - 2], whose power of 2 is a under Generates |
| ReedSolomon.GenericGF.Multiply | app/src/main/java/xju/dctcamera/utils/dct/com/google/zxing/common/reedsolomon/GenericGF.java:183-195 | 0 when either operand is 0; FieldProduct for two elements; for a == -1 the lookup with log(0), which is b under Generates |
| ReedSolomon.WellKnownFields.constructor | app/src/main/java/xju/dctcamera/utils/dct/com/google/zxing/common/reedsolomon/GenericGF.java:33-45 | six fresh, uninitialized fields with the listed polynomials and sizes; AZTEC_DATA_8 is the Data Matrix field object |
| ReedSolomon.WellKnownParameters | app/src/main/java/xju/dctcamera/utils/dct/com/google/zxing/common/reedsolomon/GenericGF.java:33-47 | each well-known field has a power-of-two size, a polynomial whose degree is exactly log2(size) (size <= primitive < 2 * size) with constant term 1, and a size above the threshold, so its tables are built lazily |
| ReedSolomon.AztecParamAnswers | app/src/main/java/xju/dctcamera/utils/dct/com/google/zxing/common/reedsolomon/GenericGF.java:39 | in GF(16) with x^4 + x + 1: 2^0 = 1, 2^3 = 8, log 1 = 0, log 3 = 4, 2 * 2 = 4, 3 * 4 = 12, inverse of 2 = 9 |
| ReedSolomon.AztecParamScenario | app/src/main/java/xju/dctcamera/utils/dct/com/google/zxing/common/reedsolomon/GenericGF.java:39 | a fresh AZTEC_PARAM field answers exp, log, multiply and inverse with those values, and log(0) fails with IllegalArgument |
| GaloisTables.Step | app/src/main/java/xju/dctcamera/utils/dct/com/google/zxing/common/reedsolomon/GenericGF.java:139-143 | the doubled, reduced value stays in [0, size) |
| GaloisTables.ExpAt | app/src/main/java/xju/dctcamera/utils/dct/com/google/zxing/common/reedsolomon/GenericGF.java:136-144 | every power of 2 lies in [0, size) |
| GaloisTables.ExpTableRecurrence | app/src/main/java/xju/dctcamera/utils/dct/com/google/zxing/common/reedsolomon/GenericGF.java:136-144 | expTable[0] == 1 and each later entry is one Step from the previous one |
| GaloisTables.ExpNonzero | app/src/main/java/xju/dctcamera/utils/dct/com/google/zxing/common/reedsolomon/GenericGF.java:136-144 | with constant term 1, every table entry lies in [1, size) |
| GaloisTables.StepInjective | app/src/main/java/xju/dctcamera/utils/dct/com/google/zxing/common/reedsolomon/GenericGF.java:139-143 | with constant term 1, different entries have different successors |
| GaloisTables.ExpCovers | app/src/main/java/xju/dctcamera/utils/dct/com/google/zxing/common/reedsolomon/GenericGF.java:136-147 | under Generates every nonzero element is 2^i for some i <= size - 2 |
| GaloisTables.ExpPeriod | app/src/main/java/xju/dctcamera/utils/dct/com/google/zxing/common/reedsolomon/GenericGF.java:136-144 | under Generates the last entry, 2^(size-1), is 1 again |
| GaloisTables.LogTable | app/src/main/java/xju/dctcamera/utils/dct/com/google/zxing/common/reedsolomon/GenericGF.java:145-147 | every logarithm lies in [0, size - 2] |
| GaloisTables.LogOfExp | app/src/main/java/xju/dctcamera/utils/dct/com/google/zxing/common/reedsolomon/GenericGF.java:145-147 | under Generates logTable[expTable[i]] == i for every i <= size - 2 |
| GaloisTables.ExpOfLog | app/src/main/java/xju/dctcamera/utils/dct/com/google/zxing/common/reedsolomon/GenericGF.java:145-147 | under Generates expTable[logTable[a]] == a for every nonzero element a |
| GaloisTables.LogInjective | app/src/main/java/xju/dctcamera/utils/dct/com/google/zxing/common/reedsolomon/GenericGF.java:145-147 | under Generates distinct nonzero elements have distinct logarithms |
| GaloisTables.LogOfZeroUnused | app/src/main/java/xju/dctcamera/utils/dct/com/google/zxing/common/reedsolomon/GenericGF.java:145-148 | under Generates no round writes logTable[0], which keeps its 0 |
| GaloisTables.ReducedLogSum | app/src/main/java/xju/dctcamera/utils/dct/com/google/zxing/common/reedsolomon/GenericGF.java:193-194 | for a sum of two logarithms, s % size + s / size is in [0, size) and equals s modulo size - 1 except at s == size - 1 |
| GaloisTables.LogSumLookup | app/src/main/java/xju/dctcamera/utils/dct/com/google/zxing/common/reedsolomon/GenericGF.java:193-194 | multiply's final table read is in bounds and yields an element |
| GaloisTables.FieldProduct | app/src/main/java/xju/dctcamera/utils/dct/com/google/zxing/common/reedsolomon/GenericGF.java:186-194 | the product of two elements is an element |
| GaloisTables.ProductByLogs | app/src/main/java/xju/dctcamera/utils/dct/com/google/zxing/common/reedsolomon/GenericGF.java:186-194 | under Generates the product of nonzero a and b is 2^((log a + log b) mod (size - 1)), and it is never 0 |
| GaloisTables.ProductCommutes | app/src/main/java/xju/dctcamera/utils/dct/com/google/zxing/common/reedsolomon/GenericGF.java:186-194 | multiply(a, b) == multiply(b, a) on elements, and it is 0 when either is 0 |
| GaloisTables.ProductIdentity | app/src/main/java/xju/dctcamera/utils/dct/com/google/zxing/common/reedsolomon/GenericGF.java:186-194 | under Generates multiply(a, 1) == a |
| GaloisTables.LookupWithZeroLog | app/src/main/java/xju/dctcamera/utils/dct/com/google/zxing/common/reedsolomon/GenericGF.java:189-194 | under Generates the lookup with log(0) in place of log(a) gives back b, which is what multiply(-1, b) returns |
| GaloisTables.FieldInverse | app/src/main/java/xju/dctcamera/utils/dct/com/google/zxing/common/reedsolomon/GenericGF.java:164 | the inverse read is in bounds and yields an element |
| GaloisTables.InverseIndex | app/src/main/java/xju/dctcamera/utils/dct/com/google/zxing/common/reedsolomon/GenericGF.java:164 | the index size - logTable[a] - 1 lies in [1, size - 1] |
| GaloisTables.ProductWithInverse | app/src/main/java/xju/dctcamera/utils/dct/com/google/zxing/common/reedsolomon/GenericGF.java:159-165 | under Generates inverse(a) is nonzero and multiply(a, inverse(a)) == 1 |
| GaloisTables.InverseInvolutive | app/src/main/java/xju/dctcamera/utils/dct/com/google/zxing/common/reedsolomon/GenericGF.java:159-165 | under Generates inverse(inverse(a)) == a |
| GaloisTables.AztecParamPowers | app/src/main/java/xju/dctcamera/utils/dct/com/google/zxing/common/reedsolomon/GenericGF.java:39 | the sixteen entries of the AZTEC_PARAM exponent table, ending in 1 again |
| GaloisTables.AztecParamGenerates | app/src/main/java/xju/dctcamera/utils/dct/com/google/zxing/common/reedsolomon/GenericGF.java:39 | x^4 + x + 1 satisfies the hypothesis Generates: 2 generates GF(16) |
| Bits.MaskIsMod | app/src/main/java/xju/dctcamera/utils/dct/com/google/zxing/common/reedsolomon/GenericGF.java:142 | masking with size - 1 is reduction modulo the power of two size |

## Left out

- Thread safety: the unsynchronized check-then-initialize is modelled for one thread only.
- GenericGFPoly is not part of this model beyond its field and coefficient sequence. Its constructor's own checks and leading-zero stripping do not arise here, since buildMonomial always passes a nonzero first coefficient.
- ReedSolomon.GenericGF.constructor: requires size 0, or a power of two from 2 to 2^30 with 0 <= primitive < 2 * size. A negative size raises NegativeArraySizeException in the source. Size 1 or a non-power-of-two size produces tables that are not a field. A primitive of degree above log2(size) is outside the field's definition. None of these is modelled.
- Generates: primitivity of the polynomial is a hypothesis, not proved in general. It adds "constant term 1" to distinctness of the powers, because distinctness alone does not make every nonzero element a power. For size 4 and primitive 4 the table is [1, 2, 0, 0]: its first three entries are distinct, yet 3 is never reached. The hypothesis is discharged only for GF(16); the larger well-known fields are too big to unroll.
- ReedSolomon.GenericGF.Exp, Log, Inverse and Multiply: inputs on which the source reads an array out of bounds (ArrayIndexOutOfBoundsException) are excluded by their requires rather than modelled as errors.
- Java int width: table arithmetic stays below 2^31 for the accepted sizes (size at most 2^30) and is modelled with unbounded integers. The doubled `x` reaches at most 2^31 - 2 and `logSum` at most 2^31 - 4, so neither overflows. Only addOrSubtract works on the full 32-bit patterns, and buildMonomial models the wrap of degree + 1.
- Running out of memory on a huge buildMonomial degree is not modelled.
