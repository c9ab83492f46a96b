/** GenericGF: GF(size) for size a power of two, with elements written as the
    bit masks of polynomials over GF(2). The exponent and logarithm tables are
    built lazily, once, on first use; every table-reading operation goes
    through CheckInit first. */
module ReedSolomon {
  import opened Bits
  import opened GaloisTables

  /** The exceptions the field's operations raise. */
  datatype FieldError =
    | IllegalArgument     // log(0), buildMonomial with a negative degree
    | Arithmetic          // inverse(0)
    | NegativeArraySize   // buildMonomial's degree + 1 wrapping past the largest int

  datatype Result<T> = Success(value: T) | Failure(error: FieldError)

  /** Fields of at most this size build their tables in the constructor. */
  const InitializationThreshold := 0

  /** A polynomial over a field, reduced here to the two things the field
      gives it: the field itself and the coefficient array. */
  class GenericGFPoly {
    const field: GenericGF
    const coefficients: seq<int>

    constructor (field: GenericGF, coefficients: seq<int>)
      ensures this.field == field && this.coefficients == coefficients
    {
      this.field := field;
      this.coefficients := coefficients;
    }
  }

  class GenericGF {
    const primitive: int
    const size: int
    var expTable: array?<int>
    var logTable: array?<int>
    var zero: GenericGFPoly?
    var one: GenericGFPoly?
    var initialized: bool

    /** Before initialization nothing is allocated; afterwards the two tables
        hold exactly the powers of 2 and their logarithms, and zero and one are
        the constant polynomials 0 and 1 over this field. */
    ghost predicate Valid()
      reads this, expTable, logTable
    {
      && Parameters(primitive, size)
      && (!initialized ==> expTable == null && logTable == null && zero == null && one == null)
      && (initialized ==>
            && expTable != null && logTable != null && zero != null && one != null
            && expTable[..] == ExpTable(primitive, size)
            && logTable[..] == LogTable(primitive, size)
            && zero.field == this && zero.coefficients == [0]
            && one.field == this && one.coefficients == [1])
    }

    /** GF(size) with the given primitive polynomial; only a field no larger
        than the threshold (here: size 0) builds its tables right away. */
    constructor (primitive: int, size: int)
      requires Parameters(primitive, size)
      ensures Valid()
      ensures this.primitive == primitive && this.size == size
      ensures initialized <==> size <= InitializationThreshold
    {
      this.primitive := primitive;
      this.size := size;
      expTable := null;
      logTable := null;
      zero := null;
      one := null;
      initialized := false;
      new;
      if size <= InitializationThreshold {
        Initialize();
      }
    }

    /** Fills the exponent table by doubling with reduction, inverts its first
        size - 1 entries into the logarithm table, and creates zero and one. */
    method Initialize()
      requires Valid() && !initialized
      modifies this
      ensures Valid() && initialized
      ensures fresh(expTable) && fresh(logTable) && fresh(zero) && fresh(one)
    {
      var exp := FillExpTable(primitive, size);
      var log := FillLogTable(primitive, size, exp);
      expTable := exp;
      logTable := log;
      zero := new GenericGFPoly(this, [0]);
      one := new GenericGFPoly(this, [1]);
      initialized := true;
    }

    /** initialize's first loop: x starts at 1 and is doubled after each
        entry; once it reaches size it is reduced by the primitive polynomial
        (exclusive or) and masked back below size. */
    static method FillExpTable(primitive: int, size: int) returns (exp: array<int>)
      requires Parameters(primitive, size)
      ensures fresh(exp) && exp[..] == ExpTable(primitive, size)
    {
      var n: nat := size;
      exp := new int[n](_ => 0);
      var x: nat := 1;
      for i := 0 to n
        invariant x == ExpAt(primitive, n, i)
        invariant exp[..i] == ExpTable(primitive, n)[..i]
      {
        exp[i] := x;
        ghost var previous := x;
        x := x * 2;
        if x >= n {
          x := Xor(x, primitive);
          x := And(x, n - 1);
        }
        StepByMask(primitive, n, previous);
      }
    }

    /** initialize's second loop: a table of zeros in which entry exp[i] is
        set to i for i = 0, ..., size - 2. */
    static method FillLogTable(primitive: int, size: int, exp: array<int>) returns (log: array<int>)
      requires Parameters(primitive, size) && exp[..] == ExpTable(primitive, size)
      ensures fresh(log) && log[..] == LogTable(primitive, size)
    {
      var n: nat := size;
      ghost var powers := ExpTable(primitive, n);
      log := new int[n](_ => 0);
      assert log[..] == LogFill(powers, n, 0);
      var i := 0;
      while i < n - 1
        invariant 0 <= i <= n && (n == 0 || i <= n - 1)
        invariant log[..] == LogFill(powers, n, i)
      {
        ghost var before := log[..];
        log[exp[i]] := i;
        assert log[..] == before[exp[i] := i];
        i := i + 1;
      }
    }

    /** Builds the tables on first use and does nothing afterwards. */
    method CheckInit()
      requires Valid()
      modifies this
      ensures Valid() && initialized
      ensures old(initialized) ==> unchanged(this)
      ensures !old(initialized) ==> fresh(expTable) && fresh(logTable) && fresh(zero) && fresh(one)
    {
      if !initialized {
        Initialize();
      }
    }

    /** 2 to the power a. */
    method Exp(a: int) returns (r: int)
      requires Valid() && 0 <= a < size
      modifies this
      ensures Valid() && initialized
      ensures old(initialized) ==> unchanged(this)
      ensures !old(initialized) ==> fresh(expTable) && fresh(logTable) && fresh(zero) && fresh(one)
      ensures r == ExpAt(primitive, size, a)
      ensures 1 <= r < size || !OddPrimitive(primitive, size)
    {
      CheckInit();
      r := expTable[a];
      if OddPrimitive(primitive, size) {
        ExpNonzero(primitive, size, a);
      }
    }

    /** The base-2 logarithm of a; log(0) is an IllegalArgumentException. */
    method Log(a: int) returns (r: Result<int>)
      requires Valid() && (a == 0 || 0 < a < size)
      modifies this
      ensures Valid() && initialized
      ensures old(initialized) ==> unchanged(this)
      ensures !old(initialized) ==> fresh(expTable) && fresh(logTable) && fresh(zero) && fresh(one)
      ensures r.Failure? <==> a == 0
      ensures r.Failure? ==> r.error == IllegalArgument
      ensures r.Success? ==> r.value == LogTable(primitive, size)[a] && 0 <= r.value <= size - 2
      ensures r.Success? && Generates(primitive, size) ==> ExpAt(primitive, size, r.value) == a
    {
      CheckInit();
      if a == 0 {
        return Failure(IllegalArgument);
      }
      r := Success(logTable[a]);
      if Generates(primitive, size) {
        ExpOfLog(primitive, size, a);
      }
    }

    /** The multiplicative inverse of a; inverse(0) is an ArithmeticException. */
    method Inverse(a: int) returns (r: Result<int>)
      requires Valid() && (a == 0 || 0 < a < size)
      modifies this
      ensures Valid() && initialized
      ensures old(initialized) ==> unchanged(this)
      ensures !old(initialized) ==> fresh(expTable) && fresh(logTable) && fresh(zero) && fresh(one)
      ensures r.Failure? <==> a == 0
      ensures r.Failure? ==> r.error == Arithmetic
      ensures r.Success? ==> r.value == FieldInverse(primitive, size, a)
      ensures r.Success? && Generates(primitive, size) ==>
                1 <= r.value < size && FieldProduct(primitive, size, a, r.value) == 1
    {
      CheckInit();
      if a == 0 {
        return Failure(Arithmetic);
      }
      InverseIndex(primitive, size, a);
      r := Success(expTable[size - logTable[a] - 1]);
      if Generates(primitive, size) {
        ProductWithInverse(primitive, size, a);
      }
    }

    /** The product of a and b. Besides field elements it accepts a 0 next to
        anything, and a == -1, which the out-of-range branch turns into 0 and
        which then reads the unused table entry log(0). */
    method Multiply(a: int, b: int) returns (r: int)
      requires Valid()
      requires a == 0 || b == 0 || ((0 <= a < size || a == -1) && 0 <= b < size)
      modifies this
      ensures Valid() && initialized
      ensures old(initialized) ==> unchanged(this)
      ensures !old(initialized) ==> fresh(expTable) && fresh(logTable) && fresh(zero) && fresh(one)
      ensures a == 0 || b == 0 ==> r == 0
      ensures 0 <= a < size && 0 <= b < size ==> r == FieldProduct(primitive, size, a, b)
      ensures a == -1 && b != 0 ==> r == LogSumLookup(primitive, size, 0, b)
      ensures a == -1 && b != 0 && Generates(primitive, size) ==> r == b
    {
      CheckInit();
      if a == 0 || b == 0 {
        return 0;
      }
      var a' := a;
      if a' < 0 || b < 0 || a' >= size || b >= size {
        a' := a' + 1;
      }
      var logSum := logTable[a'] + logTable[b];
      ReducedLogSum(logSum, size);
      r := expTable[logSum % size + logSum / size];
      if a == -1 && Generates(primitive, size) {
        LookupWithZeroLog(primitive, size, b);
      }
    }

    /** The monomial coefficient * x^degree: the cached zero for coefficient 0,
        otherwise a new polynomial whose coefficient array has length
        degree + 1, the coefficient first and zeros after it. */
    method BuildMonomial(degree: int, coefficient: int) returns (r: Result<GenericGFPoly>)
      requires Valid() && IsInt(degree)
      modifies this
      ensures Valid() && initialized
      ensures old(initialized) ==> unchanged(this)
      ensures !old(initialized) ==> fresh(expTable) && fresh(logTable) && fresh(zero) && fresh(one)
      ensures r.Failure? <==> degree < 0 || (degree == IntMax && coefficient != 0)
      ensures degree < 0 ==> r == Failure(IllegalArgument)
      ensures 0 <= degree && coefficient == 0 ==> r.Success? && r.value == zero
      ensures 0 <= degree < IntMax && coefficient != 0 ==>
                && r.Success? && fresh(r.value) && r.value.field == this
                && |r.value.coefficients| == degree + 1
                && r.value.coefficients[0] == coefficient
                && forall i :: 1 <= i <= degree ==> r.value.coefficients[i] == 0
      ensures degree == IntMax && coefficient != 0 ==> r == Failure(NegativeArraySize)
    {
      CheckInit();
      if degree < 0 {
        return Failure(IllegalArgument);
      }
      if coefficient == 0 {
        return Success(zero);
      }
      if degree == IntMax {
        // degree + 1 wraps to the smallest int, a negative array length
        return Failure(NegativeArraySize);
      }
      var coefficients := [coefficient] + seq(degree, _ => 0);
      var poly := new GenericGFPoly(this, coefficients);
      r := Success(poly);
    }

    /** The constant polynomial 1 over this field. */
    method GetOne() returns (r: GenericGFPoly)
      requires Valid()
      modifies this
      ensures Valid() && initialized
      ensures old(initialized) ==> unchanged(this)
      ensures !old(initialized) ==> fresh(expTable) && fresh(logTable) && fresh(zero) && fresh(one)
      ensures r == one && r.field == this && r.coefficients == [1]
    {
      CheckInit();
      r := one;
    }

    /** The constant polynomial 0 over this field. */
    method GetZero() returns (r: GenericGFPoly)
      requires Valid()
      modifies this
      ensures Valid() && initialized
      ensures old(initialized) ==> unchanged(this)
      ensures !old(initialized) ==> fresh(expTable) && fresh(logTable) && fresh(zero) && fresh(one)
      ensures r == zero && r.field == this && r.coefficients == [0]
    {
      CheckInit();
      r := zero;
    }

    /** The number of elements fixed at construction; a function reading no
        mutable state, so it never triggers initialization. */
    function GetSize(): (r: int)
      ensures r == size
    {
      size
    }

    /** Addition and subtraction in GF(size) are one operation: the exclusive
        or of the two ints' 32-bit patterns. */
    static function AddOrSubtract(a: int, b: int): (r: int)
      requires IsInt(a) && IsInt(b)
      ensures IsInt(r) && ToUnsigned(r) == Xor(ToUnsigned(a), ToUnsigned(b))
      ensures 0 <= a && 0 <= b ==> r == Xor(a, b)
    {
      Int32Widths();
      XorBound(ToUnsigned(a), ToUnsigned(b), if 0 <= a && 0 <= b then TwoTo31 else TwoTo32);
      ToSigned(Xor(ToUnsigned(a), ToUnsigned(b)))
    }
  }

  /** initialize's shift, exclusive or and mask compute one step of the
      exponent table. */
  lemma StepByMask(primitive: int, size: int, x: nat)
    requires Parameters(primitive, size) && size >= 1 && x < size
    ensures (if 2 * x >= size then And(Xor(2 * x, primitive), size - 1) else 2 * x)
            == Step(primitive, size, x)
  {
    if 2 * x >= size {
      MaskIsMod(Xor(2 * x, primitive), size);
    }
  }

  // -----------------------------------------------------------------------
  // Addition

  lemma AddCommutes(a: int, b: int)
    requires IsInt(a) && IsInt(b)
    ensures GenericGF.AddOrSubtract(a, b) == GenericGF.AddOrSubtract(b, a)
  {
    XorCommutes(ToUnsigned(a), ToUnsigned(b));
  }

  lemma AddZero(a: int)
    requires IsInt(a)
    ensures GenericGF.AddOrSubtract(a, 0) == a
  {
    XorZero(ToUnsigned(a));
  }

  lemma AddSelf(a: int)
    requires IsInt(a)
    ensures GenericGF.AddOrSubtract(a, a) == 0
  {
    XorSelf(ToUnsigned(a));
  }

  /** Subtracting b undoes adding b. */
  lemma AddCancels(a: int, b: int)
    requires IsInt(a) && IsInt(b)
    ensures GenericGF.AddOrSubtract(GenericGF.AddOrSubtract(a, b), b) == a
  {
    var s := GenericGF.AddOrSubtract(a, b);
    XorCancel(ToUnsigned(a), ToUnsigned(b));
    assert ToUnsigned(s) == Xor(ToUnsigned(a), ToUnsigned(b));
    assert ToUnsigned(GenericGF.AddOrSubtract(s, b)) == ToUnsigned(a);
  }

  /** The sum of two elements of GF(size) is an element of GF(size). */
  lemma AddClosed(size: int, a: int, b: int)
    requires size >= 1 && IsPowerOfTwo(size) && 0 <= a < size && 0 <= b < size
    requires size <= MaxSize
    ensures 0 <= GenericGF.AddOrSubtract(a, b) < size
  {
    XorBound(a, b, size);
  }

  // -----------------------------------------------------------------------
  // The fields used by the barcode formats

  class WellKnownFields {
    const AztecData12: GenericGF   // x^12 + x^6 + x^5 + x^3 + 1
    const AztecData10: GenericGF   // x^10 + x^3 + 1
    const AztecData6: GenericGF    // x^6 + x + 1
    const AztecParam: GenericGF    // x^4 + x + 1
    const QrCodeField256: GenericGF       // x^8 + x^4 + x^3 + x^2 + 1
    const DataMatrixField256: GenericGF   // x^8 + x^5 + x^3 + x^2 + 1
    const AztecData8: GenericGF           // the Data Matrix field, shared

    constructor ()
      ensures AztecData12.primitive == 0x1069 && AztecData12.size == 4096
      ensures AztecData10.primitive == 0x409 && AztecData10.size == 1024
      ensures AztecData6.primitive == 0x43 && AztecData6.size == 64
      ensures AztecParam.primitive == 0x13 && AztecParam.size == 16
      ensures QrCodeField256.primitive == 0x011D && QrCodeField256.size == 256
      ensures DataMatrixField256.primitive == 0x012D && DataMatrixField256.size == 256
      ensures AztecData8 == DataMatrixField256
      ensures fresh(AztecData12) && fresh(AztecData10) && fresh(AztecData6) && fresh(AztecParam)
      ensures fresh(QrCodeField256) && fresh(DataMatrixField256)
      ensures AztecData12.Valid() && !AztecData12.initialized
      ensures AztecData10.Valid() && !AztecData10.initialized
      ensures AztecData6.Valid() && !AztecData6.initialized
      ensures AztecParam.Valid() && !AztecParam.initialized
      ensures QrCodeField256.Valid() && !QrCodeField256.initialized
      ensures DataMatrixField256.Valid() && !DataMatrixField256.initialized
    {
      WellKnownParameters();
      AztecData12 := new GenericGF(0x1069, 4096);
      AztecData10 := new GenericGF(0x409, 1024);
      AztecData6 := new GenericGF(0x43, 64);
      AztecParam := new GenericGF(0x13, 16);
      QrCodeField256 := new GenericGF(0x011D, 256);
      DataMatrixField256 := new GenericGF(0x012D, 256);
      AztecData8 := DataMatrixField256;
    }
  }

  /** Every well-known field has a power-of-two size, a polynomial of matching
      degree with constant coefficient 1, and is large enough to build its
      tables lazily. */
  lemma WellKnownParameters()
    ensures OddPrimitive(0x1069, 4096) && DegreeMatches(0x1069, 4096) && 4096 > InitializationThreshold
    ensures OddPrimitive(0x409, 1024) && DegreeMatches(0x409, 1024) && 1024 > InitializationThreshold
    ensures OddPrimitive(0x43, 64) && DegreeMatches(0x43, 64) && 64 > InitializationThreshold
    ensures OddPrimitive(0x13, 16) && DegreeMatches(0x13, 16) && 16 > InitializationThreshold
    ensures OddPrimitive(0x011D, 256) && DegreeMatches(0x011D, 256) && 256 > InitializationThreshold
    ensures OddPrimitive(0x012D, 256) && DegreeMatches(0x012D, 256) && 256 > InitializationThreshold
  {
    assert IsPowerOfTwo(4096) && IsPowerOfTwo(1024) && IsPowerOfTwo(64);
    assert IsPowerOfTwo(16) && IsPowerOfTwo(256);
  }

  /** The table answers of GF(16) with x^4 + x + 1 that the scenario below reads. */
  lemma AztecParamAnswers()
    ensures Generates(0x13, 16)
    ensures ExpAt(0x13, 16, 0) == 1 && ExpAt(0x13, 16, 3) == 8
    ensures LogTable(0x13, 16)[1] == 0 && LogTable(0x13, 16)[3] == 4
    ensures FieldProduct(0x13, 16, 2, 2) == 4 && FieldProduct(0x13, 16, 3, 4) == 12
    ensures FieldInverse(0x13, 16, 2) == 9
  {
    AztecParamGenerates();
    AztecParamPowers();
    ExpTableEntry(0x13, 16, 0);
    ExpTableEntry(0x13, 16, 1);
    ExpTableEntry(0x13, 16, 2);
    ExpTableEntry(0x13, 16, 4);
    ExpTableEntry(0x13, 16, 14);
    LogOfExp(0x13, 16, 0);
    LogOfExp(0x13, 16, 1);
    LogOfExp(0x13, 16, 2);
    LogOfExp(0x13, 16, 4);
    ProductByLogs(0x13, 16, 2, 2);
    ProductByLogs(0x13, 16, 3, 4);
  }

  /** A caller's view of the Aztec mode-message field GF(16): the first use
      builds the tables, and the answers are those of x^4 + x + 1. */
  method AztecParamScenario() returns (exp0: int, exp3: int, log1: Result<int>, log3: Result<int>,
                                       square2: int, product34: int, inverse2: Result<int>, log0: Result<int>)
    ensures exp0 == 1 && exp3 == 8
    ensures log1 == Success(0) && log3 == Success(4)
    ensures square2 == 4 && product34 == 12
    ensures inverse2 == Success(9)
    ensures log0 == Failure(IllegalArgument)
  {
    AztecParamAnswers();
    var field := new GenericGF(0x13, 16);
    exp0 := field.Exp(0);
    exp3 := field.Exp(3);
    log1 := field.Log(1);
    log3 := field.Log(3);
    square2 := field.Multiply(2, 2);
    product34 := field.Multiply(3, 4);
    inverse2 := field.Inverse(2);
    log0 := field.Log(0);
  }
}
