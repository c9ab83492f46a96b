/** The exponent and logarithm tables of GF(size), as pure functions of the
    field's two parameters, and what they mean: the exponent table lists the
    powers of the generator 2, the logarithm table inverts it, and the
    table-driven product, inverse and logarithm behave as field operations
    whenever the primitive polynomial makes 2 a generator. */
module GaloisTables {
  import opened Bits

  /** The largest power of two that is a Java int. */
  const MaxSize := 0x4000_0000

  /** Parameters the model accepts: either size 0 (a degenerate field whose
      tables are empty), or a power of two of at least 2 together with a
      primitive polynomial of degree at most log2(size), written as a bit mask
      with the constant coefficient in bit 0. */
  predicate Parameters(primitive: int, size: int) {
    size == 0 || (2 <= size <= MaxSize && IsPowerOfTwo(size) && 0 <= primitive < 2 * size)
  }

  /** The exponent-table entry that follows x: x times the generator 2,
      reduced modulo the primitive polynomial once it no longer fits. */
  function Step(primitive: nat, size: nat, x: nat): (r: nat)
    requires size >= 1
    ensures r < size
  {
    if 2 * x < size then 2 * x else Xor(2 * x, primitive) % size
  }

  /** The i-th power of the generator 2. */
  function ExpAt(primitive: int, size: nat, i: nat): (r: nat)
    requires i == 0 || (size >= 1 && primitive >= 0)
    ensures size >= 2 ==> r < size
    decreases i
  {
    if i == 0 then 1 else Step(primitive, size, ExpAt(primitive, size, i - 1))
  }

  /** The exponent table: its entry i is the i-th power of 2. */
  ghost function ExpTable(primitive: int, size: int): (t: seq<int>)
    requires Parameters(primitive, size)
    ensures |t| == size
    ensures forall i :: 0 <= i < size ==> 0 <= t[i] < size
  {
    seq(size, i requires 0 <= i < size => ExpAt(primitive, size, i))
  }

  /** Entry i of the exponent table is the i-th power of 2. */
  lemma ExpTableEntry(primitive: int, size: int, i: int)
    requires Parameters(primitive, size) && 0 <= i < size
    ensures ExpTable(primitive, size)[i] == ExpAt(primitive, size, i)
  {
  }

  /** The exponent table starts at 1 and each later entry is one Step from
      the one before it. */
  lemma ExpTableRecurrence(primitive: int, size: int)
    requires Parameters(primitive, size) && size >= 2
    ensures ExpTable(primitive, size)[0] == 1
    ensures forall i :: 1 <= i < size ==>
              ExpTable(primitive, size)[i] == Step(primitive, size, ExpTable(primitive, size)[i - 1])
  {
  }

  /** The logarithm table after k rounds of filling: a table of zeros in which,
      for i = 0, 1, ..., k - 1 in turn, entry exp[i] is set to i. */
  ghost function LogFill(exp: seq<int>, size: nat, k: nat): (t: seq<int>)
    requires k <= |exp| && forall i :: 0 <= i < |exp| ==> 0 <= exp[i] < size
    ensures |t| == size
    ensures forall a :: 0 <= a < size ==> 0 <= t[a] && (t[a] == 0 || t[a] < k)
    decreases k
  {
    if k == 0 then seq(size, _ => 0)
    else LogFill(exp, size, k - 1)[exp[k - 1] := k - 1]
  }

  /** The logarithm table: filled from the first size - 1 exponent entries. */
  ghost function LogTable(primitive: int, size: int): (t: seq<int>)
    requires Parameters(primitive, size)
    ensures |t| == size
    ensures forall a :: 0 <= a < size ==> 0 <= t[a] <= size - 2
  {
    LogFill(ExpTable(primitive, size), size, if size == 0 then 0 else size - 1)
  }

  /** A primitive polynomial with constant coefficient 1, as every irreducible
      polynomial other than x has. */
  predicate OddPrimitive(primitive: int, size: int) {
    Parameters(primitive, size) && size >= 2 && primitive % 2 == 1
  }

  /** The polynomial's degree is exactly log2(size): its highest set bit is
      the one worth size. */
  predicate DegreeMatches(primitive: int, size: int) {
    size <= primitive < 2 * size
  }

  /** The hypothesis under which the tables describe a field: the polynomial
      has constant coefficient 1 and the powers 2^0, ..., 2^(size-2) are
      pairwise distinct, so that 2 generates the multiplicative group. */
  ghost predicate Generates(primitive: int, size: int) {
    && OddPrimitive(primitive, size)
    && forall i, j :: 0 <= i < j < size - 1 ==> ExpAt(primitive, size, i) != ExpAt(primitive, size, j)
  }

  /** What inverse(a) returns for a nonzero a: the power of 2 at index size - log(a) - 1. */
  ghost function FieldInverse(primitive: int, size: int, a: int): (r: int)
    requires Parameters(primitive, size) && 1 <= a < size
    ensures 0 <= r < size
  {
    ExpTable(primitive, size)[size - LogTable(primitive, size)[a] - 1]
  }

  /** The lookup multiply makes once past its zero test: the exponent-table
      entry at the reduced sum of the two logarithms. */
  ghost function LogSumLookup(primitive: int, size: int, a: int, b: int): (r: int)
    requires Parameters(primitive, size) && 0 <= a < size && 0 <= b < size
    ensures 0 <= r < size
  {
    var logSum := LogTable(primitive, size)[a] + LogTable(primitive, size)[b];
    ReducedLogSum(logSum, size);
    ExpTable(primitive, size)[logSum % size + logSum / size]
  }

  /** What multiply(a, b) returns for field elements a and b: 0 if either is 0,
      otherwise the lookup at the reduced sum of their logarithms. */
  ghost function FieldProduct(primitive: int, size: int, a: int, b: int): (r: int)
    requires Parameters(primitive, size) && 0 <= a < size && 0 <= b < size
    ensures 0 <= r < size
  {
    if a == 0 || b == 0 then 0 else LogSumLookup(primitive, size, a, b)
  }

  // ---------------------------------------------------------------------
  // Index arithmetic

  /** multiply's index: for a sum s of two logarithms, s % size + s / size is
      s itself below size and s - (size - 1) from size on, so it always indexes
      the table; apart from s == size - 1 it is s modulo the group order size - 1. */
  lemma ReducedLogSum(s: int, size: int)
    requires 2 <= size && 0 <= s <= 2 * (size - 2)
    ensures s % size + s / size == if s < size then s else s - (size - 1)
    ensures 0 <= s % size + s / size < size
    ensures s != size - 1 ==> s % size + s / size == s % (size - 1)
  {
    if s < size {
      DivModUnique(s, size, 0, s);
      if s < size - 1 {
        DivModUnique(s, size - 1, 0, s);
      }
    } else {
      DivModUnique(s, size, 1, s - size);
      DivModUnique(s, size - 1, 1, s - (size - 1));
    }
  }

  // ---------------------------------------------------------------------
  // The exponent table

  /** With an odd primitive, one step's parity says whether a reduction happened. */
  lemma StepParity(primitive: int, size: int, x: nat)
    requires OddPrimitive(primitive, size) && x < size
    ensures Step(primitive, size, x) % 2 == if 2 * x < size then 0 else 1
  {
    if 2 * x >= size {
      XorLowBit(2 * x, primitive);
      HalfOfPowerOfTwo(size);
      OddResidue(Xor(2 * x, primitive), size / 2);
    }
  }

  /** An odd number stays odd when reduced modulo an even number. */
  lemma OddResidue(w: nat, h: int)
    requires h >= 1 && w % 2 == 1
    ensures (w % (2 * h)) % 2 == 1
  {
    ModDouble(w, h);
    DivModUnique(w % (2 * h), 2, (w / 2) % h, 1);
  }

  /** With an odd primitive, no power of 2 is 0. */
  lemma {:induction false} ExpNonzero(primitive: int, size: int, i: nat)
    requires OddPrimitive(primitive, size)
    ensures 1 <= ExpAt(primitive, size, i) < size
    decreases i
  {
    if i > 0 {
      ExpNonzero(primitive, size, i - 1);
      StepParity(primitive, size, ExpAt(primitive, size, i - 1));
    }
  }

  /** With an odd primitive, a step can be undone: different entries have different successors. */
  lemma StepInjective(primitive: int, size: int, x: nat, y: nat)
    requires OddPrimitive(primitive, size) && x < size && y < size
    requires Step(primitive, size, x) == Step(primitive, size, y)
    ensures x == y
  {
    StepParity(primitive, size, x);
    StepParity(primitive, size, y);
    if 2 * x >= size && 2 * y >= size {
      var q := primitive % size;
      XorMod(2 * x, primitive, size);
      XorMod(2 * y, primitive, size);
      DivModUnique(2 * x, size, 1, 2 * x - size);
      DivModUnique(2 * y, size, 1, 2 * y - size);
      assert Xor(2 * x - size, q) == Xor(2 * y - size, q);
      XorCancel(2 * x - size, q);
      XorCancel(2 * y - size, q);
    }
  }

  /** A sequence of pairwise distinct values holds as many values as it is long. */
  lemma {:induction false} DistinctSize(s: seq<int>)
    requires forall i, j :: 0 <= i < j < |s| ==> s[i] != s[j]
    ensures |set x | x in s| == |s|
  {
    if |s| > 0 {
      var t := s[..|s| - 1];
      DistinctSize(t);
      assert (set x | x in s) == (set x | x in t) + {s[|s| - 1]};
    }
  }

  /** A subset as large as its superset is the whole superset. */
  lemma SubsetOfEqualSize(a: set<int>, b: set<int>)
    requires a <= b && |a| == |b|
    ensures a == b
  {
    var rest := b - a;
    assert b == rest + a;
    assert rest !! a;
  }

  /** The integers in [lo, hi). */
  ghost function Interval(lo: int, hi: int): (r: set<int>)
    ensures forall v :: v in r <==> lo <= v < hi
    ensures lo <= hi ==> |r| == hi - lo
    decreases hi - lo
  {
    if hi <= lo then {} else Interval(lo, hi - 1) + {hi - 1}
  }

  /** Under the hypothesis, every nonzero element is a power of 2 with exponent
      at most size - 2: size - 1 distinct nonzero powers fill all size - 1
      nonzero elements. */
  lemma ExpCovers(primitive: int, size: int, a: int) returns (i: nat)
    requires Generates(primitive, size) && 1 <= a < size
    ensures i < size - 1 && ExpAt(primitive, size, i) == a
  {
    var powers := ExpTable(primitive, size)[..size - 1];
    forall j, l | 0 <= j < l < |powers|
      ensures powers[j] != powers[l]
    {
      assert powers[j] == ExpAt(primitive, size, j) && powers[l] == ExpAt(primitive, size, l);
    }
    DistinctSize(powers);
    var image := set x | x in powers;
    var nonzero := Interval(1, size);
    forall v | v in image
      ensures v in nonzero
    {
      var j :| 0 <= j < |powers| && v == powers[j];
      ExpNonzero(primitive, size, j);
    }
    SubsetOfEqualSize(image, nonzero);
    assert a in image;
    var j :| 0 <= j < |powers| && powers[j] == a;
    i := j;
  }

  /** Under the hypothesis the powers of 2 repeat with period size - 1: 2^(size-1) == 1. */
  lemma ExpPeriod(primitive: int, size: int)
    requires Generates(primitive, size)
    ensures ExpAt(primitive, size, size - 1) == 1
  {
    var last := ExpAt(primitive, size, size - 1);
    ExpNonzero(primitive, size, size - 1);
    var j := ExpCovers(primitive, size, last);
    if j > 0 {
      ExpNonzero(primitive, size, j - 1);
      ExpNonzero(primitive, size, size - 2);
      StepInjective(primitive, size, ExpAt(primitive, size, j - 1), ExpAt(primitive, size, size - 2));
      assert false;
    }
  }

  // ---------------------------------------------------------------------
  // The logarithm table

  /** Filling with pairwise distinct values makes entry exp[i] hold i. */
  lemma {:induction false} LogFillInverts(exp: seq<int>, size: nat, k: nat, i: nat)
    requires k <= |exp| && forall j :: 0 <= j < |exp| ==> 0 <= exp[j] < size
    requires forall j, l :: 0 <= j < l < k ==> exp[j] != exp[l]
    requires i < k
    ensures LogFill(exp, size, k)[exp[i]] == i
    decreases k
  {
    if i < k - 1 {
      LogFillInverts(exp, size, k - 1, i);
    }
  }

  /** An entry that no round writes keeps its initial 0. */
  lemma {:induction false} LogFillUntouched(exp: seq<int>, size: nat, k: nat, a: int)
    requires k <= |exp| && forall j :: 0 <= j < |exp| ==> 0 <= exp[j] < size
    requires 0 <= a < size && forall j :: 0 <= j < k ==> exp[j] != a
    ensures LogFill(exp, size, k)[a] == 0
    decreases k
  {
    if k > 0 {
      LogFillUntouched(exp, size, k - 1, a);
    }
  }

  /** log(exp(i)) == i for every exponent below size - 1. */
  lemma LogOfExp(primitive: int, size: int, i: nat)
    requires Generates(primitive, size) && i < size - 1
    ensures LogTable(primitive, size)[ExpTable(primitive, size)[i]] == i
  {
    var exp := ExpTable(primitive, size);
    forall j, l | 0 <= j < l < size - 1
      ensures exp[j] != exp[l]
    {
      assert exp[j] == ExpAt(primitive, size, j) && exp[l] == ExpAt(primitive, size, l);
    }
    LogFillInverts(exp, size, size - 1, i);
  }

  /** exp(log(a)) == a for every nonzero element. */
  lemma ExpOfLog(primitive: int, size: int, a: int)
    requires Generates(primitive, size) && 1 <= a < size
    ensures ExpTable(primitive, size)[LogTable(primitive, size)[a]] == a
  {
    var i := ExpCovers(primitive, size, a);
    LogOfExp(primitive, size, i);
  }

  /** log(a) == log(b) only when a == b, for nonzero a and b. */
  lemma LogInjective(primitive: int, size: int, a: int, b: int)
    requires Generates(primitive, size) && 1 <= a < size && 1 <= b < size
    requires LogTable(primitive, size)[a] == LogTable(primitive, size)[b]
    ensures a == b
  {
    ExpOfLog(primitive, size, a);
    ExpOfLog(primitive, size, b);
  }

  /** The table's entry for 0 keeps its initial 0: no power of 2 is 0. */
  lemma LogOfZeroUnused(primitive: int, size: int)
    requires Generates(primitive, size)
    ensures LogTable(primitive, size)[0] == 0
  {
    var exp := ExpTable(primitive, size);
    forall j | 0 <= j < size - 1
      ensures exp[j] != 0
    {
      ExpNonzero(primitive, size, j);
    }
    LogFillUntouched(exp, size, size - 1, 0);
  }

  // ---------------------------------------------------------------------
  // Products and inverses

  /** multiply is multiplication of powers of 2: for nonzero a and b the
      product is 2^((log a + log b) mod (size - 1)), and it is never 0. */
  lemma ProductByLogs(primitive: int, size: int, a: int, b: int)
    requires Generates(primitive, size) && 1 <= a < size && 1 <= b < size
    ensures var s := LogTable(primitive, size)[a] + LogTable(primitive, size)[b];
            FieldProduct(primitive, size, a, b) == ExpAt(primitive, size, s % (size - 1))
    ensures FieldProduct(primitive, size, a, b) != 0
  {
    var s := LogTable(primitive, size)[a] + LogTable(primitive, size)[b];
    var index := s % size + s / size;
    ReducedLogSum(s, size);
    assert FieldProduct(primitive, size, a, b) == ExpAt(primitive, size, index);
    if s == size - 1 {
      ExpPeriod(primitive, size);
      DivModUnique(s, size - 1, 1, 0);
      assert index == size - 1;
    } else {
      assert index == s % (size - 1);
    }
    ExpNonzero(primitive, size, s % (size - 1));
  }

  /** multiply does not depend on the order of its operands. */
  lemma ProductCommutes(primitive: int, size: int, a: int, b: int)
    requires Parameters(primitive, size) && 0 <= a < size && 0 <= b < size
    ensures FieldProduct(primitive, size, a, b) == FieldProduct(primitive, size, b, a)
    ensures a == 0 || b == 0 ==> FieldProduct(primitive, size, a, b) == 0
  {
  }

  /** 1 is the multiplicative identity. */
  lemma ProductIdentity(primitive: int, size: int, a: int)
    requires Generates(primitive, size) && 0 <= a < size
    ensures FieldProduct(primitive, size, a, 1) == a
  {
    if a != 0 {
      LogOfExp(primitive, size, 0);
      ReducedLogSum(LogTable(primitive, size)[a], size);
      ExpOfLog(primitive, size, a);
    }
  }

  /** The index inverse reads, size - log(a) - 1, lies in [1, size - 1]. */
  lemma InverseIndex(primitive: int, size: int, a: int)
    requires Parameters(primitive, size) && 1 <= a < size
    ensures 1 <= size - LogTable(primitive, size)[a] - 1 <= size - 1
  {
  }

  /** Under the hypothesis inverse(a) is nonzero and a times inverse(a) is 1. */
  lemma ProductWithInverse(primitive: int, size: int, a: int)
    requires Generates(primitive, size) && 1 <= a < size
    ensures 1 <= FieldInverse(primitive, size, a) < size
    ensures FieldProduct(primitive, size, a, FieldInverse(primitive, size, a)) == 1
  {
    var log := LogTable(primitive, size);
    var idx := size - log[a] - 1;
    var inv := FieldInverse(primitive, size, a);
    ExpPeriod(primitive, size);
    ExpNonzero(primitive, size, idx);
    if log[a] == 0 {
      // a is 2^0 == 1, and its inverse is 2^(size-1) == 1
      ExpOfLog(primitive, size, a);
      ReducedLogSum(0, size);
    } else {
      LogOfExp(primitive, size, idx);
      ReducedLogSum(size - 1, size);
    }
  }

  /** Under the hypothesis inverse undoes itself. */
  lemma InverseInvolutive(primitive: int, size: int, a: int)
    requires Generates(primitive, size) && 1 <= a < size
    ensures 1 <= FieldInverse(primitive, size, a) < size
    ensures FieldInverse(primitive, size, FieldInverse(primitive, size, a)) == a
  {
    var log := LogTable(primitive, size);
    var idx := size - log[a] - 1;
    ExpPeriod(primitive, size);
    ExpNonzero(primitive, size, idx);
    ExpOfLog(primitive, size, a);
    if log[a] != 0 {
      LogOfExp(primitive, size, idx);
    }
  }

  /** The lookup with the unused entry log(0) == 0 in place of a logarithm
      gives back the other operand. */
  lemma LookupWithZeroLog(primitive: int, size: int, b: int)
    requires Generates(primitive, size) && 1 <= b < size
    ensures LogSumLookup(primitive, size, 0, b) == b
  {
    LogOfZeroUnused(primitive, size);
    ReducedLogSum(LogTable(primitive, size)[b], size);
    ExpOfLog(primitive, size, b);
  }

  // ---------------------------------------------------------------------
  // A concrete field: GF(16) with x^4 + x + 1 (the Aztec mode message field)

  /** The reductions modulo x^4 + x + 1 met while filling the GF(16) table. */
  lemma AztecReduce16()
    ensures Xor(16, 0x13) == 3
  {
  }

  lemma AztecReduce24()
    ensures Xor(24, 0x13) == 11
  {
  }

  lemma AztecReduce22()
    ensures Xor(22, 0x13) == 5
  {
  }

  lemma AztecReduce20()
    ensures Xor(20, 0x13) == 7
  {
  }

  lemma AztecReduce28()
    ensures Xor(28, 0x13) == 15
  {
  }

  lemma AztecReduce30()
    ensures Xor(30, 0x13) == 13
  {
  }

  lemma AztecReduce26()
    ensures Xor(26, 0x13) == 9
  {
  }

  lemma AztecReduce18()
    ensures Xor(18, 0x13) == 1
  {
  }

  /** The powers of 2 in GF(16) modulo x^4 + x + 1. */
  lemma AztecParamPowers()
    ensures ExpAt(0x13, 16, 0) == 1 && ExpAt(0x13, 16, 1) == 2
    ensures ExpAt(0x13, 16, 2) == 4 && ExpAt(0x13, 16, 3) == 8
    ensures ExpAt(0x13, 16, 4) == 3 && ExpAt(0x13, 16, 5) == 6
    ensures ExpAt(0x13, 16, 6) == 12 && ExpAt(0x13, 16, 7) == 11
    ensures ExpAt(0x13, 16, 8) == 5 && ExpAt(0x13, 16, 9) == 10
    ensures ExpAt(0x13, 16, 10) == 7 && ExpAt(0x13, 16, 11) == 14
    ensures ExpAt(0x13, 16, 12) == 15 && ExpAt(0x13, 16, 13) == 13
    ensures ExpAt(0x13, 16, 14) == 9 && ExpAt(0x13, 16, 15) == 1
  {
    AztecReduce16();
    AztecReduce24();
    AztecReduce22();
    AztecReduce20();
    AztecReduce28();
    AztecReduce30();
    AztecReduce26();
    AztecReduce18();
    assert ExpAt(0x13, 16, 3) == 8;
    assert ExpAt(0x13, 16, 4) == 3;
    assert ExpAt(0x13, 16, 6) == 12;
    assert ExpAt(0x13, 16, 7) == 11;
    assert ExpAt(0x13, 16, 8) == 5;
    assert ExpAt(0x13, 16, 9) == 10;
    assert ExpAt(0x13, 16, 10) == 7;
    assert ExpAt(0x13, 16, 11) == 14;
    assert ExpAt(0x13, 16, 12) == 15;
    assert ExpAt(0x13, 16, 13) == 13;
    assert ExpAt(0x13, 16, 14) == 9;
  }

  /** x^4 + x + 1 is primitive: 2 generates GF(16). */
  lemma AztecParamGenerates()
    ensures Generates(0x13, 16)
  {
    AztecParamPowers();
    forall i, j | 0 <= i < j < 15
      ensures ExpAt(0x13, 16, i) != ExpAt(0x13, 16, j)
    {
      assert i == 0 || i == 1 || i == 2 || i == 3 || i == 4 || i == 5 || i == 6 || i == 7
          || i == 8 || i == 9 || i == 10 || i == 11 || i == 12 || i == 13;
      assert j == 1 || j == 2 || j == 3 || j == 4 || j == 5 || j == 6 || j == 7
          || j == 8 || j == 9 || j == 10 || j == 11 || j == 12 || j == 13 || j == 14;
    }
  }
}
