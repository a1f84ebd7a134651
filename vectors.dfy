/**
 * n-dimensional vectors over the reals: class Vector of NDB_python/ndb.py.
 *
 * A vector is its coordinate list; its dimension and its cached module are
 * derived from it. Python's math.sqrt is a library routine outside the model:
 * every member that needs the module takes it as the parameter `sqrt`, and the
 * lemmas that rely on it being a square root require IsSqrt(sqrt).
 */
module Vectors {

  /** The identity; see Square. */
  function Id(x: real): real {
    x
  }

  /**
   * x ** 2. It is written x * Id(x) rather than x * x: the solver reasons about
   * a product of two terms far more reliably than about a literal square.
   */
  function Square(x: real): real {
    x * Id(x)
  }

  /** `sqrt` returns the non-negative square root of every non-negative real. */
  ghost predicate IsSqrt(sqrt: real -> real) {
    forall x: real :: 0.0 <= x ==> 0.0 <= sqrt(x) && Square(sqrt(x)) == x
  }

  /** Sum of the squared coordinates, accumulated left to right. */
  function SumSq(s: seq<real>): real {
    if s == [] then 0.0 else SumSq(s[..|s| - 1]) + Square(s[|s| - 1])
  }

  datatype Vector = Vector(coords: seq<real>) {

    /** Dimension: the length of the coordinate list. */
    function N(): nat {
      |coords|
    }

    /** The square of the module, without the square root. */
    function SquaredModule(): real {
      SumSq(coords)
    }

    /** The Euclidean length, as the constructor caches it. */
    function Module(sqrt: real -> real): real {
      sqrt(SquaredModule())
    }

    /** Componentwise sum; iterates over this vector's dimension only. */
    function Add(other: Vector): (r: Vector)
      requires N() <= other.N()
      ensures r.N() == N()
      ensures forall i :: 0 <= i < N() ==> r.coords[i] == coords[i] + other.coords[i]
    {
      Vector(seq(N(), i requires 0 <= i < N() => coords[i] + other.coords[i]))
    }

    /** Componentwise difference; iterates over this vector's dimension only. */
    function Sub(other: Vector): (r: Vector)
      requires N() <= other.N()
      ensures r.N() == N()
      ensures forall i :: 0 <= i < N() ==> r.coords[i] == coords[i] - other.coords[i]
    {
      Vector(seq(N(), i requires 0 <= i < N() => coords[i] - other.coords[i]))
    }

    /** Exact equality of the coordinate lists, without tolerance. */
    function Equals(other: Vector): (r: bool)
      ensures r <==> N() == other.N() && forall i :: 0 <= i < N() ==> coords[i] == other.coords[i]
      ensures r <==> this == other
    {
      coords == other.coords
    }

    /** Every coordinate multiplied by k. */
    function Scale(k: real): (r: Vector)
      ensures r.N() == N()
      ensures forall i :: 0 <= i < N() ==> r.coords[i] == coords[i] * k
    {
      Vector(seq(N(), i requires 0 <= i < N() => coords[i] * k))
    }

    /** Divides by the module; a vector of module zero is returned unchanged. */
    function Normalize(sqrt: real -> real): (r: Vector)
      ensures r.N() == N()
      ensures Module(sqrt) == 0.0 ==> r == this
    {
      if Module(sqrt) == 0.0 then this else Scale(1.0 / Module(sqrt))
    }
  }

  /** The zero vector of dimension n. */
  function Zero(n: nat): (r: Vector)
    ensures r.N() == n
    ensures forall i :: 0 <= i < n ==> r.coords[i] == 0.0
  {
    Vector(seq(n, i => 0.0))
  }

  /** The constructor's loop: the squares accumulate in `temp`, then the root is taken. */
  method ComputeModule(coords: seq<real>, sqrt: real -> real) returns (m: real)
    ensures m == Vector(coords).Module(sqrt)
  {
    var temp := 0.0;
    var i := 0;
    while i < |coords|
      invariant 0 <= i <= |coords|
      invariant temp == SumSq(coords[..i])
    {
      assert coords[..i + 1][..i] == coords[..i];
      temp := temp + Square(coords[i]);
      i := i + 1;
    }
    assert coords[..i] == coords;
    m := sqrt(temp);
  }

  // ---------------------------------------------------------------------------
  // Squares

  lemma SquarePositive(x: real)
    requires x != 0.0
    ensures 0.0 < Square(x)
  {
  }

  lemma SquareNonNegative(x: real)
    ensures 0.0 <= Square(x)
  {
  }

  lemma MulMonotone(a: real, b: real, c: real)
    requires 0.0 <= a && b <= c
    ensures a * b <= a * c
  {
  }

  lemma MulStrictlyMonotone(a: real, b: real, c: real)
    requires 0.0 < a && b < c
    ensures a * b < a * c
  {
  }

  lemma SquareLess(a: real, b: real)
    requires 0.0 <= a < b
    ensures Square(a) < Square(b)
  {
    MulMonotone(a, a, b);
    MulStrictlyMonotone(b, a, b);
  }

  /** Two non-negative reals with the same square are equal. */
  lemma SquareInjective(a: real, b: real)
    requires 0.0 <= a && 0.0 <= b
    requires Square(a) == Square(b)
    ensures a == b
  {
    if a < b {
      SquareLess(a, b);
    } else if b < a {
      SquareLess(b, a);
    }
  }

  lemma SquareProduct(x: real, k: real)
    ensures Square(x * k) == Square(k) * Square(x)
  {
  }

  lemma SquareInverse(m: real)
    requires m != 0.0
    ensures Square(1.0 / m) * Square(m) == 1.0
  {
  }

  // ---------------------------------------------------------------------------
  // The module

  lemma {:induction false} SumSqNonNegative(s: seq<real>)
    ensures 0.0 <= SumSq(s)
  {
    if s != [] {
      SumSqNonNegative(s[..|s| - 1]);
      SquareNonNegative(s[|s| - 1]);
    }
  }

  /** A non-zero coordinate makes the squared module positive. */
  lemma {:induction false} SumSqPositive(s: seq<real>, i: nat)
    requires i < |s| && s[i] != 0.0
    ensures 0.0 < SumSq(s)
  {
    var p := s[..|s| - 1];
    if i == |s| - 1 {
      SumSqNonNegative(p);
      SquarePositive(s[i]);
    } else {
      assert p[i] == s[i];
      SumSqPositive(p, i);
      SquareNonNegative(s[|s| - 1]);
    }
  }

  lemma {:induction false} SumSqAllZero(s: seq<real>)
    requires forall i :: 0 <= i < |s| ==> s[i] == 0.0
    ensures SumSq(s) == 0.0
  {
    if s != [] {
      SumSqAllZero(s[..|s| - 1]);
    }
  }

  /** The squared module is zero exactly for the all-zero coordinate list. */
  lemma SumSqZeroIff(s: seq<real>)
    ensures SumSq(s) == 0.0 <==> forall i :: 0 <= i < |s| ==> s[i] == 0.0
  {
    if i :| 0 <= i < |s| && s[i] != 0.0 {
      SumSqPositive(s, i);
    } else {
      SumSqAllZero(s);
    }
  }

  /** A square root is zero exactly at zero. */
  lemma RootZeroIff(x: real, sqrt: real -> real)
    requires IsSqrt(sqrt)
    requires 0.0 <= x
    ensures sqrt(x) == 0.0 <==> x == 0.0
  {
    if sqrt(x) != 0.0 {
      SquarePositive(sqrt(x));
    }
  }

  /**
   * With a true square root, the cached module is the length: it is
   * non-negative, squares to the sum of squares, and is zero exactly for the
   * zero vector.
   */
  lemma ModuleSquared(v: Vector, sqrt: real -> real)
    requires IsSqrt(sqrt)
    ensures 0.0 <= v.Module(sqrt)
    ensures Square(v.Module(sqrt)) == v.SquaredModule()
    ensures v.Module(sqrt) == 0.0 <==> forall i :: 0 <= i < v.N() ==> v.coords[i] == 0.0
  {
    SumSqNonNegative(v.coords);
    SumSqZeroIff(v.coords);
    RootZeroIff(v.SquaredModule(), sqrt);
  }

  /** Scaling commutes with dropping the last coordinate. */
  lemma ScalePrefix(v: Vector, k: real)
    requires v.coords != []
    ensures Vector(v.coords[..v.N() - 1]).Scale(k).coords == v.Scale(k).coords[..v.N() - 1]
  {
    var n := v.N();
    var lhs := Vector(v.coords[..n - 1]).Scale(k).coords;
    var rhs := v.Scale(k).coords[..n - 1];
    forall i | 0 <= i < n - 1 ensures lhs[i] == rhs[i] {
      assert v.coords[..n - 1][i] == v.coords[i];
    }
  }

  /** Scaling by k scales the squared module by k ** 2. */
  lemma {:induction false} SquaredModuleScale(v: Vector, k: real)
    ensures v.Scale(k).SquaredModule() == Square(k) * v.SquaredModule()
    decreases |v.coords|
  {
    if v.coords != [] {
      var n := v.N();
      var p := Vector(v.coords[..n - 1]);
      SquaredModuleScale(p, k);
      ScalePrefix(v, k);
      SquareProduct(v.coords[n - 1], k);
      assert v.Scale(k).SquaredModule()
          == p.Scale(k).SquaredModule() + Square(v.coords[n - 1] * k);
    }
  }

  // ---------------------------------------------------------------------------
  // Normalisation

  /** A vector of non-zero module normalises to a vector of module one. */
  lemma NormalizeIsUnit(v: Vector, sqrt: real -> real)
    requires IsSqrt(sqrt)
    requires v.SquaredModule() != 0.0
    ensures v.Normalize(sqrt).N() == v.N()
    ensures v.Normalize(sqrt).SquaredModule() == 1.0
    ensures v.Normalize(sqrt).Module(sqrt) == 1.0
    ensures exists c: real :: 0.0 < c && v.Normalize(sqrt) == v.Scale(c)
  {
    var m := v.Module(sqrt);
    ModuleSquared(v, sqrt);
    assert m != 0.0;
    SquaredModuleScale(v, 1.0 / m);
    SquareInverse(m);
    var u := v.Normalize(sqrt);
    ModuleSquared(u, sqrt);
    SquareInjective(u.Module(sqrt), 1.0);
    assert 0.0 < 1.0 / m && u == v.Scale(1.0 / m);
  }

  /** A vector of zero module, every coordinate zero, normalises to itself. */
  lemma NormalizeZero(v: Vector, sqrt: real -> real)
    requires IsSqrt(sqrt)
    requires forall i :: 0 <= i < v.N() ==> v.coords[i] == 0.0
    ensures v.Normalize(sqrt) == v
  {
    ModuleSquared(v, sqrt);
  }

  // ---------------------------------------------------------------------------
  // Algebra

  /** Subtracting what was added gives the vector back. */
  lemma AddSubInverse(v: Vector, w: Vector)
    requires v.N() == w.N()
    ensures v.Add(w).Sub(w) == v
  {
    assert v.Add(w).Sub(w).coords == v.coords;
  }

  /** Adding what was subtracted gives the vector back. */
  lemma SubAddInverse(v: Vector, w: Vector)
    requires v.N() == w.N()
    ensures v.Sub(w).Add(w) == v
  {
    assert v.Sub(w).Add(w).coords == v.coords;
  }

  /** Swapping the operands of a difference negates it. */
  lemma SubSwap(a: Vector, b: Vector)
    requires a.N() == b.N()
    ensures a.Sub(b) == b.Sub(a).Scale(-1.0)
  {
    assert a.Sub(b).coords == b.Sub(a).Scale(-1.0).coords;
  }

  /** The difference a - b and the difference b - a have the same squared module. */
  lemma SubSwapSquaredModule(a: Vector, b: Vector)
    requires a.N() == b.N()
    ensures a.Sub(b).SquaredModule() == b.Sub(a).SquaredModule()
  {
    SubSwap(a, b);
    SquaredModuleScale(b.Sub(a), -1.0);
  }

  /** Scaling twice multiplies the factors. */
  lemma ScaleScale(v: Vector, j: real, k: real)
    ensures v.Scale(j).Scale(k) == v.Scale(j * k)
  {
    forall i | 0 <= i < v.N() ensures v.Scale(j).Scale(k).coords[i] == v.Scale(j * k).coords[i] {
      assert (v.coords[i] * j) * k == v.coords[i] * (j * k);
    }
    assert v.Scale(j).Scale(k).coords == v.Scale(j * k).coords;
  }

  /** The expectations of the tests for +, - and multiply_on_scalar. */
  lemma TestExpectations()
    ensures Vector([1.0, 2.0]).Add(Vector([1.0, 0.0])) == Vector([2.0, 2.0])
    ensures Vector([1.0, 2.0]).Sub(Vector([1.0, 0.0])) == Vector([0.0, 2.0])
    ensures Vector([1.0, 1.0]).Scale(10.0) == Vector([10.0, 10.0])
  {
    assert Vector([1.0, 2.0]).Add(Vector([1.0, 0.0])).coords == [2.0, 2.0];
    assert Vector([1.0, 2.0]).Sub(Vector([1.0, 0.0])).coords == [0.0, 2.0];
    assert Vector([1.0, 1.0]).Scale(10.0).coords == [10.0, 10.0];
  }
}
