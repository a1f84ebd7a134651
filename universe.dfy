/**
 * The simulation: class Universe of NDB_python/ndb.py.
 *
 * The force law, the self-exclusion rule and one tick of the simulation are
 * specification functions over lists of BodyState values; class Universe
 * owns a list of Body objects and its methods are proved against those
 * functions. A Python ZeroDivisionError is the outcome ZeroDivision.
 */
module Universes {
  import opened Vectors
  import opened Bodies

  datatype Result<T> = Ok(value: T) | ZeroDivision

  /** Every position and speed has dimension n. */
  predicate Uniform(s: seq<BodyState>, n: nat) {
    forall i :: 0 <= i < |s| ==> s[i].position.N() == n && s[i].speed.N() == n
  }

  /** All vectors share the dimension of the first body's position. */
  predicate WellFormed(s: seq<BodyState>) {
    |s| > 0 ==> Uniform(s, s[0].position.N())
  }

  /** No two bodies of the list are at the same place. */
  predicate DistinctPositions(s: seq<BodyState>) {
    forall i, j :: 0 <= i < j < |s| ==> s[i].position != s[j].position
  }

  // ---------------------------------------------------------------------------
  // The force between two bodies

  /** The module of the force: the scaled term times both masses. */
  function Magnitude(gTilde: real, ma: real, mb: real): (r: real)
    ensures r == 0.0 <==> gTilde == 0.0 || ma == 0.0 || mb == 0.0
  {
    gTilde * ma * mb
  }

  /**
   * The force on `a` due to `b`: along b.position - a.position, of size
   * (G / r ** 2) * a.mass * b.mass, where a scaled term G / r ** 2 below
   * epsilon is replaced by zero. Coincident positions divide by zero.
   */
  function ForceBetween(a: BodyState, b: BodyState, g: real, epsilon: real, sqrt: real -> real): (r: Result<Vector>)
    requires b.position.N() <= a.position.N()
    ensures r.Ok? ==> r.value.N() == b.position.N()
  {
    var d := b.position.Sub(a.position);
    var r2 := Square(d.Module(sqrt));
    if r2 == 0.0 then ZeroDivision
    else
      var gTilde := if g / r2 < epsilon then 0.0 else g / r2;
      Ok(d.Normalize(sqrt).Scale(Magnitude(gTilde, a.mass, b.mass)))
  }

  /** The scaled term G / r ** 2 of two bodies at distinct positions is below epsilon. */
  predicate BelowCutoff(a: BodyState, b: BodyState, g: real, epsilon: real)
    requires b.position.N() <= a.position.N()
  {
    var r2 := b.position.Sub(a.position).SquaredModule();
    r2 != 0.0 && g / r2 < epsilon
  }

  /** The scaled term G / r ** 2 of two bodies at distinct positions is at least epsilon. */
  predicate AboveCutoff(a: BodyState, b: BodyState, g: real, epsilon: real)
    requires b.position.N() <= a.position.N()
  {
    var r2 := b.position.Sub(a.position).SquaredModule();
    r2 != 0.0 && epsilon <= g / r2
  }

  /** The difference of two vectors of one dimension is zero exactly when they are equal. */
  lemma SubZeroIff(p: Vector, q: Vector)
    requires p.N() == q.N()
    ensures (forall i :: 0 <= i < p.N() ==> p.Sub(q).coords[i] == 0.0) <==> p == q
  {
    if forall i :: 0 <= i < p.N() ==> p.Sub(q).coords[i] == 0.0 {
      forall i | 0 <= i < p.N() ensures p.coords[i] == q.coords[i] {
        assert p.Sub(q).coords[i] == p.coords[i] - q.coords[i];
      }
      assert p.coords == q.coords;
    }
  }

  /** The force is defined exactly when the two positions differ. */
  lemma ForceBetweenDefinedIff(a: BodyState, b: BodyState, g: real, epsilon: real, sqrt: real -> real)
    requires IsSqrt(sqrt)
    requires a.position.N() == b.position.N()
    ensures ForceBetween(a, b, g, epsilon, sqrt).Ok? <==> a.position != b.position
  {
    var d := b.position.Sub(a.position);
    ModuleSquared(d, sqrt);
    SubZeroIff(b.position, a.position);
    if d.Module(sqrt) != 0.0 {
      SquarePositive(d.Module(sqrt));
    }
  }

  /** Below the cutoff the force is the zero vector of the common dimension. */
  lemma ForceBetweenCutoff(a: BodyState, b: BodyState, g: real, epsilon: real, sqrt: real -> real)
    requires IsSqrt(sqrt)
    requires a.position.N() == b.position.N()
    requires BelowCutoff(a, b, g, epsilon)
    ensures ForceBetween(a, b, g, epsilon, sqrt) == Ok(Zero(a.position.N()))
  {
    var d := b.position.Sub(a.position);
    ForceBetweenDefinedIff(a, b, g, epsilon, sqrt);
    ModuleSquared(d, sqrt);
    var f := d.Normalize(sqrt).Scale(Magnitude(0.0, a.mass, b.mass));
    assert f.coords == Zero(a.position.N()).coords;
  }

  /** At or above the cutoff the force is the normalised direction scaled by (G / r ** 2) * a.mass * b.mass. */
  lemma ForceBetweenAboveCutoff(a: BodyState, b: BodyState, g: real, epsilon: real, sqrt: real -> real)
    requires IsSqrt(sqrt)
    requires a.position.N() == b.position.N()
    requires AboveCutoff(a, b, g, epsilon)
    ensures var d := b.position.Sub(a.position);
            ForceBetween(a, b, g, epsilon, sqrt)
               == Ok(d.Normalize(sqrt).Scale(Magnitude(g / d.SquaredModule(), a.mass, b.mass)))
  {
    var d := b.position.Sub(a.position);
    ForceBetweenDefinedIff(a, b, g, epsilon, sqrt);
    ModuleSquared(d, sqrt);
    var r2 := Square(d.Module(sqrt));
    assert r2 == d.SquaredModule() && r2 != 0.0;
    assert !(g / r2 < epsilon);
  }

  /**
   * At or above the cutoff the force points from a toward b: it is
   * d * (k / |d|) for d = b.position - a.position and k = (G / r ** 2) *
   * a.mass * b.mass, its squared length is k ** 2, and the factor k / |d| is
   * non-negative for a non-negative G and mass product, so gravity attracts.
   */
  lemma ForceBetweenLaw(a: BodyState, b: BodyState, g: real, epsilon: real, sqrt: real -> real)
    requires IsSqrt(sqrt)
    requires a.position.N() == b.position.N()
    requires AboveCutoff(a, b, g, epsilon)
    ensures var d := b.position.Sub(a.position);
            var k := Magnitude(g / d.SquaredModule(), a.mass, b.mass);
            && 0.0 < d.Module(sqrt)
            && ForceBetween(a, b, g, epsilon, sqrt) == Ok(d.Scale(k / d.Module(sqrt)))
            && ForceBetween(a, b, g, epsilon, sqrt).value.SquaredModule() == Square(k)
            && (0.0 <= g && 0.0 <= a.mass * b.mass ==> 0.0 <= k / d.Module(sqrt))
  {
    var d := b.position.Sub(a.position);
    ForceBetweenAboveCutoff(a, b, g, epsilon, sqrt);
    ModuleSquared(d, sqrt);
    var m := d.Module(sqrt);
    var k := Magnitude(g / d.SquaredModule(), a.mass, b.mass);
    NormalizedScale(d, m, k);
    SquaredModuleScale(d.Normalize(sqrt), k);
    NormalizeIsUnit(d, sqrt);
    if 0.0 <= g && 0.0 <= a.mass * b.mass {
      SumSqNonNegative(d.coords);
      NonNegativeFactor(g, d.SquaredModule(), a.mass, b.mass, m);
    }
  }

  /** A vector divided by m then scaled by k is the vector scaled by k / m. */
  lemma NormalizedScale(d: Vector, m: real, k: real)
    requires m != 0.0
    ensures d.Scale(1.0 / m).Scale(k) == d.Scale(k / m)
  {
    var j := 1.0 / m;
    ScaleScale(d, j, k);
    assert j * k == k / m;
    assert d.Scale(j * k) == d.Scale(k / m);
  }

  lemma NonNegativeFactor(g: real, r2: real, ma: real, mb: real, m: real)
    requires 0.0 <= g && 0.0 < r2 && 0.0 <= ma * mb && 0.0 < m
    ensures 0.0 <= Magnitude(g / r2, ma, mb) / m
  {
    var x := g / r2;
    assert 0.0 <= x;
    MulMonotone(x, 0.0, ma * mb);
    assert Magnitude(x, ma, mb) == x * (ma * mb);
  }

  /** Swapping the two bodies negates the force, and keeps it undefined when it is. */
  lemma ForceBetweenAntisymmetric(a: BodyState, b: BodyState, g: real, epsilon: real, sqrt: real -> real)
    requires a.position.N() == b.position.N()
    ensures ForceBetween(b, a, g, epsilon, sqrt).ZeroDivision? <==> ForceBetween(a, b, g, epsilon, sqrt).ZeroDivision?
    ensures ForceBetween(a, b, g, epsilon, sqrt).Ok?
         ==> ForceBetween(b, a, g, epsilon, sqrt) == Ok(ForceBetween(a, b, g, epsilon, sqrt).value.Scale(-1.0))
  {
    var d := b.position.Sub(a.position);
    var e := a.position.Sub(b.position);
    SubSwap(a.position, b.position);
    SubSwapSquaredModule(b.position, a.position);
    assert e.Module(sqrt) == d.Module(sqrt);
    var m := d.Module(sqrt);
    var r2 := Square(m);
    if r2 != 0.0 {
      var gTilde := if g / r2 < epsilon then 0.0 else g / r2;
      var k := Magnitude(gTilde, a.mass, b.mass);
      assert Magnitude(gTilde, b.mass, a.mass) == k;
      assert m != 0.0;
      assert ForceBetween(a, b, g, epsilon, sqrt) == Ok(d.Scale(1.0 / m).Scale(k));
      assert ForceBetween(b, a, g, epsilon, sqrt) == Ok(e.Scale(1.0 / m).Scale(k));
      NegatedScale(d, 1.0 / m, k);
    }
  }

  /** (-d) * j * k == (d * j * k) * -1. */
  lemma NegatedScale(d: Vector, j: real, k: real)
    ensures d.Scale(-1.0).Scale(j).Scale(k) == d.Scale(j).Scale(k).Scale(-1.0)
  {
    var lhs := d.Scale(-1.0).Scale(j).Scale(k);
    var rhs := d.Scale(j).Scale(k).Scale(-1.0);
    forall i | 0 <= i < d.N() ensures lhs.coords[i] == rhs.coords[i] {
      assert (d.coords[i] * -1.0) * j * k == (d.coords[i] * j * k) * -1.0;
    }
    assert lhs.coords == rhs.coords;
  }

  // ---------------------------------------------------------------------------
  // Self-exclusion by position

  /** The index of the first body at position p, or |s| when there is none. */
  function FirstAt(s: seq<BodyState>, p: Vector): (k: nat)
    ensures k <= |s|
    ensures forall j :: 0 <= j < k ==> s[j].position != p
    ensures k < |s| ==> s[k].position == p
  {
    if s == [] then 0
    else if s[0].position.Equals(p) then 0
    else 1 + FirstAt(s[1..], p)
  }

  /** The list without its first body at position p; unchanged when there is none. */
  function RemoveFirst(s: seq<BodyState>, p: Vector): (r: seq<BodyState>)
    ensures FirstAt(s, p) < |s| ==> |r| == |s| - 1
    ensures FirstAt(s, p) == |s| ==> r == s
  {
    if s == [] then []
    else if s[0].position.Equals(p) then s[1..]
    else [s[0]] + RemoveFirst(s[1..], p)
  }

  /** RemoveFirst drops exactly the body at index FirstAt and keeps the order of the rest. */
  lemma {:induction false} RemoveFirstAt(s: seq<BodyState>, p: Vector)
    ensures var k := FirstAt(s, p);
            RemoveFirst(s, p) == if k < |s| then s[..k] + s[k + 1..] else s
  {
    if s != [] && !s[0].position.Equals(p) {
      RemoveFirstAt(s[1..], p);
      var k := FirstAt(s[1..], p);
      if k < |s[1..]| {
        assert [s[0]] + (s[1..][..k] + s[1..][k + 1..]) == s[..k + 1] + s[k + 2..];
      } else {
        assert [s[0]] + s[1..] == s;
      }
    }
  }

  /** Removing a body keeps the list uniform. */
  lemma RemoveFirstUniform(s: seq<BodyState>, p: Vector, n: nat)
    requires Uniform(s, n)
    ensures Uniform(RemoveFirst(s, p), n)
  {
    RemoveFirstAt(s, p);
    var k := FirstAt(s, p);
    if k < |s| {
      var r := s[..k] + s[k + 1..];
      forall i | 0 <= i < |r| ensures r[i].position.N() == n && r[i].speed.N() == n {
        if i < k {
          assert r[i] == s[i];
        } else {
          assert r[i] == s[i + 1];
        }
      }
    }
  }

  /** With pairwise distinct positions, the body removed for s[i] is s[i] itself. */
  lemma RemoveFirstOfDistinct(s: seq<BodyState>, i: nat)
    requires DistinctPositions(s) && i < |s|
    ensures RemoveFirst(s, s[i].position) == s[..i] + s[i + 1..]
  {
    RemoveFirstAt(s, s[i].position);
  }

  // ---------------------------------------------------------------------------
  // The net force on a body

  /** The forces on b due to each body of `others` added in list order onto the zero vector of dimension n. */
  function SumForces(b: BodyState, others: seq<BodyState>, n: nat, g: real, epsilon: real, sqrt: real -> real): (r: Result<Vector>)
    requires forall j :: 0 <= j < |others| ==> n <= others[j].position.N() <= b.position.N()
    ensures r.Ok? ==> r.value.N() == n
  {
    if others == [] then Ok(Zero(n))
    else
      match SumForces(b, others[..|others| - 1], n, g, epsilon, sqrt)
      case ZeroDivision => ZeroDivision
      case Ok(acc) =>
        match ForceBetween(b, others[|others| - 1], g, epsilon, sqrt)
        case ZeroDivision => ZeroDivision
        case Ok(f) => Ok(acc.Add(f))
  }

  /** Adding up one more force: the sum of the first i + 1 forces from the sum of the first i. */
  lemma SumForcesStep(b: BodyState, others: seq<BodyState>, i: nat, n: nat, g: real, epsilon: real, sqrt: real -> real)
    requires forall j :: 0 <= j < |others| ==> n <= others[j].position.N() <= b.position.N()
    requires i < |others|
    ensures SumForces(b, others[..i + 1], n, g, epsilon, sqrt)
         == match SumForces(b, others[..i], n, g, epsilon, sqrt)
            case ZeroDivision => ZeroDivision
            case Ok(acc) =>
              match ForceBetween(b, others[i], g, epsilon, sqrt)
              case ZeroDivision => ZeroDivision
              case Ok(f) => Ok(acc.Add(f))
  {
    assert others[..i + 1][..i] == others[..i];
  }

  /** A division by zero while adding up the first i forces aborts the whole sum. */
  lemma {:induction false} SumForcesAborts(b: BodyState, others: seq<BodyState>, i: nat, n: nat, g: real, epsilon: real, sqrt: real -> real)
    requires forall j :: 0 <= j < |others| ==> n <= others[j].position.N() <= b.position.N()
    requires i <= |others|
    requires SumForces(b, others[..i], n, g, epsilon, sqrt).ZeroDivision?
    ensures SumForces(b, others, n, g, epsilon, sqrt).ZeroDivision?
    decreases |others| - i
  {
    if i < |others| {
      assert others[..i + 1][..i] == others[..i];
      SumForcesAborts(b, others, i + 1, n, g, epsilon, sqrt);
    } else {
      assert others[..i] == others;
    }
  }

  /** The sum divides by zero exactly when one of `others` is at b's position. */
  lemma {:induction false} SumForcesFailsIff(b: BodyState, others: seq<BodyState>, g: real, epsilon: real, sqrt: real -> real)
    requires IsSqrt(sqrt)
    requires forall j :: 0 <= j < |others| ==> others[j].position.N() == b.position.N()
    ensures SumForces(b, others, b.position.N(), g, epsilon, sqrt).ZeroDivision?
        <==> exists j :: 0 <= j < |others| && others[j].position == b.position
    decreases |others|
  {
    if others != [] {
      var init := others[..|others| - 1];
      var last := others[|others| - 1];
      SumForcesFailsIff(b, init, g, epsilon, sqrt);
      ForceBetweenDefinedIff(b, last, g, epsilon, sqrt);
      assert forall j :: 0 <= j < |init| ==> init[j] == others[j];
      if exists j :: 0 <= j < |others| && others[j].position == b.position {
        var j :| 0 <= j < |others| && others[j].position == b.position;
        if j < |init| {
          assert init[j].position == b.position;
        }
      }
    }
  }

  /**
   * The force on b in universe s: start from the zero vector of the first
   * body's dimension, drop the first body at b's position, and add the
   * forces due to the rest in list order.
   */
  function ResultForceOn(s: seq<BodyState>, b: BodyState, g: real, epsilon: real, sqrt: real -> real): (r: Result<Vector>)
    requires |s| > 0 && Uniform(s, s[0].position.N()) && b.position.N() == s[0].position.N()
    ensures r.Ok? ==> r.value.N() == s[0].position.N()
  {
    RemoveFirstUniform(s, b.position, s[0].position.N());
    SumForces(b, RemoveFirst(s, b.position), s[0].position.N(), g, epsilon, sqrt)
  }

  /** The loop that drops the first body at position p from a copy of the list. */
  method WithoutFirstAt(s: seq<BodyState>, p: Vector) returns (others: seq<BodyState>)
    ensures others == RemoveFirst(s, p)
  {
    others := s;
    var k := 0;
    while k < |s|
      invariant 0 <= k <= |s| && others == s
      invariant forall j :: 0 <= j < k ==> s[j].position != p
    {
      if s[k].position.Equals(p) {
        others := s[..k] + s[k + 1..];
        break;
      }
      k := k + 1;
    }
    RemoveFirstAt(s, p);
  }

  /** The loop that adds the forces on b due to `others`, in order, onto the zero vector of dimension n. */
  method AddForces(b: BodyState, others: seq<BodyState>, n: nat, g: real, epsilon: real, sqrt: real -> real)
    returns (r: Result<Vector>)
    requires Uniform(others, n) && b.position.N() == n
    ensures r == SumForces(b, others, n, g, epsilon, sqrt)
  {
    var result := Zero(n);
    var i := 0;
    while i < |others|
      invariant 0 <= i <= |others|
      invariant SumForces(b, others[..i], n, g, epsilon, sqrt) == Ok(result)
    {
      SumForcesStep(b, others, i, n, g, epsilon, sqrt);
      var f := ForceBetween(b, others[i], g, epsilon, sqrt);
      if f.ZeroDivision? {
        SumForcesAborts(b, others, i + 1, n, g, epsilon, sqrt);
        return ZeroDivision;
      }
      result := result.Add(f.value);
      i := i + 1;
    }
    assert others[..i] == others;
    r := Ok(result);
  }

  /** With pairwise distinct positions, the force on s[i] is the sum over every other body, in order. */
  lemma ResultForceOnDistinct(s: seq<BodyState>, i: nat, g: real, epsilon: real, sqrt: real -> real)
    requires |s| > 0 && Uniform(s, s[0].position.N()) && i < |s|
    requires DistinctPositions(s)
    ensures ResultForceOn(s, s[i], g, epsilon, sqrt)
         == SumForces(s[i], s[..i] + s[i + 1..], s[0].position.N(), g, epsilon, sqrt)
  {
    RemoveFirstOfDistinct(s, i);
  }

  /**
   * Dropping the first body at s[i]'s position leaves a body at that position
   * exactly when some body other than s[i] is there.
   */
  lemma RemoveFirstSharedIff(s: seq<BodyState>, i: nat)
    requires i < |s|
    ensures var others := RemoveFirst(s, s[i].position);
            ((exists m :: 0 <= m < |others| && others[m].position == s[i].position)
             <==> exists j :: 0 <= j < |s| && j != i && s[j].position == s[i].position)
  {
    var p := s[i].position;
    var k := FirstAt(s, p);
    RemoveFirstAt(s, p);
    var others := s[..k] + s[k + 1..];
    assert k <= i;
    assert forall m :: 0 <= m < |others| ==> others[m] == if m < k then s[m] else s[m + 1];
    if exists j :: 0 <= j < |s| && j != i && s[j].position == p {
      var j :| 0 <= j < |s| && j != i && s[j].position == p;
      if k == i {
        assert k < j;
        assert others[j - 1].position == p;
      } else {
        assert others[i - 1].position == p;
      }
    }
    if exists m :: 0 <= m < |others| && others[m].position == p {
      if k < i {
        assert s[k].position == p;
      } else {
        var m :| 0 <= m < |others| && others[m].position == p;
        assert k <= m;
        assert s[m + 1].position == p;
      }
    }
  }

  /**
   * The position-based exclusion is sound: the force on s[i] divides by
   * zero exactly when some other body shares s[i]'s position, so it never
   * silently leaves out a body other than s[i].
   */
  lemma ResultForceOnFailsIff(s: seq<BodyState>, i: nat, g: real, epsilon: real, sqrt: real -> real)
    requires IsSqrt(sqrt)
    requires |s| > 0 && Uniform(s, s[0].position.N()) && i < |s|
    ensures ResultForceOn(s, s[i], g, epsilon, sqrt).ZeroDivision?
        <==> exists j :: 0 <= j < |s| && j != i && s[j].position == s[i].position
  {
    var p := s[i].position;
    assert s[i].position.N() == s[0].position.N();
    RemoveFirstUniform(s, p, s[0].position.N());
    assert ResultForceOn(s, s[i], g, epsilon, sqrt)
        == SumForces(s[i], RemoveFirst(s, p), s[0].position.N(), g, epsilon, sqrt);
    SumForcesFailsIff(s[i], RemoveFirst(s, p), g, epsilon, sqrt);
    RemoveFirstSharedIff(s, i);
  }

  // ---------------------------------------------------------------------------
  // One tick

  /** The forces on the first m bodies, all computed from the same list s. */
  function ForcesOn(s: seq<BodyState>, m: nat, g: real, epsilon: real, sqrt: real -> real): (r: Result<seq<Vector>>)
    requires WellFormed(s) && m <= |s|
    ensures r.Ok? <==> forall i :: 0 <= i < m ==> ResultForceOn(s, s[i], g, epsilon, sqrt).Ok?
    ensures r.Ok? ==> |r.value| == m
    ensures r.Ok? ==> forall i :: 0 <= i < m ==> r.value[i] == ResultForceOn(s, s[i], g, epsilon, sqrt).value
  {
    if m == 0 then Ok([])
    else
      match ForcesOn(s, m - 1, g, epsilon, sqrt)
      case ZeroDivision => ZeroDivision
      case Ok(fs) =>
        match ResultForceOn(s, s[m - 1], g, epsilon, sqrt)
        case ZeroDivision => ZeroDivision
        case Ok(f) =>
          var r := fs + [f];
          assert r[m - 1] == ResultForceOn(s, s[m - 1], g, epsilon, sqrt).value;
          assert forall i :: 0 <= i < m - 1 ==> r[i] == ResultForceOn(s, s[i], g, epsilon, sqrt).value;
          Ok(r)
  }

  /** The index of the first massless body, or |s| when there is none. */
  function FirstMassless(s: seq<BodyState>): (k: nat)
    ensures k <= |s|
    ensures forall i :: 0 <= i < k ==> s[i].mass != 0.0
    ensures k < |s| ==> s[k].mass == 0.0
  {
    if s == [] then 0
    else if s[0].mass == 0.0 then 0
    else 1 + FirstMassless(s[1..])
  }

  /** The forces fs fit the bodies s: one per body, of a dimension MoveByForce accepts. */
  predicate Fits(s: seq<BodyState>, fs: seq<Vector>) {
    |fs| == |s| && forall i :: 0 <= i < |s| ==> s[i].position.N() <= s[i].speed.N() <= fs[i].N()
  }

  /**
   * Body i moved by fs[i], in list order; a massless body stops the moves,
   * with the bodies before it moved and the rest unchanged.
   */
  function Applied(s: seq<BodyState>, fs: seq<Vector>, dt: real): (r: seq<BodyState>)
    requires Fits(s, fs)
    ensures |r| == |s|
    ensures forall i :: 0 <= i < |s| ==>
              && r[i].mass == s[i].mass
              && r[i].position.N() == s[i].position.N()
              && r[i].speed.N() == s[i].speed.N()
  {
    var k := FirstMassless(s);
    seq(|s|, i requires 0 <= i < |s| => if i < k then Moved(s[i], fs[i], dt) else s[i])
  }

  /** The forces of a well-formed list fit it. */
  lemma ForcesFit(s: seq<BodyState>, g: real, epsilon: real, sqrt: real -> real)
    requires WellFormed(s) && ForcesOn(s, |s|, g, epsilon, sqrt).Ok?
    ensures Fits(s, ForcesOn(s, |s|, g, epsilon, sqrt).value)
  {
  }

  /**
   * The bodies after one tick. Every force is computed from s before any
   * body moves; a division by zero there leaves s unchanged. The bodies
   * are then moved by their own forces as Applied says.
   */
  function Updated(s: seq<BodyState>, dt: real, g: real, epsilon: real, sqrt: real -> real): (r: seq<BodyState>)
    requires WellFormed(s)
    ensures |r| == |s|
    ensures forall i :: 0 <= i < |s| ==>
              && r[i].mass == s[i].mass
              && r[i].position.N() == s[i].position.N()
              && r[i].speed.N() == s[i].speed.N()
  {
    match ForcesOn(s, |s|, g, epsilon, sqrt)
    case ZeroDivision => s
    case Ok(fs) => ForcesFit(s, g, epsilon, sqrt); Applied(s, fs, dt)
  }

  /** Whether a tick runs to completion. */
  predicate UpdateSucceeds(s: seq<BodyState>, g: real, epsilon: real, sqrt: real -> real)
    requires WellFormed(s)
  {
    ForcesOn(s, |s|, g, epsilon, sqrt).Ok? && FirstMassless(s) == |s|
  }

  /** A tick completes exactly when the positions are pairwise distinct and no mass is zero. */
  lemma UpdateSucceedsIff(s: seq<BodyState>, g: real, epsilon: real, sqrt: real -> real)
    requires IsSqrt(sqrt) && WellFormed(s)
    ensures UpdateSucceeds(s, g, epsilon, sqrt)
        <==> DistinctPositions(s) && forall i :: 0 <= i < |s| ==> s[i].mass != 0.0
  {
    forall i | 0 <= i < |s|
      ensures ResultForceOn(s, s[i], g, epsilon, sqrt).Ok?
          <==> forall j :: 0 <= j < |s| && j != i ==> s[j].position != s[i].position
    {
      ResultForceOnFailsIff(s, i, g, epsilon, sqrt);
    }
    if DistinctPositions(s) {
      forall i, j | 0 <= i < |s| && 0 <= j < |s| && j != i
        ensures s[j].position != s[i].position
      {
        if i < j {
          assert s[i].position != s[j].position;
        } else {
          assert s[j].position != s[i].position;
        }
      }
    }
  }

  /**
   * On success every body is moved by the force computed from the
   * pre-tick list, and with distinct positions that force is the sum over
   * every other body of that list.
   */
  lemma UpdatedOnSuccess(s: seq<BodyState>, dt: real, g: real, epsilon: real, sqrt: real -> real, i: nat)
    requires WellFormed(s) && UpdateSucceeds(s, g, epsilon, sqrt) && i < |s|
    ensures ResultForceOn(s, s[i], g, epsilon, sqrt).Ok?
    ensures CanMove(s[i], ResultForceOn(s, s[i], g, epsilon, sqrt).value)
    ensures Updated(s, dt, g, epsilon, sqrt)[i] == Moved(s[i], ResultForceOn(s, s[i], g, epsilon, sqrt).value, dt)
    ensures DistinctPositions(s) ==>
              ResultForceOn(s, s[i], g, epsilon, sqrt)
              == SumForces(s[i], s[..i] + s[i + 1..], s[0].position.N(), g, epsilon, sqrt)
  {
    if DistinctPositions(s) {
      ResultForceOnDistinct(s, i, g, epsilon, sqrt);
    }
  }

  /** When a force divides by zero no body moves. */
  lemma UpdatedOnForceFailure(s: seq<BodyState>, dt: real, g: real, epsilon: real, sqrt: real -> real, i: nat)
    requires WellFormed(s) && i < |s|
    requires ResultForceOn(s, s[i], g, epsilon, sqrt).ZeroDivision?
    ensures !UpdateSucceeds(s, g, epsilon, sqrt)
    ensures Updated(s, dt, g, epsilon, sqrt) == s
  {
  }

  /** A body of mass zero, and every body after it, does not move: the tick stops at the first such body. */
  lemma UpdatedOnMassless(s: seq<BodyState>, dt: real, g: real, epsilon: real, sqrt: real -> real, k: nat)
    requires WellFormed(s) && k < |s| && s[k].mass == 0.0
    ensures !UpdateSucceeds(s, g, epsilon, sqrt)
    ensures forall i :: k <= i < |s| ==> Updated(s, dt, g, epsilon, sqrt)[i] == s[i]
  {
  }

  /**
   * Two entries at one position, as when one Body object is listed twice,
   * make the tick divide by zero while computing the forces: no body moves.
   */
  lemma SharedPositionBlocksUpdate(s: seq<BodyState>, dt: real, g: real, epsilon: real, sqrt: real -> real, i: nat, j: nat)
    requires IsSqrt(sqrt) && WellFormed(s)
    requires i < j < |s| && s[i].position == s[j].position
    ensures !UpdateSucceeds(s, g, epsilon, sqrt)
    ensures Updated(s, dt, g, epsilon, sqrt) == s
  {
    ResultForceOnFailsIff(s, i, g, epsilon, sqrt);
    UpdatedOnForceFailure(s, dt, g, epsilon, sqrt, i);
  }

  // ---------------------------------------------------------------------------
  // The force tests

  /**
   * The two bodies of the pair-force test with G = 0.1 and the default
   * epsilon 1e-5: the separation is (3, 2), r ** 2 is 13, the scaled term is
   * above the cutoff, and the two orders give opposite forces.
   */
  lemma ForceTestExpectations(sqrt: real -> real)
    requires IsSqrt(sqrt)
    ensures var a := BodyState(Vector([2.0, 1.0]), Vector([0.0, 0.0]), 1.5);
            var b := BodyState(Vector([5.0, 3.0]), Vector([0.0, 0.0]), 7.3);
            var f := Vector([3.0, 2.0]).Scale(Magnitude(0.1 / 13.0, 1.5, 7.3) / sqrt(13.0));
            && ForceBetween(a, b, 0.1, 0.00001, sqrt) == Ok(f)
            && ForceBetween(b, a, 0.1, 0.00001, sqrt) == Ok(f.Scale(-1.0))
  {
    var a := BodyState(Vector([2.0, 1.0]), Vector([0.0, 0.0]), 1.5);
    var b := BodyState(Vector([5.0, 3.0]), Vector([0.0, 0.0]), 7.3);
    var d := b.position.Sub(a.position);
    assert d.coords == [3.0, 2.0];
    assert [3.0, 2.0][..1] == [3.0] && [3.0][..0] == [];
    assert SumSq([3.0]) == Square(3.0) == 9.0;
    assert d.SquaredModule() == SumSq([3.0]) + Square(2.0) == 13.0;
    ForceBetweenLaw(a, b, 0.1, 0.00001, sqrt);
    ForceBetweenAntisymmetric(a, b, 0.1, 0.00001, sqrt);
  }

  /**
   * The three bodies of the net-force test: their positions are distinct, so
   * the force on the third is defined and is the sum of the forces due to
   * the first and the second.
   */
  lemma ResultForceTestExpectations(sqrt: real -> real)
    requires IsSqrt(sqrt)
    ensures var s := [BodyState(Vector([2.0, 1.0]), Vector([0.0, 0.0]), 1.5),
                      BodyState(Vector([5.0, 3.0]), Vector([0.0, 0.0]), 7.3),
                      BodyState(Vector([3.0, -2.0]), Vector([0.0, 0.0]), 5.8)];
            && ResultForceOn(s, s[2], 0.1, 0.00001, sqrt).Ok?
            && ResultForceOn(s, s[2], 0.1, 0.00001, sqrt) == SumForces(s[2], [s[0], s[1]], 2, 0.1, 0.00001, sqrt)
  {
    var s := [BodyState(Vector([2.0, 1.0]), Vector([0.0, 0.0]), 1.5),
              BodyState(Vector([5.0, 3.0]), Vector([0.0, 0.0]), 7.3),
              BodyState(Vector([3.0, -2.0]), Vector([0.0, 0.0]), 5.8)];
    assert s[0].position.coords[0] != s[1].position.coords[0];
    assert s[0].position.coords[0] != s[2].position.coords[0];
    assert s[1].position.coords[0] != s[2].position.coords[0];
    assert s[..2] + s[3..] == [s[0], s[1]];
    ResultForceOnDistinct(s, 2, 0.1, 0.00001, sqrt);
    ResultForceOnFailsIff(s, 2, 0.1, 0.00001, sqrt);
  }

  // ---------------------------------------------------------------------------
  // The object

  class Universe {
    const bodies: seq<Body>
    const dt: real
    const g: real
    const epsilon: real

    /** The bodies are distinct objects: the universe owns its (deep-copied) list. */
    predicate Valid() {
      forall i, j :: 0 <= i < j < |bodies| ==> bodies[i] != bodies[j]
    }

    /** The current value of every body, in list order. */
    function State(): (s: seq<BodyState>)
      reads bodies
      ensures |s| == |bodies|
      ensures forall i :: 0 <= i < |bodies| ==> s[i] == bodies[i].Value()
    {
      seq(|bodies|, i reads bodies requires 0 <= i < |bodies| => bodies[i].Value())
    }

    /** Builds the universe over fresh copies of the given bodies. */
    constructor (init: seq<BodyState>, dt: real, g: real, epsilon: real)
      ensures Valid() && State() == init
      ensures this.dt == dt && this.g == g && this.epsilon == epsilon
      ensures forall i :: 0 <= i < |bodies| ==> fresh(bodies[i])
    {
      var bs: seq<Body> := [];
      var i := 0;
      while i < |init|
        invariant 0 <= i <= |init| && |bs| == i
        invariant forall j :: 0 <= j < i ==> fresh(bs[j]) && bs[j].Value() == init[j]
        invariant forall j, k :: 0 <= j < k < i ==> bs[j] != bs[k]
      {
        var b := new Body(init[i].position, init[i].speed, init[i].mass);
        bs := bs + [b];
        i := i + 1;
      }
      this.bodies := bs;
      this.dt := dt;
      this.g := g;
      this.epsilon := epsilon;
    }

    /** The dimension of the universe: that of the first body's position. */
    function N(): (n: nat)
      reads bodies
      requires |bodies| > 0
      ensures WellFormed(State()) ==> Uniform(State(), n)
    {
      bodies[0].position.N()
    }

    /**
     * The force on `body`, computed from the current bodies: the first body
     * at body's position is dropped from a copy of the list, then the forces
     * due to the remaining bodies are added in order.
     */
    method CalcResultForceOn(body: Body, sqrt: real -> real) returns (r: Result<Vector>)
      requires |bodies| > 0 && Uniform(State(), N()) && body.position.N() == N()
      ensures r == ResultForceOn(State(), body.Value(), g, epsilon, sqrt)
    {
      var s := State();
      var b := body.Value();
      var others := WithoutFirstAt(s, b.position);
      RemoveFirstUniform(s, b.position, N());
      r := AddForces(b, others, N(), g, epsilon, sqrt);
    }

    /** The first loop of a tick: the force on every body, all from the current bodies. */
    method CalcForces(sqrt: real -> real) returns (r: Result<seq<Vector>>)
      requires WellFormed(State())
      ensures r == ForcesOn(State(), |bodies|, g, epsilon, sqrt)
    {
      var s := State();
      var forces: seq<Vector> := [];
      var i := 0;
      while i < |bodies|
        invariant 0 <= i <= |bodies|
        invariant ForcesOn(s, i, g, epsilon, sqrt) == Ok(forces)
      {
        var f := CalcResultForceOn(bodies[i], sqrt);
        if f.ZeroDivision? {
          return ZeroDivision;
        }
        forces := forces + [f.value];
        i := i + 1;
      }
      r := Ok(forces);
    }

    /** The second loop of a tick: body i moves by forces[i], until a massless body raises. */
    method MoveBodies(forces: seq<Vector>) returns (ok: bool)
      requires Valid() && Fits(State(), forces)
      modifies bodies
      ensures ok <==> FirstMassless(old(State())) == |bodies|
      ensures State() == Applied(old(State()), forces, dt)
    {
      ghost var s := State();
      ghost var k := FirstMassless(s);
      var i := 0;
      while i < |bodies|
        invariant 0 <= i <= |bodies| && i <= k
        invariant forall j :: 0 <= j < i ==> bodies[j].Value() == Moved(s[j], forces[j], dt)
        invariant forall j :: i <= j < |bodies| ==> bodies[j].Value() == s[j]
      {
        var moved := bodies[i].MoveByForce(forces[i], dt);
        if !moved {
          assert State() == Applied(s, forces, dt);
          return false;
        }
        i := i + 1;
      }
      assert State() == Applied(s, forces, dt);
      ok := true;
    }

    /**
     * One tick: every force from the current bodies first, then every body
     * moved by its own force. Returns whether the tick completed; on a
     * division by zero the bodies are as the exception leaves them.
     */
    method Update(sqrt: real -> real) returns (ok: bool)
      requires Valid() && WellFormed(State())
      modifies bodies
      ensures ok <==> UpdateSucceeds(old(State()), g, epsilon, sqrt)
      ensures State() == Updated(old(State()), dt, g, epsilon, sqrt)
    {
      var forces := CalcForces(sqrt);
      if forces.ZeroDivision? {
        return false;
      }
      ForcesFit(State(), g, epsilon, sqrt);
      ok := MoveBodies(forces.value);
    }
  }
}
