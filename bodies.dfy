/**
 * Point masses: class Body of NDB_python/ndb.py.
 *
 * BodyState is the value of a body (position, speed, mass); Body is the
 * object whose fields move_by_force reassigns.
 */
module Bodies {
  import opened Vectors

  datatype BodyState = BodyState(position: Vector, speed: Vector, mass: real)

  /** What MoveByForce demands: a nonzero mass and dimensions the vector operations accept. */
  predicate CanMove(b: BodyState, force: Vector) {
    b.mass != 0.0 && b.position.N() <= b.speed.N() <= force.N()
  }

  /**
   * One semi-implicit Euler step: the speed is updated first, then the
   * position is moved by the already-updated speed.
   */
  function Moved(b: BodyState, force: Vector, dt: real): (r: BodyState)
    requires CanMove(b, force)
    ensures r.mass == b.mass
    ensures r.position.N() == b.position.N() && r.speed.N() == b.speed.N()
  {
    var speed := b.speed.Add(force.Scale(dt / b.mass));
    BodyState(b.position.Add(speed.Scale(dt)), speed, b.mass)
  }

  /** The step run backwards: the old position from the new speed, then the old speed. */
  function Unmoved(b: BodyState, force: Vector, dt: real): BodyState
    requires CanMove(b, force)
  {
    BodyState(b.position.Sub(b.speed.Scale(dt)), b.speed.Sub(force.Scale(dt / b.mass)), b.mass)
  }

  /** Moved is invertible when all three vectors share one dimension. */
  lemma MovedIsReversible(b: BodyState, force: Vector, dt: real)
    requires b.mass != 0.0
    requires b.position.N() == b.speed.N() == force.N()
    ensures Unmoved(Moved(b, force, dt), force, dt) == b
  {
    var r := Moved(b, force, dt);
    AddSubInverse(b.speed, force.Scale(dt / b.mass));
    AddSubInverse(b.position, r.speed.Scale(dt));
  }

  /**
   * Coordinate by coordinate: the speed gains force * dt / mass and the
   * position gains the NEW speed times dt, i.e. the explicit Euler
   * displacement speed * dt plus the extra term force * dt * dt / mass.
   */
  lemma MovedCoordinates(b: BodyState, force: Vector, dt: real, i: nat)
    requires CanMove(b, force)
    requires i < b.position.N()
    ensures Moved(b, force, dt).speed.coords[i] == b.speed.coords[i] + force.coords[i] * (dt / b.mass)
    ensures Moved(b, force, dt).position.coords[i]
         == b.position.coords[i] + b.speed.coords[i] * dt + force.coords[i] * (dt / b.mass) * dt
  {
    var v := b.speed.coords[i] + force.coords[i] * (dt / b.mass);
    assert Moved(b, force, dt).position.coords[i] == b.position.coords[i] + v * dt;
    assert v * dt == b.speed.coords[i] * dt + force.coords[i] * (dt / b.mass) * dt;
  }

  /** A body with no force on it drifts: its speed is kept and it moves by speed * dt. */
  lemma MovedWithoutForce(b: BodyState, dt: real)
    requires CanMove(b, Zero(b.speed.N()))
    ensures Moved(b, Zero(b.speed.N()), dt).speed == b.speed
    ensures Moved(b, Zero(b.speed.N()), dt).position == b.position.Add(b.speed.Scale(dt))
  {
    var f := Zero(b.speed.N());
    assert b.speed.Add(f.Scale(dt / b.mass)).coords == b.speed.coords;
  }

  class Body {
    var position: Vector
    var speed: Vector
    var mass: real

    constructor (position: Vector, speed: Vector, mass: real)
      ensures Value() == BodyState(position, speed, mass)
    {
      this.position := position;
      this.speed := speed;
      this.mass := mass;
    }

    /** The body's current value. */
    function Value(): BodyState
      reads this
    {
      BodyState(position, speed, mass)
    }

    /**
     * Changes speed, then position, by applying `force` during `dt`. A zero
     * mass makes dt / mass divide by zero before any field is assigned: the
     * body is left as it was and the outcome is false.
     */
    method MoveByForce(force: Vector, dt: real) returns (ok: bool)
      requires position.N() <= speed.N() <= force.N()
      modifies this
      ensures ok <==> old(mass) != 0.0
      ensures !ok ==> Value() == old(Value())
      ensures mass == old(mass)
      ensures ok ==> speed == old(speed).Add(force.Scale(dt / mass))
      ensures ok ==> position == old(position).Add(speed.Scale(dt))
      ensures ok ==> Value() == Moved(old(Value()), force, dt)
    {
      if mass == 0.0 {
        return false;
      }
      speed := speed.Add(force.Scale(dt / mass));
      position := position.Add(speed.Scale(dt));
      ok := true;
    }
  }
}
