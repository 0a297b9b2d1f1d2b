/** The physical state of a body and the two physics operations of
    `StellarBody`: `move`, and the pairwise `accelerate_due_to_gravity`.
    Bodies are values here; the simulation keeps them in its list and
    writes the updated values back by index. */
module StellarBodies {
  import opened Vectors

  /** Masses are positive: the constructor takes `math.log(mass, 1.3)` for
      the display radius, which raises for a mass that is zero or
      negative, so no body with such a mass is ever created. */
  type Mass = m: real | m > 0.0 witness 1.0

  /** `StellarBody(name, mass, position=(0, 0, 0), velocity=(0, 0, 0))`. */
  datatype StellarBody = StellarBody(name: string, mass: Mass, position: Vec3 := Zero, velocity: Vec3 := Zero)

  /** The one exception the core can raise: dividing by a squared distance
      of zero when two bodies coincide. */
  datatype Result<T> = Ok(value: T) | ZeroDivisionError

  /** `move`: one unit time step, the velocity added to the position. The
      displacement is exactly the velocity and nothing else changes. */
  function Move(b: StellarBody): (r: StellarBody)
    ensures r.position.Minus(b.position) == b.velocity
    ensures r.velocity == b.velocity && r.name == b.name && r.mass == b.mass
  {
    b.(position := Vec3(b.position.x + b.velocity.x,
                        b.position.y + b.velocity.y,
                        b.position.z + b.velocity.z))
  }

  function Momentum(b: StellarBody): Vec3 {
    b.velocity.Times(b.mass)
  }

  /** The velocity change `acceleration * reverse` that one pass of the loop
      in `accelerate_due_to_gravity` gives to `body`. */
  function Accelerated(body: StellarBody, force: Vec3, reverse: real): StellarBody {
    body.(velocity := body.velocity.Plus(force.Over(body.mass).Times(reverse)))
  }

  /** The force on `self`: the separation `other - self`, normalised by its
      length `distanceMag`, times `self.mass * other.mass / distanceMag^2`. */
  function GravityForce(self: StellarBody, other: StellarBody, distanceMag: real): Vec3
    requires distanceMag != 0.0
  {
    other.position.Minus(self.position).Over(distanceMag)
      .Times(self.mass * other.mass / (distanceMag * distanceMag))
  }

  /** `self.accelerate_due_to_gravity(other)`, on values: the updated pair,
      or the division by zero that a zero distance causes.  `magnitude` is
      the host library's vector length. */
  function AccelerateDueToGravity(self: StellarBody, other: StellarBody, magnitude: Vec3 -> real)
    : (r: Result<(StellarBody, StellarBody)>)
    ensures r.ZeroDivisionError? <==> magnitude(other.position.Minus(self.position)) == 0.0
    ensures r.Ok? ==> r.value.0 == self.(velocity := r.value.0.velocity)
    ensures r.Ok? ==> r.value.1 == other.(velocity := r.value.1.velocity)
  {
    var distanceMag := magnitude(other.position.Minus(self.position));
    // `distance_mag ** 2` is zero exactly when `distance_mag` is
    if distanceMag == 0.0 then ZeroDivisionError
    else
      var force := GravityForce(self, other, distanceMag);
      Ok((Accelerated(self, force, 1.0), Accelerated(other, force, -1.0)))
  }

  /** Newton's third law for one call: the pair's total momentum is the
      same after the call as before. */
  lemma ConservesMomentum(self: StellarBody, other: StellarBody, magnitude: Vec3 -> real,
                          a: StellarBody, b: StellarBody)
    requires AccelerateDueToGravity(self, other, magnitude) == Ok((a, b))
    ensures Momentum(a).Plus(Momentum(b)) == Momentum(self).Plus(Momentum(other))
  {
    var n := magnitude(other.position.Minus(self.position));
    MomentumExchange(self, other, GravityForce(self, other, n));
  }

  /** One component of Newton's third law: `f` added to one body's momentum
      and taken from the other's leaves their sum unchanged. */
  lemma ComponentExchange(v1: real, v2: real, f: real, m1: Mass, m2: Mass)
    ensures (v1 + (f / m1) * 1.0) * m1 + (v2 + (f / m2) * -1.0) * m2 == v1 * m1 + v2 * m2
  {
  }

  /** The same, for whole vectors. */
  lemma VectorExchange(v1: Vec3, v2: Vec3, f: Vec3, m1: Mass, m2: Mass)
    ensures v1.Plus(f.Over(m1).Times(1.0)).Times(m1).Plus(v2.Plus(f.Over(m2).Times(-1.0)).Times(m2))
            == v1.Times(m1).Plus(v2.Times(m2))
  {
    ExchangedComponents(v1, v2, f, m1, m2);
    ScaledSumComponents(v1, v2, m1, m2);
    ComponentExchange(v1.x, v2.x, f.x, m1, m2);
    ComponentExchange(v1.y, v2.y, f.y, m1, m2);
    ComponentExchange(v1.z, v2.z, f.z, m1, m2);
  }

  lemma ExchangedComponents(v1: Vec3, v2: Vec3, f: Vec3, m1: Mass, m2: Mass)
    ensures v1.Plus(f.Over(m1).Times(1.0)).Times(m1).Plus(v2.Plus(f.Over(m2).Times(-1.0)).Times(m2))
            == Vec3((v1.x + (f.x / m1) * 1.0) * m1 + (v2.x + (f.x / m2) * -1.0) * m2,
                    (v1.y + (f.y / m1) * 1.0) * m1 + (v2.y + (f.y / m2) * -1.0) * m2,
                    (v1.z + (f.z / m1) * 1.0) * m1 + (v2.z + (f.z / m2) * -1.0) * m2)
  {
  }

  lemma ScaledSumComponents(v1: Vec3, v2: Vec3, m1: real, m2: real)
    ensures v1.Times(m1).Plus(v2.Times(m2)) == Vec3(v1.x * m1 + v2.x * m2, v1.y * m1 + v2.y * m2, v1.z * m1 + v2.z * m2)
  {
  }

  /** Newton's third law: the same force, once added and once taken away,
      leaves the pair's total momentum unchanged. */
  lemma MomentumExchange(self: StellarBody, other: StellarBody, force: Vec3)
    ensures Momentum(Accelerated(self, force, 1.0)).Plus(Momentum(Accelerated(other, force, -1.0)))
            == Momentum(self).Plus(Momentum(other))
  {
    VectorExchange(self.velocity, other.velocity, force, self.mass, other.mass);
  }

  /** One component of the acceleration: the force component, the
      normalised separation `d / n` times `m1 * m2 / n^2`, divided by one
      body's mass and signed as in the loop, is the separation times the
      other body's mass over `n^3`. */
  lemma AccelerationComponent(d: real, n: real, m1: Mass, m2: Mass)
    requires n > 0.0
    ensures (((d / n) * (m1 * m2 / (n * n))) / m1) * 1.0 == d * (m2 / (n * n * n))
    ensures (((d / n) * (m1 * m2 / (n * n))) / m2) * -1.0 == -(d * (m1 / (n * n * n)))
  {
  }

  /** The signed acceleration vector, component by component. */
  lemma AccelerationComponents(d: Vec3, n: real, k: real, m: Mass, sign: real)
    requires n != 0.0
    ensures d.Over(n).Times(k).Over(m).Times(sign)
            == Vec3((((d.x / n) * k) / m) * sign, (((d.y / n) * k) / m) * sign, (((d.z / n) * k) / m) * sign)
  {
    OverTimes(d, n, k);
    OverTimes(d.Over(n).Times(k), m, sign);
  }

  /** The pull on either body in closed form. */
  lemma Pull(d: Vec3, n: real, m1: Mass, m2: Mass)
    requires n > 0.0
    ensures d.Over(n).Times(m1 * m2 / (n * n)).Over(m1).Times(1.0) == d.Times(m2 / (n * n * n))
    ensures d.Over(n).Times(m1 * m2 / (n * n)).Over(m2).Times(-1.0) == Zero.Minus(d.Times(m1 / (n * n * n)))
  {
    AccelerationComponents(d, n, m1 * m2 / (n * n), m1, 1.0);
    AccelerationComponents(d, n, m1 * m2 / (n * n), m2, -1.0);
    AccelerationComponent(d.x, n, m1, m2);
    AccelerationComponent(d.y, n, m1, m2);
    AccelerationComponent(d.z, n, m1, m2);
  }

  /** The velocity of `body` after its pass of the loop with the force on
      `self`, written out. */
  lemma AcceleratedForm(self: StellarBody, other: StellarBody, n: real, body: StellarBody, sign: real)
    requires n != 0.0
    ensures Accelerated(body, GravityForce(self, other, n), sign).velocity
            == body.velocity.Plus(other.position.Minus(self.position).Over(n)
                                    .Times(self.mass * other.mass / (n * n)).Over(body.mass).Times(sign))
  {
    GravityForceForm(self, other, n);
    AcceleratedVelocity(body, GravityForce(self, other, n), sign);
  }

  lemma GravityForceForm(self: StellarBody, other: StellarBody, n: real)
    requires n != 0.0
    ensures GravityForce(self, other, n)
            == other.position.Minus(self.position).Over(n).Times(self.mass * other.mass / (n * n))
  {
  }

  lemma AcceleratedVelocity(body: StellarBody, force: Vec3, sign: real)
    ensures Accelerated(body, force, sign).velocity == body.velocity.Plus(force.Over(body.mass).Times(sign))
  {
  }

  /** The velocity of `self` after its pass of the loop, in closed form. */
  lemma SelfAcceleration(self: StellarBody, other: StellarBody, n: real)
    requires n > 0.0
    ensures Accelerated(self, GravityForce(self, other, n), 1.0).velocity
            == self.velocity.Plus(other.position.Minus(self.position).Times(other.mass / (n * n * n)))
  {
    var d, m1, m2 := other.position.Minus(self.position), self.mass, other.mass;
    AcceleratedForm(self, other, n, self, 1.0);
    assert self.mass * other.mass / (n * n) == m1 * m2 / (n * n);
    Pull(d, n, m1, m2);
  }

  /** The velocity of `other` after its pass of the loop, in closed form. */
  lemma OtherAcceleration(self: StellarBody, other: StellarBody, n: real)
    requires n > 0.0
    ensures Accelerated(other, GravityForce(self, other, n), -1.0).velocity
            == other.velocity.Minus(other.position.Minus(self.position).Times(self.mass / (n * n * n)))
  {
    var d, m1, m2 := other.position.Minus(self.position), self.mass, other.mass;
    AcceleratedForm(self, other, n, other, -1.0);
    assert self.mass * other.mass / (n * n) == m1 * m2 / (n * n);
    Pull(d, n, m1, m2);
    PlusNegated(other.velocity, d.Times(m1 / (n * n * n)));
  }

  /** A positive mass over a positive cube is positive. */
  lemma PositiveCoefficient(m: Mass, n: real)
    requires n > 0.0
    ensures m / (n * n * n) > 0.0
  {
  }

  /** Newton's law of gravitation as the source applies it: with `n` the
      distance, `self`'s velocity grows by the separation `other - self`
      times `other.mass / n^3`, and `other`'s shrinks by the separation
      times `self.mass / n^3`.  Both factors are positive: each body is
      pulled straight towards the other. */
  lemma PullTowardsEachOther(self: StellarBody, other: StellarBody, magnitude: Vec3 -> real,
                             a: StellarBody, b: StellarBody, n: real)
    requires IsMagnitude(magnitude)
    requires n == magnitude(other.position.Minus(self.position))
    requires AccelerateDueToGravity(self, other, magnitude) == Ok((a, b))
    ensures n > 0.0
    ensures a.velocity == self.velocity.Plus(other.position.Minus(self.position).Times(other.mass / (n * n * n)))
    ensures b.velocity == other.velocity.Minus(other.position.Minus(self.position).Times(self.mass / (n * n * n)))
    ensures other.mass / (n * n * n) > 0.0 && self.mass / (n * n * n) > 0.0
  {
    assert n >= 0.0;
    assert (a, b) == (Accelerated(self, GravityForce(self, other, n), 1.0),
                      Accelerated(other, GravityForce(self, other, n), -1.0));
    SelfAcceleration(self, other, n);
    OtherAcceleration(self, other, n);
    PositiveCoefficient(self.mass, n);
    PositiveCoefficient(other.mass, n);
  }

  /** With a true length function, the call fails exactly when the two
      bodies are at the same position. */
  lemma ZeroDivisionIffCoincident(self: StellarBody, other: StellarBody, magnitude: Vec3 -> real)
    requires IsMagnitude(magnitude)
    ensures AccelerateDueToGravity(self, other, magnitude).ZeroDivisionError?
            <==> self.position == other.position
  {
    var d := other.position.Minus(self.position);
    assert magnitude(d) == 0.0 <==> d == Zero;
    MinusZero(other.position, self.position);
  }
}
