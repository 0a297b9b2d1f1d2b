/** The simulation schedule on values: one interaction phase
    (`_calculate_all_body_interactions`), one update phase (`_update_all`),
    one frame (both phases), and a run over a frame range
    (`create_animation`).  When they complete, the methods of
    `SolarSystem` are proved to compute these functions; the properties
    the source promises are proved here about the functions. */
module Schedule {
  import opened Vectors
  import opened StellarBodies
  import opened Pairs
  import opened Sorting
  import opened Seqs

  /** One keyframe: the frame number, the body's name and the location
      recorded for it. */
  datatype Keyframe = Keyframe(frame: int, name: string, position: Vec3)

  /** `t` is `s` with at most the velocities changed. */
  predicate OnlyVelocitiesChanged(s: seq<StellarBody>, t: seq<StellarBody>) {
    |t| == |s| && forall k :: 0 <= k < |s| ==> t[k] == s[k].(velocity := t[k].velocity)
  }

  predicate PairsWithin(ps: seq<(nat, nat)>, n: nat) {
    forall k :: 0 <= k < |ps| ==> ps[k].0 < ps[k].1 < n
  }

  // ---------------------------------------------------------------------
  // Interaction phase

  /** `bodies[i].accelerate_due_to_gravity(bodies[j])` on the list: only the
      two velocities change, or the call raises and nothing changes. */
  function Interact(s: seq<StellarBody>, i: nat, j: nat, magnitude: Vec3 -> real)
    : (r: Result<seq<StellarBody>>)
    requires i < j < |s|
    ensures r.ZeroDivisionError? <==> magnitude(s[j].position.Minus(s[i].position)) == 0.0
    ensures r.Ok? ==> OnlyVelocitiesChanged(s, r.value)
    ensures r.Ok? ==> forall k :: 0 <= k < |s| && k != i && k != j ==> r.value[k] == s[k]
  {
    match AccelerateDueToGravity(s[i], s[j], magnitude)
    case ZeroDivisionError => ZeroDivisionError
    case Ok(pair) => Ok(s[i := pair.0][j := pair.1])
  }

  /** The calls for the pairs `ps`, in order, stopping at the first that
      raises. */
  function ApplyPairs(s: seq<StellarBody>, ps: seq<(nat, nat)>, magnitude: Vec3 -> real)
    : (r: Result<seq<StellarBody>>)
    requires PairsWithin(ps, |s|)
    ensures r.Ok? ==> |r.value| == |s|
    decreases |ps|
  {
    if ps == [] then Ok(s)
    else
      match Interact(s, ps[0].0, ps[0].1, magnitude)
      case ZeroDivisionError => ZeroDivisionError
      case Ok(next) => ApplyPairs(next, ps[1..], magnitude)
  }

  lemma AllPairsWithin(n: nat)
    ensures PairsWithin(AllPairs(n), n)
  {
  }

  /** `_calculate_all_body_interactions`: every pair `i < j`, in
      lexicographic order. */
  function InteractionPhase(s: seq<StellarBody>, magnitude: Vec3 -> real): Result<seq<StellarBody>> {
    AllPairsWithin(|s|);
    ApplyPairs(s, AllPairs(|s|), magnitude)
  }

  /** The interaction phase changes velocities only: no position, name or
      mass changes, and no body is added, lost or reordered. */
  lemma {:induction false} ApplyPairsOnlyVelocities(s: seq<StellarBody>, ps: seq<(nat, nat)>, magnitude: Vec3 -> real)
    requires PairsWithin(ps, |s|)
    ensures ApplyPairs(s, ps, magnitude).Ok? ==> OnlyVelocitiesChanged(s, ApplyPairs(s, ps, magnitude).value)
    decreases |ps|
  {
    if ps != [] {
      var r := Interact(s, ps[0].0, ps[0].1, magnitude);
      if r.Ok? {
        ApplyPairsOnlyVelocities(r.value, ps[1..], magnitude);
      }
    }
  }

  lemma InteractionPhaseOnlyVelocities(s: seq<StellarBody>, magnitude: Vec3 -> real)
    ensures InteractionPhase(s, magnitude).Ok? ==> OnlyVelocitiesChanged(s, InteractionPhase(s, magnitude).value)
  {
    AllPairsWithin(|s|);
    ApplyPairsOnlyVelocities(s, AllPairs(|s|), magnitude);
  }

  /** Some pair of `ps` is two bodies of `s` at the same position. */
  predicate SomeCoincident(s: seq<StellarBody>, ps: seq<(nat, nat)>)
    requires PairsWithin(ps, |s|)
  {
    exists k :: 0 <= k < |ps| && s[ps[k].0].position == s[ps[k].1].position
  }

  lemma CoincidentCons(s: seq<StellarBody>, ps: seq<(nat, nat)>)
    requires PairsWithin(ps, |s|) && ps != []
    ensures PairsWithin(ps[1..], |s|)
    ensures SomeCoincident(s, ps)
            <==> s[ps[0].0].position == s[ps[0].1].position || SomeCoincident(s, ps[1..])
  {
    var rest := ps[1..];
    assert PairsWithin(rest, |s|) by {
      forall k | 0 <= k < |rest| ensures rest[k].0 < rest[k].1 < |s| {
        assert rest[k] == ps[k + 1];
      }
    }
    if SomeCoincident(s, ps) {
      var k :| 0 <= k < |ps| && s[ps[k].0].position == s[ps[k].1].position;
      if k != 0 {
        assert rest[k - 1] == ps[k];
      }
    }
    if SomeCoincident(s, rest) {
      var k :| 0 <= k < |rest| && s[rest[k].0].position == s[rest[k].1].position;
      assert ps[k + 1] == rest[k];
    }
  }

  /** Whether pairs coincide depends on the positions only. */
  lemma CoincidentVelocities(s: seq<StellarBody>, t: seq<StellarBody>, ps: seq<(nat, nat)>)
    requires OnlyVelocitiesChanged(s, t) && PairsWithin(ps, |s|)
    ensures SomeCoincident(t, ps) <==> SomeCoincident(s, ps)
  {
    assert forall k :: 0 <= k < |s| ==> t[k].position == s[k].position;
  }

  /** With a true length function, a sequence of calls raises exactly when
      one of its pairs is two bodies at the same position: positions do not
      change between the calls, so each call sees the starting positions. */
  lemma {:induction false} ApplyPairsFailsIff(s: seq<StellarBody>, ps: seq<(nat, nat)>, magnitude: Vec3 -> real)
    requires IsMagnitude(magnitude)
    requires PairsWithin(ps, |s|)
    ensures ApplyPairs(s, ps, magnitude).ZeroDivisionError? <==> SomeCoincident(s, ps)
    decreases |ps|
  {
    if ps != [] {
      var p := ps[0];
      ZeroDivisionIffCoincident(s[p.0], s[p.1], magnitude);
      CoincidentCons(s, ps);
      var r := Interact(s, p.0, p.1, magnitude);
      if r.Ok? {
        ApplyPairsFailsIff(r.value, ps[1..], magnitude);
        CoincidentVelocities(s, r.value, ps[1..]);
      }
    }
  }

  /** Some pair of a whole phase coincides exactly when two bodies of the
      list share a position. */
  lemma CoincidentAllPairs(s: seq<StellarBody>)
    ensures PairsWithin(AllPairs(|s|), |s|)
    ensures SomeCoincident(s, AllPairs(|s|)) <==> exists i, j :: 0 <= i < j < |s| && s[i].position == s[j].position
  {
    var ps := AllPairs(|s|);
    AllPairsWithin(|s|);
    if exists i, j :: 0 <= i < j < |s| && s[i].position == s[j].position {
      var i, j :| 0 <= i < j < |s| && s[i].position == s[j].position;
      AllPairsMembership(|s|, (i, j));
      var k :| 0 <= k < |ps| && ps[k] == (i, j);
      assert s[ps[k].0].position == s[ps[k].1].position;
    }
  }

  /** With a true length function, the interaction phase raises exactly
      when two bodies of the list share a position. */
  lemma InteractionPhaseFailsIff(s: seq<StellarBody>, magnitude: Vec3 -> real)
    requires IsMagnitude(magnitude)
    ensures InteractionPhase(s, magnitude).ZeroDivisionError?
            <==> exists i, j :: 0 <= i < j < |s| && s[i].position == s[j].position
  {
    CoincidentAllPairs(s);
    ApplyPairsFailsIff(s, AllPairs(|s|), magnitude);
  }

  // ---------------------------------------------------------------------
  // Momentum

  function Sum(vs: seq<Vec3>): Vec3 {
    if vs == [] then Zero else Sum(vs[..|vs| - 1]).Plus(vs[|vs| - 1])
  }

  /** Replacing one term of a sum by `w` changes the sum by `w - vs[k]`. */
  lemma {:induction false} SumUpdate(vs: seq<Vec3>, k: nat, w: Vec3)
    requires k < |vs|
    ensures Sum(vs[k := w]).Plus(vs[k]) == Sum(vs).Plus(w)
    decreases |vs|
  {
    var n := |vs|;
    if k == n - 1 {
      assert vs[k := w][..n - 1] == vs[..n - 1];
    } else {
      SumUpdate(vs[..n - 1], k, w);
      assert vs[k := w][..n - 1] == vs[..n - 1][k := w];
    }
  }

  /** `sum(mass * velocity)` over the list. */
  function TotalMomentum(s: seq<StellarBody>): Vec3 {
    Sum(Map(Momentum, s))
  }

  /** Exchanging two terms of a sum for two others with the same sum
      leaves the whole sum unchanged. */
  lemma SumExchange(vs: seq<Vec3>, i: nat, j: nat, a: Vec3, b: Vec3)
    requires i < j < |vs|
    requires a.Plus(b) == vs[i].Plus(vs[j])
    ensures Sum(vs[i := a][j := b]) == Sum(vs)
  {
    SumUpdate(vs, i, a);
    SumUpdate(vs[i := a], j, b);
    assert vs[i := a][j] == vs[j];
  }

  /** One call leaves the total momentum of the whole list unchanged. */
  lemma InteractConservesMomentum(s: seq<StellarBody>, i: nat, j: nat, magnitude: Vec3 -> real)
    requires i < j < |s|
    ensures Interact(s, i, j, magnitude).Ok? ==>
            TotalMomentum(Interact(s, i, j, magnitude).value) == TotalMomentum(s)
  {
    var g := AccelerateDueToGravity(s[i], s[j], magnitude);
    if g.Ok? {
      var a, b := g.value.0, g.value.1;
      ConservesMomentum(s[i], s[j], magnitude, a, b);
      MapUpdate(Momentum, s, i, j, a, b);
      SumExchange(Map(Momentum, s), i, j, Momentum(a), Momentum(b));
    }
  }

  lemma {:induction false} ApplyPairsConservesMomentum(s: seq<StellarBody>, ps: seq<(nat, nat)>, magnitude: Vec3 -> real)
    requires PairsWithin(ps, |s|)
    ensures ApplyPairs(s, ps, magnitude).Ok? ==> TotalMomentum(ApplyPairs(s, ps, magnitude).value) == TotalMomentum(s)
    decreases |ps|
  {
    if ps != [] {
      InteractConservesMomentum(s, ps[0].0, ps[0].1, magnitude);
      var r := Interact(s, ps[0].0, ps[0].1, magnitude);
      if r.Ok? {
        ApplyPairsConservesMomentum(r.value, ps[1..], magnitude);
      }
    }
  }

  /** The interaction phase conserves the total momentum of the system. */
  lemma InteractionPhaseConservesMomentum(s: seq<StellarBody>, magnitude: Vec3 -> real)
    ensures InteractionPhase(s, magnitude).Ok? ==> TotalMomentum(InteractionPhase(s, magnitude).value) == TotalMomentum(s)
  {
    AllPairsWithin(|s|);
    ApplyPairsConservesMomentum(s, AllPairs(|s|), magnitude);
  }

  // ---------------------------------------------------------------------
  // Update phase

  function Name(b: StellarBody): string {
    b.name
  }

  function LoggedName(k: Keyframe): string {
    k.name
  }

  /** The loop of `_update_all` over the already sorted list: each body
      moved, then `set_location_keyframe(frame)` recording its new
      position.  Gives the moved list and the keyframes, in list order. */
  function MoveAndRecord(sorted: seq<StellarBody>, frame: int): (r: (seq<StellarBody>, seq<Keyframe>))
    ensures |r.0| == |sorted| && |r.1| == |sorted|
    ensures forall k :: 0 <= k < |sorted| ==> r.0[k] == Move(sorted[k])
    ensures forall k :: 0 <= k < |sorted| ==> r.1[k] == Keyframe(frame, r.0[k].name, r.0[k].position)
  {
    if sorted == [] then ([], [])
    else
      var done := MoveAndRecord(sorted[..|sorted| - 1], frame);
      var moved := Move(sorted[|sorted| - 1]);
      (done.0 + [moved], done.1 + [Keyframe(frame, moved.name, moved.position)])
  }

  /** `_update_all`: sort by x, then move each body and record its keyframe,
      in the sorted order.  Gives the new list and the keyframes recorded. */
  function UpdatePhase(s: seq<StellarBody>, frame: int): (seq<StellarBody>, seq<Keyframe>) {
    MoveAndRecord(SortByX(s), frame)
  }

  /** What the update phase promises: every body is moved exactly once (the
      new list is a permutation of the moved old list), the list is ordered
      by the x coordinate each body had before it moved, and exactly one
      keyframe per body is recorded for this frame, in list order, with the
      moved position; the names logged are the names of the bodies, each as
      often as it occurs in the list. */
  lemma UpdatePhaseFacts(s: seq<StellarBody>, frame: int)
    ensures |UpdatePhase(s, frame).0| == |s| && |UpdatePhase(s, frame).1| == |s|
    ensures multiset(UpdatePhase(s, frame).0) == multiset(Map(Move, s))
    ensures forall a, b :: 0 <= a < b < |s| ==>
              UpdatePhase(s, frame).0[a].position.x - UpdatePhase(s, frame).0[a].velocity.x
              <= UpdatePhase(s, frame).0[b].position.x - UpdatePhase(s, frame).0[b].velocity.x
    ensures forall k :: 0 <= k < |s| ==>
              UpdatePhase(s, frame).1[k]
              == Keyframe(frame, UpdatePhase(s, frame).0[k].name, UpdatePhase(s, frame).0[k].position)
    ensures multiset(Map(LoggedName, UpdatePhase(s, frame).1)) == multiset(Map(Name, s))
  {
    var sorted := SortByX(s);
    var moved := UpdatePhase(s, frame).0;
    var log := UpdatePhase(s, frame).1;
    SortPermutation(s);
    SortSorted(s);
    assert moved == Map(Move, sorted);
    MapPermutation(Move, sorted, s);
    MapPermutation(Name, sorted, s);
    assert Map(LoggedName, log) == Map(Name, sorted);
    forall a, b | 0 <= a < b < |s|
      ensures moved[a].position.x - moved[a].velocity.x <= moved[b].position.x - moved[b].velocity.x
    {
      assert moved[a].position.x - moved[a].velocity.x == Key(sorted[a]);
      assert moved[b].position.x - moved[b].velocity.x == Key(sorted[b]);
    }
  }

  // ---------------------------------------------------------------------
  // Frames and runs

  /** One iteration of the frame loop: the interaction phase completes
      before the update phase starts. */
  function Frame(s: seq<StellarBody>, frame: int, magnitude: Vec3 -> real)
    : Result<(seq<StellarBody>, seq<Keyframe>)>
  {
    match InteractionPhase(s, magnitude)
    case ZeroDivisionError => ZeroDivisionError
    case Ok(next) => Ok(UpdatePhase(next, frame))
  }

  /** `create_animation` from frame `first` up to, not including, `stop`: the
      final list and every keyframe recorded, or the division by zero that
      aborts the run. */
  function Run(s: seq<StellarBody>, first: int, stop: int, magnitude: Vec3 -> real)
    : Result<(seq<StellarBody>, seq<Keyframe>)>
    decreases stop - first, 1
  {
    if first >= stop then Ok((s, [])) else RunFrom(s, first, stop, magnitude)
  }

  /** The frame `first`, then the rest of the run. */
  function RunFrom(s: seq<StellarBody>, first: int, stop: int, magnitude: Vec3 -> real)
    : Result<(seq<StellarBody>, seq<Keyframe>)>
    requires first < stop
    decreases stop - first, 0
  {
    match Frame(s, first, magnitude)
    case ZeroDivisionError => ZeroDivisionError
    case Ok(step) =>
      match Run(step.0, first + 1, stop, magnitude)
      case ZeroDivisionError => ZeroDivisionError
      case Ok(rest) => Ok((rest.0, step.1 + rest.1))
  }

  /** A frame that completes keeps the number of bodies and records one
      keyframe per body, all for this frame. */
  lemma FrameShape(s: seq<StellarBody>, frame: int, magnitude: Vec3 -> real,
                   moved: seq<StellarBody>, log: seq<Keyframe>)
    requires Frame(s, frame, magnitude) == Ok((moved, log))
    ensures |moved| == |s| && |log| == |s|
    ensures forall k :: 0 <= k < |log| ==> log[k].frame == frame
  {
    var mid := InteractionPhase(s, magnitude).value;
    InteractionPhaseOnlyVelocities(s, magnitude);
    UpdatePhaseFacts(mid, frame);
  }

  /** The first frame of a run that completes, and the rest of the run. */
  lemma RunCons(s: seq<StellarBody>, first: int, stop: int, magnitude: Vec3 -> real,
                bodies: seq<StellarBody>, log: seq<Keyframe>)
    requires first < stop
    requires Run(s, first, stop, magnitude) == Ok((bodies, log))
    ensures Frame(s, first, magnitude).Ok?
    ensures Run(Frame(s, first, magnitude).value.0, first + 1, stop, magnitude).Ok?
    ensures bodies == Run(Frame(s, first, magnitude).value.0, first + 1, stop, magnitude).value.0
    ensures log == Frame(s, first, magnitude).value.1
                   + Run(Frame(s, first, magnitude).value.0, first + 1, stop, magnitude).value.1
  {
  }

  /** Every keyframe of `log` belongs to a frame in `[first, stop)`. */
  predicate FramesWithin(log: seq<Keyframe>, first: int, stop: int) {
    forall k :: 0 <= k < |log| ==> first <= log[k].frame < stop
  }

  /** The frames of `log` never go backwards. */
  predicate FramesOrdered(log: seq<Keyframe>) {
    forall a, b :: 0 <= a <= b < |log| ==> log[a].frame <= log[b].frame
  }

  /** The number of keyframes that the frames `first` up to `stop` record
      for `n` bodies, counted frame by frame. */
  function FrameTotal(first: int, stop: int, n: nat): nat
    decreases stop - first
  {
    if first >= stop then 0 else n + FrameTotal(first + 1, stop, n)
  }

  /** Counted frame by frame, that is `(stop - first) * n`, or none for an
      empty range. */
  lemma {:induction false} FrameTotalProduct(first: int, stop: int, n: nat)
    decreases stop - first
    ensures FrameTotal(first, stop, n) == (if first < stop then stop - first else 0) * n
  {
    if first < stop {
      FrameTotalProduct(first + 1, stop, n);
      assert (if first + 1 < stop then stop - first - 1 else 0) == stop - first - 1;
      assert (stop - first - 1) * n + n == (stop - first) * n;
    }
  }

  /** A run that completes keeps the number of bodies and records one
      keyframe per body per frame. */
  lemma {:induction false} RunCountByFrame(s: seq<StellarBody>, first: int, stop: int, magnitude: Vec3 -> real,
                                           bodies: seq<StellarBody>, log: seq<Keyframe>)
    requires Run(s, first, stop, magnitude) == Ok((bodies, log))
    decreases stop - first
    ensures |bodies| == |s|
    ensures |log| == FrameTotal(first, stop, |s|)
  {
    if first < stop {
      RunCons(s, first, stop, magnitude, bodies, log);
      var step := Frame(s, first, magnitude).value;
      var rest := Run(step.0, first + 1, stop, magnitude).value;
      FrameShape(s, first, magnitude, step.0, step.1);
      RunCountByFrame(step.0, first + 1, stop, magnitude, rest.0, rest.1);
    }
  }

  /** A run that completes keeps the number of bodies and records exactly
      `(stop - first) * len(bodies)` keyframes, none for an empty range. */
  lemma RunCount(s: seq<StellarBody>, first: int, stop: int, magnitude: Vec3 -> real,
                 bodies: seq<StellarBody>, log: seq<Keyframe>)
    requires Run(s, first, stop, magnitude) == Ok((bodies, log))
    ensures |bodies| == |s|
    ensures |log| == (if first < stop then stop - first else 0) * |s|
  {
    RunCountByFrame(s, first, stop, magnitude, bodies, log);
    FrameTotalProduct(first, stop, |s|);
  }

  /** Every keyframe of a run that completes belongs to a frame of the range,
      and the frames recorded never go backwards. */
  lemma {:induction false} RunFrames(s: seq<StellarBody>, first: int, stop: int, magnitude: Vec3 -> real,
                                     bodies: seq<StellarBody>, log: seq<Keyframe>)
    requires Run(s, first, stop, magnitude) == Ok((bodies, log))
    decreases stop - first
    ensures FramesWithin(log, first, stop)
    ensures FramesOrdered(log)
  {
    if first < stop {
      RunCons(s, first, stop, magnitude, bodies, log);
      var step := Frame(s, first, magnitude).value;
      var rest := Run(step.0, first + 1, stop, magnitude).value;
      FrameShape(s, first, magnitude, step.0, step.1);
      RunFrames(step.0, first + 1, stop, magnitude, rest.0, rest.1);
      ConcatFrames(step.1, rest.1, first, stop);
    }
  }

  /** One frame's keyframes followed by those of the later frames. */
  lemma ConcatFrames(now: seq<Keyframe>, later: seq<Keyframe>, first: int, stop: int)
    requires first < stop
    requires forall k :: 0 <= k < |now| ==> now[k].frame == first
    requires FramesWithin(later, first + 1, stop) && FramesOrdered(later)
    ensures FramesWithin(now + later, first, stop) && FramesOrdered(now + later)
  {
    var log, n := now + later, |now|;
    forall k | 0 <= k < |log|
      ensures first <= log[k].frame < stop
      ensures k < n ==> log[k].frame == first
      ensures k >= n ==> log[k].frame > first
    {
      if k >= n {
        assert log[k] == later[k - n];
      }
    }
    forall a, b | 0 <= a <= b < |log|
      ensures log[a].frame <= log[b].frame
    {
      if a >= n {
        assert log[a] == later[a - n] && log[b] == later[b - n];
      }
    }
  }

  /** `log` recorded before the run `r`, when `r` completes. */
  function Prepend(log: seq<Keyframe>, r: Result<(seq<StellarBody>, seq<Keyframe>)>)
    : Result<(seq<StellarBody>, seq<Keyframe>)>
  {
    match r
    case ZeroDivisionError => ZeroDivisionError
    case Ok(x) => Ok((x.0, log + x.1))
  }

  lemma PrependPrepend(a: seq<Keyframe>, b: seq<Keyframe>, r: Result<(seq<StellarBody>, seq<Keyframe>)>)
    ensures Prepend(a, Prepend(b, r)) == Prepend(a + b, r)
  {
    if r.Ok? {
      assert a + (b + r.value.1) == (a + b) + r.value.1;
    }
  }

  /** The first call of a list of pairs, then the rest. */
  lemma ApplyPairsCons(s: seq<StellarBody>, p: (nat, nat), ps: seq<(nat, nat)>, magnitude: Vec3 -> real)
    requires p.0 < p.1 < |s| && PairsWithin(ps, |s|)
    ensures PairsWithin([p] + ps, |s|)
    ensures ApplyPairs(s, [p] + ps, magnitude)
            == match Interact(s, p.0, p.1, magnitude)
               case ZeroDivisionError => ZeroDivisionError
               case Ok(next) => ApplyPairs(next, ps, magnitude)
  {
    assert ([p] + ps)[0] == p;
    assert ([p] + ps)[1..] == ps;
  }

  lemma OnlyVelocitiesChangedTrans(a: seq<StellarBody>, b: seq<StellarBody>, c: seq<StellarBody>)
    requires OnlyVelocitiesChanged(a, b) && OnlyVelocitiesChanged(b, c)
    ensures OnlyVelocitiesChanged(a, c)
  {
    forall k | 0 <= k < |a| ensures c[k] == a[k].(velocity := c[k].velocity) {
      assert b[k] == a[k].(velocity := b[k].velocity);
    }
  }

  /** Every pair of row `i` from `j` on is within `n` bodies. */
  lemma RowWithin(i: nat, j: nat, n: nat)
    requires i < j
    ensures PairsWithin(Row(i, j, n), n)
  {
  }

  /** The calls of the inner loop for outer position `i` from inner
      position `j` on. */
  function RowCalls(s: seq<StellarBody>, i: nat, j: nat, magnitude: Vec3 -> real): Result<seq<StellarBody>>
    requires i < j
  {
    RowWithin(i, j, |s|);
    ApplyPairs(s, Row(i, j, |s|), magnitude)
  }

  /** One step of the inner loop. */
  lemma RowCallsStep(s: seq<StellarBody>, i: nat, j: nat, magnitude: Vec3 -> real)
    requires i < j < |s|
    ensures Interact(s, i, j, magnitude).ZeroDivisionError? ==> RowCalls(s, i, j, magnitude).ZeroDivisionError?
    ensures Interact(s, i, j, magnitude).Ok? ==>
              RowCalls(s, i, j, magnitude) == RowCalls(Interact(s, i, j, magnitude).value, i, j + 1, magnitude)
  {
    RowWithin(i, j + 1, |s|);
    ApplyPairsCons(s, (i, j), Row(i, j + 1, |s|), magnitude);
  }

  /** The inner loop has nothing left to do once `j` reaches the end. */
  lemma RowCallsDone(s: seq<StellarBody>, i: nat, j: nat, magnitude: Vec3 -> real)
    requires i < j && |s| <= j
    ensures RowCalls(s, i, j, magnitude) == Ok(s)
  {
    assert Row(i, j, |s|) == [];
  }

  /** The calls for `a + b` are those for `a`, then, unless one of them
      raised, those for `b`. */
  lemma {:induction false} ApplyPairsConcat(s: seq<StellarBody>, a: seq<(nat, nat)>, b: seq<(nat, nat)>,
                                            magnitude: Vec3 -> real)
    requires PairsWithin(a, |s|) && PairsWithin(b, |s|)
    ensures PairsWithin(a + b, |s|)
    ensures ApplyPairs(s, a, magnitude).ZeroDivisionError? ==> ApplyPairs(s, a + b, magnitude).ZeroDivisionError?
    ensures ApplyPairs(s, a, magnitude).Ok? ==>
              ApplyPairs(s, a + b, magnitude) == ApplyPairs(ApplyPairs(s, a, magnitude).value, b, magnitude)
    decreases |a|
  {
    var ab := a + b;
    assert PairsWithin(ab, |s|) by {
      forall k | 0 <= k < |ab| ensures ab[k].0 < ab[k].1 < |s| {
        if k >= |a| {
          assert ab[k] == b[k - |a|];
        }
      }
    }
    if a == [] {
      assert ab == b;
    } else {
      assert ab[0] == a[0];
      assert ab[1..] == a[1..] + b;
      var r := Interact(s, a[0].0, a[0].1, magnitude);
      if r.Ok? {
        ApplyPairsConcat(r.value, a[1..], b, magnitude);
      }
    }
  }

  /** The frame loop as the object runs it: `log` holds the keyframes
      inserted so far, and each completed frame appends its own. */
  function Animate(s: seq<StellarBody>, log: seq<Keyframe>, first: int, stop: int, magnitude: Vec3 -> real)
    : Result<(seq<StellarBody>, seq<Keyframe>)>
    decreases stop - first, 1
  {
    if first >= stop then Ok((s, log)) else AnimateFrom(s, log, first, stop, magnitude)
  }

  /** One pass of the loop body at frame `first`, then the rest of the
      loop. */
  function AnimateFrom(s: seq<StellarBody>, log: seq<Keyframe>, first: int, stop: int, magnitude: Vec3 -> real)
    : Result<(seq<StellarBody>, seq<Keyframe>)>
    requires first < stop
    decreases stop - first, 0
  {
    match Frame(s, first, magnitude)
    case ZeroDivisionError => ZeroDivisionError
    case Ok(step) => Animate(step.0, log + step.1, first + 1, stop, magnitude)
  }

  /** Running the loop after `log` was recorded is `log` followed by the
      run. */
  lemma {:induction false} AnimateIsRun(s: seq<StellarBody>, log: seq<Keyframe>, first: int, stop: int,
                                        magnitude: Vec3 -> real)
    decreases stop - first
    ensures Animate(s, log, first, stop, magnitude) == Prepend(log, Run(s, first, stop, magnitude))
  {
    if first >= stop {
      assert log + [] == log;
    } else if Frame(s, first, magnitude).Ok? {
      var step := Frame(s, first, magnitude).value;
      AnimateIsRun(step.0, log + step.1, first + 1, stop, magnitude);
      PrependPrepend(log, step.1, Run(step.0, first + 1, stop, magnitude));
    }
  }

  /** One frame of the loop, then the rest of it; a frame that raises ends
      the loop with the error. */
  lemma AnimateStep(s: seq<StellarBody>, log: seq<Keyframe>, first: int, stop: int, magnitude: Vec3 -> real)
    requires first < stop
    ensures Frame(s, first, magnitude).ZeroDivisionError? ==> Animate(s, log, first, stop, magnitude).ZeroDivisionError?
    ensures Frame(s, first, magnitude).Ok? ==>
              Animate(s, log, first, stop, magnitude)
              == Animate(Frame(s, first, magnitude).value.0, log + Frame(s, first, magnitude).value.1, first + 1, stop, magnitude)
  {
  }

  /** What a completed `Prepend` says about the run inside it. */
  lemma PrependOk(log: seq<Keyframe>, r: Result<(seq<StellarBody>, seq<Keyframe>)>,
                  bodies: seq<StellarBody>, all: seq<Keyframe>)
    requires Prepend(log, r) == Ok((bodies, all))
    ensures r.Ok? && r.value.0 == bodies && all == log + r.value.1
  {
  }
}
