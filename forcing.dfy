/** The point-source forcing term of the offloaded integrator (src/FDM.ts).
    M pulse centres are drawn uniformly in the unit cube by rejection until
    they fall within RADIUS of the cube's centre, scaled by N and rounded
    to a cell; every cell then gets a fixed base amplitude u (the sum of the
    amplitudes of the pulses centred on it) and a fixed frequency f, and the
    forcing at time t is u·exp(-t)·sin(f·t) per cell.

    Math.random, rand(0, 2), exp and sin are inputs of the model: the
    uniform draws of the rejection loop are a finite sequence, the amplitude
    draw of pulse p and the frequency draw of cell idx are functions of the
    call's position, and exp, sin and THREE's distanceTo are arbitrary real
    functions. */
module Forcing {
  import opened CellIndex

  const AMPLITUDE: real := 5000.0
  const RADIUS: real := 0.8
  /** Number of pulses. */
  const M: nat := 30
  const FREQ: real := 5.0

  datatype Option<T> = None | Some(value: T)

  datatype Point = Point(x: real, y: real, z: real)

  /** The centre of the unit cube, (0.5, 0.5, 0.5). */
  const CENTER: Point := Point(0.5, 0.5, 0.5)

  /** A point source: its grid cell and its amplitude. */
  datatype Pulse = Pulse(centre: Cell, ampl: real)

  /** The fixed data of one cell's forcing closure: base amplitude and
      frequency. */
  datatype CellSource = CellSource(u: real, f: real)

  /** THREE's Vector3.distanceTo, an input of the model. */
  type Distance = (Point, Point) -> real

  /** The negation of the rejection test `point.distanceTo(center) > RADIUS`. */
  predicate WithinRadius(dist: Distance, p: Point) {
    dist(p, CENTER) <= RADIUS
  }

  /** Math.round: the nearest integer, halves rounded up. */
  function Round(x: real): (r: int)
    ensures r as real - 0.5 <= x < r as real + 0.5
  {
    (x + 0.5).Floor
  }

  predicate IsUnitDraw(d: real) { 0.0 <= d < 1.0 }

  /** Scaling a unit-cube point by N and rounding each coordinate. */
  function CellOf(n: nat, p: Point): Cell {
    Cell(Round(p.x * n as real), Round(p.y * n as real), Round(p.z * n as real))
  }

  /** A coordinate drawn from [0, 1) lands on a cell coordinate in [0, N]:
      the upper end N lies outside the grid. */
  lemma RoundedCoordinateRange(n: nat, d: real)
    requires IsUnitDraw(d)
    ensures 0 <= Round(d * n as real) <= n
  {
    var x := d * n as real;
    RealMulLe(0.0, d, n as real);
    RealMulLe(d, 1.0, n as real);
    assert 0.0 <= x <= n as real;
  }

  lemma RealMulLe(a: real, b: real, c: real)
    requires a <= b && 0.0 <= c
    ensures a * c <= b * c
  {
  }

  predicate IsUnitPoint(p: Point) {
    IsUnitDraw(p.x) && IsUnitDraw(p.y) && IsUnitDraw(p.z)
  }

  /** A point drawn from [0, 1)³ is rounded onto a cell in [0, N]³. */
  lemma CellOfUnitPoint(n: nat, p: Point)
    requires IsUnitPoint(p)
    ensures 0 <= CellOf(n, p).i <= n && 0 <= CellOf(n, p).j <= n && 0 <= CellOf(n, p).k <= n
  {
    RoundedCoordinateRange(n, p.x);
    RoundedCoordinateRange(n, p.y);
    RoundedCoordinateRange(n, p.z);
  }

  // ---------------------------------------------------------------------
  // Rejection sampling of the pulse centres (FDM.ts:72-84)

  /** Candidate c: the point of draws 3c, 3c+1 and 3c+2. */
  function CandidateAt(draws: seq<real>, c: nat): Point
    requires 3 * c + 3 <= |draws|
  {
    Point(draws[3 * c], draws[3 * c + 1], draws[3 * c + 2])
  }

  /** Candidate c exists exactly when the stream holds three more draws. */
  lemma CandidateCount(draws: seq<real>, c: nat)
    ensures 3 * c + 3 <= |draws| <==> c < |draws| / 3
  {
  }

  /** The candidate points of a stream of uniform draws, three draws each;
      a trailing one or two draws make no candidate. */
  function Candidates(draws: seq<real>): (ps: seq<Point>)
    ensures |ps| == |draws| / 3
    ensures forall c :: 0 <= c < |ps| ==> 3 * c + 3 <= |draws| && ps[c] == CandidateAt(draws, c)
  {
    seq(|draws| / 3, c requires 0 <= c < |draws| / 3 => CandidateAt(draws, c))
  }

  lemma CandidatesAreUnit(draws: seq<real>)
    requires forall d :: d in draws ==> IsUnitDraw(d)
    ensures forall q :: q in Candidates(draws) ==> IsUnitPoint(q)
  {
    forall q | q in Candidates(draws) ensures IsUnitPoint(q) {
      var c :| 0 <= c < |draws| / 3 && Candidates(draws)[c] == q;
      assert draws[3 * c] in draws && draws[3 * c + 1] in draws && draws[3 * c + 2] in draws;
    }
  }

  /** The candidates the rejection test keeps, in order. */
  function Accepted(dist: Distance, ps: seq<Point>): (qs: seq<Point>)
    ensures |qs| <= |ps|
    ensures forall q :: q in qs ==> q in ps && WithinRadius(dist, q)
  {
    if ps == [] then []
    else
      var last := ps[|ps| - 1];
      Accepted(dist, ps[..|ps| - 1]) + (if WithinRadius(dist, last) then [last] else [])
  }

  /** The points kept from a prefix of the candidates are a prefix of the
      points kept from all of them. */
  lemma {:induction false} AcceptedPrefix(dist: Distance, ps: seq<Point>, c: nat)
    requires c <= |ps|
    ensures Accepted(dist, ps[..c]) <= Accepted(dist, ps)
  {
    if c < |ps| {
      var init := ps[..|ps| - 1];
      assert init[..c] == ps[..c];
      AcceptedPrefix(dist, init, c);
    } else {
      assert ps[..c] == ps;
    }
  }

  /** Taking one more candidate keeps it exactly when it passes the test. */
  lemma AcceptedStep(dist: Distance, ps: seq<Point>, c: nat)
    requires 1 <= c <= |ps|
    ensures Accepted(dist, ps[..c]) ==
            Accepted(dist, ps[..c - 1]) + (if WithinRadius(dist, ps[c - 1]) then [ps[c - 1]] else [])
  {
    assert ps[..c][..c - 1] == ps[..c - 1];
  }

  /** The pulse made from the p-th accepted point. */
  function PulseAt(n: nat, p: Point, amplDraw: real): Pulse {
    Pulse(CellOf(n, p), AMPLITUDE * amplDraw)
  }

  /** One pass of the inner loop: draw a candidate and redraw while it lies
      outside RADIUS. The source redraws forever; the model reports None
      when its finite stream of draws runs out first. Candidates are
      consumed three draws at a time, `used` of them before the call. */
  method DrawWithinRadius(dist: Distance, draws: seq<real>, used: nat) returns (point: Option<Point>, next: nat)
    requires used <= |Candidates(draws)|
    ensures used <= next <= |Candidates(draws)|
    ensures point.Some? ==>
              next > used && point.value == Candidates(draws)[next - 1] &&
              Accepted(dist, Candidates(draws)[..next]) ==
              Accepted(dist, Candidates(draws)[..used]) + [point.value]
    ensures point.None? ==>
              next == |Candidates(draws)| &&
              Accepted(dist, Candidates(draws)) == Accepted(dist, Candidates(draws)[..used])
  {
    ghost var cands := Candidates(draws);
    next := used;
    point := None;
    CandidateCount(draws, next);
    while point.None? && |draws| - 3 * next >= 3
      invariant used <= next <= |cands|
      invariant point.None? ==> Accepted(dist, cands[..next]) == Accepted(dist, cands[..used])
      invariant point.Some? ==>
                  next > used && point.value == cands[next - 1] &&
                  Accepted(dist, cands[..next]) == Accepted(dist, cands[..used]) + [point.value]
      invariant 3 * next + 3 <= |draws| <==> next < |cands|
      decreases |cands| - next
    {
      var p := CandidateAt(draws, next);
      next := next + 1;
      AcceptedStep(dist, cands, next);
      CandidateCount(draws, next);
      if WithinRadius(dist, p) {
        point := Some(p);
      }
    }
    if point.None? {
      assert cands[..next] == cands;
    }
  }

  /** The sampling loop (FDM.ts:72-84): for each of the M pulses, draw a
      point within RADIUS, then scale, round and record it with its
      amplitude. The result is None exactly when the stream holds fewer
      than M acceptable candidates. On success the accepted points are the
      first M candidates that pass the test, each pulse's centre is its
      accepted point scaled and rounded (a coordinate in [0, N]), and its
      amplitude is AMPLITUDE times its amplitude draw. */
  method SamplePulses(n: nat, dist: Distance, draws: seq<real>, amplDraw: nat -> real)
    returns (r: Option<seq<Pulse>>, accepted: seq<Point>)
    requires forall d :: d in draws ==> IsUnitDraw(d)
    ensures r.Some? <==> |Accepted(dist, Candidates(draws))| >= M
    ensures r.Some? ==> |r.value| == M && accepted == Accepted(dist, Candidates(draws))[..M]
    ensures r.Some? ==> forall p :: 0 <= p < M ==>
              WithinRadius(dist, accepted[p]) && r.value[p] == PulseAt(n, accepted[p], amplDraw(p))
    ensures r.Some? ==> forall p :: 0 <= p < M ==>
              0 <= r.value[p].centre.i <= n && 0 <= r.value[p].centre.j <= n &&
              0 <= r.value[p].centre.k <= n
  {
    var pulses: seq<Pulse> := [];
    accepted := [];
    var used := 0;
    var i := 0;
    while i < M
      invariant 0 <= i <= M && |pulses| == i && |accepted| == i
      invariant used <= |Candidates(draws)|
      invariant accepted == Accepted(dist, Candidates(draws)[..used])
      invariant forall p :: 0 <= p < i ==> pulses[p] == PulseAt(n, accepted[p], amplDraw(p))
    {
      var point;
      point, used := DrawWithinRadius(dist, draws, used);
      if point.None? {
        return None, accepted;
      }
      accepted := accepted + [point.value];
      pulses := pulses + [PulseAt(n, point.value, amplDraw(i))];
      i := i + 1;
    }
    AcceptedPrefix(dist, Candidates(draws), used);
    AcceptedFromUnitDraws(dist, draws, accepted, used);
    r := Some(pulses);
  }

  /** Every point the rejection test keeps from a prefix of the stream is
      within RADIUS, and each of its coordinates is a unit draw, so its
      pulse lies on a cell in [0, N]³. */
  lemma AcceptedFromUnitDraws(dist: Distance, draws: seq<real>, accepted: seq<Point>, c: nat)
    requires forall d :: d in draws ==> IsUnitDraw(d)
    requires c <= |Candidates(draws)| && accepted == Accepted(dist, Candidates(draws)[..c])
    ensures forall p :: 0 <= p < |accepted| ==> WithinRadius(dist, accepted[p])
    ensures forall p, n: nat :: 0 <= p < |accepted| ==>
              var cell := CellOf(n, accepted[p]);
              0 <= cell.i <= n && 0 <= cell.j <= n && 0 <= cell.k <= n
  {
    var cands := Candidates(draws);
    CandidatesAreUnit(draws);
    forall p, n: nat | 0 <= p < |accepted|
      ensures var cell := CellOf(n, accepted[p]);
              0 <= cell.i <= n && 0 <= cell.j <= n && 0 <= cell.k <= n
    {
      assert accepted[p] in Accepted(dist, cands[..c]);
      assert accepted[p] in cands;
      CellOfUnitPoint(n, accepted[p]);
    }
  }

  // ---------------------------------------------------------------------
  // Per-cell base amplitude (FDM.ts:94-97)

  function Hits(p: Pulse, c: Cell): real {
    if p.centre == c then p.ampl else 0.0
  }

  /** Sum of the amplitudes of the pulses centred on cell c. */
  function PulseSum(pulses: seq<Pulse>, c: Cell): real {
    if pulses == [] then 0.0
    else PulseSum(pulses[..|pulses| - 1], c) + Hits(pulses[|pulses| - 1], c)
  }

  /** The accumulation loop `u += (i,j,k) == (ci,cj,ck) ? ampl : 0`. */
  method CellAmplitude(pulses: seq<Pulse>, c: Cell) returns (u: real)
    ensures u == PulseSum(pulses, c)
  {
    u := 0.0;
    var p := 0;
    while p < |pulses|
      invariant 0 <= p <= |pulses|
      invariant u == PulseSum(pulses[..p], c)
    {
      assert pulses[..p + 1][..p] == pulses[..p];
      u := u + (if pulses[p].centre == c then pulses[p].ampl else 0.0);
      p := p + 1;
    }
    assert pulses[..p] == pulses;
  }

  /** A cell on which no pulse is centred has base amplitude 0. */
  lemma {:induction false} PulseSumNoHit(pulses: seq<Pulse>, c: Cell)
    requires forall p :: 0 <= p < |pulses| ==> pulses[p].centre != c
    ensures PulseSum(pulses, c) == 0.0
  {
    if pulses != [] {
      PulseSumNoHit(pulses[..|pulses| - 1], c);
    }
  }

  /** Each pulse contributes its amplitude to its own centre cell and
      nothing to any other: a pulse added with a centre different from c
      leaves c's amplitude unchanged, and one centred on c adds ampl. */
  lemma {:induction false} PulseSumAppend(pulses: seq<Pulse>, extra: seq<Pulse>, c: Cell)
    ensures PulseSum(pulses + extra, c) == PulseSum(pulses, c) + PulseSum(extra, c)
  {
    if extra == [] {
      assert pulses + extra == pulses;
    } else {
      assert (pulses + extra)[..|pulses + extra| - 1] == pulses + extra[..|extra| - 1];
      PulseSumAppend(pulses, extra[..|extra| - 1], c);
    }
  }

  /** A pulse whose rounded centre lies outside the grid (a coordinate
      rounded up to N) adds to no in-grid cell. */
  lemma OffGridPulseIgnored(n: nat, pulses: seq<Pulse>, p: Pulse, c: Cell)
    requires InGrid(n, c) && !InGrid(n, p.centre)
    ensures PulseSum(pulses + [p], c) == PulseSum(pulses, c)
  {
    PulseSumAppend(pulses, [p], c);
    assert [p][..0] == [];
  }

  // ---------------------------------------------------------------------
  // The per-cell closures fs and the sampled forcing F(t) (FDM.ts:88-102)

  /** The closure data of the cell at flat address idx: its base amplitude
      and FREQ times its frequency draw. */
  function SourceAt(n: nat, pulses: seq<Pulse>, freqDraw: nat -> real, idx: int): CellSource
    requires 0 <= idx < Cells(n)
  {
    CellSource(PulseSum(pulses, Decompose(n, idx)), freqDraw(idx) * FREQ)
  }

  /** Building `fs`: one closure per flat address, the cell's coordinates
      recovered by decomposing the address. */
  method BuildSources(n: nat, pulses: seq<Pulse>, freqDraw: nat -> real)
    returns (fs: seq<CellSource>)
    ensures |fs| == Cells(n)
    ensures forall idx :: 0 <= idx < Cells(n) ==> fs[idx] == SourceAt(n, pulses, freqDraw, idx)
  {
    fs := [];
    var idx := 0;
    while idx < Cells(n)
      invariant 0 <= idx <= Cells(n) && |fs| == idx
      invariant forall q :: 0 <= q < idx ==> fs[q] == SourceAt(n, pulses, freqDraw, q)
    {
      var c := Cell(idx / (n * n), (idx / n) % n, idx % n);
      var u := CellAmplitude(pulses, c);
      var f := freqDraw(idx) * FREQ;
      fs := fs + [CellSource(u, f)];
      idx := idx + 1;
    }
  }

  /** One closure evaluated at t: u·exp(-t)·sin(f·t). A cell with base
      amplitude 0 is never forced, whatever exp and sin return. */
  function Sample(s: CellSource, t: real, exp: real -> real, sin: real -> real): (r: real)
    ensures s.u == 0.0 ==> r == 0.0
  {
    s.u * exp(-1.0 * t) * sin(s.f * t)
  }

  /** `F(t)`: every closure evaluated at t, in address order. */
  function Force(fs: seq<CellSource>, t: real, exp: real -> real, sin: real -> real): (r: seq<real>)
    ensures |r| == |fs|
    ensures forall idx :: 0 <= idx < |fs| ==> r[idx] == Sample(fs[idx], t, exp, sin)
  {
    seq(|fs|, idx requires 0 <= idx < |fs| => Sample(fs[idx], t, exp, sin))
  }

  /** In the forcing built from a set of pulses, the entry of an in-grid
      cell (i, j, k) is the closure of that cell evaluated at t: its pulse
      sum as base amplitude and FREQ times its own frequency draw. */
  lemma ForceAtCell(n: nat, pulses: seq<Pulse>, freqDraw: nat -> real, fs: seq<CellSource>,
                    c: Cell, t: real, exp: real -> real, sin: real -> real)
    requires |fs| == Cells(n)
    requires forall idx :: 0 <= idx < Cells(n) ==> fs[idx] == SourceAt(n, pulses, freqDraw, idx)
    requires InGrid(n, c)
    ensures 0 <= Index(n, c) < |Force(fs, t, exp, sin)|
    ensures Force(fs, t, exp, sin)[Index(n, c)] ==
            Sample(CellSource(PulseSum(pulses, c), freqDraw(Index(n, c)) * FREQ), t, exp, sin)
  {
    DecomposeIndex(n, c);
    var idx := Index(n, c);
    assert fs[idx] == SourceAt(n, pulses, freqDraw, idx);
  }

  /** A cell on which no pulse is centred is forced with 0 at every t. */
  lemma UnforcedCellIsZero(n: nat, pulses: seq<Pulse>, freqDraw: nat -> real, fs: seq<CellSource>,
                           c: Cell, t: real, exp: real -> real, sin: real -> real)
    requires |fs| == Cells(n)
    requires forall idx :: 0 <= idx < Cells(n) ==> fs[idx] == SourceAt(n, pulses, freqDraw, idx)
    requires InGrid(n, c)
    requires forall p :: 0 <= p < |pulses| ==> pulses[p].centre != c
    ensures 0 <= Index(n, c) < |Force(fs, t, exp, sin)|
    ensures Force(fs, t, exp, sin)[Index(n, c)] == 0.0
  {
    ForceAtCell(n, pulses, freqDraw, fs, c, t, exp, sin);
    PulseSumNoHit(pulses, c);
  }
}
