/** The GPU-offloaded integrator `FDM(N, h, dt)` of src/FDM.ts.

    The field state lives in two RG float textures of N×N² texels (u and v
    per cell, 2·N³ floats each). One step uploads the forcing F(t) to the
    forcing texture, runs the fragment-shader kernel reading texture0 and
    the forcing and writing texture1, swaps the two handles and advances
    t by dt. The kernel itself (FDM_frag.glsl) is not part of this model: it
    is an arbitrary function giving each output slot from the uniforms, the
    input state and the forcing, which is what a fragment shader computes
    per texel. Readback copies texture0 into the host buffer UV. */
module Fdm {
  import opened CellIndex
  import opened Forcing
  import opened Export

  /** The uniforms the kernel receives: N, h and dt. */
  datatype Uniforms = Uniforms(n: nat, h: real, dt: real)

  /** The fragment shader: output slot s from uniforms, state and forcing. */
  type Kernel = (Uniforms, seq<real>, seq<real>, nat) -> real

  /** One draw call: every slot of the target texture written from the
      same input state and forcing. */
  function KernelPass(kernel: Kernel, u: Uniforms, state: seq<real>, forcing: seq<real>): (next: seq<real>)
    ensures |next| == |state|
  {
    seq(|state|, s requires 0 <= s < |state| => kernel(u, state, forcing, s))
  }

  /** The result of FDM.ts's `toTexture`: the byte volume with its size. */
  datatype Volume = Volume(data: array<byte>, width: nat, height: nat, depth: nat)

  class Simulator {
    const n: nat
    const h: real
    const dt: real
    /** The per-cell closures `fs`, fixed when the simulator is built. */
    const sources: seq<CellSource>
    const kernel: Kernel
    const exp: real -> real
    const sin: real -> real
    /** The host-side readback buffer UV (2·N³ floats). */
    const uv: array<real>

    /** Simulated time. */
    var t: real
    /** The texture the kernel reads (the newest state between steps). */
    var texture0: array<real>
    /** The texture the kernel writes. */
    var texture1: array<real>
    /** The contents last uploaded to the forcing texture. */
    var fTexture: seq<real>
    /** The times at which the forcing has been sampled, in order. */
    ghost var sampleTimes: seq<real>

    ghost predicate Valid()
      reads this
    {
      |sources| == Cells(n) &&
      texture0.Length == 2 * Cells(n) && texture1.Length == 2 * Cells(n) &&
      uv.Length == 2 * Cells(n) &&
      texture0 != texture1 && uv != texture0 && uv != texture1
    }

    function KernelUniforms(): Uniforms {
      Uniforms(n, h, dt)
    }

    /** The forcing sampled at time time: F(time). */
    function ForceAt(time: real): seq<real> {
      Force(sources, time, exp, sin)
    }

    /** The time after k steps of dt from t0, as repeated `t += dt`. */
    function TimeAfter(t0: real, k: nat): real {
      if k == 0 then t0 else TimeAfter(t0, k - 1) + dt
    }

    /** k increments of dt move t0 by k·dt. */
    lemma {:induction false} TimeAfterIsLinear(t0: real, k: nat)
      ensures TimeAfter(t0, k) == t0 + k as real * dt
    {
      if k > 0 {
        TimeAfterIsLinear(t0, k - 1);
        assert (k - 1) as real * dt + dt == k as real * dt;
      }
    }

    /** a increments followed by b increments are a + b increments. */
    lemma {:induction false} TimeAfterSplit(t0: real, a: nat, b: nat)
      ensures TimeAfter(t0, a + b) == TimeAfter(TimeAfter(t0, a), b)
    {
      if b > 0 {
        TimeAfterSplit(t0, a, b - 1);
      }
    }

    /** The state after `count` steps from `state` at time t0: step p
        samples the forcing at the time after p increments, before t is
        advanced. */
    function Advance(state: seq<real>, t0: real, count: nat): (r: seq<real>)
      ensures |r| == |state|
    {
      if count == 0 then state
      else KernelPass(kernel, KernelUniforms(), Advance(state, t0, count - 1),
                      ForceAt(TimeAfter(t0, count - 1)))
    }

    /** The times sampled by `count` steps from t0. */
    function Ticks(t0: real, count: nat): (r: seq<real>)
      ensures |r| == count
    {
      seq(count, p requires 0 <= p < count => TimeAfter(t0, p))
    }

    /** Batching does not change the result: `a + b` steps from t0 are `a`
        steps followed by `b` steps from the time a steps later. In
        particular step(n) leaves the same state as n calls of step(1). */
    lemma {:induction false} AdvanceSplit(state: seq<real>, t0: real, a: nat, b: nat)
      ensures Advance(state, t0, a + b) == Advance(Advance(state, t0, a), TimeAfter(t0, a), b)
    {
      if b > 0 {
        AdvanceSplit(state, t0, a, b - 1);
        TimeAfterSplit(t0, a, b - 1);
      }
    }

    /** The sample times of a batch continue those of the batch before. */
    lemma TicksSplit(t0: real, a: nat, b: nat)
      ensures Ticks(t0, a + b) == Ticks(t0, a) + Ticks(TimeAfter(t0, a), b)
    {
      var whole, parts := Ticks(t0, a + b), Ticks(t0, a) + Ticks(TimeAfter(t0, a), b);
      forall p | 0 <= p < |whole|
        ensures whole[p] == parts[p]
      {
        if p >= a {
          TimeAfterSplit(t0, a, p - a);
        }
      }
    }

    /** Builds the textures (zero-filled), sets t = 0 and performs the
        first step, as `FDM(N, h, dt)` does before returning. */
    constructor (n: nat, h: real, dt: real, sources: seq<CellSource>,
                 kernel: Kernel, exp: real -> real, sin: real -> real)
      requires |sources| == Cells(n)
      ensures Valid() && fresh(texture0) && fresh(texture1) && fresh(uv)
      ensures this.n == n && this.h == h && this.dt == dt && this.sources == sources
      ensures this.kernel == kernel && this.exp == exp && this.sin == sin
      ensures t == dt && sampleTimes == [0.0]
      ensures texture0[..] == Advance(seq(2 * Cells(n), _ => 0.0), 0.0, 1)
      ensures texture1[..] == seq(2 * Cells(n), _ => 0.0)
      ensures fTexture == ForceAt(0.0)
    {
      this.n, this.h, this.dt := n, h, dt;
      this.sources, this.kernel, this.exp, this.sin := sources, kernel, exp, sin;
      texture0 := new real[2 * Cells(n)](_ => 0.0);
      texture1 := new real[2 * Cells(n)](_ => 0.0);
      uv := new real[2 * Cells(n)](_ => 0.0);
      fTexture := [];
      t := 0.0;
      sampleTimes := [];
      new;
      assert texture0[..] == seq(2 * Cells(n), _ => 0.0);
      assert texture1[..] == seq(2 * Cells(n), _ => 0.0);
      Step(1);
    }

    /** `step(n)`: `while (n--)` runs exactly `count` iterations (a negative
        count would never stop, hence the precondition). Each iteration
        uploads F(t), lets the kernel read texture0 and write texture1,
        swaps the handles and advances t. Afterwards texture0 holds the
        state `count` kernel passes on, texture1 the one before it, the
        handles are swapped exactly when `count` is odd, the forcing was
        sampled at t0, t0 + dt, ..., and t has moved by count·dt; step(0)
        changes nothing. */
    method Step(count: int)
      requires Valid() && count >= 0
      modifies this, texture0, texture1
      ensures Valid()
      ensures t == TimeAfter(old(t), count) == old(t) + count as real * dt
      ensures sampleTimes == old(sampleTimes) + Ticks(old(t), count)
      ensures texture0[..] == Advance(old(texture0[..]), old(t), count)
      ensures count > 0 ==> texture1[..] == Advance(old(texture0[..]), old(t), count - 1)
      ensures count % 2 == 0 ==> texture0 == old(texture0) && texture1 == old(texture1)
      ensures count % 2 == 1 ==> texture0 == old(texture1) && texture1 == old(texture0)
      ensures count > 0 ==> fTexture == ForceAt(TimeAfter(old(t), count - 1))
      ensures count == 0 ==> fTexture == old(fTexture) && texture1[..] == old(texture1[..])
    {
      ghost var t0, start, a, b := t, texture0[..], texture0, texture1;
      var remaining := count;
      ghost var done: nat := 0;
      while remaining != 0
        invariant 0 <= remaining && done == count - remaining
        invariant Valid()
        invariant done % 2 == 0 ==> texture0 == a && texture1 == b
        invariant done % 2 == 1 ==> texture0 == b && texture1 == a
        invariant t == TimeAfter(t0, done)
        invariant sampleTimes == old(sampleTimes) + Ticks(t0, done)
        invariant texture0[..] == Advance(start, t0, done)
        invariant done > 0 ==> texture1[..] == Advance(start, t0, done - 1)
        invariant done > 0 ==> fTexture == ForceAt(TimeAfter(t0, done - 1))
        invariant done == 0 ==> fTexture == old(fTexture) && texture1[..] == old(texture1[..])
      {
        remaining := remaining - 1;
        StepOnce();
        TicksSplit(t0, done, 1);
        done := done + 1;
      }
      TimeAfterIsLinear(t0, count);
    }

    /** The body of the `while (n--)` loop: upload F(t), let the kernel
        read texture0 and the forcing and write every slot of texture1,
        swap the two handles, advance t. */
    method StepOnce()
      requires Valid()
      modifies this, texture0, texture1
      ensures Valid()
      ensures fTexture == ForceAt(old(t)) && sampleTimes == old(sampleTimes) + [old(t)]
      ensures texture0 == old(texture1) && texture1 == old(texture0)
      ensures texture0[..] == KernelPass(kernel, KernelUniforms(), old(texture0[..]), ForceAt(old(t)))
      ensures texture1[..] == old(texture0[..])
      ensures t == old(t) + dt
    {
      fTexture := ForceAt(t);
      sampleTimes := sampleTimes + [t];
      var input := texture0[..];
      forall s | 0 <= s < texture1.Length {
        texture1[s] := kernel(KernelUniforms(), input, fTexture, s);
      }
      assert texture1[..] == KernelPass(kernel, KernelUniforms(), input, fTexture);
      texture0, texture1 := texture1, texture0;
      t := t + dt;
    }


    /** `gl.readPixels` into UV: the host buffer becomes a copy of the
        newest state. */
    method ReadPixels()
      requires Valid()
      modifies uv
      ensures uv[..] == texture0[..]
    {
      forall s | 0 <= s < uv.Length {
        uv[s] := texture0[s];
      }
    }

    /** `toTexture()`: read back, then encode the u channel of every cell
        into an N×N×N RGBA volume. Time and state are untouched. */
    method ToTexture(cm: Colormap) returns (tex: Volume)
      requires Valid()
      modifies uv
      ensures uv[..] == texture0[..]
      ensures fresh(tex.data) && tex.data[..] == Encoded(n, texture0[..], cm)
      ensures tex.width == n && tex.height == n && tex.depth == n
    {
      ReadPixels();
      var data := EncodeVolume(n, uv, cm);
      tex := Volume(data, n, n, n);
    }

    /** `toRealTexture()`: the same readback and encoding, returned with N.
        For the same state it yields the same bytes as `toTexture`. */
    method ToRealTexture(cm: Colormap) returns (size: nat, data: array<byte>)
      requires Valid()
      modifies uv
      ensures uv[..] == texture0[..]
      ensures size == n && fresh(data) && data[..] == Encoded(n, texture0[..], cm)
    {
      ReadPixels();
      data := EncodeVolume(n, uv, cm);
      size := n;
    }
  }

  /** `FDM(N, h, dt)`: sample the pulses, build the per-cell closures and
      the simulator, which has already taken its first step. None when the
      draws run out before M centres are accepted. */
  method Fdm(n: nat, h: real, dt: real, dist: Distance, draws: seq<real>,
             amplDraw: nat -> real, freqDraw: nat -> real,
             kernel: Kernel, exp: real -> real, sin: real -> real)
    returns (r: Option<Simulator>, pulses: seq<Pulse>)
    requires forall d :: d in draws ==> IsUnitDraw(d)
    ensures r.Some? <==> |Accepted(dist, Candidates(draws))| >= M
    ensures r.Some? ==> fresh(r.value) && r.value.Valid() && |pulses| == M
    ensures r.Some? ==> fresh(r.value.texture0) && fresh(r.value.texture1) && fresh(r.value.uv)
    ensures r.Some? ==> forall p :: 0 <= p < M ==>
              pulses[p] == PulseAt(n, Accepted(dist, Candidates(draws))[p], amplDraw(p))
    ensures r.Some? ==> r.value.n == n && r.value.h == h && r.value.dt == dt && r.value.t == dt
    ensures r.Some? ==> r.value.kernel == kernel && r.value.exp == exp && r.value.sin == sin
    ensures r.Some? ==>
              r.value.texture1[..] == seq(2 * Cells(n), _ => 0.0) &&
              r.value.fTexture == r.value.ForceAt(0.0)
    ensures r.Some? ==>
              r.value.sampleTimes == [0.0] &&
              r.value.texture0[..] == r.value.Advance(seq(2 * Cells(n), _ => 0.0), 0.0, 1)
    ensures r.Some? ==> forall idx :: 0 <= idx < Cells(n) ==>
              r.value.sources[idx] == SourceAt(n, pulses, freqDraw, idx)
  {
    var sampled, accepted := SamplePulses(n, dist, draws, amplDraw);
    if sampled.None? {
      return None, [];
    }
    pulses := sampled.value;
    var fs := BuildSources(n, pulses, freqDraw);
    var sim := new Simulator(n, h, dt, fs, kernel, exp, sin);
    r := Some(sim);
  }
}
