# FDM: a model of the offloaded wave-field integrator

This project models the core of `FDM(N, h, dt)` in `src/FDM.ts` and the
grid helpers of `src/utils.ts`. `FDM` is a finite-difference integrator
for a 3-D field on an N×N×N grid that runs on the GPU. When it is built it
does the following:

- It draws M = 30 point sources ("pulses") uniformly in the unit cube.
  A draw is rejected while it lies farther than RADIUS = 0.8 from the
  cube's centre.
- It scales each accepted point by N and rounds it to a cell.
- It gives every cell a fixed base amplitude u (the sum of the amplitudes
  of the pulses centred on it) and a fixed frequency f. The forcing of a
  cell at time t is u·exp(−t)·sin(f·t).
- It keeps the field state, u and v per cell, in two RG float textures.

`step(n)` runs n kernel passes. Each pass uploads F(t), runs the kernel
reading texture0 and writing texture1, swaps the two handles and advances
t by dt. Construction already performs one step. `toTexture` and
`toRealTexture` read the state back. They normalise each cell's u with the
fixed window [−0.5, 2], pass it through a colour map and write the colour
into an RGBA byte volume.

Modules:

- `CellIndex` (cell_index.dfy): the row-major cell address
  (i·N + j)·N + k and its inverse decomposition. It also covers the 2- and
  4-slot-per-cell buffer layouts.
- `Utils` (utils.dfy): `makeGrid` and `clamp`.
- `Forcing` (forcing.dfy):
  - the rejection sampling, over a finite stream of uniform draws;
  - the per-cell amplitude sum;
  - the closures `fs` and the forcing F(t).
- `Export` (export.dfy): the normalisation and the byte-volume encoding
  loops shared by both export functions.
- `Fdm` (fdm.dfy):
  - the class `Simulator`, which holds the two textures, the forcing
    texture, t and the readback buffer, with `step`, `toTexture` and
    `toRealTexture`;
  - the method `Fdm`, which builds a simulator.

The GPU kernel is an arbitrary function of type `Kernel`. It gives each
output slot from the uniforms (N, h, dt), the input state and the forcing.
A draw call writes every slot of the target texture from the same inputs.
`Advance(state, t0, count)` is the specification of `count` steps. Step
p samples the forcing at `TimeAfter(t0, p)`, which is t0 with dt added p
times, the way `t += dt` accumulates. `TimeAfterIsLinear` proves that this
equals t0 + p·dt.

Three facts about the code shape the model:

- The export does not clamp the normalised level to [0, 1]. Values
  outside the window reach the colour map unchanged (src/FDM.ts:185-186).
- The alpha byte of each texel is never written and stays 0
  (src/FDM.ts:180, 188-190).
- Each step samples F at t before `t += dt` (src/FDM.ts:136, 153).

## Model

| member | source | states |
|---|---|---|
| CellIndex.Index | src/FDM.ts:159 | `index(i, j, k)` = (i·N + j)·N + k; its bounds, injectivity and inverse are the rows below |
| CellIndex.Decompose | src/FDM.ts:91-93 | decomposing a flat address 0 ≤ idx < N³ into (idx / N², (idx / N) mod N, idx mod N) gives an in-grid cell whose address is idx again |
| CellIndex.DecomposeIndex | src/FDM.ts:159 | for an in-grid cell, the address lies in [0, N³) and decomposing it returns the same cell |
| CellIndex.IndexBounds | src/FDM.ts:159 | every in-grid cell's address lies in [0, N³) |
| CellIndex.IndexInjective | src/FDM.ts:159 | two in-grid cells have the same address if and only if they are the same cell |
| CellIndex.IndexCarry | src/FDM.ts:182-184 | in the nested ascending loops, k = N carries to the next j and j = N to the next i; the first address is 0 and i = N is one past the last, N³ |
| CellIndex.SlotsDisjoint | src/FDM.ts:161 | with w values per cell, slot w·index + ch of an in-grid cell lies in [0, w·N³), and two (cell, channel) pairs share a slot only if they are equal |
| Utils.MakeGrid | src/utils.ts:3-20 | the grid has l rows of m columns of n entries, and entry [i][j][k] is fn(i, j, k) |
| Utils.Clamp | src/utils.ts:22-24 | with min ≤ max the result lies in [min, max] and equals v when v already does; with min > max it is min for every v; it is always one of min, max, v |
| Utils.ClampIdempotent | src/utils.ts:23 | clamping twice with the same bounds equals clamping once |
| Utils.ClampMonotone | src/utils.ts:23 | clamp is non-decreasing in v |
| Forcing.Round | src/FDM.ts:79-81 | Math.round returns the integer r with r − 0.5 ≤ x < r + 0.5 (halves round up) |
| Forcing.CellOf | src/FDM.ts:77-81 | a point scaled by N with each coordinate rounded by Math.round |
| Forcing.RoundedCoordinateRange | src/FDM.ts:77-81 | a coordinate drawn from [0, 1), scaled by N and rounded, lies in [0, N] |
| Forcing.CellOfUnitPoint | src/FDM.ts:77-81 | a point of [0, 1)³ scaled by N and rounded lands on a cell in [0, N]³ |
| Forcing.Candidates | src/FDM.ts:73-75 | the stream of draws yields ⌊len/3⌋ candidate points, candidate c made of draws 3c, 3c+1 and 3c+2 |
| Forcing.Accepted | src/FDM.ts:74 | the candidates kept by the rejection test are at most as many as the candidates, each of them a candidate within RADIUS of the centre |
| Forcing.AcceptedPrefix | src/FDM.ts:72-76 | the points kept from a prefix of the candidates are a prefix of the points kept from all of them |
| Forcing.AcceptedStep | src/FDM.ts:74 | one more candidate is kept exactly when it passes the test |
| Forcing.DrawWithinRadius | src/FDM.ts:73-76 | the redraw loop consumes candidates until one lies within RADIUS: on success the loop stops right after that candidate, which is the next kept point after those of the candidates already used; None only when the stream runs out with no further kept point |
| Forcing.SamplePulses | src/FDM.ts:72-84 | the result is present if and only if the stream holds at least M acceptable candidates; then exactly M pulses are made, from the first M kept points in order, each within RADIUS, centred on its point scaled and rounded (coordinates in [0, N]), with amplitude AMPLITUDE · rand(0, 2) |
| Forcing.AcceptedFromUnitDraws | src/FDM.ts:72-81 | every kept point from unit draws is within RADIUS and rounds to a cell in [0, N]³ for every N |
| Forcing.PulseSum | src/FDM.ts:94-97 | the sum of ampl over the pulses whose rounded centre is the cell, in pulse order |
| Forcing.CellAmplitude | src/FDM.ts:94-97 | the accumulation loop computes the sum of ampl over the pulses centred on the cell |
| Forcing.PulseSumNoHit | src/FDM.ts:94-97 | a cell on which no pulse is centred has base amplitude 0 |
| Forcing.PulseSumAppend | src/FDM.ts:95-96 | the amplitude sum over two pulse lists is the sum of the two sums |
| Forcing.OffGridPulseIgnored | src/FDM.ts:79-81 | a pulse whose rounded centre lies off the grid (a coordinate equal to N) adds nothing to any in-grid cell |
| Forcing.SourceAt | src/FDM.ts:90-99 | the closure data of address idx: the pulse sum of its decomposed cell and FREQ times its frequency draw |
| Forcing.BuildSources | src/FDM.ts:88-100 | `fs` has N³ closures, closure idx holding the pulse sum of the decomposed cell of idx and frequency FREQ · Math.random() |
| Forcing.Sample | src/FDM.ts:99 | a closure with base amplitude 0 gives 0 at every t, whatever exp and sin return |
| Forcing.Force | src/FDM.ts:102 | F(t) has one entry per closure, entry idx being closure idx evaluated at t |
| Forcing.ForceAtCell | src/FDM.ts:88-102 | the entry of F(t) at the address of an in-grid cell is the closure of that cell's pulse sum and frequency evaluated at t |
| Forcing.UnforcedCellIsZero | src/FDM.ts:94-99 | the entry of F(t) of an in-grid cell on which no pulse is centred is 0 at every t |
| Export.Normalise | src/FDM.ts:177-178 | (u + 0.5) / 2.5 is 0 exactly at u = −0.5, 1 exactly at u = 2, and in [0, 1] exactly for u in the window |
| Export.NormaliseMonotone | src/FDM.ts:185 | normalisation preserves order |
| Export.TexelByteAt | src/FDM.ts:185-190 | byte 4·idx + ch of the volume is channel ch of the colour of cell idx's u value (read at slot 2·idx), with 0 for alpha |
| Export.Encoded | src/FDM.ts:180-193 | the 4·N³-byte volume, byte s being channel s mod 4 of the colour of cell s / 4 |
| Export.EncodedCell | src/FDM.ts:180-193 | the texel of in-grid cell (i, j, k) holds the colour of that cell's normalised u in its first three bytes and 0 in its alpha byte |
| Export.FilledStep | src/FDM.ts:187-190 | writing the three colour bytes of the next cell extends the encoded prefix by one texel and leaves the rest zero |
| Export.EncodeVolume | src/FDM.ts:180-193 | the export loops fill a fresh N³·4-byte buffer that equals the encoded volume of the readback |
| Export.EncodeRow | src/FDM.ts:184-191 | the innermost loop encodes the N texels of row (i, j) after the rows before it |
| Fdm.KernelPass | src/FDM.ts:140-150 | a draw call writes a target of the same size as the state it reads |
| Fdm.Simulator.TimeAfter | src/FDM.ts:153 | t0 with dt added k times, the way `t += dt` accumulates |
| Fdm.Simulator.TimeAfterIsLinear | src/FDM.ts:153 | adding dt k times moves t0 to t0 + k·dt |
| Fdm.Simulator.TimeAfterSplit | src/FDM.ts:153 | a + b increments are a increments followed by b |
| Fdm.Simulator.Advance | src/FDM.ts:123-155 | the state after count steps has the size of the initial state |
| Fdm.Simulator.AdvanceSplit | src/FDM.ts:123-155 | count = a + b steps from t0 are a steps followed by b steps from the time a steps later, so step(n) equals n calls of step(1) |
| Fdm.Simulator.Ticks | src/FDM.ts:124-153 | a batch of count steps samples the forcing count times |
| Fdm.Simulator.TicksSplit | src/FDM.ts:124-153 | the sample times of a + b steps are those of a steps followed by those of b steps from the later time |
| Fdm.Simulator.StepOnce | src/FDM.ts:125-153 | one iteration uploads F(t), writes texture1 as the kernel pass over texture0 and F(t), swaps the handles and advances t by dt |
| Fdm.Simulator.Step | src/FDM.ts:123-155 | for count ≥ 0: texture0 holds the state count kernel passes on and texture1 the one before; the handles are swapped exactly when count is odd; the forcing was sampled at t0, t0 + dt, … in order and F was last uploaded at the pre-increment time of the last step; t = t0 + count·dt; step(0) changes nothing |
| Fdm.Simulator.constructor | src/FDM.ts:110-157 | zero-filled textures, t = 0, then one step: afterwards t = dt, F was sampled once at 0, texture0 holds one kernel pass over the zero state, texture1 is zero |
| Fdm.Simulator.ReadPixels | src/FDM.ts:164 | the readback buffer becomes a copy of texture0 |
| Fdm.Simulator.ToTexture | src/FDM.ts:163-202 | the returned N×N×N volume holds the encoded bytes of the current state |
| Fdm.Simulator.ToRealTexture | src/FDM.ts:204-236 | returns N and the same encoded bytes as `toTexture` for the same state |
| Fdm.Fdm | src/FDM.ts:58-157 | a simulator is returned if and only if M points were accepted; its pulses come from the first M kept points, its closures are those of the pulses, it holds the given N, h, dt, kernel, exp and sin, and it has taken its first step: t = dt, F was sampled once at 0 and is the uploaded forcing, texture0 holds one kernel pass over the zero state and texture1 is zero |

## Left out

- WebGL plumbing: the context, buffers, programs, framebuffer, texture parameters and uniform uploads (src/FDM.ts:5-56, 104-120). These are foreign GPU calls. The textures are modelled as arrays of reals, and `readPixels` as a copy.
- The update stencil: the fragment shader `FDM_frag.glsl` is not part of this model. The kernel is an arbitrary per-slot function, so nothing is claimed about the Laplacian, boundaries or stability.
- Floating point: Float32 storage, NaN and rounding error are not modelled. Values are reals.
- Randomness and transcendental functions: `Math.random`, `rand(0, 2)`, `Math.exp`, `Math.sin`, THREE's `distanceTo` and the d3 colour map are inputs of the model. `rand` and `createProgramFromScripts` are imported from `./utils`, which does not define them.
- Forcing.DrawWithinRadius: the source redraws forever until a point is accepted. The model draws from a finite stream and reports None when the stream runs out, so `Fdm.Fdm` can return None where the source would keep drawing.
- Fdm.Simulator.Step: a negative n makes `while (n--)` run forever. The model requires n ≥ 0 and does not model that non-termination.
- Utils.MakeGrid: JavaScript's `Array(l)` throws a RangeError for a negative or fractional length. The model takes natural lengths.
- `correctCameraUp` (src/utils.ts:26-30) is float vector math through THREE and is not modelled.
- The texture object's format, type, filter and wrap fields (src/FDM.ts:195-200) are rendering settings. The model keeps only its data and size.
- The commented-out data-derived min/max of the export (src/FDM.ts:166-176, 207-217) is not modelled. Only the fixed window is.
- Shared GL state: the canvas, context, program, viewport and bound framebuffer are module-global (src/FDM.ts:5-30, 59-62, 113-120). Every `FDM` call overwrites the program's uniforms and rebinds its own framebuffer, so an earlier instance then steps with the later one's uniforms and viewport and reads back from the later one's framebuffer. The model assumes a single `FDM` instance: each `Simulator` has its own uniforms and readback.
