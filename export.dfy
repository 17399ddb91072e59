/** The export of the simulated field as an RGBA byte volume (src/FDM.ts,
    `toTexture` and `toRealTexture`). The u channel of every cell is
    normalised with the fixed window [-0.5, 2], passed through the colour
    map, and its three colour bytes are written at the cell's four-byte
    slot; the alpha byte is never written and keeps the 0 the fresh
    buffer starts with. */
module Export {
  import opened CellIndex

  newtype byte = x: int | 0 <= x < 256

  datatype Rgb = Rgb(r: byte, g: byte, b: byte)

  /** `d3.rgb(d3.interpolateMagma(t))`, an input of the model. */
  type Colormap = real -> Rgb

  /** The fixed normalisation window; it is not derived from the data. */
  const WINDOW_MIN: real := -0.5
  const WINDOW_MAX: real := 2.0

  /** `(u - min) / (max - min)`: the window's ends map to 0 and 1, exactly
      the values inside the window map into [0, 1], and nothing is
      clamped. */
  function Normalise(u: real): (level: real)
    ensures u == WINDOW_MIN <==> level == 0.0
    ensures u == WINDOW_MAX <==> level == 1.0
    ensures WINDOW_MIN <= u <= WINDOW_MAX <==> 0.0 <= level <= 1.0
  {
    (u - WINDOW_MIN) / (WINDOW_MAX - WINDOW_MIN)
  }

  /** Normalisation preserves order. */
  lemma NormaliseMonotone(u: real, w: real)
    requires u <= w
    ensures Normalise(u) <= Normalise(w)
  {
  }

  /** Byte `ch` of a texel: red, green, blue, and an alpha of 0. */
  function Channel(colour: Rgb, ch: int): byte {
    if ch == 0 then colour.r else if ch == 1 then colour.g else if ch == 2 then colour.b else 0
  }

  /** Byte s of the exported volume: byte s % 4 of the texel of the cell at
      address s / 4, coloured from that cell's u value (slot 0 of its RG
      pair in the readback). */
  function TexelByte(n: nat, uv: seq<real>, cm: Colormap, s: int): byte
    requires |uv| == 2 * Cells(n) && 0 <= s < 4 * Cells(n)
  {
    var idx := s / 4;
    Channel(cm(Normalise(uv[Slot(2, idx, 0)])), s % 4)
  }

  /** The whole exported volume of a readback. */
  function Encoded(n: nat, uv: seq<real>, cm: Colormap): (bytes: seq<byte>)
    requires |uv| == 2 * Cells(n)
  {
    seq(4 * Cells(n), s requires 0 <= s < 4 * Cells(n) =>
      TexelByte(n, uv, cm, s))
  }

  lemma TexelByteAt(n: nat, uv: seq<real>, cm: Colormap, idx: int, ch: int)
    requires |uv| == 2 * Cells(n) && 0 <= idx < Cells(n) && 0 <= ch < 4
    ensures 0 <= Slot(4, idx, ch) < 4 * Cells(n)
    ensures TexelByte(n, uv, cm, Slot(4, idx, ch)) ==
            Channel(cm(Normalise(uv[Slot(2, idx, 0)])), ch)
  {
    DivModUnique(Slot(4, idx, ch), 4, idx, ch);
  }

  /** In the exported volume, the texel of in-grid cell (i, j, k) holds the
      colour of that cell's normalised u value in its first three bytes
      and 0 in its alpha byte. */
  lemma EncodedCell(n: nat, uv: seq<real>, cm: Colormap, c: Cell)
    requires |uv| == 2 * Cells(n) && InGrid(n, c)
    ensures 0 <= Index(n, c) < Cells(n)
    ensures var base := Slot(4, Index(n, c), 0);
            var colour := cm(Normalise(uv[Slot(2, Index(n, c), 0)]));
            0 <= base && base + 3 < |Encoded(n, uv, cm)| &&
            Encoded(n, uv, cm)[base] == colour.r &&
            Encoded(n, uv, cm)[base + 1] == colour.g &&
            Encoded(n, uv, cm)[base + 2] == colour.b &&
            Encoded(n, uv, cm)[base + 3] == 0
  {
    var idx := Index(n, c);
    IndexBounds(n, c);
    SlotBound(2, idx, 0, Cells(n));
    TexelByteAt(n, uv, cm, idx, 0);
    TexelByteAt(n, uv, cm, idx, 1);
    TexelByteAt(n, uv, cm, idx, 2);
    TexelByteAt(n, uv, cm, idx, 3);
  }

  /** The first `done` texels are encoded and every later byte is still 0. */
  ghost predicate Filled(n: nat, uv: seq<real>, cm: Colormap, bytes: seq<byte>, done: int)
    requires |uv| == 2 * Cells(n)
  {
    |bytes| == 4 * Cells(n) && 0 <= done <= Cells(n) &&
    (forall s :: 0 <= s < 4 * done ==> bytes[s] == TexelByte(n, uv, cm, s)) &&
    (forall s :: 4 * done <= s < |bytes| ==> bytes[s] == 0)
  }

  /** Writing the three colour bytes of texel `done` extends the encoded
      prefix by one texel. */
  lemma FilledStep(n: nat, uv: seq<real>, cm: Colormap, bytes: seq<byte>, done: int)
    requires |uv| == 2 * Cells(n)
    requires Filled(n, uv, cm, bytes, done) && done < Cells(n)
    ensures var base := Slot(4, done, 0);
            var colour := cm(Normalise(uv[Slot(2, done, 0)]));
            Filled(n, uv, cm, bytes[base := colour.r][base + 1 := colour.g][base + 2 := colour.b], done + 1)
  {
    var base := Slot(4, done, 0);
    TexelByteAt(n, uv, cm, done, 0);
    TexelByteAt(n, uv, cm, done, 1);
    TexelByteAt(n, uv, cm, done, 2);
    TexelByteAt(n, uv, cm, done, 3);
  }

  /** The export loops: for i, j, k ascending, colour the cell's u value
      and write red, green and blue at bytes 4·index, 4·index+1 and
      4·index+2 of a fresh zero-filled buffer. The buffer that results is
      the encoded volume of the readback. */
  method EncodeVolume(n: nat, uv: array<real>, cm: Colormap) returns (data: array<byte>)
    requires uv.Length == 2 * Cells(n)
    ensures fresh(data) && data[..] == Encoded(n, uv[..], cm)
  {
    data := new byte[4 * Cells(n)](_ => 0);
    IndexCarry(n, 0, 0);
    var i := 0;
    while i < n
      invariant 0 <= i <= n
      invariant Filled(n, uv[..], cm, data[..], Index(n, Cell(i, 0, 0)))
    {
      var j := 0;
      while j < n
        invariant 0 <= j <= n
        invariant Filled(n, uv[..], cm, data[..], Index(n, Cell(i, j, 0)))
      {
        EncodeRow(n, uv, cm, data, i, j);
        IndexCarry(n, i, j);
        j := j + 1;
      }
      IndexCarry(n, i, j);
      i := i + 1;
    }
    IndexCarry(n, i, 0);
    assert data[..] == Encoded(n, uv[..], cm);
  }

  /** The innermost export loop, over k for fixed i and j: it encodes the
      N texels of the row (i, j). */
  method EncodeRow(n: nat, uv: array<real>, cm: Colormap, data: array<byte>, i: int, j: int)
    requires uv.Length == 2 * Cells(n)
    requires 0 <= i < n && 0 <= j < n
    requires Filled(n, uv[..], cm, data[..], Index(n, Cell(i, j, 0)))
    modifies data
    ensures Filled(n, uv[..], cm, data[..], Index(n, Cell(i, j, n)))
  {
    var k := 0;
    while k < n
      invariant 0 <= k <= n
      invariant Filled(n, uv[..], cm, data[..], Index(n, Cell(i, j, k)))
    {
      var idx := Index(n, Cell(i, j, k));
      IndexBounds(n, Cell(i, j, k));
      FilledStep(n, uv[..], cm, data[..], idx);
      ghost var before := data[..];
      var level := Normalise(uv[idx * 2]);
      var colour := cm(level);
      var base := idx * 4;
      data[base] := colour.r;
      data[base + 1] := colour.g;
      data[base + 2] := colour.b;
      assert data[..] == before[base := colour.r][base + 1 := colour.g][base + 2 := colour.b];
      k := k + 1;
    }
  }
}
