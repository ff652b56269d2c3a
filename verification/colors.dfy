/** Linear RGB colours (src/utils/color.cpp; the Rust `Color` wrapper has the same
    componentwise structure). */
module Colors {

  datatype Color = Color(r: real, g: real, b: real)

  const Black: Color := Color(0.0, 0.0, 0.0)
  const White: Color := Color(1.0, 1.0, 1.0)
  /** The sky-blue end of the background gradient. */
  const SkyBlue: Color := Color(0.5, 0.7, 1.0)

  /** `Color::operator*(float)` and `operator*(float, Color)`: both scale every
      channel, so the two operand orders agree. */
  function ScaleRight(c: Color, s: real): (o: Color)
    ensures o == ScaleLeft(s, c)
    ensures o.r == s * c.r && o.g == s * c.g && o.b == s * c.b
  {
    Color(s * c.r, s * c.g, s * c.b)
  }

  function ScaleLeft(s: real, c: Color): Color {
    Color(s * c.r, s * c.g, s * c.b)
  }

  /** `Color::operator+(float)` and `operator+(float, Color)`: both add `s` to every
      channel. */
  function ShiftRight(c: Color, s: real): (o: Color)
    ensures o == ShiftLeft(s, c)
    ensures o.r - c.r == s && o.g - c.g == s && o.b - c.b == s
  {
    Color(s + c.r, s + c.g, s + c.b)
  }

  function ShiftLeft(s: real, c: Color): Color {
    Color(s + c.r, s + c.g, s + c.b)
  }

  /** `Color::operator*(Color)` (C++) and `component_mul` (Rust): the channelwise
      product. */
  function Mul(a: Color, b: Color): Color {
    Color(b.r * a.r, b.g * a.g, b.b * a.b)
  }

  /** `Color::operator+(Color)`: the channelwise sum. */
  function Plus(a: Color, b: Color): Color {
    Color(b.r + a.r, b.g + a.g, b.b + a.b)
  }

  lemma MulCommutes(a: Color, b: Color)
    ensures Mul(a, b) == Mul(b, a)
  {}

  lemma MulAssociates(a: Color, b: Color, c: Color)
    ensures Mul(Mul(a, b), c) == Mul(a, Mul(b, c))
  {}

  lemma PlusCommutes(a: Color, b: Color)
    ensures Plus(a, b) == Plus(b, a)
  {}

  /** Scaling twice scales by the product. */
  lemma ScaleComposes(c: Color, s: real, t: real)
    ensures ScaleRight(ScaleRight(c, s), t) == ScaleRight(c, s * t)
  {
    assert t * (s * c.r) == (s * t) * c.r && t * (s * c.g) == (s * t) * c.g && t * (s * c.b) == (s * t) * c.b;
  }

  /** Scaling by a non-zero factor is undone by scaling by its reciprocal. */
  lemma ScaleInverse(c: Color, s: real)
    requires s != 0.0
    ensures ScaleRight(ScaleRight(c, 1.0 / s), s) == c
  {
    ScaleComposes(c, 1.0 / s, s);
    assert 1.0 / s * s == 1.0;
  }

  /** Dividing every channel by a non-zero `n` is undone by scaling by `n`. */
  lemma DivideInverse(c: Color, n: real)
    requires n != 0.0
    ensures ScaleRight(Color(c.r / n, c.g / n, c.b / n), n) == c
  {
    assert n * (c.r / n) == c.r && n * (c.g / n) == c.g && n * (c.b / n) == c.b;
  }

  /** Scaling distributes over the channelwise sum. */
  lemma ScaleDistributes(a: Color, b: Color, s: real)
    ensures ScaleRight(Plus(a, b), s) == Plus(ScaleRight(a, s), ScaleRight(b, s))
  {}

  /** Shifting twice shifts by the sum, and a shift by `-s` undoes a shift by `s`. */
  lemma ShiftComposes(c: Color, s: real, t: real)
    ensures ShiftRight(ShiftRight(c, s), t) == ShiftRight(c, s + t)
    ensures ShiftRight(ShiftRight(c, s), -s) == c
  {}

  /** Linear interpolation, `a * (1 - t) + b * t`. */
  function Lerp(a: Color, b: Color, t: real): (o: Color)
    ensures t == 0.0 ==> o == a
    ensures t == 1.0 ==> o == b
  {
    Color(a.r * (1.0 - t) + b.r * t, a.g * (1.0 - t) + b.g * t, a.b * (1.0 - t) + b.b * t)
  }

  function ClampChannel(x: real): (y: real)
    ensures 0.0 <= y <= 1.0
    ensures 0.0 <= x <= 1.0 ==> y == x
    ensures x < 0.0 ==> y == 0.0
    ensures x > 1.0 ==> y == 1.0
  {
    if x < 0.0 then 0.0 else if x > 1.0 then 1.0 else x
  }

  predicate InUnitCube(c: Color) {
    0.0 <= c.r <= 1.0 && 0.0 <= c.g <= 1.0 && 0.0 <= c.b <= 1.0
  }

  /** `Color::clamp`: every channel lands in [0, 1], and a colour already in the unit
      cube is returned unchanged. */
  function Clamp(c: Color): (o: Color)
    ensures InUnitCube(o)
    ensures InUnitCube(c) ==> o == c
  {
    Color(ClampChannel(c.r), ClampChannel(c.g), ClampChannel(c.b))
  }

  lemma ClampIdempotent(c: Color)
    ensures Clamp(Clamp(c)) == Clamp(c)
  {}
}
