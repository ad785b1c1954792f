/**
 * `Color` of src/raytracing/color.rs: three f64 channels with channel-wise
 * arithmetic, and the conversions between colours and vectors.
 */
module Colors {
  import Float
  import Vectors

  datatype Color = Color(r: real, g: real, b: real)

  /** `Color::new(r, g, b)`: the accessors `r()`, `g()`, `b()` give back the arguments. */
  function NewColor(r: real, g: real, b: real): (c: Color)
    ensures c.r == r && c.g == g && c.b == b
  {
    Color(r, g, b)
  }

  /** `Color::black()` and `Color::default()`: every channel 0. */
  function Black(): Color {
    Color(0.0, 0.0, 0.0)
  }

  /** `From<Color> for Vec3`. */
  function ToVec(c: Color): Vectors.Vec3 {
    Vectors.Vec3(c.r, c.g, c.b)
  }

  /** `From<Vec3> for Color`. */
  function FromVec(v: Vectors.Vec3): Color {
    Color(v.x, v.y, v.z)
  }

  /** `Color + Color`. */
  function Add(c: Color, d: Color): Color {
    Color(c.r + d.r, c.g + d.g, c.b + d.b)
  }

  /** `Color + Vec3`: the vector is converted to a colour, added, and the sum converted back to the right operand's type. */
  function AddToVec(c: Color, v: Vectors.Vec3): Vectors.Vec3 {
    ToVec(Add(c, FromVec(v)))
  }

  /** `Color * f64`. */
  function Scale(c: Color, s: real): Color {
    Color(c.r * s, c.g * s, c.b * s)
  }

  /** `f64 * Color`, which the source defines by swapping the operands. */
  function ScalarMul(s: real, c: Color): Color {
    Scale(c, s)
  }

  /** `Color * Color`. */
  function Mul(c: Color, d: Color): Color {
    Color(c.r * d.r, c.g * d.g, c.b * d.b)
  }

  /** `Color / f64`. */
  function Div(c: Color, s: real): Color {
    Color(Float.Quot(c.r, s), Float.Quot(c.g, s), Float.Quot(c.b, s))
  }

  /** Converting a colour to a vector and back, or a vector to a colour and back, changes nothing. */
  lemma ConversionRoundTrip(c: Color, v: Vectors.Vec3)
    ensures FromVec(ToVec(c)) == c
    ensures ToVec(FromVec(v)) == v
  {
  }

  /** Adding a vector to a colour is vector addition of the colour's channels. */
  lemma AddToVecIsVectorAdd(c: Color, v: Vectors.Vec3)
    ensures AddToVec(c, v) == Vectors.Add(ToVec(c), v)
  {
  }

  /** Channel-wise addition is commutative, with black as its identity. */
  lemma AddCommutes(c: Color, d: Color)
    ensures Add(c, d) == Add(d, c)
    ensures Add(Black(), c) == c
  {
  }

  /** `c * s` and `s * c` are equal and scale every channel by `s`. */
  lemma ScaleCommutes(c: Color, s: real)
    ensures ScalarMul(s, c) == Scale(c, s)
    ensures ScalarMul(s, c) == Color(s * c.r, s * c.g, s * c.b)
  {
  }

  /** Channel-wise multiplication is commutative, with white as its identity and black absorbing. */
  lemma MulCommutes(c: Color, d: Color)
    ensures Mul(c, d) == Mul(d, c)
    ensures Mul(Color(1.0, 1.0, 1.0), c) == c
    ensures Mul(c, Black()) == Black()
  {
  }

  /** Division by a non-zero scalar undoes scaling by it. */
  lemma DivUndoesScale(c: Color, s: real)
    requires s != 0.0
    ensures Div(Scale(c, s), s) == c
  {
    assert Float.Quot(c.r * s, s) == c.r;
    assert Float.Quot(c.g * s, s) == c.g;
    assert Float.Quot(c.b * s, s) == c.b;
  }
}
