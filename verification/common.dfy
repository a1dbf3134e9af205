/** Types shared by every subsystem of the simulation: 32-bit ids, two-dimensional
    vectors over the reals, the network message union and the `indexOf` lookup that
    every store uses to turn an id into a row. */
module Common {

  /** An unsigned 32-bit integer, the element type of the `Uint32Array` columns. */
  type u32 = x: int | 0 <= x < 0x1_0000_0000

  /** An unsigned 8-bit integer, the element type of the `Uint8Array` columns. */
  type u8 = x: int | 0 <= x < 0x100

  datatype Option<+T> = None | Some(value: T)

  /** A two-component vector; the source always runs with `dim == 2`. */
  datatype Vec2 = Vec2(x: real, y: real)

  const Zero: Vec2 := Vec2(0.0, 0.0)

  function Scale(c: real, v: Vec2): Vec2 {
    Vec2(c * v.x, c * v.y)
  }

  /** The messages exchanged between peers. Any other `type` tag is carried as
      `Unrecognized` and ignored by every consumer. */
  datatype Message =
    | UpdatePoint(id: u32, systemId: u32, position: Vec2, velocity: Vec2, acceleration: Vec2)
    | NewPlayer(id: u32, skin: u32)
    | Unrecognized(kind: string)

  /** `Array.prototype.indexOf`: the first index holding `x`, or -1. */
  function IndexOf<T(==)>(s: seq<T>, x: T): (r: int)
    ensures -1 <= r < |s|
    ensures r == -1 <==> x !in s
    ensures 0 <= r ==> s[r] == x && x !in s[..r]
  {
    if |s| == 0 then -1
    else if s[0] == x then 0
    else
      var i := IndexOf(s[1..], x);
      if i == -1 then -1 else i + 1
  }

  /** `i` is the row a lookup of `x` in `s` lands on. */
  predicate FirstIndex<T(==)>(s: seq<T>, x: T, i: int) {
    0 <= i < |s| && s[i] == x && x !in s[..i]
  }

  lemma FirstIndexIsIndexOf<T>(s: seq<T>, x: T, i: int)
    requires FirstIndex(s, x, i)
    ensures IndexOf(s, x) == i
  {
  }

  /** A capacity-sized column of zeros, as a freshly allocated typed array. */
  function Zeros<T>(n: nat, zero: T): (r: seq<T>)
    ensures |r| == n && forall i | 0 <= i < n :: r[i] == zero
  {
    seq(n, i => zero)
  }
}
