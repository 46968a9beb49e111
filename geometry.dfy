// Points in the manipulator's global frame and the abstract trigonometry
// that turns a link's length and orientation into a displacement.
module Geometry {

  /** A point (or displacement) in the global frame; the fixed base is the origin. */
  datatype Vec3 = Vec3(x: real, y: real, z: real)

  const Origin: Vec3 := Vec3(0.0, 0.0, 0.0)

  function Add(a: Vec3, b: Vec3): Vec3 {
    Vec3(a.x + b.x, a.y + b.y, a.z + b.z)
  }

  /** Square of the Euclidean distance between two points. */
  function SqDist(a: Vec3, b: Vec3): (d: real)
    ensures d >= 0.0
    ensures a == b ==> d == 0.0
  {
    (a.x - b.x) * (a.x - b.x) + (a.y - b.y) * (a.y - b.y) + (a.z - b.z) * (a.z - b.z)
  }

  /** Two links closer than this are taken to have collided. */
  const MinSeparation: real := 0.1
  const MinSeparationSq: real := MinSeparation * MinSeparation

  /** The relative displacement of a link with length r, pitch and yaw
      (r cos(yaw) sin(pitch), r sin(yaw) sin(pitch), r cos(pitch) in floating
      point); the model keeps it abstract. */
  type DispFn = (real, real, real) -> Vec3

  /** Comparing the distance d with the threshold is the same as comparing
      its square with the squared threshold, so the square root can be left out. */
  lemma DistanceThreshold(d: real)
    requires d >= 0.0
    ensures d < MinSeparation <==> d * d < MinSeparationSq
  {
    if d < MinSeparation {
      assert d * d <= d * MinSeparation;
      assert d * MinSeparation < MinSeparation * MinSeparation;
    } else {
      assert d * d >= d * MinSeparation;
      assert d * MinSeparation >= MinSeparation * MinSeparation;
    }
  }
}
