/**
 * The two messages built from one decoded frame, and the linear maps that
 * turn raw sensor counts into physical units. The source computes in IEEE
 * doubles; here every scaling is exact real arithmetic.
 */
module Conversion {
  import opened Wire

  datatype Vector3 = Vector3(x: real, y: real, z: real)

  /** The inertial message: a capture time, linear acceleration (m/s^2) and angular velocity (rad/s). */
  datatype ImuMsg = ImuMsg(stamp: nat, linearAcceleration: Vector3, angularVelocity: Vector3)

  /** The magnetic-field message, in the sensor's native field units. */
  datatype MagMsg = MagMsg(magneticField: Vector3)

  /**
   * The scaling constants, written as literals in the conversions below:
   * 16384 accelerometer counts per g at the +-2 g full scale, standard
   * gravity 9.80665 m/s^2, 131 gyroscope counts per degree per second at the
   * +-250 deg/s full scale, and 4096 magnetometer counts for the native range
   * of 1200. `MPi` is the decimal value of the C `M_PI` macro (not pi itself,
   * which is not a Dafny real literal).
   */
  const MPi: real := 3.14159265358979323846

  /** Acceleration in m/s^2 of one raw accelerometer field. */
  function Acceleration(v: int16): (a: real)
    ensures a > 0.0 <==> v > 0
    ensures a < 0.0 <==> v < 0
    ensures -2.0 * 9.80665 <= a < 2.0 * 9.80665
  {
    v as real / 16384.0 * 9.80665
  }

  /** Angular velocity in rad/s of one raw gyroscope field: counts to deg/s, then deg/s to rad/s. */
  function AngularVelocity(v: int16): (w: real)
    ensures w > 0.0 <==> v > 0
    ensures w < 0.0 <==> v < 0
  {
    v as real / 131.0 / 180.0 * 3.14159265358979323846
  }

  /** Magnetic field in native units of one raw magnetometer field. */
  function MagneticField(v: int16): (m: real)
    ensures m > 0.0 <==> v > 0
    ensures m < 0.0 <==> v < 0
    ensures -9600.0 <= m < 9600.0
  {
    v as real * 1200.0 / 4096.0
  }

  /** Each conversion is multiplication of the raw count by a fixed positive factor. */
  lemma ScalesArePositiveMultiples(v: int16)
    ensures Acceleration(v) == v as real * (9.80665 / 16384.0)
    ensures AngularVelocity(v) == v as real * (MPi / (131.0 * 180.0))
    ensures MagneticField(v) == v as real * (1200.0 / 4096.0)
  {
  }

  /** Each conversion is monotone in the raw count. */
  lemma ConversionsAreMonotone(u: int16, v: int16)
    requires u <= v
    ensures Acceleration(u) <= Acceleration(v)
    ensures AngularVelocity(u) <= AngularVelocity(v)
    ensures MagneticField(u) <= MagneticField(v)
  {
    ScalesArePositiveMultiples(u);
    ScalesArePositiveMultiples(v);
  }

  /** One g of counts is standard gravity, 131 counts are one degree per second, 4096 counts the full range. */
  lemma Calibration()
    ensures Acceleration(16384) == 9.80665
    ensures AngularVelocity(131) == MPi / 180.0
    ensures MagneticField(4096) == 1200.0
    ensures Acceleration(0) == 0.0 && AngularVelocity(0) == 0.0 && MagneticField(0) == 0.0
  {
  }

  /** A reading and the raw count it was converted from have the same sign. */
  predicate SameSign(r: real, v: int16)
  {
    (r > 0.0 <==> v > 0) && (r < 0.0 <==> v < 0)
  }

  /**
   * The inertial message: fields 0..2 give acceleration, fields 3..5 angular
   * velocity, and the message carries the cycle's stamp. Every acceleration
   * lies within the +-2 g full scale.
   */
  function ImuOf(vals: seq<int16>, stamp: nat): (msg: ImuMsg)
    requires |vals| == FieldCount
    ensures msg.stamp == stamp
    ensures var a := msg.linearAcceleration;
      && -2.0 * 9.80665 <= a.x < 2.0 * 9.80665
      && -2.0 * 9.80665 <= a.y < 2.0 * 9.80665
      && -2.0 * 9.80665 <= a.z < 2.0 * 9.80665
  {
    ImuMsg(stamp,
           Vector3(Acceleration(vals[0]), Acceleration(vals[1]), Acceleration(vals[2])),
           Vector3(AngularVelocity(vals[3]), AngularVelocity(vals[4]), AngularVelocity(vals[5])))
  }

  /** The magnetic-field message: fields 6..8, each within the native range of +-9600. */
  function MagOf(vals: seq<int16>): (msg: MagMsg)
    requires |vals| == FieldCount
    ensures var m := msg.magneticField;
      && -9600.0 <= m.x < 9600.0
      && -9600.0 <= m.y < 9600.0
      && -9600.0 <= m.z < 9600.0
  {
    MagMsg(Vector3(MagneticField(vals[6]), MagneticField(vals[7]), MagneticField(vals[8])))
  }

  /** Two field sequences that agree on the indices in `lo..hi` and possibly nowhere else. */
  ghost predicate AgreeOn(a: seq<int16>, b: seq<int16>, lo: nat, hi: nat)
    requires hi <= |a| && hi <= |b|
  {
    forall i :: lo <= i < hi ==> a[i] == b[i]
  }

  /**
   * Channel mapping: acceleration depends on fields 0..2 only, angular
   * velocity on fields 3..5 only, the magnetic field on fields 6..8 only,
   * and each axis on its own field with the sign kept.
   */
  lemma ChannelsComeFromTheirFields(a: seq<int16>, b: seq<int16>, stamp: nat)
    requires |a| == FieldCount && |b| == FieldCount
    ensures AgreeOn(a, b, 0, 3) <==> ImuOf(a, stamp).linearAcceleration == ImuOf(b, stamp).linearAcceleration
    ensures AgreeOn(a, b, 3, 6) <==> ImuOf(a, stamp).angularVelocity == ImuOf(b, stamp).angularVelocity
    ensures AgreeOn(a, b, 6, 9) <==> MagOf(a).magneticField == MagOf(b).magneticField
  {
    forall i | 0 <= i < FieldCount
      ensures Acceleration(a[i]) == Acceleration(b[i]) ==> a[i] == b[i]
      ensures AngularVelocity(a[i]) == AngularVelocity(b[i]) ==> a[i] == b[i]
      ensures MagneticField(a[i]) == MagneticField(b[i]) ==> a[i] == b[i]
    {
      ScalesArePositiveMultiples(a[i]);
      ScalesArePositiveMultiples(b[i]);
    }
  }

  /** Each message component has the sign of its source field, so it is 0.0 exactly when the field is zero. */
  lemma ChannelsKeepSign(vals: seq<int16>, stamp: nat)
    requires |vals| == FieldCount
    ensures var imu := ImuOf(vals, stamp);
      && SameSign(imu.linearAcceleration.x, vals[0])
      && SameSign(imu.linearAcceleration.y, vals[1])
      && SameSign(imu.linearAcceleration.z, vals[2])
      && SameSign(imu.angularVelocity.x, vals[3])
      && SameSign(imu.angularVelocity.y, vals[4])
      && SameSign(imu.angularVelocity.z, vals[5])
    ensures var mag := MagOf(vals);
      && SameSign(mag.magneticField.x, vals[6])
      && SameSign(mag.magneticField.y, vals[7])
      && SameSign(mag.magneticField.z, vals[8])
  {
  }
}
