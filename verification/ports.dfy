/**
 * Port arithmetic. A port is one of the eight compass directions around a
 * station: 0 points left (180 degrees) and the index grows in 45-degree steps.
 */
module Ports {

  type Port = p: int | 0 <= p < 8

  /** `opposite_port`: the direction pointing the other way. */
  function Opposite(p: Port): (q: Port)
    ensures q != p
    ensures q - p == 4 || p - q == 4
  {
    (p + 4) % 8
  }

  lemma OppositeIsInvolution(p: Port)
    ensures Opposite(Opposite(p)) == p
  {
  }

  /** Number of 45-degree steps between two directions, the short way round. */
  function Steps(a: Port, b: Port): (d: nat)
    ensures d <= 4
    ensures d == 0 <==> a == b
  {
    var fwd := (b - a) % 8;
    if fwd <= 4 then fwd else 8 - fwd
  }

  lemma StepsSymmetric(a: Port, b: Port)
    ensures Steps(a, b) == Steps(b, a)
  {
  }

  lemma StepsToOpposite(p: Port)
    ensures Steps(p, Opposite(p)) == 4
  {
  }

  /** Python's `x % 360` on reals: the remainder of floor division, in [0, 360). */
  function Wrap360(x: real): (r: real)
    ensures 0.0 <= r < 360.0
    ensures ((x - r) / 360.0).Floor as real == (x - r) / 360.0
  {
    x - 360.0 * (x / 360.0).Floor as real
  }

  /**
   * `round_angle_to_port`, stated over exact degrees instead of radians:
   * shift by half a sector, wrap into [0, 360) and count whole sectors.
   * Less some whole number of turns, the angle lies in the half-open
   * 45-degree window centred on the port it rounds to.
   */
  function RoundAngleToPort(degrees: real): (p: Port)
    ensures var turns := ((degrees + 22.5) / 360.0).Floor as real;
            45.0 * p as real - 22.5 <= degrees - 360.0 * turns < 45.0 * p as real + 22.5
  {
    var w := Wrap360(degrees + 22.5);
    (w / 45.0).Floor
  }

  /**
   * The rounded port is the nearest one: every angle that lies in the
   * half-open 45-degree window centred on port q (modulo full turns)
   * rounds to q. Every real angle lies in exactly one such window.
   */
  lemma {:induction false} RoundAngleToPortIsNearest(degrees: real, q: Port, turns: int)
    requires 45.0 * q as real - 22.5 + 360.0 * turns as real <= degrees
    requires degrees < 45.0 * q as real + 22.5 + 360.0 * turns as real
    ensures RoundAngleToPort(degrees) == q
  {
    var x := degrees + 22.5;
    assert turns as real <= x / 360.0 < turns as real + 1.0;
    assert (x / 360.0).Floor == turns;
    var w := x - 360.0 * turns as real;
    assert Wrap360(x) == w;
    assert q as real <= w / 45.0 < q as real + 1.0;
  }

  /** An angle of exactly k times 45 degrees lands on port k mod 8. */
  lemma RoundAngleOnPortDirection(k: int)
    ensures RoundAngleToPort(45.0 * k as real) == k % 8
  {
    RoundAngleToPortIsNearest(45.0 * k as real, k % 8, k / 8);
  }
}
