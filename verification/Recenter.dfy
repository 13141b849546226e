/**
 Recentering (avm_dsp/recenter.h): values of [0, n) are renumbered by their
 distance from a reference r, nearest first, so that a code with short words
 for small numbers is short near r.
 */
module Recenter {

  const UINT16_LIMIT: int := 0x1_0000

  /** Conversion of an int to uint16_t. */
  function ToUint16(x: int): (u: nat)
    ensures u < UINT16_LIMIT
  {
    if 0 <= x < UINT16_LIMIT then x else x % UINT16_LIMIT
  }

  /** Numbers of 16 bits stay, others lose their higher bits. */
  lemma Uint16Wraps(u: nat, k: int)
    requires u < 65536
    ensures ToUint16(u) == u && ToUint16(u + 65536 * k) == u
  {}

  function InvRecenterNonneg(r: nat, v: nat): nat {
    if v > 2 * r then ToUint16(v)
    else if v % 2 == 0 then ToUint16(v / 2 + r)
    else ToUint16(r - (v + 1) / 2)
  }

  function InvRecenterFiniteNonneg(n: nat, r: nat, v: nat): nat {
    if 2 * r <= n then InvRecenterNonneg(r, v)
    else ToUint16(n - 1 - InvRecenterNonneg(ToUint16(n - 1 - r), v))
  }

  function RecenterNonneg(r: nat, v: nat): nat {
    if v > 2 * r then ToUint16(v)
    else if v >= r then ToUint16(2 * (v - r))
    else ToUint16(2 * (r - v) - 1)
  }

  function RecenterFiniteNonneg(n: nat, r: nat, v: nat): nat {
    if 2 * r <= n then RecenterNonneg(r, v)
    else RecenterNonneg(ToUint16(n - 1 - r), ToUint16(n - 1 - v))
  }

  /** Around a reference in the lower half, nothing leaves [0, n) and the two maps invert. */
  lemma NonnegInverse(n: nat, r: nat, v: nat)
    requires n < UINT16_LIMIT && 2 * r <= n && v < n
    ensures RecenterNonneg(r, v) < n
    ensures InvRecenterNonneg(r, RecenterNonneg(r, v)) == v
  {
    hide ToUint16;
    Fits16(v);
    if v > 2 * r {} else if v >= r {
      Fits16(2 * (v - r));
      assert 2 * (v - r) % 2 == 0 && 2 * (v - r) / 2 + r == v;
    } else {
      Fits16(2 * (r - v) - 1);
      assert (2 * (r - v) - 1) % 2 == 1 && r - (2 * (r - v) - 1 + 1) / 2 == v;
    }
  }

  lemma Fits16(v: nat)
    requires v < UINT16_LIMIT
    ensures ToUint16(v) == v
  {}

  lemma NonnegInverseBack(n: nat, r: nat, v: nat)
    requires n < UINT16_LIMIT && 2 * r <= n && v < n && r < n
    ensures InvRecenterNonneg(r, v) < n
    ensures RecenterNonneg(r, InvRecenterNonneg(r, v)) == v
  {}

  /** Both directions of the bijection of [0, n) with itself. */
  lemma RecenterBijection(n: nat, r: nat, v: nat)
    requires n < UINT16_LIMIT && r < n && v < n
    ensures RecenterFiniteNonneg(n, r, v) < n
    ensures InvRecenterFiniteNonneg(n, r, RecenterFiniteNonneg(n, r, v)) == v
    ensures InvRecenterFiniteNonneg(n, r, v) < n
    ensures RecenterFiniteNonneg(n, r, InvRecenterFiniteNonneg(n, r, v)) == v
  {
    if 2 * r <= n {
      NonnegInverse(n, r, v);
      NonnegInverseBack(n, r, v);
    } else {
      UpperHalf(n, r, v);
    }
  }

  /** A reference in the upper half is the mirror image of one in the lower half. */
  lemma UpperHalf(n: nat, r: nat, v: nat)
    requires n < UINT16_LIMIT && r < n < 2 * r && v < n
    ensures RecenterFiniteNonneg(n, r, v) < n
    ensures InvRecenterFiniteNonneg(n, r, RecenterFiniteNonneg(n, r, v)) == v
    ensures InvRecenterFiniteNonneg(n, r, v) < n
    ensures RecenterFiniteNonneg(n, r, InvRecenterFiniteNonneg(n, r, v)) == v
  {
    hide RecenterNonneg, InvRecenterNonneg, RecenterFiniteNonneg, InvRecenterFiniteNonneg;
    var r' := n - 1 - r;
    var w := InvRecenterNonneg(r', v);
    NonnegInverse(n, r', n - 1 - v);
    NonnegInverseBack(n, r', v);
    Mirrored(n, r, v);
    Mirrored(n, r, RecenterFiniteNonneg(n, r, v));
    Mirrored(n, r, n - 1 - w);
  }

  lemma Mirrored(n: nat, r: nat, v: nat)
    requires n < UINT16_LIMIT && r < n < 2 * r && v < n
    ensures RecenterFiniteNonneg(n, r, v) == RecenterNonneg(n - 1 - r, n - 1 - v)
    ensures var w := InvRecenterNonneg(n - 1 - r, v); w < n ==> InvRecenterFiniteNonneg(n, r, v) == n - 1 - w
  {
    hide RecenterNonneg, InvRecenterNonneg;
  }

  function Distance(x: int, y: int): nat {
    if x < y then y - x else x - y
  }

  /** Nearer values get smaller numbers; the reference itself gets 0. */
  lemma RecenterOrdersByDistance(n: nat, r: nat, v: nat, w: nat)
    requires n < UINT16_LIMIT && r < n && v < n && w < n
    requires Distance(v, r) < Distance(w, r)
    ensures RecenterFiniteNonneg(n, r, v) < RecenterFiniteNonneg(n, r, w)
    ensures RecenterFiniteNonneg(n, r, r) == 0
  {}

  // ---- The order of all values ----

  /** How many of the values below n are nearer to r than d. */
  function CountNearer(r: nat, d: nat, n: nat): nat {
    if n == 0 then 0 else CountNearer(r, d, n - 1) + if Distance(n - 1, r) < d then 1 else 0
  }

  /** They lie around r, as far as [0, n) goes on either side. */
  lemma {:induction false} CountNearerIs(r: nat, d: nat, n: nat)
    ensures CountNearer(r, d, n) ==
      var first, end := if d <= r then r - d + 1 else 0, if n < r + d then n else r + d;
      if d > 0 && first < end then end - first else 0
  {
    if n > 0 {
      CountNearerIs(r, d, n - 1);
    }
  }

  /**
   The index of a value is the number of values nearer to the reference, and one more
   if the value as far on the other side of it comes first: the lower one for a
   reference in the lower half, the upper one otherwise.
   */
  lemma RecenterRank(n: nat, r: nat, v: nat)
    requires n < UINT16_LIMIT && r < n && v < n
    ensures var other := 2 * r - v;
      var second := 0 <= other < n && other != v && (if 2 * r <= n then other < v else v < other);
      RecenterFiniteNonneg(n, r, v) == CountNearer(r, Distance(v, r), n) + if second then 1 else 0
  {
    CountNearerIs(r, Distance(v, r), n);
  }
}
