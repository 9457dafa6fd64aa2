/** Result and option types, and the exact-real counterparts of the float helpers shared by the models. */
module Common {

  datatype Option<+T> = None | Some(value: T)

  datatype Result<+T, +E> = Ok(value: T) | Err(error: E)

  /** A stored byte: one channel of a pixel, or one byte of a file. */
  newtype byte = b: int | 0 <= b < 256

  /** `f32::clamp(0.0, 1.0)` on exact reals. */
  function ClampUnit(x: real): (r: real)
    ensures 0.0 <= r <= 1.0
    ensures 0.0 <= x <= 1.0 ==> r == x
  {
    if x < 0.0 then 0.0 else if x > 1.0 then 1.0 else x
  }

  function Min(x: real, y: real): real { if x <= y then x else y }

  function Max(x: real, y: real): real { if x <= y then y else x }

  function Abs(x: real): real { if x < 0.0 then -x else x }

  lemma NonNegative(x: real, y: real)
    requires x >= 0.0 && y >= 0.0
    ensures x * y >= 0.0
  {
  }

  /** `f32::round` on a non-negative real: halves go up. */
  function Round(x: real): (n: nat)
    requires 0.0 <= x
    ensures n as real - 0.5 <= x < n as real + 0.5
  {
    (x + 0.5).Floor
  }

  /** `f32::rem_euclid` for a positive modulus. */
  function RemEuclid(x: real, m: real): (r: real)
    requires m > 0.0
    ensures 0.0 <= r < m
  {
    var q := (x / m).Floor;
    RemEuclidInRange(x, m, q);
    x - q as real * m
  }

  lemma RemEuclidInRange(x: real, m: real, q: int)
    requires m > 0.0
    requires q as real <= x / m < q as real + 1.0
    ensures 0.0 <= x - q as real * m < m
  {
    var part := x / m - q as real;
    assert x - q as real * m == part * m;
    assert part * m < 1.0 * m;
  }

  /** The remainder is the one value congruent to `x` in the range. */
  lemma RemEuclidIs(x: real, m: real, k: int)
    requires m > 0.0
    requires 0.0 <= x - k as real * m < m
    ensures RemEuclid(x, m) == x - k as real * m
  {
    var part := x / m - k as real;
    assert x - k as real * m == part * m;
    assert 0.0 <= part < 1.0;
    assert (x / m).Floor == k;
  }

  /** The number of backslashes that end just before `i`, counted back to `start` at most. */
  function BackslashRun(s: string, start: nat, i: nat): (n: nat)
    requires start <= i <= |s|
  {
    if i == start || s[i - 1] != '\\' then 0 else 1 + BackslashRun(s, start, i - 1)
  }

  /** It is the longest such run. */
  lemma {:induction false} BackslashRunIsLongest(s: string, start: nat, i: nat)
    requires start <= i <= |s|
    ensures
      var n := BackslashRun(s, start, i);
      && n <= i - start && (forall k :: i - n <= k < i ==> s[k] == '\\')
      && (n < i - start ==> s[i - n - 1] != '\\')
  {
    if i > start && s[i - 1] == '\\' { BackslashRunIsLongest(s, start, i - 1); }
  }

  /** Exactly `n` backslashes end just before `i`, not counting any before `start`. */
  predicate EndsRun(s: string, start: nat, i: nat, n: nat) {
    && start + n <= i <= |s| && (forall k :: i - n <= k < i ==> s[k] == '\\')
    && (start + n < i ==> s[i - n - 1] != '\\')
  }

  lemma RunIsOnly(s: string, start: nat, i: nat, n: nat)
    requires start <= i <= |s|
    ensures EndsRun(s, start, i, n) <==> n == BackslashRun(s, start, i)
  {
    BackslashRunIsLongest(s, start, i);
  }
}
