/** Boundary reflection of neighbour coordinates, as both kernels of main.py inline it. */
module Reflection {

  /** Maps a neighbour coordinate `c` on an axis of extent `n` back into the axis by
      mirroring it once across the nearest edge. The edge sample itself is repeated:
      -1 maps to 0 and n maps to n - 1. */
  function Reflect(c: int, n: int): (r: int)
    ensures 0 <= c < n ==> r == c
    ensures -n <= c < 2 * n ==> 0 <= r < n
  {
    if c < 0 then -c - 1
    else if c >= n then 2 * n - c - 1
    else c
  }

  /** Mirror images across both edges, the edge sample included. */
  lemma ReflectMirrorsEdge(n: int, d: int)
    requires 0 <= d < n
    ensures Reflect(-1 - d, n) == d
    ensures Reflect(n + d, n) == n - 1 - d
    ensures Reflect(-1, n) == Reflect(0, n) == 0
    ensures Reflect(n, n) == Reflect(n - 1, n) == n - 1
  {
  }

  /** A window whose radius exceeds the extent escapes the axis after one reflection
      (the centre 0 with offset -radius), so radius <= n is exactly what the kernels need. */
  lemma RadiusBeyondExtentEscapes(n: int, radius: int)
    requires 0 < n < radius
    ensures Reflect(0 - radius, n) >= n
  {
  }
}
