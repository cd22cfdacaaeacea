/** The level-1 BLAS kernels of linpack-pc.c with unit stride.

    C passes a pointer into the middle of an array; here that is the array
    together with an offset.
 */
module Blas {
  import opened Vectors

  /** The index of the first entry of largest absolute value. */
  method Idamax(n: int, dx: array<real>, xo: nat) returns (itemp: int)
    requires n >= 0 ==> xo + n <= dx.Length
    ensures n < 1 ==> itemp == -1
    ensures n >= 1 ==> 0 <= itemp < n
    ensures n >= 1 ==> forall p :: xo <= p < xo + n ==> Abs(dx[p]) <= Abs(dx[xo + itemp])
    ensures n >= 1 ==> forall p :: xo <= p < xo + itemp ==> Abs(dx[p]) < Abs(dx[xo + itemp])
  {
    if n < 1 {
      return -1;
    }
    if n == 1 {
      return 0;
    }
    itemp := 0;
    var dmax := Abs(dx[xo]);
    for i := 1 to n
      invariant 0 <= itemp < i
      invariant dmax == Abs(dx[xo + itemp])
      invariant forall p :: xo <= p < xo + i ==> Abs(dx[p]) <= dmax
      invariant forall p :: xo <= p < xo + itemp ==> Abs(dx[p]) < dmax
    {
      if Abs(dx[xo + i]) > dmax {
        itemp := i;
        dmax := Abs(dx[xo + i]);
      }
    }
  }

  /** Scales dx[xo..xo+n] by da in place. */
  method Dscal(n: int, da: real, dx: array<real>, xo: nat)
    requires n >= 0 ==> xo + n <= dx.Length
    modifies dx
    ensures forall p :: 0 <= p < dx.Length ==>
                          dx[p] == if xo <= p < xo + n then da * old(dx[p]) else old(dx[p])
  {
    if n <= 0 {
      return;
    }
    for i := 0 to n
      invariant forall p :: 0 <= p < dx.Length ==>
                              dx[p] == if xo <= p < xo + i then da * old(dx[p]) else old(dx[p])
    {
      dx[xo + i] := da * dx[xo + i];
    }
  }

  /** Adds da * dx[xo..xo+n] to dy[yo..yo+n] in place. The two ranges may lie in
      the same array as long as they do not overlap. */
  method Daxpy(n: int, da: real, dx: array<real>, xo: nat, dy: array<real>, yo: nat)
    requires n >= 0 ==> xo + n <= dx.Length && yo + n <= dy.Length
    requires dx != dy || xo + n <= yo || yo + n <= xo
    modifies dy
    ensures forall p :: 0 <= p < dy.Length && !(yo <= p < yo + n) ==> dy[p] == old(dy[p])
    ensures forall p :: yo <= p < yo + n ==> dy[p] == old(dy[p]) + da * old(dx[p - yo + xo])
  {
    if n <= 0 {
      return;
    }
    if da == 0.0 {
      return;
    }
    for i := 0 to n
      invariant forall p :: 0 <= p < dy.Length && !(yo <= p < yo + i) ==> dy[p] == old(dy[p])
      invariant forall p :: yo <= p < yo + i ==> dy[p] == old(dy[p]) + da * old(dx[p - yo + xo])
    {
      assert dx[xo + i] == old(dx[xo + i]);
      dy[yo + i] := dy[yo + i] + da * dx[xo + i];
    }
  }
}
