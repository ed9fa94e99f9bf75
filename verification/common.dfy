/** Small vocabulary shared by the game models: optional values, the two
    seats of the two-player games, and absolute value. */
module Common {

  /** A value that may be absent (the source's `null`). */
  datatype Option<+T> = None | Some(value: T)

  /** The two players of Checkers, Uno and Ludo (the source's `1 | 2`). */
  datatype Player = One | Two {

    /** The player whose turn comes next (`p === 1 ? 2 : 1`). */
    function Other(): (o: Player)
      ensures o != this
    {
      if this == One then Two else One
    }
  }

  /** `Math.abs` on integers. */
  function Abs(x: int): (a: nat)
    ensures a == x || a == -x
  {
    if x < 0 then -x else x
  }

  function Min(a: int, b: int): (m: int)
    ensures m <= a && m <= b
    ensures m == a || m == b
  {
    if a <= b then a else b
  }
}
