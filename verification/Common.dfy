/** What several modules share. */
module Common {

  /** INT_MAX of a 32-bit int. */
  const INT_MAX: int := 0x7fff_ffff

  datatype Option<+T> = None | Some(value: T)

  function Pow(base: nat, n: nat): (p: nat)
    requires base >= 1
    ensures p >= 1
  {
    if n == 0 then 1 else base * Pow(base, n - 1)
  }
}
