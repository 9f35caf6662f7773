/** What all models share. */
module Common {

  datatype Option<+T> = None | Some(value: T)

  const U32: nat := 0x1_0000_0000
  const U64: nat := 0x1_0000_0000_0000_0000

  function Min(x: nat, y: nat): (r: nat) {
    if x < y then x else y
  }

  function Max(x: nat, y: nat): (r: nat) {
    if x < y then y else x
  }

  /** A condition as a count. */
  function One(b: bool): (n: nat) {
    if b then 1 else 0
  }

  /** A whole number as a size_t holds it on LP64. */
  function SizeT(n: int): (r: nat)
    ensures r < U64 && (0 <= n < U64 ==> r == n)
  {
    n % U64
  }
}
