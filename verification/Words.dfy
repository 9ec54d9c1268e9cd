/** Fixed-width unsigned integers of the C sources, as ranges of `int`. */
module Words {
  type byte = x: int | 0 <= x < 0x100
  type u16 = x: int | 0 <= x < 0x1_0000
  type u32 = x: int | 0 <= x < 0x1_0000_0000

  /** The value an `unsigned int` keeps of `x`. */
  function Wrap32(x: int): u32 {
    x % 0x1_0000_0000
  }

  /** Unsigned addition, which wraps at most once. */
  function Add32(x: u32, y: u32): u32 {
    if x + y < 0x1_0000_0000 then x + y else x + y - 0x1_0000_0000
  }

  /** Unsigned subtraction: the distance from `y` up to `x`. */
  function Sub32(x: u32, y: u32): u32 {
    if x >= y then x - y else x - y + 0x1_0000_0000
  }

  lemma SumsWrap(x: u32, y: u32)
    ensures Add32(x, y) == Wrap32(x + y) && Sub32(x, y) == Wrap32(x - y)
  {
  }

  lemma WrapSum(x: int, d: int)
    ensures Wrap32(Wrap32(x) + d) == Wrap32(x + d)
  {
  }

  lemma InRange(x: u32)
    ensures Wrap32(x) == x
  {
  }
}
