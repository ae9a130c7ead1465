/**
 * Register names of the stack machine (Processor/registers.cpp): the four
 * general registers ax, bx, cx and dx are numbered 0 to 3.
 */
module Registers {
  import opened Common

  const RegisterCount: nat := 4

  /** `get_reg_name`: the name of register n, or NULL (None) for any other number */
  function RegName(n: int): (r: Option<string>)
    ensures r.Some? <==> 0 <= n < RegisterCount
    ensures r.Some? ==> |r.value| == 2 && r.value[1] == 'x' && r.value[0] as int == 'a' as int + n
  {
    if n == 0 then Some("ax")
    else if n == 1 then Some("bx")
    else if n == 2 then Some("cx")
    else if n == 3 then Some("dx")
    else None
  }

  /** Different registers have different names. */
  lemma RegNameInjective(m: int, n: int)
    requires RegName(m).Some? && RegName(n).Some?
    requires RegName(m) == RegName(n)
    ensures m == n
  {
    assert RegName(m).value[0] == RegName(n).value[0];
  }
}
