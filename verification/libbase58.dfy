/** The calling convention shared by `b58tobin` and `b58enc`
    (declared in libbase58.h): a boolean result, a caller-owned output buffer
    and an in/out size.
 */
module LibBase58 {
  import opened Positional

  /** What a call leaves behind: its return value, the contents of the
      caller's output buffer and the value of the in/out size. */
  datatype Reply = Reply(ok: bool, buffer: seq<byte>, size: nat)

  /** `strlen`: the number of characters before the first terminator, or the
      whole buffer when it holds none. */
  function StrLen(s: seq<byte>): (n: nat)
    ensures n <= |s|
    ensures forall i :: 0 <= i < n ==> s[i] != 0
    ensures n < |s| ==> s[n] == 0
  {
    if |s| == 0 || s[0] == 0 then 0 else 1 + StrLen(s[1..])
  }
}
