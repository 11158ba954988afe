/** The types of the C code that several modules share. */
module Machine {
  const TWO_TO_THE_32: nat := 0x1_0000_0000
  const TWO_TO_THE_64: nat := 0x1_0000_0000_0000_0000

  type uint32 = n: nat | n < 0x1_0000_0000
  type uint64 = n: nat | n < 0x1_0000_0000_0000_0000

  const NUL: char := '\0'

  /** A string that a C function can be given: it has no NUL inside. */
  type cstring = s: string | NUL !in s witness ""

  function Min(a: nat, b: nat): nat {
    if a < b then a else b
  }

  /** What a C function reads that is given a buffer: everything before the first NUL. */
  function CString(buffer: seq<char>): string {
    if |buffer| == 0 || buffer[0] == NUL then "" else [buffer[0]] + CString(buffer[1..])
  }

  lemma {:induction false} CStringEnds(buffer: seq<char>, n: nat)
    requires n < |buffer| && buffer[n] == NUL && NUL !in buffer[..n]
    ensures CString(buffer) == buffer[..n]
  {
    if n > 0 {
      assert buffer[0] == buffer[..n][0];
      assert buffer[1..][..n - 1] == buffer[..n][1..];
      CStringEnds(buffer[1..], n - 1);
      assert buffer[..n] == [buffer[0]] + buffer[1..][..n - 1];
    }
  }
}
