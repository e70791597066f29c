/** Vocabulary shared by the other modules: optional values, fixed-width integers and byte sequences. */
module Common {

  datatype Option<+T> = None | Some(value: T)

  type byte = b: int | 0 <= b < 0x100
  type u16 = n: int | 0 <= n < 0x1_0000
  type u32 = n: int | 0 <= n < 0x1_0000_0000

  const U32_MAX: int := 0xFFFF_FFFF
  const SIZE_MAX: int := 0xFFFF_FFFF_FFFF_FFFF

  /** What `memset(p, 0, n)` leaves behind. */
  function Zeros(n: nat): (z: seq<byte>)
    ensures |z| == n && forall i :: 0 <= i < n ==> z[i] == 0
  {
    seq(n, i => 0)
  }

  /** A C string copied into a buffer of `size` bytes with its terminator kept, as lcpy and strncpy do here. */
  function Clip(s: string, size: nat): (r: string)
    requires size > 0
    ensures |r| < size && r <= s
    ensures if |s| < size then r == s else |r| == size - 1
  {
    if |s| < size then s else s[..size - 1]
  }

  const NUL: char := '\0'

  type cstring = s: string | NUL !in s

  /** The characters before the first NUL. */
  function Text(row: seq<char>): (r: string) {
    if row == [] || row[0] == NUL then "" else [row[0]] + Text(row[1..])
  }

  lemma {:induction false} TextOfTerminated(row: seq<char>, s: cstring)
    requires |s| < |row| && row[..|s|] == s && row[|s|] == NUL
    ensures Text(row) == s
  {
    if s != "" {
      assert row[0] == s[0] && s[0] in s;
      assert row[1..][..|s| - 1] == row[..|s|][1..];
      assert s == [s[0]] + s[1..];
      TextOfTerminated(row[1..], s[1..]);
    }
  }

  /** The least value at or above `min` reached from `v` by doubling. */
  function LeastDoubling(v: nat, min: nat): (r: nat)
    requires v > 0
    ensures r >= min && r >= v && (r == v || r < 2 * min)
    decreases if v < min then min - v else 0
  {
    if v >= min then v else LeastDoubling(2 * v, min)
  }

  /** Growing in two steps ends where growing at once does. */
  lemma {:induction false} DoublingInSteps(v: nat, min: nat, more: nat)
    requires v > 0 && min <= more
    ensures LeastDoubling(LeastDoubling(v, min), more) == LeastDoubling(v, more)
    decreases if v < min then min - v else 0
  {
    if v < min {
      DoublingInSteps(2 * v, min, more);
    }
  }
}
