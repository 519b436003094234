/** Small shared vocabulary. */
module Base {
  datatype Option<+T> = None | Some(value: T)

  /** Machine words are 32 bits wide. */
  const WORD: nat := 0x1_0000_0000

  ghost predicate Distinct<T>(s: seq<T>) {
    forall i, j | 0 <= i < j < |s| :: s[i] != s[j]
  }

  /** Neighbours of place `i` on a ring of `n` places. */
  function Next(i: nat, n: nat): (j: nat) requires i < n ensures j < n { if i + 1 == n then 0 else i + 1 }

  function Prev(i: nat, n: nat): (j: nat) requires i < n ensures j < n { if i == 0 then n - 1 else i - 1 }

  function Reversed<T>(s: seq<T>): (r: seq<T>)
    ensures |r| == |s|
    ensures forall i {:trigger r[i]} | 0 <= i < |r| :: r[i] == s[|s| - 1 - i]
  {
    if s == [] then [] else Reversed(s[1..]) + [s[0]]
  }
}
