/**
  Types that several parts share: machine words as ranges of numbers, optional values, and the results of
  the calls that report one.
 */
module Common {

  datatype Option<+T> = None | Some(value: T)

  type byte = x: int | 0 <= x < 256

  type uint32 = x: nat | x < 0x1_0000_0000

  type uint64 = x: nat | x < 0x1_0000_0000_0000_0000

  datatype HResult = Ok | Fail | Pointer | InvalidArg | UnsupportedFormat | InvalidMediaType | Unexpected

  function Min(a: nat, b: nat): nat {
    if a < b then a else b
  }

  /** Cutting a sequence, told from its first element on. */
  lemma CutBehindFirst<T>(s: seq<T>, n: nat)
    requires 0 < n <= |s|
    ensures s[..n] == [s[0]] + s[1..][..n - 1] && s[n..] == s[1..][n - 1..]
  {
  }

  lemma ConcatAssoc<T>(a: seq<T>, b: seq<T>, c: seq<T>)
    ensures a + b + c == a + (b + c)
  {
  }
}
