/** The byte type shared by every module, and a plain Option. */
module Bytes {
  newtype byte = b: int | 0 <= b < 256

  datatype Option<+T> = None | Some(value: T)

  /** No byte of `s` is the frame delimiter 0x00. */
  predicate ZeroFree(s: seq<byte>) {
    forall i :: 0 <= i < |s| ==> s[i] != 0
  }

  function Min(a: nat, b: nat): (m: nat)
    ensures m <= a && m <= b && (m == a || m == b)
  {
    if a <= b then a else b
  }

  function Ascii(s: string): (b: seq<byte>)
    requires forall i :: 0 <= i < |s| ==> s[i] < 128 as char
    ensures |b| == |s| && forall i :: 0 <= i < |s| ==> b[i] as int == s[i] as int
  {
    seq(|s|, i requires 0 <= i < |s| => s[i] as byte)
  }

  /** Index of the first element with that key, or the length. */
  function FirstWith<T>(s: seq<T>, keyOf: T -> seq<byte>, key: seq<byte>): (i: nat)
    ensures i <= |s|
    ensures i < |s| ==> keyOf(s[i]) == key
    ensures forall k :: 0 <= k < i ==> keyOf(s[k]) != key
  {
    if s == [] || keyOf(s[0]) == key then 0 else 1 + FirstWith(s[1..], keyOf, key)
  }

  /** The uint32_t error counters wrap. */
  function Bump(n: nat): (r: nat)
    ensures r < 0x1_0000_0000
    ensures n < 0xffff_ffff ==> r == n + 1
    ensures n == 0xffff_ffff ==> r == 0
  {
    (n + 1) % 0x1_0000_0000
  }

  /** Elements already there, in front of an outcome for the rest. */
  function InFront<T>(done: seq<T>, rest: Option<seq<T>>): Option<seq<T>> {
    if rest.None? then None else Some(done + rest.value)
  }

  lemma NothingInFront<T>(rest: Option<seq<T>>)
    ensures InFront([], rest) == rest
  {
    if rest.Some? {
      assert [] + rest.value == rest.value;
    }
  }

  lemma SliceOfDrop<T>(s: seq<T>, from: nat, lo: nat, hi: nat)
    requires lo <= hi && from + hi <= |s|
    ensures s[from..][lo..hi] == s[from + lo..from + hi]
    ensures s[from..][hi..] == s[from + hi..]
  {}
}
