/**
 * Equality of byte strings as `constant_time_eq` computes it through the
 * `subtle` crate: a length check, then, starting from 1, the AND of one
 * 0-or-1 choice per byte pair, so that the whole input is read whatever the
 * position of the first difference. Only the result is modelled, not the
 * timing.
 */
module Crypto {
  import opened Bytes

  /** `u8::ct_eq` of `subtle`, by its result: the choice 1 for equal bytes, 0 otherwise. */
  function ByteChoice(x: byte, y: byte): (c: nat)
    ensures c <= 1
  {
    if x == y then 1 else 0
  }

  /** The slice `ct_eq` of `subtle` on equal lengths: the AND of the per-byte choices, from 1. */
  function EqualityChoice(a: seq<byte>, b: seq<byte>): (c: nat)
    requires |a| == |b|
    ensures c <= 1
  {
    if a == [] then 1
    else
      var rest := EqualityChoice(a[1..], b[1..]);
      if ByteChoice(a[0], b[0]) == 1 && rest == 1 then 1 else 0
  }

  /** The accumulated choice is 1 exactly when the two strings are equal. */
  lemma {:induction false} EqualityChoiceIffEqual(a: seq<byte>, b: seq<byte>)
    requires |a| == |b|
    ensures EqualityChoice(a, b) == 1 <==> a == b
  {
    if a != [] {
      EqualityChoiceIffEqual(a[1..], b[1..]);
      assert a == [a[0]] + a[1..] && b == [b[0]] + b[1..];
    }
  }

  /** `constant_time_eq`: false on different lengths, otherwise true iff every byte matches. */
  function ConstantTimeEq(a: seq<byte>, b: seq<byte>): (r: bool)
    ensures |a| != |b| ==> !r
    ensures r <==> a == b
  {
    if |a| != |b| then false
    else
      EqualityChoiceIffEqual(a, b);
      EqualityChoice(a, b) == 1
  }

  /** `constant_time_eq_array`: the two arrays have the same length `N` by their type. */
  function ConstantTimeEqArray(a: seq<byte>, b: seq<byte>): (r: bool)
    requires |a| == |b|
    ensures r <==> a == b
  {
    EqualityChoiceIffEqual(a, b);
    EqualityChoice(a, b) == 1
  }
}
