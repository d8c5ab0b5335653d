/**
  Shared vocabulary of the codec stack: bytes, optional results, and the result of a parser that
  consumes a prefix of a byte string.
 */
module Bytes {
  /** An `unsigned char`; a `char` is modelled by its bit pattern. */
  type byte = b: int | 0 <= b < 256

  type bytes = seq<byte>

  /** Result of an operation on a buffer that runs out of written bytes. */
  datatype Option<+T> = None | Some(value: T) {
    predicate IsFailure() { None? }

    function PropagateFailure<U>(): Option<U>
      requires None?
    {
      None
    }

    function Extract(): T
      requires Some?
    {
      value
    }
  }

  /** Result of parsing a byte string: the value read and what is left unread. */
  datatype Parsed<+T> = Fail | Got(value: T, rest: bytes) {
    predicate IsFailure() { Fail? }

    function PropagateFailure<U>(): Parsed<U>
      requires Fail?
    {
      Fail
    }

    function Extract(): (T, bytes)
      requires Got?
    {
      (value, rest)
    }
  }

  function Zeros(n: nat): (z: bytes)
    ensures |z| == n && forall i :: 0 <= i < n ==> z[i] == 0
  {
    seq(n, _ => 0)
  }

  lemma Associative<T>(a: seq<T>, b: seq<T>, c: seq<T>)
    ensures a + (b + c) == (a + b) + c
  {
  }

  /** Byte strings one after the other. */
  function Joined(parts: seq<bytes>): bytes {
    if parts == [] then [] else Joined(parts[..|parts| - 1]) + parts[|parts| - 1]
  }

  /** The first `n` bytes, or all of them when there are fewer; and what comes after. */
  function Front(n: nat, bs: bytes): bytes {
    if n <= |bs| then bs[..n] else bs
  }

  function Back(n: nat, bs: bytes): bytes {
    if n <= |bs| then bs[n..] else []
  }

  lemma FrontOfMore(a: bytes, b: bytes, n: nat)
    requires n <= |a|
    ensures Front(n, a + b) == a[..n]
  {
  }

  /** Reading `chunk` and then on. */
  lemma FrontBack(all: bytes, result: bytes, left: bytes, n: nat)
    requires all == result + left && (|result| == n || (|result| <= n && left == []))
    ensures result == Front(n, all) && left == Back(n, all)
  {
  }

  /** Parser that takes the first `n` bytes. */
  function TakeBytes(n: nat, bs: bytes): Parsed<bytes> {
    if n <= |bs| then Got(bs[..n], bs[n..]) else Fail
  }

  /** Parser that takes one byte. */
  function TakeByte(bs: bytes): Parsed<byte> {
    if bs == [] then Fail else Got(bs[0], bs[1..])
  }

  lemma TakeBytesOfAppend(a: bytes, rest: bytes)
    ensures TakeBytes(|a|, a + rest) == Got(a, rest)
  {
    assert (a + rest)[..|a|] == a;
    assert (a + rest)[|a|..] == rest;
  }

  lemma FrontOfAppend(a: bytes, rest: bytes)
    ensures Front(|a|, a + rest) == a && Back(|a|, a + rest) == rest
  {
  }

  /** What a buffer read must deliver when the specification parser yields `p`. */
  ghost predicate Delivers<T>(p: Parsed<T>, r: Option<T>, unread: bytes) {
    match p
    case Fail => r.None?
    case Got(v, rest) => r == Some(v) && unread == rest
  }
}
