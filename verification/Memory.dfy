/** What the other modules share: values that may be missing, writes into a buffer, and C strings. */
module Memory {

  datatype Option<T> = None | Some(value: T)

  function Min(a: nat, b: nat): nat { if a < b then a else b }

  function Max(a: nat, b: nat): nat { if a < b then b else a }

  /** `d` copied over `b` at `i`. */
  function Put<T>(b: seq<T>, i: nat, d: seq<T>): (r: seq<T>)
    requires i + |d| <= |b|
    ensures |r| == |b|
  {
    b[..i] + d + b[i + |d|..]
  }

  function Copies<T>(x: T, n: nat): seq<T> { seq(n, _ => x) }

  /** `part` stands in `s` at `i`. */
  predicate StandsAt<T(==)>(s: seq<T>, i: nat, part: seq<T>) {
    i + |part| <= |s| && forall k :: 0 <= k < |part| ==> s[i + k] == part[k]
  }

  /** A C string has no NUL before the one that ends it. */
  ghost predicate NulFree(s: string) {
    forall i :: 0 <= i < |s| ==> s[i] != '\0'
  }

  /** `*(s + i)`; past the end the terminating NUL is read. */
  function At(s: string, i: nat): char { if i < |s| then s[i] else '\0' }

  predicate IsDigit(c: char) { '0' <= c <= '9' }
}
