/**
 * The Remaining Length field of an MQTT packet (MQTT 3.1.1 section 2.2.3) as
 * kii_mqtt.c writes and reads it: seven bits a byte, the eighth to go on.
 */
module MqttCodec {
  import opened Memory

  type byte = b: int | 0 <= b < 256

  // ------------------------------------------------------------ specification

  function Encoded(n: nat): (s: seq<byte>)
    ensures s != []
  {
    if n < 128 then [n] else [128 + n % 128] + Encoded(n / 128)
  }

  /** The number the low seven bits of the bytes make. */
  function ValueOf(s: seq<byte>): nat {
    if s == [] then 0 else s[0] % 128 + 128 * ValueOf(s[1..])
  }

  /** All bytes but the last have the top bit. */
  predicate IsField(s: seq<byte>) {
    s != [] && s[|s| - 1] < 128 && forall i :: 0 <= i < |s| - 1 ==> s[i] >= 128
  }

  /** The length of the field at the start of `s`, of at most four bytes; -1 if the fourth one still goes on. */
  function FieldLength(s: seq<byte>, i: nat): (r: int)
    requires i <= |s| && i <= 4 && Ends(s, i)
    decreases 4 - i
  {
    if i == 4 then -1 else if s[i] < 128 then i + 1 else FieldLength(s, i + 1)
  }

  /** Reading from `i` on meets a last byte, or has four bytes, before `s` is over. */
  predicate Ends(s: seq<byte>, i: nat) {
    |s| >= 4 || exists k :: i <= k < |s| && s[k] < 128
  }

  function Pow128(k: nat): nat { if k == 0 then 1 else 128 * Pow128(k - 1) }

  /** What decoding gives: the bytes read and the value, or failure. */
  datatype Decoded = Failed | Field(length: nat, value: nat)

  function Decode(s: seq<byte>): Decoded
    requires Ends(s, 0)
  {
    var n := FieldLength(s, 0);
    if n == -1 then Failed else (FieldLengthIsField(s, 0); Field(n, ValueOf(s[..n])))
  }

  lemma {:induction false} FieldLengthIsField(s: seq<byte>, i: nat)
    requires i <= |s| && i <= 4 && Ends(s, i)
    ensures FieldLength(s, i) != -1 ==> i < FieldLength(s, i) <= |s| && FieldLength(s, i) <= 4
    ensures FieldLength(s, i) != -1 ==> s[FieldLength(s, i) - 1] < 128
    ensures FieldLength(s, i) != -1 ==> forall k :: i <= k < FieldLength(s, i) - 1 ==> s[k] >= 128
    ensures FieldLength(s, i) == -1 ==> |s| >= 4 && forall k :: i <= k < 4 ==> s[k] >= 128
    decreases 4 - i
  {
    if i < 4 && s[i] >= 128 { FieldLengthIsField(s, i + 1); }
  }

  // ------------------------------------------------------------ properties

  lemma FieldCons(b: byte, t: seq<byte>)
    requires b >= 128 && IsField(t)
    ensures IsField([b] + t) && ValueOf([b] + t) == b % 128 + 128 * ValueOf(t)
  {
    assert ([b] + t)[1..] == t;
  }

  lemma {:induction false} EncodedIsField(n: nat)
    ensures IsField(Encoded(n)) && ValueOf(Encoded(n)) == n
  {
    if n < 128 {
      assert ValueOf([n][1..]) == 0;
    } else {
      EncodedIsField(n / 128);
      FieldCons(128 + n % 128, Encoded(n / 128));
      assert (128 + n % 128) % 128 == n % 128;
    }
  }

  /** `k` bytes are enough exactly for the numbers below 128 to the `k`. */
  lemma {:induction false} EncodedLength(n: nat, k: nat)
    requires k > 0
    ensures |Encoded(n)| <= k <==> n < Pow128(k)
    decreases k
  {
    if n < 128 {
      PowAtLeast(k);
    } else if k == 1 {
      assert Pow128(1) == 128 * Pow128(0);
    } else {
      EncodedLength(n / 128, k - 1);
    }
  }

  lemma {:induction false} PowAtLeast(k: nat)
    requires k > 0
    ensures Pow128(k) >= 128
  {
    if k == 1 { assert Pow128(1) == 128 * Pow128(0); } else { PowAtLeast(k - 1); }
  }

  lemma {:induction false} ReadsField(s: seq<byte>, tail: seq<byte>, i: nat)
    requires IsField(s) && |s| <= 4 && i < |s|
    ensures Ends(s + tail, i) && FieldLength(s + tail, i) == |s|
    decreases |s| - i
  {
    assert (s + tail)[|s| - 1] < 128;
    assert (s + tail)[i] == s[i];
    if i < |s| - 1 { ReadsField(s, tail, i + 1); }
  }

  /** Every number of the protocol is read back, whatever follows it. */
  lemma RoundTrip(n: nat, tail: seq<byte>)
    requires n < Pow128(4)
    ensures Ends(Encoded(n) + tail, 0) && Decode(Encoded(n) + tail) == Field(|Encoded(n)|, n)
  {
    EncodedIsField(n);
    EncodedLength(n, 4);
    ReadsField(Encoded(n), tail, 0);
    assert (Encoded(n) + tail)[..|Encoded(n)|] == Encoded(n);
  }

  /** Decoding fails exactly when none of the first four bytes is a last one. */
  lemma FailsExactly(s: seq<byte>)
    requires Ends(s, 0)
    ensures Decode(s) == Failed <==> |s| >= 4 && forall k :: 0 <= k < 4 ==> s[k] >= 128
  {
    FieldLengthIsField(s, 0);
  }

  /** No field of the same value is shorter, and none of the same length is different. */
  lemma {:induction false} Shortest(s: seq<byte>, n: nat)
    requires IsField(s) && ValueOf(s) == n
    ensures |Encoded(n)| <= |s| && (|Encoded(n)| == |s| ==> s == Encoded(n))
    decreases |s|
  {
    if |s| == 1 {
      assert ValueOf(s[1..]) == 0;
    } else {
      var t := s[1..];
      assert IsField(t) by {
        assert t[|t| - 1] == s[|s| - 1];
        forall i | 0 <= i < |t| - 1 ensures t[i] >= 128 { assert t[i] == s[i + 1]; }
      }
      Shortest(t, ValueOf(t));
      if n < 128 {
        assert ValueOf(t) == 0;
      } else {
        assert n / 128 == ValueOf(t) && n % 128 == s[0] % 128;
        assert s == [s[0]] + t;
      }
    }
  }

  // ------------------------------------------------------------ as it is done

  /** kiiMQTT_encode, writing from `at` on. */
  method Encode(buf: array<byte>, at: nat, length: nat) returns (rc: nat)
    requires at + |Encoded(length)| <= buf.Length
    modifies buf
    ensures rc == |Encoded(length)| && buf[..] == Put(old(buf[..]), at, Encoded(length))
  {
    rc := 0;
    var n := length;
    ghost var all, b0 := Encoded(length), buf[..];
    while true
      invariant rc <= |all| && all[rc..] == Encoded(n)
      invariant buf[..] == Put(b0, at, all[..rc])
      decreases n
    {
      assert all[rc..][1..] == all[rc + 1..];
      var d := n % 128;
      n := n / 128;
      if n > 0 {
        d := d + 128;
      }
      assert all[rc] == d;
      PutMore(b0, at, all[..rc], d);
      assert all[..rc + 1] == all[..rc] + [d];
      ghost var b1 := buf[..];
      buf[at + rc] := d;
      assert buf[..] == b1[at + rc := d];
      rc := rc + 1;
      if !(n > 0) { break; }
    }
    assert all[..rc] == all;
  }

  lemma PutMore(b: seq<byte>, at: nat, s: seq<byte>, d: byte)
    requires at + |s| < |b|
    ensures Put(b, at, s)[at + |s| := d] == Put(b, at, s + [d])
  {
  }

  /** kiiMQTT_decode, reading from `at` on: `len` is -1 on failure, and `value` what was added up. */
  method DecodeAt(buf: array<byte>, at: nat) returns (len: int, value: nat)
    requires at <= buf.Length && Ends(buf[at..], 0)
    ensures len == FieldLength(buf[at..], 0)
    ensures len != -1 ==> Decode(buf[at..]) == Field(len, value)
  {
    ghost var s := buf[at..];
    var i := 0;
    var multiplier: nat := 1;
    len := 0;
    value := 0;
    while true
      invariant 0 <= i == len <= 4 && i <= |s| && Ends(s, i) && multiplier == Pow128(i)
      invariant FieldLength(s, 0) == FieldLength(s, i)
      invariant value == ValueOf(s[..i])
      decreases 4 - i
    {
      len := len + 1;
      if len > 4 {
        return -1, value;
      }
      FieldLengthIsField(s, i);
      ValueOfMore(s[..i], s[i]);
      assert s[..i + 1] == s[..i] + [s[i]];
      var b: nat := buf[at + i];
      value := value + (b % 128) * multiplier;
      multiplier := multiplier * 128;
      i := i + 1;
      if b < 128 { break; }
    }
  }

  lemma {:induction false} ValueOfMore(s: seq<byte>, b: byte)
    ensures ValueOf(s + [b]) == ValueOf(s) + (b % 128) * Pow128(|s|)
    decreases |s|
  {
    if s == [] {
      assert (s + [b])[1..] == [];
    } else {
      assert (s + [b])[1..] == s[1..] + [b];
      ValueOfMore(s[1..], b);
      Distribute(b % 128, Pow128(|s| - 1));
    }
  }

  lemma Distribute(a: nat, p: nat)
    ensures 128 * (a * p) == a * (128 * p)
  {
  }
}
