/** Base-128 varints as the RPC layer writes them in front of every message. */
module Varint {
  import opened Streams

  /** Seven bits per byte, least significant group first; the high bit says that more follow. */
  function Encode(n: nat): (r: Bytes)
    ensures r != []
  {
    if n < 128 then [n] else [n % 128 + 128] + Encode(n / 128)
  }

  /** The encoder's loop. */
  method EncodeLoop(n: nat) returns (out: Bytes)
    ensures out == Encode(n)
  {
    out := [];
    var m := n;
    while true
      invariant out + Encode(m) == Encode(n)
      decreases m
    {
      var b := m % 128;
      var next := m / 128;
      if next != 0 {
        assert Encode(m) == [b + 128] + Encode(next);
        Assoc(out, [b + 128], Encode(next));
        out := out + [b + 128];
        m := next;
      } else {
        out := out + [b];
        return;
      }
    }
  }

  /** A terminated group sequence: every byte but the last has its high bit set. */
  predicate IsVarint(s: Bytes)
  {
    && s != []
    && s[|s| - 1] < 128
    && forall i :: 0 <= i < |s| - 1 ==> s[i] >= 128
  }

  /** The number that the groups of `s` stand for. */
  function Value(s: Bytes): (r: nat)
  {
    if s == [] then 0 else s[0] % 128 + 128 * Value(s[1..])
  }

  lemma {:induction false} EncodeValue(n: nat)
    ensures IsVarint(Encode(n)) && Value(Encode(n)) == n
  {
    if n >= 128 {
      var head, tail := n % 128 + 128, Encode(n / 128);
      EncodeValue(n / 128);
      assert Encode(n)[1..] == tail;
      assert forall i :: 0 < i < |Encode(n)| ==> Encode(n)[i] == tail[i - 1];
      assert head % 128 == n % 128;
    } else {
      assert Encode(n)[1..] == [];
    }
  }

  lemma TailIsVarint(s: Bytes)
    requires IsVarint(s) && |s| > 1
    ensures IsVarint(s[1..])
  {
    assert forall i :: 0 <= i < |s| - 1 ==> s[1..][i] == s[i + 1];
  }

  /** No terminated group sequence for `n` is shorter than the one the encoder writes. */
  lemma {:induction false} EncodeShortest(s: Bytes)
    requires IsVarint(s)
    ensures |Encode(Value(s))| <= |s|
  {
    if |s| == 1 {
      assert s[1..] == [];
    } else {
      TailIsVarint(s);
      EncodeShortest(s[1..]);
      var n := Value(s);
      assert n / 128 == Value(s[1..]);
    }
  }

  /** Where a terminated group sequence ends is decided by its own bytes. */
  lemma VarintPrefixFree(s: Bytes, t: Bytes)
    requires IsVarint(s) && IsVarint(t) && s <= t
    ensures s == t
  {
    assert t[|s| - 1] == s[|s| - 1] < 128;
  }

  /** No encoding is a proper prefix of another. */
  lemma EncodePrefixFree(m: nat, n: nat)
    requires Encode(m) <= Encode(n)
    ensures m == n
  {
    EncodeValue(m);
    EncodeValue(n);
    VarintPrefixFree(Encode(m), Encode(n));
  }

  function Pow128(k: nat): (r: nat)
    ensures r > 0
  {
    if k == 0 then 1 else 128 * Pow128(k - 1)
  }

  /** An encoding has at most `k` bytes exactly for the numbers below 128^k. */
  lemma {:induction false} EncodeLength(n: nat, k: nat)
    requires k > 0
    ensures |Encode(n)| <= k <==> n < Pow128(k)
  {
    if k == 1 {
      assert Pow128(1) == 128 * Pow128(0) == 128;
    } else if n >= 128 {
      EncodeLength(n / 128, k - 1);
      var p := Pow128(k - 1);
      assert Pow128(k) == 128 * p;
      assert n / 128 < p <==> n < 128 * p;
    } else {
      PowGrows(k);
    }
  }

  lemma {:induction false} PowGrows(k: nat)
    requires k > 0
    ensures Pow128(k) >= 128
  {
    if k > 1 {
      PowGrows(k - 1);
    }
  }

  /** Reads one varint off the front of a stream, however long; None if the stream ends first. */
  function Split(s: Bytes): (r: Option<(nat, Bytes)>)
    ensures r.Some? ==> |r.value.1| < |s|
  {
    if s == [] then None
    else if s[0] < 128 then Some((s[0], s[1..]))
    else
      match Split(s[1..])
      case None => None
      case Some((n, rest)) => Some((s[0] % 128 + 128 * n, rest))
  }

  lemma {:induction false} SplitEncoded(n: nat, rest: Bytes)
    ensures Split(Encode(n) + rest) == Some((n, rest))
  {
    var s := Encode(n) + rest;
    if n < 128 {
      assert s[1..] == rest;
    } else {
      SplitEncoded(n / 128, rest);
      assert s[1..] == Encode(n / 128) + rest;
    }
  }
}
