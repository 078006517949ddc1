/** Base 128 varints as a mathematical object: the Protocol Buffers Encoding guide, section
    "Base 128 Varints". The encoder and the decoder are both proved against this module. */
module Varints {
  import opened Js

  /** The encoding of `n`: seven bits a byte, least significant first, high bit set on all but the last. */
  function Varint(n: nat): (bs: seq<byte>)
    ensures |bs| > 0
  {
    if n < 128 then [n] else [n % 128 + 128] + Varint(n / 128)
  }

  /** Exactly the last byte has a clear high bit. */
  ghost predicate Terminated(s: seq<byte>) {
    |s| > 0 && s[|s| - 1] < 128 && forall i :: 0 <= i < |s| - 1 ==> s[i] >= 128
  }

  /** No superfluous zero septet at the top. */
  ghost predicate Minimal(s: seq<byte>) {
    |s| == 1 || (|s| > 1 && s[|s| - 1] != 0)
  }

  /** The number the septets of `s` denote, whatever their high bits. */
  function Value(s: seq<byte>): nat {
    if s == [] then 0 else s[0] % 128 + 128 * Value(s[1..])
  }

  /** The canonical encoding is well formed and denotes its number. */
  lemma {:induction false} VarintSound(n: nat)
    ensures Terminated(Varint(n)) && Minimal(Varint(n)) && Value(Varint(n)) == n
  {
    if n >= 128 {
      VarintSound(n / 128);
      var rest := Varint(n / 128);
      assert Varint(n)[1..] == rest;
      if |rest| == 1 {
        assert Value(rest) == rest[0] % 128 + 128 * Value([]);
      }
    } else {
      assert Varint(n)[1..] == [];
    }
  }

  lemma {:induction false} MinimalTailPositive(s: seq<byte>)
    requires Terminated(s) && |s| > 1 && s[|s| - 1] != 0
    ensures Value(s) >= 128
  {
    var rest := s[1..];
    if |rest| == 1 {
      assert rest[1..] == [];
    } else {
      MinimalTailPositive(rest);
    }
  }

  /** There is no other minimal encoding. */
  lemma {:induction false} MinimalUnique(s: seq<byte>)
    requires Terminated(s) && Minimal(s)
    ensures s == Varint(Value(s))
  {
    if |s| == 1 {
      assert s[1..] == [];
    } else {
      var rest := s[1..];
      MinimalTailPositive(s);
      MinimalUnique(rest);
      assert Value(s) / 128 == Value(rest);
      assert s == [s[0]] + rest;
    }
  }

  /** Terminated encodings are prefix free, so what follows a varint never changes how it is read. */
  lemma PrefixFree(s: seq<byte>, t: seq<byte>, x: seq<byte>, y: seq<byte>)
    requires Terminated(s) && Terminated(t) && s + x == t + y
    ensures s == t && x == y
  {
    var k := if |s| < |t| then |s| else |t|;
    assert (s + x)[k - 1] == (t + y)[k - 1];
    assert s == (s + x)[..|s|] && t == (t + y)[..|t|];
    assert x == (s + x)[|s|..] && y == (t + y)[|t|..];
  }

  lemma VarintInjective(m: nat, n: nat)
    requires Varint(m) == Varint(n)
    ensures m == n
  {
    VarintSound(m);
    VarintSound(n);
  }

  /** k septets are enough exactly for the numbers below 2^(7k). */
  lemma {:induction false} VarintLength(n: nat, k: nat)
    requires 1 <= k
    ensures |Varint(n)| <= k <==> n < Pow2(7 * k)
    decreases k
  {
    Pow2Values();
    Pow2Add(7 * (k - 1), 7);
    var p := Pow2(7 * (k - 1));
    if n >= 128 {
      if k > 1 {
        VarintLength(n / 128, k - 1);
        assert n / 128 < p <==> n < 128 * p;
      }
    } else if k > 1 {
      assert 128 * p >= 128;
    }
  }

  /** One turn of an encoding loop. */
  lemma VarintStep(n: nat)
    requires n >= 128
    ensures Varint(n) == [n % 128 + 128] + Varint(n / 128)
  {
  }

  lemma {:induction false} ValueAppend(s: seq<byte>, b: byte)
    ensures Value(s + [b]) == Value(s) + Pow2(7 * |s|) * (b % 128)
  {
    if s == [] {
      assert [b][1..] == [];
    } else {
      var t := s + [b];
      assert t[1..] == s[1..] + [b];
      ValueAppend(s[1..], b);
      Pow2Values();
      Pow2Add(7, 7 * |s[1..]|);
      assert 128 * (Pow2(7 * |s[1..]|) * (b % 128)) == (128 * Pow2(7 * |s[1..]|)) * (b % 128);
    }
  }

  lemma {:induction false} ValueBound(s: seq<byte>)
    ensures Value(s) < Pow2(7 * |s|)
  {
    if s != [] {
      ValueBound(s[1..]);
      Pow2Values();
      Pow2Add(7, 7 * |s[1..]|);
    }
  }
}
