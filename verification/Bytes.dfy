/** Bytes, little-endian words and byte strings. */
module Bytes {

  type byte = b: nat | b < 256

  function Zeros(n: nat): (s: seq<byte>)
    ensures |s| == n && forall i :: 0 <= i < n ==> s[i] == 0
  {
    seq(n, _ => 0)
  }

  /** x as n bytes, least significant first. */
  function ToLE(x: nat, n: nat): (s: seq<byte>)
    ensures |s| == n
  {
    if n == 0 then [] else [x % 256] + ToLE(x / 256, n - 1)
  }

  function FromLE(s: seq<byte>): nat {
    if s == [] then 0 else s[0] + 256 * FromLE(s[1..])
  }

  function Pow256(n: nat): (r: nat)
    ensures r > 0
  {
    if n == 0 then 1 else 256 * Pow256(n - 1)
  }

  lemma {:induction false} FromToLE(x: nat, n: nat)
    requires x < Pow256(n)
    ensures FromLE(ToLE(x, n)) == x
  {
    if n > 0 {
      assert ToLE(x, n)[1..] == ToLE(x / 256, n - 1);
      FromToLE(x / 256, n - 1);
    }
  }

  /** Bytes of any length are those of the number they denote. */
  lemma {:induction false} ToFromLE(s: seq<byte>)
    ensures FromLE(s) < Pow256(|s|) && ToLE(FromLE(s), |s|) == s
  {
    if s != [] {
      ToFromLE(s[1..]);
      var x, low := FromLE(s[1..]), s[0] as nat;
      assert FromLE(s) == low + 256 * x && Pow256(|s|) == 256 * Pow256(|s| - 1);
      assert ToLE(FromLE(s), |s|) == [FromLE(s) % 256] + ToLE(FromLE(s) / 256, |s| - 1);
      hide FromLE, ToLE, Pow256;
      assert (low + 256 * x) % 256 == low && (low + 256 * x) / 256 == x;
      assert s == [s[0]] + s[1..];
    }
  }

  /** The little-endian word in bytes [at, at + n). */
  ghost function Word(s: seq<byte>, at: nat, n: nat): nat
    requires at + n <= |s|
  {
    FromLE(s[at..at + n])
  }

  lemma {:induction false} FromLEConcat(a: seq<byte>, b: seq<byte>)
    ensures FromLE(a + b) == FromLE(a) + Pow256(|a|) * FromLE(b)
  {
    if a == [] {
      assert a + b == b;
    } else {
      FromLEConcat(a[1..], b);
      assert (a + b)[1..] == a[1..] + b;
      assert FromLE(a + b) == a[0] + 256 * FromLE(a[1..] + b) && FromLE(a) == a[0] + 256 * FromLE(a[1..]);
      assert Pow256(|a|) == 256 * Pow256(|a| - 1);
      hide FromLE, Pow256;
      Scaled(Pow256(|a| - 1), FromLE(b));
    }
  }

  lemma Scaled(p: nat, x: nat)
    ensures 256 * p * x == 256 * (p * x)
  {
  }

  /** A word laid out in bytes is the word read. */
  lemma WordOfLE(s: seq<byte>, at: nat, n: nat, x: nat)
    requires at + n <= |s| && s[at..at + n] == ToLE(x, n) && x < Pow256(n)
    ensures Word(s, at, n) == x
  {
    FromToLE(x, n);
  }

  /** The 4-byte word at an offset, as the source assembles it from its bytes. */
  function ReadU32(s: seq<byte>, at: nat): nat
    requires at + 4 <= |s|
  {
    (s[at] as nat) + 0x100 * (s[at + 1] as nat) + 0x1_0000 * (s[at + 2] as nat) + 0x100_0000 * (s[at + 3] as nat)
  }

  lemma ReadU32IsLE(s: seq<byte>, at: nat)
    requires at + 4 <= |s|
    ensures ReadU32(s, at) == FromLE(s[at..at + 4]) < 0x1_0000_0000
  {
    var w := s[at..at + 4];
    assert w[1..][1..][1..] == [w[3]];
    assert FromLE([w[3]]) == w[3] + 256 * FromLE([]);
    assert FromLE(w[1..][1..]) == (w[2] as nat) + 256 * (w[3] as nat);
    assert FromLE(w[1..]) == w[1] + 256 * FromLE(w[1..][1..]);
  }

  lemma ReadU32Of(s: seq<byte>, at: nat, x: nat)
    requires at + 4 <= |s| && x < 0x1_0000_0000 && s[at..at + 4] == ToLE(x, 4)
    ensures ReadU32(s, at) == x
  {
    ReadU32IsLE(s, at);
    assert Pow256(4) == 0x1_0000_0000;
    FromToLE(x, 4);
  }
}
