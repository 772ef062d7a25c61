/** Byte strings, their order, and a hash treated as an arbitrary function to 32-byte digests. */
module Bytes {

  type Byte = x: int | 0 <= x < 256
  type Bytes = seq<Byte>
  type Digest = b: Bytes | |b| == 32 witness seq(32, _ => 0)

  /** SHA-256 is used only through its result length. */
  type Hash = Bytes -> Digest

  /** No two of the given strings are hashed alike. */
  ghost predicate CollisionFree(h: Hash, strings: set<Bytes>) {
    forall x, y | x in strings && y in strings && h(x) == h(y) :: x == y
  }

  /** The bytes of an ASCII text. */
  function Ascii(s: string): (b: Bytes)
    requires forall i | 0 <= i < |s| :: s[i] < 128 as char
    ensures |b| == |s| && forall i | 0 <= i < |s| :: b[i] == s[i] as int
  {
    seq<Byte>(|s|, i requires 0 <= i < |s| => s[i] as int)
  }

  /** Bytes as the text they spell in ASCII. */
  function Spelled(b: Bytes): (s: string)
    requires forall i | 0 <= i < |b| :: b[i] < 128
    ensures |s| == |b| && forall i | 0 <= i < |b| :: s[i] as int == b[i]
  {
    seq<char>(|b|, i requires 0 <= i < |b| => b[i] as char)
  }

  /** Lexicographic order; on bytes it is also the order of the lower-case hex texts. */
  predicate LexLeq(x: seq<int>, y: seq<int>) {
    x == [] || (y != [] && (x[0] < y[0] || (x[0] == y[0] && LexLeq(x[1..], y[1..]))))
  }

  lemma {:induction false} LexAntisymmetric(x: seq<int>, y: seq<int>)
    requires LexLeq(x, y) && LexLeq(y, x)
    ensures x == y
  {
    if x != [] {
      LexAntisymmetric(x[1..], y[1..]);
      assert x == [x[0]] + x[1..] && y == [y[0]] + y[1..];
    }
  }

  lemma {:induction false} LexTotal(x: seq<int>, y: seq<int>)
    ensures LexLeq(x, y) || LexLeq(y, x)
  {
    if x != [] && y != [] {
      LexTotal(x[1..], y[1..]);
    }
  }

  lemma {:induction false} LexTransitive(x: seq<int>, y: seq<int>, z: seq<int>)
    requires LexLeq(x, y) && LexLeq(y, z)
    ensures LexLeq(x, z)
  {
    if x != [] && x[0] == y[0] == z[0] {
      LexTransitive(x[1..], y[1..], z[1..]);
    }
  }

  /** The first difference decides: x is smaller there, or x is a proper beginning of y. */
  ghost predicate FirstDifference(x: seq<int>, y: seq<int>) {
    || x < y
    || exists i :: 0 <= i < |x| && i < |y| && x[..i] == y[..i] && x[i] < y[i]
  }

  /** The order is that of the first difference. */
  lemma {:induction false} LexLeqIff(x: seq<int>, y: seq<int>)
    ensures LexLeq(x, y) <==> x == y || FirstDifference(x, y)
  {
    if x != [] && y != [] {
      LexLeqIff(x[1..], y[1..]);
      TailDifference(x, y);
    }
  }

  lemma TailDifference(x: seq<int>, y: seq<int>)
    requires x != [] && y != []
    ensures FirstDifference(x, y) <==> x[0] < y[0] || (x[0] == y[0] && FirstDifference(x[1..], y[1..]))
    ensures x == y <==> x[0] == y[0] && x[1..] == y[1..]
  {
    var s, t := x[1..], y[1..];
    assert x == [x[0]] + s && y == [y[0]] + t;
    if x[0] == y[0] {
      assert x < y <==> s < t;
      forall i | 0 <= i < |s| && i < |t| ensures x[..i + 1] == y[..i + 1] <==> s[..i] == t[..i] {
        assert x[..i + 1] == [x[0]] + s[..i] && y[..i + 1] == [y[0]] + t[..i];
        assert x[..i + 1][1..] == s[..i] && y[..i + 1][1..] == t[..i];
      }
      if i :| 0 <= i < |s| && i < |t| && s[..i] == t[..i] && s[i] < t[i] {
        assert x[..i + 1] == y[..i + 1] && x[i + 1] < y[i + 1];
      }
      if i :| 0 <= i < |x| && i < |y| && x[..i] == y[..i] && x[i] < y[i] {
        assert s[..i - 1] == t[..i - 1] && s[i - 1] < t[i - 1];
      }
    } else {
      assert !(x < y);
      if x[0] < y[0] {
        assert x[..0] == y[..0];
      }
      forall i | 0 < i < |x| && i < |y| ensures x[..i] != y[..i] {
        assert x[..i][0] == x[0] && y[..i][0] == y[0];
      }
    }
  }

  /** 256^k. */
  function Power256(k: nat): (r: nat)
    ensures r > 0
  {
    if k == 0 then 1 else 256 * Power256(k - 1)
  }

  /** i as k big-endian bytes. */
  function BigEndian(i: nat, k: nat): (b: Bytes)
    requires i < Power256(k)
    ensures |b| == k
  {
    if k == 0 then [] else BigEndian(i / 256, k - 1) + [i % 256]
  }

  lemma {:induction false} BigEndianInjective(i: nat, j: nat, k: nat)
    requires i < Power256(k) && j < Power256(k) && BigEndian(i, k) == BigEndian(j, k)
    ensures i == j
  {
    if k > 0 {
      var x, y := BigEndian(i, k), BigEndian(j, k);
      assert x[k - 1] == i % 256 && y[k - 1] == j % 256;
      assert x[..k - 1] == BigEndian(i / 256, k - 1) && y[..k - 1] == BigEndian(j / 256, k - 1);
      BigEndianInjective(i / 256, j / 256, k - 1);
    }
  }

  /** The number that big-endian bytes spell. */
  function NumberOf(b: Bytes): nat {
    if b == [] then 0 else 256 * NumberOf(b[..|b| - 1]) + b[|b| - 1]
  }

  lemma {:induction false} BigEndianReads(i: nat, k: nat)
    requires i < Power256(k)
    ensures NumberOf(BigEndian(i, k)) == i
  {
    if k > 0 {
      var b := BigEndian(i, k);
      assert b[..k - 1] == BigEndian(i / 256, k - 1) && b[k - 1] == i % 256;
      BigEndianReads(i / 256, k - 1);
      hide BigEndian, Power256;
      assert NumberOf(b) == 256 * NumberOf(b[..k - 1]) + b[k - 1];
    }
  }

  /** Equal concatenations with equally long first parts. */
  lemma SplitEqual<T>(a: seq<T>, b: seq<T>, c: seq<T>, d: seq<T>)
    requires a + b == c + d && |a| == |c|
    ensures a == c && b == d
  {
    assert a == (a + b)[..|a|] && c == (c + d)[..|c|];
    assert b == (a + b)[|a|..] && d == (c + d)[|c|..];
  }
}
