/**
 Byte strings, their lexicographic order, and the 20-byte hash under every trie node.
 */
module Bytes {

  newtype byte = x: int | 0 <= x < 256

  type Bytes = seq<byte>

  datatype Option<+T> = None | Some(value: T)

  const HASH_LENGTH := 20

  ghost predicate TwentyBytes(f: Bytes -> Bytes) {
    forall b: Bytes :: |f(b)| == HASH_LENGTH
  }

  type HashFunction = f: Bytes -> Bytes | TwentyBytes(f)
    witness (b: Bytes) => seq(HASH_LENGTH, _ => 0 as byte)

  /** The first 20 bytes of the BLAKE3 digest. Nothing is known of it but the length of its results. */
  const BLAKE3_20: HashFunction

  lemma HashIsTwentyBytes(b: Bytes)
    ensures |BLAKE3_20(b)| == HASH_LENGTH
  {
    assert TwentyBytes(BLAKE3_20);
  }

  /** The lexicographic order: -1, 0 or 1. */
  function Compare(a: Bytes, b: Bytes): int {
    if a == [] then (if b == [] then 0 else -1)
    else if b == [] then 1
    else if a[0] < b[0] then -1
    else if a[0] > b[0] then 1
    else Compare(a[1..], b[1..])
  }

  predicate Less(a: Bytes, b: Bytes) {
    Compare(a, b) < 0
  }

  /** The comparison loop of the storage layer computes the lexicographic order. */
  method BytesCompare(a: Bytes, b: Bytes) returns (r: int)
    ensures r == Compare(a, b)
  {
    var len := if |a| < |b| then |a| else |b|;
    assert a[0..] == a && b[0..] == b;
    for i := 0 to len
      invariant Compare(a, b) == Compare(a[i..], b[i..])
    {
      if a[i] < b[i] {
        return -1;
      }
      if a[i] > b[i] {
        return 1;
      }
      assert a[i..][1..] == a[i + 1..] && b[i..][1..] == b[i + 1..];
    }
    if |a| < |b| {
      r := -1;
    } else if |a| > |b| {
      r := 1;
    } else {
      r := 0;
    }
  }

  /** Compare is a total order: it vanishes exactly on equal strings and changes sign when swapped. */
  lemma {:induction false} CompareSigns(a: Bytes, b: Bytes)
    ensures Compare(a, b) in {-1, 0, 1}
    ensures Compare(a, b) == 0 <==> a == b
    ensures Compare(b, a) == -Compare(a, b)
  {
    if a != [] && b != [] && a[0] == b[0] {
      CompareSigns(a[1..], b[1..]);
      assert a == [a[0]] + a[1..] && b == [b[0]] + b[1..];
    }
  }

  lemma {:induction false} LessTransitive(a: Bytes, b: Bytes, c: Bytes)
    requires Less(a, b) && Less(b, c)
    ensures Less(a, c)
  {
    if a != [] && b != [] && c != [] && a[0] == b[0] == c[0] {
      LessTransitive(a[1..], b[1..], c[1..]);
    }
  }

  /** A common prefix does not matter. */
  lemma {:induction false} CompareCommonPrefix(p: Bytes, a: Bytes, b: Bytes)
    ensures Compare(p + a, p + b) == Compare(a, b)
  {
    if p == [] {
      assert p + a == a && p + b == b;
    } else {
      CompareCommonPrefix(p[1..], a, b);
      assert (p + a)[1..] == p[1..] + a && (p + b)[1..] == p[1..] + b;
    }
  }

  /** The first differing byte decides. */
  lemma LessAtByte(p: Bytes, a: Bytes, b: Bytes)
    requires p <= a && p <= b && |p| < |a| && |p| < |b|
    requires a[|p|] < b[|p|]
    ensures Less(a, b)
  {
    CompareCommonPrefix(p, a[|p|..], b[|p|..]);
    assert a == p + a[|p|..] && b == p + b[|p|..];
  }

  /** Strings of equal length are decided by their first parts unless these are equal. */
  lemma {:induction false} CompareConcat(x: Bytes, y: Bytes, u: Bytes, v: Bytes)
    requires |x| == |y|
    ensures Compare(x + u, y + v) == if x == y then Compare(u, v) else Compare(x, y)
  {
    if x == [] {
      assert x + u == u && y + v == v;
    } else {
      CompareConcat(x[1..], y[1..], u, v);
      assert (x + u)[1..] == x[1..] + u && (y + v)[1..] == y[1..] + v;
      assert x == [x[0]] + x[1..] && y == [y[0]] + y[1..];
    }
  }

  // ---- big-endian numbers ----

  function Power256(n: nat): (r: nat)
    ensures r > 0
  {
    if n == 0 then 1 else 256 * Power256(n - 1)
  }

  /** The n low bytes of x, most significant first. */
  function BigEndian(x: nat, n: nat): (b: Bytes)
    ensures |b| == n
  {
    if n == 0 then [] else BigEndian(x / 256, n - 1) + [(x % 256) as byte]
  }

  function FromBigEndian(b: Bytes): nat {
    if b == [] then 0 else 256 * FromBigEndian(b[..|b| - 1]) + b[|b| - 1] as int
  }

  lemma {:induction false} BigEndianRoundTrip(x: nat, n: nat)
    requires x < Power256(n)
    ensures FromBigEndian(BigEndian(x, n)) == x
  {
    if n > 0 {
      BigEndianRoundTrip(x / 256, n - 1);
      assert BigEndian(x, n)[..n - 1] == BigEndian(x / 256, n - 1);
    }
  }

  lemma {:induction false} BigEndianOfBytes(b: Bytes)
    ensures FromBigEndian(b) < Power256(|b|) && BigEndian(FromBigEndian(b), |b|) == b
  {
    if b != [] {
      BigEndianOfBytes(b[..|b| - 1]);
    }
  }

  /** Big-endian encodings of one length sort like the numbers. */
  lemma {:induction false} BigEndianOrder(x: nat, y: nat, n: nat)
    requires x < Power256(n) && y < Power256(n)
    ensures Compare(BigEndian(x, n), BigEndian(y, n)) == if x < y then -1 else if x == y then 0 else 1
  {
    if n > 0 {
      BigEndianOrder(x / 256, y / 256, n - 1);
      CompareSigns(BigEndian(x / 256, n - 1), BigEndian(y / 256, n - 1));
      var a, b := (x % 256) as byte, (y % 256) as byte;
      CompareConcat(BigEndian(x / 256, n - 1), BigEndian(y / 256, n - 1), [a], [b]);
      assert Compare([a], [b]) == if a < b then -1 else if a == b then Compare([], []) else 1;
    }
  }
}
