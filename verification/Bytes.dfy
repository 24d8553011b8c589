/** Little-endian integers in byte sequences (encoding/binary), and the fixed-size records built from them. */
module Bytes {
  import opened Maybe
  import opened Keys

  /** The fields of the meta page, for which validate demands room in every page. */
  const META_HEADER_SIZE := 24

  /** The largest page whose offsets fit 16 bits. */
  const MAX_PAGE_SIZE := 0x1_0000

  function Blank(n: nat): (s: seq<Byte>)
    ensures |s| == n && forall j :: 0 <= j < n ==> s[j] == 0
  {
    seq(n, _ => 0)
  }

  /** 256 to the power w: the first number w bytes cannot hold. */
  function Limit(w: nat): (n: nat)
    ensures n > 0
  {
    if w == 0 then 1 else 256 * Limit(w - 1)
  }

  /** The w low-order bytes of n, lowest first: larger numbers are truncated, as by Go's conversions. */
  function Le(n: nat, w: nat): (r: seq<Byte>)
    ensures |r| == w
  {
    if w == 0 then [] else [(n % 256) as Byte] + Le(n / 256, w - 1)
  }

  function FromLe(s: seq<Byte>): nat {
    if s == [] then 0 else s[0] as nat + 256 * FromLe(s[1..])
  }

  lemma {:induction false} LeRoundTrip(n: nat, w: nat)
    requires n < Limit(w)
    ensures FromLe(Le(n, w)) == n
  {
    if w > 0 {
      LeRoundTrip(n / 256, w - 1);
      assert Le(n, w)[1..] == Le(n / 256, w - 1);
    }
  }

  /** What does not fit does not come back. */
  lemma {:induction false} FromLeBound(s: seq<Byte>)
    ensures FromLe(s) < Limit(|s|)
  {
    if s != [] { FromLeBound(s[1..]); }
  }

  /** An n of w bytes comes back exactly if it is below the limit. */
  lemma LeExact(n: nat, w: nat)
    ensures FromLe(Le(n, w)) == n <==> n < Limit(w)
  {
    FromLeBound(Le(n, w));
    if n < Limit(w) { LeRoundTrip(n, w); }
  }

  lemma {:induction false} LeOfFromLe(s: seq<Byte>)
    ensures Le(FromLe(s), |s|) == s
  {
    if s != [] {
      LeOfFromLe(s[1..]);
      LowByte(s[0], FromLe(s[1..]));
      assert s == [s[0]] + s[1..];
    }
  }

  lemma LowByte(b: Byte, n: nat)
    ensures ((b as nat + 256 * n) % 256) as Byte == b && (b as nat + 256 * n) / 256 == n
  {
  }

  /** Byte i, counted from the lowest, is the digit of 256 to the power i. */
  lemma {:induction false} LeDigits(n: nat, w: nat, i: nat)
    requires i < w
    ensures Le(n, w)[i] as nat == n / Limit(i) % 256
  {
    if i > 0 {
      LeDigits(n / 256, w - 1, i - 1);
      DividedTwice(n, 256, Limit(i - 1));
    }
  }

  lemma DividedTwice(n: nat, a: nat, b: nat)
    requires a > 0 && b > 0
    ensures a * b > 0 && n / a / b == n / (a * b)
  {
    var q, r := n / a, n % a;
    var x, y := q / b, q % b;
    Products(a, b, x, y);
    Multiples(a, y + 1, b);
    QuotientIs(n, a * b, x, a * y + r);
  }

  lemma Products(a: nat, b: nat, x: nat, y: nat)
    ensures a * (b * x + y) == a * b * x + a * y && a * (y + 1) == a * y + a
    ensures a > 0 && b > 0 ==> a * b > 0
  {
  }

  lemma QuotientIs(n: nat, d: nat, q: nat, r: nat)
    requires d > 0 && n == d * q + r && r < d
    ensures n / d == q
  {
    var m := n / d;
    assert d * m <= n < d * m + d;
    if m < q { Multiples(d, m + 1, q); }
    if m > q { Multiples(d, q + 1, m); }
  }

  lemma Multiples(d: nat, a: nat, b: nat)
    requires a <= b
    ensures d * a <= d * b
  {
  }

  /** A number of w bytes read from w bytes: both directions. */
  lemma FromLeExact(s: seq<Byte>, n: nat)
    ensures FromLe(s) == n <==> n < Limit(|s|) && s == Le(n, |s|)
  {
    FromLeBound(s);
    LeOfFromLe(s);
    if n < Limit(|s|) { LeRoundTrip(n, |s|); }
  }

  lemma Limits()
    ensures Limit(1) == 0x100 && Limit(2) == 0x1_0000 && Limit(4) == 0x1_0000_0000 && Limit(8) == 0x1_0000_0000_0000_0000
  {
    assert Limit(1) == 256;
    assert Limit(2) == 256 * Limit(1);
    assert Limit(3) == 256 * Limit(2);
    assert Limit(4) == 256 * Limit(3);
    assert Limit(5) == 256 * Limit(4);
    assert Limit(6) == 256 * Limit(5);
    assert Limit(7) == 256 * Limit(6);
    assert Limit(8) == 256 * Limit(7);
  }

  /** Parts written one after another. */
  function Flat(parts: seq<seq<Byte>>): seq<Byte> {
    if parts == [] then [] else Flat(parts[..|parts| - 1]) + parts[|parts| - 1]
  }

  predicate AllOf(parts: seq<seq<Byte>>, w: nat) {
    forall i :: 0 <= i < |parts| ==> |parts[i]| == w
  }

  lemma FlatStep(parts: seq<seq<Byte>>, i: nat)
    requires i < |parts|
    ensures Flat(parts[..i + 1]) == Flat(parts[..i]) + parts[i]
  {
    assert parts[..i + 1][..i] == parts[..i];
  }

  /** Parts of one length w are found at the multiples of w. */
  lemma {:induction false} FlatAt(parts: seq<seq<Byte>>, w: nat, i: nat)
    requires AllOf(parts, w) && i < |parts|
    ensures w * i + w <= |Flat(parts)| && Flat(parts)[w * i..w * i + w] == parts[i]
  {
    var n := |parts| - 1;
    FlatLength(parts[..n], w);
    if i < n { FlatAt(parts[..n], w, i); }
  }

  lemma {:induction false} FlatLength(parts: seq<seq<Byte>>, w: nat)
    requires AllOf(parts, w)
    ensures |Flat(parts)| == w * |parts|
  {
    if parts != [] {
      var n := |parts| - 1;
      FlatLength(parts[..n], w);
      assert w * n + w == w * (n + 1);
    }
  }

  /** The parts of length w that s falls into make up s. */
  lemma {:induction false} FlatOfParts(parts: seq<seq<Byte>>, w: nat, s: seq<Byte>)
    requires AllOf(parts, w) && |s| == w * |parts|
    requires forall i :: 0 <= i < |parts| ==> w * i + w <= |s| && parts[i] == s[w * i..w * i + w]
    ensures Flat(parts) == s
  {
    if parts != [] {
      var n := |parts| - 1;
      assert w * n + w == w * (n + 1);
      forall i | 0 <= i < n ensures w * i + w <= w * n && parts[..n][i] == s[..w * n][w * i..w * i + w] {
        Multiples(w, i + 1, n);
        assert w * (i + 1) == w * i + w;
        SubSlice(s, 0, w * n, w * i, w * i + w);
        assert s[0..w * n] == s[..w * n];
      }
      FlatOfParts(parts[..n], w, s[..w * n]);
      assert s == s[..w * n] + s[w * n..w * n + w];
    }
  }

  /** Consecutive pieces of a slice. */
  lemma SubSlice<T>(s: seq<T>, a: nat, b: nat, i: nat, j: nat)
    requires a <= b <= |s| && i <= j <= b - a
    ensures s[a..b][i..j] == s[a + i..a + j]
  {
    var u := s[a..b];
    forall k | 0 <= k < j - i ensures u[i..j][k] == s[a + i..a + j][k] {
      assert u[i..j][k] == u[i + k];
      assert u[i + k] == s[a + (i + k)];
    }
    assert u[i..j] == s[a + i..a + j];
  }

  /** buf with s written over it from pos on; None if s does not fit. */
  function Overwrite(buf: seq<Byte>, pos: nat, s: seq<Byte>): (r: Option<seq<Byte>>)
    ensures r.Some? <==> pos + |s| <= |buf|
    ensures r.Some? ==> |r.value| == |buf|
  {
    if pos + |s| <= |buf| then Some(buf[..pos] + s + buf[pos + |s|..]) else None
  }

  /** copy into a slice that has the room, and the fixed-size writes of encoding/binary. */
  method PutBytes(buf: array<Byte>, pos: nat, s: seq<Byte>)
    requires pos + |s| <= buf.Length
    modifies buf
    ensures Overwrite(old(buf[..]), pos, s) == Some(buf[..])
  {
    forall i | 0 <= i < |s| {
      buf[pos + i] := s[i];
    }
    assert buf[..] == old(buf[..])[..pos] + s + old(buf[..])[pos + |s|..];
  }

  /** Two writes next to each other are one. */
  lemma OverwriteNext(buf: seq<Byte>, pos: nat, s: seq<Byte>, t: seq<Byte>)
    requires pos + |s| + |t| <= |buf|
    ensures Overwrite(Overwrite(buf, pos, s).value, pos + |s|, t) == Overwrite(buf, pos, s + t)
    ensures Overwrite(Overwrite(buf, pos + |s|, t).value, pos, s) == Overwrite(buf, pos, s + t)
  {
    var n, m := pos + |s|, pos + |s| + |t|;
    var a, z, gap := buf[..pos], buf[m..], buf[pos..n];
    assert buf[..n] == a + gap && buf[n..] == buf[n..m] + z;
    assert Overwrite(buf, pos, s).value[..n] == a + s && Overwrite(buf, pos, s).value[m..] == z;
    assert a + s + t + z == a + (s + t) + z;
    var b := Overwrite(buf, n, t).value;
    assert b[..pos] == a && b[n..] == t + z;
    assert a + s + (t + z) == a + (s + t) + z;
  }
}
