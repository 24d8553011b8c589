/** Equalities of sequences, kept apart from what the sequences are used for. */
module Seqs {
  lemma CutAt<T>(s: seq<T>, i: nat)
    requires i < |s|
    ensures s[..i] + s[i..] == s && s[..i + 1] + s[i + 1..] == s
    ensures s[..i] + [s[i]] + s[i + 1..] == s
    ensures s[..i + 1] == s[..i] + [s[i]]
    ensures s[..i + 1][..i] == s[..i]
  {
  }

  lemma Assoc<T>(a: seq<T>, b: seq<T>, c: seq<T>)
    ensures (a + b) + c == a + (b + c)
  {
  }

  lemma AppendDrop<T>(a: seq<T>, b: seq<T>)
    ensures (a + b)[..|a|] == a && (a + b)[|a|..] == b
  {
  }

  lemma InHead<T>(h: seq<T>, r: seq<T>, a: nat, b: nat)
    requires a <= b <= |h|
    ensures (h + r)[a..b] == h[a..b]
  {
  }

  lemma InTail<T>(h: seq<T>, r: seq<T>, a: nat, b: nat)
    requires a <= b <= |r|
    ensures (h + r)[|h| + a..|h| + b] == r[a..b]
  {
  }

  /** What the rest of a sequence begins with. */
  lemma AtStart<T>(s: seq<T>, o: nat, a: seq<T>, b: seq<T>)
    requires o <= |s| && s[o..] == a + b
    ensures o + |a| <= |s| && s[o..o + |a|] == a
  {
    assert |s[o..]| == |s| - o;
    forall k | 0 <= k < |a| ensures s[o + k] == a[k] { assert s[o..][k] == (a + b)[k]; }
  }

  /** A prefix of a prefix. */
  lemma Prefix<T>(s: seq<T>, i: nat, j: nat)
    requires i <= j <= |s|
    ensures s[..j][..i] == s[..i]
  {
  }

  /** Two neighbouring parts found together are found one by one. */
  lemma TwoParts<T>(buf: seq<T>, pos: nat, a: seq<T>, b: seq<T>)
    requires pos + |a| + |b| <= |buf| && buf[pos..pos + |a| + |b|] == a + b
    ensures buf[pos..pos + |a|] == a && buf[pos + |a|..pos + |a| + |b|] == b
  {
    var c := buf[pos..pos + |a| + |b|];
    forall k | 0 <= k < |a| ensures buf[pos + k] == a[k] { assert c[k] == buf[pos + k]; }
    forall k | 0 <= k < |b| ensures buf[pos + |a| + k] == b[k] { assert c[|a| + k] == buf[pos + (|a| + k)]; }
  }

  lemma Ends<T>(s: seq<T>)
    ensures s[..0] == [] && s[0..] == s && s[..|s|] == s && s[|s|..] == []
    ensures s + [] == s && [] + s == s
  {
  }

  lemma Suffix<T>(s: seq<T>, k: nat)
    requires k < |s|
    ensures s[k..][1..] == s[k + 1..] && s[k..][0] == s[k] && s[..k + 1] == s[..k] + [s[k]]
  {
  }

  lemma TailPrefix<T>(s: seq<T>, k: nat)
    requires 0 < k <= |s|
    ensures s[..k][0] == s[0] && s[..k][1..] == s[1..][..k - 1] && s[k..] == s[1..][k - 1..]
  {
  }

  lemma AppendTail<T>(a: seq<T>, b: seq<T>)
    requires a != []
    ensures (a + b)[0] == a[0] && (a + b)[1..] == a[1..] + b
  {
  }

  /** Cutting inside the middle part. */
  lemma InMiddle<T>(a: seq<T>, b: seq<T>, c: seq<T>, i: nat)
    requires i <= |b|
    ensures (a + b + c)[..|a| + i] == a + b[..i] && (a + b + c)[|a| + i..] == b[i..] + c
  {
  }

  /** Taking an element out of the middle part. */
  lemma TakeOutOfMiddle<T>(a: seq<T>, b: seq<T>, c: seq<T>, i: nat)
    requires i < |b|
    ensures (a + b + c)[..|a| + i] + (a + b + c)[|a| + i + 1..] == a + (b[..i] + b[i + 1..]) + c
  {
    InMiddle(a, b, c, i);
    InMiddle(a, b, c, i + 1);
    Inward(a, b[..i], [], b[i + 1..], c);
  }

  lemma Inward<T>(a: seq<T>, b: seq<T>, x: seq<T>, d: seq<T>, c: seq<T>)
    ensures (a + b) + x + (d + c) == a + (b + x + d) + c
    ensures (a + b) + (d + c) == a + (b + d) + c
  {
  }
}
