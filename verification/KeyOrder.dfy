/** compare_keys: octet order of UTF-8 strings is their code-point order (c/src/canon.c). */
module KeyOrder {
  import opened Bytes
  import opened Utf8

  /** The lexicographic order, as -1, 0 or 1: strcmp on octets, Python's order on code points. */
  function Lex(a: seq<int>, b: seq<int>): int {
    if a == [] then (if b == [] then 0 else -1)
    else if b == [] then 1
    else if a[0] != b[0] then (if a[0] < b[0] then -1 else 1)
    else Lex(a[1..], b[1..])
  }

  lemma {:induction false} LexPrefix(p: seq<int>, a: seq<int>, b: seq<int>)
    ensures Lex(p + a, p + b) == Lex(a, b)
  {
    if p == [] {
      assert p + a == a && p + b == b;
    } else {
      assert (p + a)[1..] == p[1..] + a && (p + b)[1..] == p[1..] + b;
      LexPrefix(p[1..], a, b);
    }
  }

  /** The first difference decides. */
  lemma {:induction false} LexAt(a: seq<int>, b: seq<int>, k: nat)
    requires k < |a| && k < |b| && a[..k] == b[..k] && a[k] < b[k]
    ensures Lex(a, b) == -1 && Lex(b, a) == 1
    decreases k
  {
    if k > 0 {
      assert a[0] == a[..k][0] && b[0] == b[..k][0];
      assert a[1..][..k - 1] == a[..k][1..] && b[1..][..k - 1] == b[..k][1..];
      LexAt(a[1..], b[1..], k - 1);
    }
  }

  /** One string is before another at `k`: equal up to there, it ends there or has the smaller octet there. */
  predicate BeforeAt(a: seq<int>, b: seq<int>, k: nat) {
    k <= |a| && k < |b| && a[..k] == b[..k] && (k == |a| || a[k] < b[k])
  }

  /** strcmp, whatever the octets. */
  lemma {:induction false} LexExactly(a: seq<int>, b: seq<int>)
    ensures Lex(a, b) < 0 <==> exists k: nat :: BeforeAt(a, b, k)
    decreases |a|
  {
    if a == [] {
      assert b != [] ==> BeforeAt(a, b, 0);
    } else if b != [] && a[0] != b[0] {
      assert a[0] < b[0] ==> BeforeAt(a, b, 0);
      assert forall k: nat :: BeforeAt(a, b, k) && k > 0 ==> a[..k][0] == b[..k][0];
    } else if b != [] {
      LexExactly(a[1..], b[1..]);
      BeforeTail(a, b);
    }
  }

  lemma BeforeTail(a: seq<int>, b: seq<int>)
    requires a != [] && b != [] && a[0] == b[0]
    ensures (exists k: nat :: BeforeAt(a, b, k)) <==> exists k: nat :: BeforeAt(a[1..], b[1..], k)
  {
    forall k: nat
      ensures BeforeAt(a, b, k + 1) <==> BeforeAt(a[1..], b[1..], k)
    {
      if k < |a| && k < |b| {
        assert a[..k + 1] == [a[0]] + a[1..][..k] && b[..k + 1] == [b[0]] + b[1..][..k];
        assert a[1..][..k] == a[..k + 1][1..] && b[1..][..k] == b[..k + 1][1..];
      }
    }
    assert !BeforeAt(a, b, 0);
    if k: nat :| BeforeAt(a, b, k) {
      assert BeforeAt(a, b, (k - 1) + 1);
      assert BeforeAt(a[1..], b[1..], k - 1);
    }
    if k: nat :| BeforeAt(a[1..], b[1..], k) {
      assert BeforeAt(a, b, k + 1);
    }
  }

  lemma {:induction false} LexAntisymmetric(a: seq<int>, b: seq<int>)
    ensures Lex(a, b) == -Lex(b, a)
    ensures Lex(a, b) == 0 <==> a == b
    decreases |a|
  {
    if a != [] && b != [] {
      LexAntisymmetric(a[1..], b[1..]);
      assert a == [a[0]] + a[1..] && b == [b[0]] + b[1..];
    }
  }

  lemma {:induction false} LexTransitive(a: seq<int>, b: seq<int>, c: seq<int>)
    requires Lex(a, b) <= 0 && Lex(b, c) <= 0
    ensures Lex(a, c) <= 0 && (Lex(a, b) < 0 || Lex(b, c) < 0 ==> Lex(a, c) < 0)
    decreases |a|
  {
    if a != [] && b != [] && c != [] && a[0] == b[0] == c[0] {
      LexTransitive(a[1..], b[1..], c[1..]);
    }
  }

  lemma Digit64Order(c: nat, d: nat)
    requires c < d
    ensures c / 64 < d / 64 || (c / 64 == d / 64 && c % 64 < d % 64)
  {
  }

  /** The encodings differ first where the smaller code point has the smaller octet. */
  ghost predicate OrderedAt(e: seq<byte>, f: seq<byte>, k: nat) {
    k < |e| && k < |f| && e[..k] == f[..k] && e[k] < f[k]
  }

  lemma Order2(c: nat, d: nat) returns (k: nat)
    requires 0x80 <= c < d < 0x800
    ensures OrderedAt(EncodeCode(c), EncodeCode(d), k)
  {
    Digit64Order(c, d);
    k := if c / 64 < d / 64 then 0 else 1;
  }

  lemma Order3(c: nat, d: nat) returns (k: nat)
    requires 0x800 <= c < d < 0x1_0000 && Scalar(c) && Scalar(d)
    ensures OrderedAt(EncodeCode(c), EncodeCode(d), k)
  {
    assert c / 4096 == c / 64 / 64 && d / 4096 == d / 64 / 64;
    Digit64Order(c, d);
    if c / 64 < d / 64 {
      Digit64Order(c / 64, d / 64);
      k := if c / 4096 < d / 4096 then 0 else 1;
    } else {
      k := 2;
    }
  }

  lemma Order4(c: nat, d: nat) returns (k: nat)
    requires 0x1_0000 <= c < d < 0x11_0000
    ensures OrderedAt(EncodeCode(c), EncodeCode(d), k)
  {
    assert c / 4096 == c / 64 / 64 && d / 4096 == d / 64 / 64;
    assert c / 262144 == c / 4096 / 64 && d / 262144 == d / 4096 / 64;
    Digit64Order(c, d);
    if c / 64 < d / 64 {
      Digit64Order(c / 64, d / 64);
      if c / 4096 < d / 4096 {
        Digit64Order(c / 4096, d / 4096);
        k := if c / 262144 < d / 262144 then 0 else 1;
      } else {
        k := 2;
      }
    } else {
      k := 3;
    }
  }

  lemma CodesOrdered(c: nat, d: nat) returns (k: nat)
    requires Scalar(c) && Scalar(d) && c < d
    ensures OrderedAt(EncodeCode(c), EncodeCode(d), k)
  {
    if 0x80 <= c && d < 0x800 {
      k := Order2(c, d);
    } else if 0x800 <= c && d < 0x1_0000 {
      k := Order3(c, d);
    } else if 0x1_0000 <= c {
      k := Order4(c, d);
    } else {
      k := 0;
    }
  }

  lemma SmallerCodeFirst(c: nat, d: nat, x: seq<byte>, y: seq<byte>)
    requires Scalar(c) && Scalar(d) && c < d
    ensures Lex(EncodeCode(c) + x, EncodeCode(d) + y) == -1 && Lex(EncodeCode(d) + y, EncodeCode(c) + x) == 1
  {
    var e, f := EncodeCode(c), EncodeCode(d);
    var k := CodesOrdered(c, d);
    assert (e + x)[..k] == e[..k] && (f + y)[..k] == f[..k];
    LexAt(e + x, f + y, k);
  }

  /** Comparing the octets compares the code points, whatever the strings' lengths. */
  lemma {:induction false} OctetOrderIsCodeOrder(a: seq<nat>, b: seq<nat>)
    requires Scalars(a) && Scalars(b)
    ensures Lex(EncodeCodes(a), EncodeCodes(b)) == Lex(a, b)
    decreases |a|
  {
    if a == [] || b == [] {
    } else if a[0] == b[0] {
      LexPrefix(EncodeCode(a[0]), EncodeCodes(a[1..]), EncodeCodes(b[1..]));
      OctetOrderIsCodeOrder(a[1..], b[1..]);
    } else if a[0] < b[0] {
      SmallerCodeFirst(a[0], b[0], EncodeCodes(a[1..]), EncodeCodes(b[1..]));
    } else {
      SmallerCodeFirst(b[0], a[0], EncodeCodes(b[1..]), EncodeCodes(a[1..]));
    }
  }
}
