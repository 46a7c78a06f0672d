/** Octets, big-endian words and MAC addresses, as the C sources keep them. */
module Bytes {
  type byte = b: int | 0 <= b < 0x100
  type word = w: int | 0 <= w < 0x1_0000
  type Mac = m: seq<byte> | |m| == 6 witness [0, 0, 0, 0, 0, 0]

  datatype Option<+T> = None | Some(value: T)

  /** The reasons the modelled operations return; allocation failure aborts the process. */
  datatype Reason = Ok | InvalidInput | UnsupportedOperation | Busy

  function U16(w: word): (r: seq<byte>)
    ensures |r| == 2 && FromU16(r[0], r[1]) == w
  {
    [w / 256, w % 256]
  }

  lemma U16Octets(w: word)
    ensures U16(w)[0] == w / 256 && U16(w)[1] == w % 256
  {
  }

  function FromU16(hi: byte, lo: byte): word {
    hi * 256 + lo
  }

  /** Neither the zero address nor a group address; only the first six octets count. */
  predicate Unicast(m: seq<byte>)
    requires |m| >= 6
  {
    m[..6] != [0, 0, 0, 0, 0, 0] && m[0] % 2 == 0
  }

  function Min(a: nat, b: nat): nat {
    if a < b then a else b
  }

  lemma Associative<T>(a: seq<T>, b: seq<T>, c: seq<T>)
    ensures a + b + c == a + (b + c)
  {
  }

  lemma SubsetSize<T>(a: set<T>, b: set<T>)
    requires a <= b
    ensures |a| <= |b|
  {
    assert b == a + (b - a);
  }
}
