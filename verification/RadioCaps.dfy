/** AP Radio Basic Capabilities: the encoder, the decoder and the identity walk. */
module RadioCaps {
  import opened Bytes

  const MAX_CLASSES := 8
  const MAX_CHANNELS := 32
  const HEADER := 8

  type int8 = x: int | -128 <= x < 128

  function ToOctet(x: int8): byte {
    if x < 0 then x + 256 else x
  }

  function FromOctet(b: byte): int8 {
    if b < 128 then b else b - 256
  }

  /** An operating class with its maximum EIRP and non-operable channels. */
  datatype Class = Class(kind: byte, maxEirp: int8, channels: seq<byte>)

  datatype Radio = Radio(ruid: Mac, maxBss: byte, classes: seq<Class>)

  // ----- the value's grammar

  predicate ClassEncodable(c: Class) {
    |c.channels| < 256
  }

  predicate Encodable(cs: seq<Class>) {
    forall i :: 0 <= i < |cs| ==> ClassEncodable(cs[i])
  }

  function EncodeClass(c: Class): (r: seq<byte>)
    requires ClassEncodable(c)
    ensures |r| == 3 + |c.channels|
  {
    [c.kind, ToOctet(c.maxEirp), |c.channels|] + c.channels
  }

  function EncodeClasses(cs: seq<Class>): seq<byte>
    requires Encodable(cs)
  {
    if cs == [] then [] else EncodeClass(cs[0]) + EncodeClasses(cs[1..])
  }

  /** Exactly `k` classes from `at` to the end of the value. */
  function ClassesAt(v: seq<byte>, at: nat, k: nat): Option<seq<Class>>
    requires at <= |v|
    decreases k
  {
    if k == 0 then if at == |v| then Some([]) else None
    else if at + 3 > |v| || at + 3 + v[at + 2] > |v| then None
    else
      var end := at + 3 + v[at + 2];
      var rest := ClassesAt(v, end, k - 1);
      if rest.None? then None else Some([Class(v[at], FromOctet(v[at + 1]), v[at + 3..end])] + rest.value)
  }

  /** The class's own octets stand at `at`, and `rest` after them. */
  predicate StandsAt(v: seq<byte>, at: nat, c: Class, rest: seq<byte>) {
    && at + 3 + |c.channels| <= |v| && v[at] == c.kind && v[at + 1] == ToOctet(c.maxEirp) && v[at + 2] == |c.channels|
    && v[at + 3..at + 3 + |c.channels|] == c.channels && v[at + 3 + |c.channels|..] == rest
  }

  lemma ClassStands(v: seq<byte>, at: nat, c: Class, rest: seq<byte>)
    requires at <= |v| && ClassEncodable(c)
    ensures v[at..] == EncodeClass(c) + rest <==> StandsAt(v, at, c, rest)
  {
    var e, n := EncodeClass(c) + rest, |c.channels|;
    if v[at..] == e {
      assert v[at] == v[at..][0] && v[at + 1] == v[at..][1] && v[at + 2] == v[at..][2];
      assert v[at + 3..at + 3 + n] == e[3..3 + n];
      assert v[at + 3 + n..] == e[3 + n..];
    }
    if StandsAt(v, at, c, rest) {
      assert v[at..] == [v[at], v[at + 1], v[at + 2]] + v[at + 3..at + 3 + n] + v[at + 3 + n..];
    }
  }

  /** The class a walk reads at `at`. */
  predicate ReadAt(v: seq<byte>, at: nat, c: Class) {
    && at + 3 <= |v| && at + 3 + v[at + 2] <= |v|
    && c == Class(v[at], FromOctet(v[at + 1]), v[at + 3..at + 3 + v[at + 2]])
  }

  lemma StandsIffRead(v: seq<byte>, at: nat, c: Class, rest: seq<byte>)
    ensures StandsAt(v, at, c, rest) <==> ReadAt(v, at, c) && v[at + 3 + v[at + 2]..] == rest
  {
  }

  /** The encoding of classes begins with the first one's. */
  lemma {:induction false} EncodedHead(v: seq<byte>, at: nat, cs: seq<Class>)
    requires at <= |v| && cs != [] && Encodable(cs)
    ensures v[at..] == EncodeClasses(cs)
       <==> ReadAt(v, at, cs[0]) && v[at + 3 + v[at + 2]..] == EncodeClasses(cs[1..])
  {
    ClassStands(v, at, cs[0], EncodeClasses(cs[1..]));
    StandsIffRead(v, at, cs[0], EncodeClasses(cs[1..]));
  }

  /** The classes are the encoded ones from `at` on. */
  ghost predicate Spelled(v: seq<byte>, at: nat, k: nat, cs: seq<Class>)
    requires at <= |v|
  {
    |cs| == k && Encodable(cs) && v[at..] == EncodeClasses(cs)
  }

  lemma {:induction false} SpelledHead(v: seq<byte>, at: nat, k: nat, cs: seq<Class>)
    requires at <= |v| && k > 0 && cs != []
    ensures Spelled(v, at, k, cs)
       <==> ReadAt(v, at, cs[0]) && Spelled(v, at + 3 + v[at + 2], k - 1, cs[1..])
  {
    EncodableHead(cs);
    if Encodable(cs) {
      EncodedHead(v, at, cs);
    }
  }

  /** The walk finds the classes if and only if the value is their encoding. */
  lemma {:induction false} ClassesIffEncoded(v: seq<byte>, at: nat, k: nat, cs: seq<Class>)
    requires at <= |v|
    ensures ClassesAt(v, at, k) == Some(cs) <==> Spelled(v, at, k, cs)
    decreases k
  {
    if k > 0 && cs != [] {
      HeadOfClasses(v, at, k, cs);
      SpelledHead(v, at, k, cs);
      if ReadAt(v, at, cs[0]) {
        ClassesIffEncoded(v, at + 3 + v[at + 2], k - 1, cs[1..]);
      }
    } else if k > 0 {
      NotEmpty(v, at, k);
    }
  }

  lemma EncodableHead(cs: seq<Class>)
    requires cs != []
    ensures Encodable(cs) <==> ClassEncodable(cs[0]) && Encodable(cs[1..])
  {
    assert cs == [cs[0]] + cs[1..];
  }

  lemma NotEmpty(v: seq<byte>, at: nat, k: nat)
    requires at <= |v| && k > 0
    ensures ClassesAt(v, at, k) != Some([])
  {
  }

  lemma HeadOfClasses(v: seq<byte>, at: nat, k: nat, cs: seq<Class>)
    requires at <= |v| && k > 0 && cs != []
    ensures ClassesAt(v, at, k) == Some(cs)
       <==> ReadAt(v, at, cs[0]) && ClassesAt(v, at + 3 + v[at + 2], k - 1) == Some(cs[1..])
  {
    if at + 3 <= |v| && at + 3 + v[at + 2] <= |v| {
      var c := Class(v[at], FromOctet(v[at + 1]), v[at + 3..at + 3 + v[at + 2]]);
      var rest := ClassesAt(v, at + 3 + v[at + 2], k - 1);
      if rest.Some? {
        assert ([c] + rest.value)[0] == c && ([c] + rest.value)[1..] == rest.value;
      }
      assert cs == [cs[0]] + cs[1..];
    }
  }

  // ----- the radio's fields

  /** What the agent's fixed-size structures hold. */
  predicate Storable(cs: seq<Class>) {
    && |cs| <= MAX_CLASSES
    && forall i :: 0 <= i < |cs| ==> |cs[i].channels| <= MAX_CHANNELS
  }

  /** basic_caps. */
  function EncodeRadio(r: Radio): seq<byte>
    requires Storable(r.classes)
  {
    r.ruid + [r.maxBss, |r.classes|] + EncodeClasses(r.classes)
  }

  /** The classes radio_caps_at takes from `at` on, at most `left` of them. */
  function DecodeClasses(v: seq<byte>, at: nat, left: nat): (r: seq<Class>)
    requires at <= |v|
    ensures |r| <= left && forall i :: 0 <= i < |r| ==> |r[i].channels| <= MAX_CHANNELS
    decreases left
  {
    if left > 0 && at + 3 <= |v| && at + 3 + v[at + 2] <= |v| then
      [Class(v[at], FromOctet(v[at + 1]), v[at + 3..at + 3 + Min(v[at + 2], MAX_CHANNELS)])]
      + DecodeClasses(v, at + 3 + v[at + 2], left - 1)
    else []
  }

  function DecodeRadio(v: seq<byte>): (r: Radio)
    requires HEADER <= |v|
    ensures Storable(r.classes)
  {
    Radio(v[..6], v[6], DecodeClasses(v, HEADER, Min(v[7], MAX_CLASSES)))
  }

  /** The value is well formed: as many classes as it says, and nothing after them. */
  predicate WellFormed(v: seq<byte>) {
    HEADER <= |v| && ClassesAt(v, HEADER, v[7]).Some?
  }

  /** On a well-formed value that fits, the decoder takes the classes the grammar gives. */
  lemma {:induction false} DecodeIsWalk(v: seq<byte>, at: nat, k: nat)
    requires at <= |v| && ClassesAt(v, at, k).Some?
    requires forall i :: 0 <= i < |ClassesAt(v, at, k).value| ==>
               |ClassesAt(v, at, k).value[i].channels| <= MAX_CHANNELS
    ensures DecodeClasses(v, at, k) == ClassesAt(v, at, k).value
    decreases k
  {
    if k > 0 {
      var cs := ClassesAt(v, at, k).value;
      HeadOfClasses(v, at, k, cs);
      assert |cs[0].channels| <= MAX_CHANNELS;
      assert cs == [cs[0]] + cs[1..];
      DecodeIsWalk(v, at + 3 + v[at + 2], k - 1);
    }
  }

  lemma RadioLayout(r: Radio)
    requires Storable(r.classes)
    ensures var v := EncodeRadio(r);
            && HEADER <= |v| && v[..6] == r.ruid && v[6] == r.maxBss && v[7] == |r.classes|
            && v[HEADER..] == EncodeClasses(r.classes)
  {
  }

  /** From `at` to the end, octet by octet: each class, its EIRP in two's complement, its count of channels, these. */
  ghost predicate ClassOctets(v: seq<byte>, at: nat, cs: seq<Class>)
    requires at <= |v|
    decreases |cs|
  {
    if cs == [] then at == |v|
    else
      var n := |cs[0].channels|;
      && at + 3 + n <= |v| && v[at] == cs[0].kind && v[at + 2] == n && v[at + 3..at + 3 + n] == cs[0].channels
      && v[at + 1] == (if cs[0].maxEirp >= 0 then cs[0].maxEirp else 256 + cs[0].maxEirp)
      && ClassOctets(v, at + 3 + n, cs[1..])
  }

  lemma {:induction false} OctetsIffEncoded(v: seq<byte>, at: nat, cs: seq<Class>)
    requires at <= |v|
    ensures ClassOctets(v, at, cs) <==> Encodable(cs) && v[at..] == EncodeClasses(cs)
    decreases |cs|
  {
    if cs != [] {
      EncodableHead(cs);
      var end := at + 3 + |cs[0].channels|;
      if end <= |v| {
        OctetsIffEncoded(v, end, cs[1..]);
      }
      if ClassEncodable(cs[0]) && Encodable(cs[1..]) {
        ClassStands(v, at, cs[0], EncodeClasses(cs[1..]));
      }
    }
  }

  /** The encoder's value, octet by octet. */
  lemma {:induction false} RadioOctets(r: Radio)
    requires Storable(r.classes)
    ensures var v := EncodeRadio(r);
            && 8 <= |v| && v[..6] == r.ruid && v[6] == r.maxBss && v[7] == |r.classes| && ClassOctets(v, 8, r.classes)
  {
    RadioLayout(r);
    OctetsIffEncoded(EncodeRadio(r), 8, r.classes);
  }

  function Signed(b: int): int {
    if b <= 127 then b else b - 256
  }

  /** What a decoder takes from `at` on, well-formed or not: whole classes while `left` allows, 32 channels of each. */
  ghost predicate TakesFrom(v: seq<byte>, at: nat, left: nat, cs: seq<Class>)
    requires at <= |v|
    decreases |cs|
  {
    if left == 0 || at + 3 > |v| || at + 3 + v[at + 2] > |v| then cs == []
    else
      && cs != [] && cs[0].kind == v[at] && cs[0].maxEirp == Signed(v[at + 1])
      && cs[0].channels == v[at + 3..at + 3 + if v[at + 2] <= 32 then v[at + 2] else 32]
      && TakesFrom(v, at + 3 + v[at + 2], left - 1, cs[1..])
  }

  lemma {:induction false} TakenExactly(v: seq<byte>, at: nat, left: nat, cs: seq<Class>)
    requires at <= |v|
    ensures DecodeClasses(v, at, left) == cs <==> TakesFrom(v, at, left, cs)
    decreases left
  {
    if left > 0 && at + 3 <= |v| && at + 3 + v[at + 2] <= |v| {
      var end, all := at + 3 + v[at + 2], DecodeClasses(v, at, left);
      var rest := DecodeClasses(v, end, left - 1);
      assert all[1..] == rest;
      if cs != [] {
        TakenExactly(v, end, left - 1, cs[1..]);
        assert cs == [cs[0]] + cs[1..];
      }
    }
  }

  /** The decoder, octet by octet, on any value with a header. */
  lemma {:induction false} DecodedExactly(v: seq<byte>, r: Radio)
    requires 8 <= |v|
    ensures DecodeRadio(v) == r <==>
              r.ruid == v[..6] && r.maxBss == v[6] && TakesFrom(v, 8, if v[7] <= 8 then v[7] else 8, r.classes)
  {
    TakenExactly(v, 8, Min(v[7], MAX_CLASSES), r.classes);
  }

  /** Encoding then decoding gives back every radio field. */
  lemma {:induction false} DecodeEncoded(r: Radio)
    requires Storable(r.classes)
    ensures HEADER <= |EncodeRadio(r)| && DecodeRadio(EncodeRadio(r)) == r
  {
    var v := EncodeRadio(r);
    RadioLayout(r);
    ClassesIffEncoded(v, HEADER, |r.classes|, r.classes);
    DecodeIsWalk(v, HEADER, |r.classes|);
  }

  /** Decoding then encoding gives back the value exactly when it is well formed and fits. */
  lemma {:induction false} EncodeDecodedIff(v: seq<byte>)
    requires HEADER <= |v|
    ensures EncodeRadio(DecodeRadio(v)) == v <==> WellFormed(v) && Storable(ClassesAt(v, HEADER, v[7]).value)
  {
    var r := DecodeRadio(v);
    RadioLayout(r);
    if EncodeRadio(r) == v {
      ClassesIffEncoded(v, HEADER, v[7], r.classes);
    }
    if WellFormed(v) && Storable(ClassesAt(v, HEADER, v[7]).value) {
      var cs := ClassesAt(v, HEADER, v[7]).value;
      ClassesIffEncoded(v, HEADER, v[7], cs);
      DecodeIsWalk(v, HEADER, v[7]);
      assert v == v[..6] + [v[6], v[7]] + v[HEADER..];
    }
  }

  lemma {:induction false} EncodeClassesSnoc(cs: seq<Class>, c: Class)
    requires Encodable(cs) && ClassEncodable(c)
    ensures Encodable(cs + [c]) && EncodeClasses(cs + [c]) == EncodeClasses(cs) + EncodeClass(c)
    decreases |cs|
  {
    if cs == [] {
      assert cs + [c] == [c] && [c][1..] == [];
    } else {
      assert (cs + [c])[0] == cs[0] && (cs + [c])[1..] == cs[1..] + [c];
      EncodeClassesSnoc(cs[1..], c);
      Associative(EncodeClass(cs[0]), EncodeClasses(cs[1..]), EncodeClass(c));
    }
  }

  /** basic_caps: the loop over the classes. */
  method PutBasicCaps(r: Radio) returns (v: seq<byte>)
    requires Storable(r.classes)
    ensures v == EncodeRadio(r)
  {
    v := r.ruid + [r.maxBss, |r.classes|];
    ghost var head := v;
    for i := 0 to |r.classes|
      invariant v == head + EncodeClasses(r.classes[..i])
    {
      var c := r.classes[i];
      EncodeClassesSnoc(r.classes[..i], c);
      assert r.classes[..i + 1] == r.classes[..i] + [c];
      v := v + [c.kind, ToOctet(c.maxEirp), |c.channels|];
      v := v + c.channels;
    }
    assert r.classes[..|r.classes|] == r.classes;
  }

  /** The classes taken so far and those still to be taken are all of them. */
  ghost predicate Taken(v: seq<byte>, at: nat, classes: seq<Class>, left: nat, whole: seq<Class>) {
    at <= |v| && classes + DecodeClasses(v, at, left) == whole
  }

  /** There is another class to take. */
  predicate More(v: seq<byte>, at: nat, left: nat) {
    left > 0 && at + 3 <= |v| && at + 3 + v[at + 2] <= |v|
  }

  lemma TakenEnd(v: seq<byte>, at: nat, classes: seq<Class>, left: nat, whole: seq<Class>)
    requires Taken(v, at, classes, left, whole) && !More(v, at, left)
    ensures classes == whole
  {
    assert classes + [] == classes;
  }

  lemma TakenNext(v: seq<byte>, at: nat, classes: seq<Class>, left: nat, c: Class, whole: seq<Class>)
    requires Taken(v, at, classes, left, whole) && More(v, at, left)
    requires c == Class(v[at], FromOctet(v[at + 1]), v[at + 3..at + 3 + Min(v[at + 2], MAX_CHANNELS)])
    ensures Taken(v, at + 3 + v[at + 2], classes + [c], left - 1, whole)
  {
    var rest := DecodeClasses(v, at + 3 + v[at + 2], left - 1);
    assert DecodeClasses(v, at, left) == [c] + rest;
    assert classes + ([c] + rest) == (classes + [c]) + rest;
  }

  /** One class, and where the next one begins. */
  method TakeClass(v: seq<byte>, at: nat, left: nat, classes: seq<Class>, ghost whole: seq<Class>)
    returns (more: seq<Class>, next: nat)
    requires More(v, at, left) && Taken(v, at, classes, left, whole)
    ensures |more| == |classes| + 1 && Taken(v, next, more, left - 1, whole)
  {
    var n := if v[at + 2] < MAX_CHANNELS then v[at + 2] else MAX_CHANNELS;
    var c := Class(v[at], FromOctet(v[at + 1]), v[at + 3..at + 3 + n]);
    TakenNext(v, at, classes, left, c, whole);
    more, next := classes + [c], at + 3 + v[at + 2];
  }

  /** radio_caps_at's walk over the classes: it never reads past the value's end. */
  method TakeClasses(v: seq<byte>, start: nat, count: nat) returns (classes: seq<Class>)
    requires start <= |v|
    ensures classes == DecodeClasses(v, start, count)
  {
    var at, left := start, count;
    classes := [];
    ghost var whole := DecodeClasses(v, start, count);
    assert classes + whole == whole;
    while More(v, at, left)
      invariant Taken(v, at, classes, left, whole)
      decreases left
    {
      classes, at := TakeClass(v, at, left, classes, whole);
      left := left - 1;
    }
    TakenEnd(v, at, classes, left, whole);
  }

  /** radio_caps_at on a value: the radio it describes, as much of it as there is room for. */
  method TakeCaps(v: seq<byte>) returns (r: Radio)
    requires HEADER <= |v|
    ensures r == DecodeRadio(v)
  {
    var classes := TakeClasses(v, HEADER, Min(v[7], MAX_CLASSES));
    r := Radio(v[..6], v[6], classes);
  }
}
