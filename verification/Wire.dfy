/**
  Keys, lengths and skipping in the Protocol Buffers wire format, as nanopb reads and writes
  them (proto/nanopb/pb_decode.c:265-318, proto/nanopb/pb_encode.c:675-722).
 */
module Wire {
  import opened Options
  import opened Streams
  import opened Varint
  import opened VarintLoops

  // ----- what decoders see only depends on the bytes they take -----

  lemma {:induction false} EndLocal(s: Bytes, rest: Bytes)
    requires End(s).Some?
    ensures End(s + rest) == End(s)
  {
    if s[0] >= 0x80 {
      EndLocal(s[1..], rest);
      assert (s + rest)[1..] == s[1..] + rest;
    }
  }

  lemma Dec64Local(s: Bytes, rest: Bytes)
    requires Dec64(s).Some?
    ensures Dec64(s + rest) == Dec64(s)
  {
    EndLocal(s, rest);
    var k := End(s).value;
    assert (s + rest)[..k + 1] == s[..k + 1];
  }

  lemma Dec32Local(s: Bytes, rest: Bytes)
    requires Dec32(s).Some?
    ensures Dec32(s + rest) == Dec32(s)
  {
    Dec64Local(s, rest);
    var n := Dec64(s).value.1;
    assert forall j :: 0 <= j < n ==> (s + rest)[j] == s[j];
  }

  // ----- lengths -----

  /** A size as a machine word, written out bit by bit. */
  function Size32(n: nat): bv32 {
    if n == 0 then 0 else Twice(Size32(n / 2), n % 2 == 1)
  }

  function Nat(x: bv32): nat {
    x as nat
  }

  /** One more bit at the bottom. */
  function Twice(x: bv32, odd: bool): bv32 {
    if odd then (x << 1) | 1 else x << 1
  }

  lemma TwiceOdd(x: bv32)
    requires x < 0x80000000
    ensures ((x << 1) | 1) as nat == 2 * (x as nat) + 1
  {
  }

  lemma TwiceEven(x: bv32)
    requires x < 0x80000000
    ensures (x << 1) as nat == 2 * (x as nat)
  {
  }

  lemma TopBitClear(x: bv32)
    requires x as nat < 0x80000000
    ensures x < 0x80000000
  {
  }

  lemma TwiceValue(x: bv32, odd: bool)
    requires Nat(x) < 0x80000000
    ensures Nat(Twice(x, odd)) == 2 * Nat(x) + if odd then 1 else 0
  {
    TopBitClear(x);
    if odd { TwiceOdd(x); } else { TwiceEven(x); }
  }

  lemma ZeroValue()
    ensures Nat(0) == 0
  {
  }

  lemma {:induction false} Size32Value(n: nat)
    requires n < 0x1_0000_0000
    ensures Nat(Size32(n)) == n
  {
    hide Nat;
    hide Twice;
    ZeroValue();
    if n != 0 {
      Size32Value(n / 2);
      TwiceValue(Size32(n / 2), n % 2 == 1);
    }
  }

  lemma LowOfSize(x: bv32)
    ensures Low(x as bv64) == x && x as bv64 < 0x1_0000_0000
  {
  }

  function SizeBytes(x: bv32): Bytes {
    Enc(x as bv64)
  }

  function LengthBytes(n: nat): Bytes {
    SizeBytes(Size32(n))
  }

  /** A length at the front of s, and what it costs. */
  function DecLength(s: Bytes): (r: Option<(nat, nat)>)
    ensures r.Some? ==> 1 <= r.value.1 <= |s|
  {
    match Dec32(s)
    case None => None
    case Some((v, k)) => Some((Nat(v), k))
  }

  lemma SizeRoundTrip(x: bv32, rest: Bytes)
    ensures Dec32(SizeBytes(x) + rest) == Some((x, |SizeBytes(x)|))
  {
    hide Enc;
    hide Dec32;
    hide Low;
    LowOfSize(x);
    RoundTrip32(x as bv64, rest);
  }

  lemma LengthOfSize(x: bv32, rest: Bytes)
    ensures DecLength(SizeBytes(x) + rest) == Some((Nat(x), |SizeBytes(x)|))
  {
    SizeRoundTrip(x, rest);
    hide Dec32;
    hide SizeBytes;
    hide Nat;
  }

  lemma LengthRoundTrip(n: nat, rest: Bytes)
    requires n < 0x1_0000_0000
    ensures DecLength(LengthBytes(n) + rest) == Some((n, |LengthBytes(n)|))
  {
    hide Size32;
    hide DecLength;
    hide SizeBytes;
    hide Nat;
    Size32Value(n);
    LengthOfSize(Size32(n), rest);
  }

  /** Length-delimited bytes, as written. */
  function EncData(d: Bytes): Bytes {
    LengthBytes(|d|) + d
  }

  /** Length-delimited bytes at the front of s: the bytes, and what they cost. */
  function DecData(s: Bytes): (r: Option<(Bytes, nat)>)
    ensures r.Some? ==> 1 <= r.value.1 <= |s|
  {
    if DecLength(s).None? then None
    else
      var (n, k) := DecLength(s).value;
      var cost: nat := k + n;
      if cost <= |s| then Some((s[k..cost], cost)) else None
  }

  lemma DataRoundTrip(d: Bytes, rest: Bytes)
    requires |d| < 0x1_0000_0000
    ensures DecData(EncData(d) + rest) == Some((d, |EncData(d)|))
  {
    hide LengthBytes;
    hide DecLength;
    LengthRoundTrip(|d|, d + rest);
    var e := LengthBytes(|d|);
    assert (e + d) + rest == e + (d + rest);
    assert ((e + d) + rest)[|e|..|e| + |d|] == d;
  }

  lemma DecLengthLocal(s: Bytes, rest: Bytes)
    requires DecLength(s).Some?
    ensures DecLength(s + rest) == DecLength(s)
  {
    Dec32Local(s, rest);
    hide Dec32;
    hide Nat;
  }

  lemma DecDataLocal(s: Bytes, rest: Bytes)
    requires DecData(s).Some?
    ensures DecData(s + rest) == DecData(s)
  {
    hide DecLength;
    DecLengthLocal(s, rest);
    var (n, k) := DecLength(s).value;
    assert (s + rest)[k..k + n] == s[k..k + n];
  }

  // ----- keys -----

  datatype WireType = VarintType | Fixed64Type | DataType | Fixed32Type | OtherType

  function TypeOf(key: bv32): WireType {
    var w := key & 7;
    if w == 0 then VarintType else if w == 1 then Fixed64Type else if w == 2 then DataType
      else if w == 5 then Fixed32Type else OtherType
  }

  function TagOf(key: bv32): nat {
    (key >> 3) as nat
  }

  /** pb_decode_tag: the field number, the wire type, and what the key costs. */
  function DecKey(s: Bytes): (r: Option<(nat, WireType, nat)>)
    ensures r.Some? ==> 1 <= r.value.2 <= |s|
  {
    match Dec32(s)
    case None => None
    case Some((key, k)) => Some((TagOf(key), TypeOf(key), k))
  }

  /** The key of field `tag` in wire type w, a number below 8. */
  function KeyWord(tag: bv32, w: bv32): bv32 {
    (tag << 3) | w
  }

  function KeyBytes(tag: bv32, w: bv32): Bytes {
    SizeBytes(KeyWord(tag, w))
  }

  lemma KeyWordBits(tag: bv32, w: bv32)
    requires tag < 0x2000_0000 && w < 8
    ensures KeyWord(tag, w) >> 3 == tag
    ensures KeyWord(tag, w) & 7 == w && w & 7 == w
  {
  }

  lemma SameType(a: bv32, b: bv32)
    requires a & 7 == b & 7
    ensures TypeOf(a) == TypeOf(b)
  {
  }

  lemma SameTag(key: bv32, tag: bv32)
    requires key >> 3 == tag
    ensures TagOf(key) == tag as nat
  {
  }

  lemma KeyWordParts(tag: bv32, w: bv32)
    requires tag < 0x2000_0000 && w < 8
    ensures TagOf(KeyWord(tag, w)) == tag as nat && TypeOf(KeyWord(tag, w)) == TypeOf(w)
  {
    hide *;
    KeyWordBits(tag, w);
    SameType(KeyWord(tag, w), w);
    SameTag(KeyWord(tag, w), tag);
  }

  /** The wire types the format numbers 0, 1, 2 and 5; the others are refused. */
  lemma WireTypes(w: bv32)
    requires w < 8
    ensures TypeOf(w) ==
      match w case 0 => VarintType case 1 => Fixed64Type case 2 => DataType case 5 => Fixed32Type case _ => OtherType
  {
  }

  /** A key reads as its field number and wire type, up to the greatest field number there is. */
  lemma KeyReads(tag: bv32, w: bv32, rest: Bytes)
    requires tag < 0x2000_0000 && w < 8
    ensures DecKey(KeyBytes(tag, w) + rest) == Some((tag as nat, TypeOf(w), |KeyBytes(tag, w)|))
  {
    hide SizeBytes;
    hide Dec32;
    hide TagOf;
    hide TypeOf;
    hide KeyWord;
    SizeRoundTrip(KeyWord(tag, w), rest);
    KeyWordParts(tag, w);
  }

  lemma DecKeyLocal(s: Bytes, rest: Bytes)
    requires DecKey(s).Some?
    ensures DecKey(s + rest) == DecKey(s)
  {
    Dec32Local(s, rest);
  }

  method DecodeTag(input: IStream) returns (ok: bool, wireType: WireType, tag: nat, eof: bool)
    requires input.Valid()
    modifies input
    ensures input.Valid()
    ensures ok == DecKey(old(input.Rest())).Some?
    ensures ok ==> var (t, w, n) := DecKey(old(input.Rest())).value;
      tag == t && wireType == w && input.Rest() == old(input.Rest())[n..]
    ensures eof == (old(input.Rest()) == [])
  {
    hide Dec32;
    var temp;
    ok, temp, eof := DecodeVarint32(input);
    if !ok {
      return false, VarintType, 0, eof;
    }
    return true, TypeOf(temp), TagOf(temp), eof;
  }

  // ----- skipping -----

  /** pb_skip_field: what a field of this wire type costs. A varint is skipped whatever its length. */
  function Skip(w: WireType, s: Bytes): (r: Option<nat>)
    ensures r.Some? ==> 1 <= r.value <= |s|
  {
    match w
    case VarintType => (match End(s) case None => None case Some(k) => Some(k + 1))
    case Fixed64Type => if 8 <= |s| then Some(8) else None
    case DataType => (match DecData(s) case None => None case Some((_, n)) => Some(n))
    case Fixed32Type => if 4 <= |s| then Some(4) else None
    case OtherType => None
  }

  /** Bytes that all say another one follows, and one that does not. */
  ghost predicate IsVarint(s: Bytes) {
    s != [] && s[|s| - 1] < 0x80 && forall i :: 0 <= i < |s| - 1 ==> s[i] >= 0x80
  }

  /** What is skipped: a varint of any length, eight bytes, a length and its bytes, four bytes; nothing else is. */
  lemma SkipMeans(w: bv32, body: Bytes, rest: Bytes)
    requires w < 8
    ensures w == 0 && IsVarint(body) ==> Skip(TypeOf(w), body + rest) == Some(|body|)
    ensures w == 1 && |body| == 8 ==> Skip(TypeOf(w), body + rest) == Some(8)
    ensures w == 2 && |body| < 0x1_0000_0000 ==> Skip(TypeOf(w), EncData(body) + rest) == Some(|EncData(body)|)
    ensures w == 5 && |body| == 4 ==> Skip(TypeOf(w), body + rest) == Some(4)
    ensures (w == 1 && |body| < 8) || (w == 5 && |body| < 4) ==> Skip(TypeOf(w), body) == None
    ensures w == 3 || w == 4 || w == 6 || w == 7 ==> Skip(TypeOf(w), body) == None
  {
    WireTypes(w);
    hide TypeOf;
    hide EncData;
    hide DecData;
    if w == 0 && IsVarint(body) {
      VarintEnds(body, rest);
    } else if w == 2 && |body| < 0x1_0000_0000 {
      DataRoundTrip(body, rest);
    }
  }

  lemma VarintEnds(s: Bytes, rest: Bytes)
    requires IsVarint(s)
    ensures End(s + rest) == Some(|s| - 1)
  {
    var t := s + rest;
    assert t[|s| - 1] < 0x80 && forall i :: 0 <= i < |s| - 1 ==> t[i] >= 0x80;
    var k := End(t);
  }

  lemma SkipLocal(w: WireType, s: Bytes, rest: Bytes)
    requires Skip(w, s).Some?
    ensures Skip(w, s + rest) == Skip(w, s)
  {
    match w
    case VarintType => EndLocal(s, rest);
    case DataType => DecDataLocal(s, rest);
    case _ =>
  }

  method SkipVarint(input: IStream) returns (ok: bool)
    requires input.Valid()
    modifies input
    ensures input.Valid()
    ensures ok == Skip(VarintType, old(input.Rest())).Some?
    ensures ok ==> input.Rest() == old(input.Rest())[Skip(VarintType, old(input.Rest())).value..]
  {
    hide Enc;
    hide Word;
    hide Dec64;
    hide Dec32;
    hide End;
    ghost var s := input.Rest();
    ghost var i: nat := 0;
    while true
      invariant input.Valid() && i <= |s| && input.Rest() == s[i..] && Marked(s, i)
      decreases |s| - i
    {
      EndAt(s, i);
      var got, bytes := input.Read(1);
      if !got {
        return false;
      }
      Advanced(s, i, bytes[0], input.Rest());
      ByteTests(bytes[0]);
      if bytes[0] & 0x80 == 0 {
        return true;
      }
      i := i + 1;
    }
  }

  lemma SkipOfLength(s: Bytes)
    ensures Dec32(s) == None ==> Skip(DataType, s) == None
    ensures Dec32(s).Some? ==> var (v, k) := Dec32(s).value;
      Skip(DataType, s) == if k + Nat(v) <= |s| then Some(k + Nat(v)) else None
  {
  }

  method SkipString(input: IStream) returns (ok: bool)
    requires input.Valid()
    modifies input
    ensures input.Valid()
    ensures ok == Skip(DataType, old(input.Rest())).Some?
    ensures ok ==> input.Rest() == old(input.Rest())[Skip(DataType, old(input.Rest())).value..]
  {
    hide Dec32;
    hide Skip;
    hide Nat;
    SkipOfLength(input.Rest());
    var length, eof, skipped;
    ok, length, eof := DecodeVarint32(input);
    if ok {
      ok, skipped := input.Read(Nat(length));
    }
  }

  method SkipField(input: IStream, wireType: WireType) returns (ok: bool)
    requires input.Valid()
    modifies input
    ensures input.Valid()
    ensures ok == Skip(wireType, old(input.Rest())).Some?
    ensures ok ==> input.Rest() == old(input.Rest())[Skip(wireType, old(input.Rest())).value..]
  {
    var skipped;
    match wireType
    case VarintType => ok := SkipVarint(input);
    case Fixed64Type => ok, skipped := input.Read(8);
    case DataType => ok := SkipString(input);
    case Fixed32Type => ok, skipped := input.Read(4);
    case OtherType => ok := false;
  }
}
