/**
  The nine-field WsMessage (proto/nanopb/message.pb.h:29-46, 76-96) and what nanopb's encoder
  and decoder make of it: which fields are written, in which form, and what a list of fields in
  any order, with unknown fields in between, reads back as.
 */
module WsMessage {
  import opened Options
  import opened Streams
  import opened Varint
  import opened Wire

  /** Strings are the bytes before the terminating NUL; the two int64 fields are their 64 bits. */
  datatype Message = Message(
    kind: bv32, n: bv64, from: Bytes, to: Bytes, content: Bytes, timestamp: bv64, payload: Bytes, extra: Bytes,
    stanza: Bytes)

  const ZERO := Message(0, 0, [], [], [], 0, [], [], [])

  type Tag = t: nat | 1 <= t <= 9 witness 1

  /** How a field is declared, with the size of its array. */
  datatype Kind = Enum | Int64 | Text(cap: nat) | Blob(cap: nat)

  function KindOf(t: Tag): Kind {
    if t == 1 then Enum else if t == 2 || t == 6 then Int64
    else if t == 3 || t == 4 then Text(36) else if t == 5 then Text(512)
    else if t == 7 then Blob(256) else if t == 8 then Text(128) else Text(64)
  }

  datatype Value = Num(v: bv64) | Data(d: Bytes)

  function Get(m: Message, t: Tag): Value {
    if t == 1 then Num(m.kind as bv64) else if t == 2 then Num(m.n) else if t == 3 then Data(m.from)
    else if t == 4 then Data(m.to) else if t == 5 then Data(m.content) else if t == 6 then Num(m.timestamp)
    else if t == 7 then Data(m.payload) else if t == 8 then Data(m.extra) else Data(m.stanza)
  }

  predicate Suits(k: Kind, v: Value) {
    match k
    case Enum => v.Num? && v.v < 0x1_0000_0000
    case Int64 => v.Num?
    case Text(_) => v.Data?
    case Blob(_) => v.Data?
  }

  function Set(m: Message, t: Tag, v: Value): Message
    requires Suits(KindOf(t), v)
  {
    if t == 1 then m.(kind := Low(v.v)) else if t == 2 then m.(n := v.v) else if t == 3 then m.(from := v.d)
    else if t == 4 then m.(to := v.d) else if t == 5 then m.(content := v.d) else if t == 6 then m.(timestamp := v.v)
    else if t == 7 then m.(payload := v.d) else if t == 8 then m.(extra := v.d) else m.(stanza := v.d)
  }

  function Default(t: Tag): Value {
    if KindOf(t).Enum? || KindOf(t).Int64? then Num(0) else Data([])
  }

  // ----- one field -----

  predicate Fits(k: Kind, v: Value) {
    match k
    case Text(cap) => v.Data? && |v.d| < cap
    case Blob(cap) => v.Data? && |v.d| <= cap
    case _ => true
  }

  predicate NulFree(d: Bytes) {
    forall i :: 0 <= i < |d| ==> d[i] != 0
  }

  /** A C string ends at its first NUL. */
  function CString(d: Bytes): (s: Bytes)
    ensures NulFree(s) && s <= d
    ensures |s| < |d| ==> d[|s|] == 0
  {
    if d == [] || d[0] == 0 then [] else [d[0]] + CString(d[1..])
  }

  /** The key of a field, with the wire type its kind is written in. */
  function Key(t: Tag): bv64 {
    if t == 1 then 0x08 else if t == 2 then 0x10 else if t == 3 then 0x1A else if t == 4 then 0x22
      else if t == 5 then 0x2A
    else if t == 6 then 0x30 else if t == 7 then 0x3A else if t == 8 then 0x42 else 0x4A
  }

  function ValueBytes(v: Value): Bytes {
    match v
    case Num(x) => Enc(x)
    case Data(d) => EncData(d)
  }

  function FieldBytes(m: Message, t: Tag): Bytes {
    Enc(Key(t)) + ValueBytes(Get(m, t))
  }

  /** pb_dec_varint, pb_dec_string and pb_dec_bytes: the value and what it costs. */
  function DecValue(k: Kind, w: WireType, s: Bytes): (r: Option<(Value, nat)>)
    ensures r.Some? ==> Suits(k, r.value.0) && 1 <= r.value.1 <= |s|
  {
    match k
    case Enum =>
      if w != VarintType then None
      else (match Dec64(s)
            case None => None
            case Some((v, n)) => if v >= 0x1_0000_0000 then None else Some((Num(v), n)))
    case Int64 =>
      if w != VarintType then None
      else (match Dec64(s) case None => None case Some((v, n)) => Some((Num(v), n)))
    case Text(cap) =>
      if w != DataType then None
      else (match DecData(s)
            case None => None
            case Some((d, n)) => if |d| >= cap then None else Some((Data(CString(d)), n)))
    case Blob(cap) =>
      if w != DataType then None
      else (match DecData(s) case None => None case Some((d, n)) => if |d| > cap then None else Some((Data(d), n)))
  }

  /** One field, known or not, at the front of s: the message afterwards and what it costs. */
  function DecField(m: Message, s: Bytes): (r: Option<(Message, nat)>)
    ensures r.Some? ==> 1 <= r.value.1 <= |s|
  {
    match DecKey(s)
    case None => None
    case Some((tag, w, k)) =>
      if tag == 0 then None
      else if tag > 9 then (match Skip(w, s[k..]) case None => None case Some(n) => Some((m, k + n)))
      else (match DecValue(KindOf(tag), w, s[k..]) case None => None case Some((v, n)) => Some((Set(m, tag, v), k + n)))
  }

  /** pb_decode_inner: field after field until the input is used up. */
  function Decode(m: Message, s: Bytes): Option<Message>
    decreases |s|
  {
    if s == [] then Some(m)
    else
      match DecField(m, s)
      case None => None
      case Some((m', n)) => Decode(m', s[n..])
  }

  // ----- the whole message -----

  /** What the encoder accepts: strings terminated inside their arrays, a payload that fits. */
  predicate Encodable(m: Message) {
    forall t: Tag :: 1 <= t <= 9 ==> Fits(KindOf(t), Get(m, t))
  }

  predicate NoNuls(m: Message) {
    NulFree(m.from) && NulFree(m.to) && NulFree(m.content) && NulFree(m.extra) && NulFree(m.stanza)
  }

  /** pb_encode: the fields in tag order, those with a default value left out. */
  function EncodeFrom(m: Message, t: nat): Bytes
    requires 1 <= t <= 10
    decreases 10 - t
  {
    if t == 10 then []
    else if Get(m, t) == Default(t) then EncodeFrom(m, t + 1)
    else FieldBytes(m, t) + EncodeFrom(m, t + 1)
  }

  function Encode(m: Message): Bytes {
    EncodeFrom(m, 1)
  }

  // ----- one field read back -----

  function TypeFor(t: Tag): WireType {
    if KindOf(t).Enum? || KindOf(t).Int64? then VarintType else DataType
  }

  lemma KeyParts(t: Tag)
    ensures Key(t) < 0x80 && TagOf(Low(Key(t))) == t && TypeOf(Low(Key(t))) == TypeFor(t)
  {
    if t == 1 { } else if t == 2 { } else if t == 3 { } else if t == 4 { } else if t == 5 { }
    else if t == 6 { } else if t == 7 { } else if t == 8 { } else { }
  }

  lemma KeyRoundTrip(t: Tag, rest: Bytes)
    ensures |Enc(Key(t))| == 1 && DecKey(Enc(Key(t)) + rest) == Some((t as nat, TypeFor(t), 1))
  {
    hide Key;
    hide Dec32;
    hide Enc;
    hide TagOf;
    hide TypeOf;
    hide Low;
    KeyParts(t);
    FirstOfEnc(Key(t));
    RoundTrip32(Key(t), rest);
  }

  /** What the encoder writes for a value, the decoder reads back, whatever follows. */
  lemma ValueRoundTrip(t: Tag, v: Value, rest: Bytes)
    requires Suits(KindOf(t), v) && Fits(KindOf(t), v) && (KindOf(t).Text? ==> NulFree(v.d))
    ensures DecValue(KindOf(t), TypeFor(t), ValueBytes(v) + rest) == Some((v, |ValueBytes(v)|))
  {
    match v
    case Num(x) => RoundTrip64(x, rest);
    case Data(d) =>
      DataRoundTrip(d, rest);
      if KindOf(t).Text? {
        CStringOfNulFree(d);
      }
  }

  lemma {:induction false} CStringOfNulFree(d: Bytes)
    requires NulFree(d)
    ensures CString(d) == d
  {
    if d != [] {
      CStringOfNulFree(d[1..]);
      assert d == [d[0]] + d[1..];
    }
  }

  lemma GetSuits(m: Message, t: Tag)
    ensures Suits(KindOf(t), Get(m, t))
  {
  }

  lemma GetNulFree(m: Message, t: Tag)
    requires NoNuls(m) && KindOf(t).Text?
    ensures Get(m, t).Data? && NulFree(Get(m, t).d)
  {
  }

  lemma FieldRoundTrip(m: Message, m': Message, t: Tag, rest: Bytes)
    requires Encodable(m) && NoNuls(m)
    ensures Suits(KindOf(t), Get(m, t))
    ensures DecField(m', FieldBytes(m, t) + rest) == Some((Set(m', t, Get(m, t)), |FieldBytes(m, t)|))
  {
    GetSuits(m, t);
    if KindOf(t).Text? { GetNulFree(m, t); }
    var v := ValueBytes(Get(m, t));
    var key := Enc(Key(t));
    KeyRoundTrip(t, v + rest);
    assert (key + v) + rest == key + (v + rest);
    assert ((key + v) + rest)[1..] == v + rest;
    ValueRoundTrip(t, Get(m, t), rest);
    hide Key;
    hide DecKey;
    hide DecValue;
    hide ValueBytes;
    hide Set;
    hide Get;
    hide Enc;
  }

  // ----- any order, with repetitions and unknown fields in between -----

  /** A well-formed field this message does not have. */
  ghost predicate IsUnknown(s: Bytes) {
    && DecKey(s).Some?
    && var (tag, w, k) := DecKey(s).value; tag > 9 && Skip(w, s[k..]) == Some(|s| - k)
  }

  lemma UnknownSkipped(m: Message, s: Bytes, rest: Bytes)
    requires IsUnknown(s)
    ensures DecField(m, s + rest) == Some((m, |s|))
  {
    hide DecKey;
    hide Skip;
    DecKeyLocal(s, rest);
    var (tag, w, k) := DecKey(s).value;
    SkipLocal(w, s[k..], rest);
    assert (s + rest)[k..] == s[k..] + rest;
  }

  /** Fields with other numbers, in every form the format has, are such; in no other form are they read. */
  lemma UnknownForms(tag: bv32, w: bv32, body: Bytes)
    requires 9 < tag < 0x2000_0000 && w < 8
    ensures w == 0 && IsVarint(body) ==> IsUnknown(KeyBytes(tag, w) + body)
    ensures w == 1 && |body| == 8 ==> IsUnknown(KeyBytes(tag, w) + body)
    ensures w == 2 && |body| < 0x1_0000_0000 ==> IsUnknown(KeyBytes(tag, w) + EncData(body))
    ensures w == 5 && |body| == 4 ==> IsUnknown(KeyBytes(tag, w) + body)
    ensures w == 3 || w == 4 || w == 6 || w == 7 || (w == 1 && |body| < 8) || (w == 5 && |body| < 4) ==>
      forall m :: DecField(m, KeyBytes(tag, w) + body) == None
  {
    var key := KeyBytes(tag, w);
    hide KeyBytes;
    hide DecKey;
    hide Skip;
    hide EncData;
    KeyReads(tag, w, body);
    KeyReads(tag, w, EncData(body));
    SkipMeans(w, body, []);
    assert body + [] == body && EncData(body) + [] == EncData(body);
    assert (key + body)[|key|..] == body && (key + EncData(body))[|key|..] == EncData(body);
    TagAbove(tag);
  }

  lemma TagAbove(tag: bv32)
    ensures tag > 9 ==> tag as nat > 9
    ensures tag == 0 ==> tag as nat == 0
  {
  }

  /** Field number 0 is refused, and so is a known field in another wire type than its own. */
  lemma WrongKeyRefused(m: Message, tag: bv32, w: bv32, rest: Bytes)
    requires tag <= 9 && w < 8 && (tag == 0 || w != if tag == 1 || tag == 2 || tag == 6 then 0 else 2)
    ensures DecField(m, KeyBytes(tag, w) + rest) == None
  {
    WireTypes(w);
    hide KeyBytes;
    hide DecKey;
    KeyReads(tag, w, rest);
    TagAbove(tag);
    TagUpTo9(tag);
    hide TypeOf;
  }

  lemma TagUpTo9(tag: bv32)
    requires tag <= 9
    ensures tag as nat <= 9
    ensures (tag == 1 <==> tag as nat == 1) && (tag == 2 <==> tag as nat == 2) && (tag == 6 <==> tag as nat == 6)
    ensures tag == 0 <==> tag as nat == 0
  {
  }

  /** The bytes of a string or payload field are taken exactly when its array holds them. */
  lemma DataFieldRead(m: Message, t: Tag, d: Bytes, rest: Bytes)
    requires (KindOf(t).Text? || KindOf(t).Blob?) && |d| < 0x1_0000_0000
    ensures DecField(m, Enc(Key(t)) + (EncData(d) + rest)) ==
      if t == 7 then
        if |d| <= 256 then Some((Set(m, t, Data(d)), 1 + |EncData(d)|)) else None
      else
        if |d| < Room(t) then Some((Set(m, t, Data(CString(d))), 1 + |EncData(d)|)) else None
  {
    hide Key;
    hide DecKey;
    hide Enc;
    hide EncData;
    hide DecData;
    hide Set;
    KeyRoundTrip(t, EncData(d) + rest);
    DataRoundTrip(d, rest);
    assert (Enc(Key(t)) + (EncData(d) + rest))[1..] == EncData(d) + rest;
  }

  /** The array sizes of the string fields. */
  function Room(t: Tag): nat {
    match t case 3 => 36 case 4 => 36 case 5 => 512 case 8 => 128 case 9 => 64 case _ => 0
  }

  /** A type above 32 bits is refused, any other number is taken whole. */
  lemma NumberFieldRead(m: Message, t: Tag, v: bv64, rest: Bytes)
    requires t == 1 || t == 2 || t == 6
    ensures DecField(m, Enc(Key(t)) + (Enc(v) + rest)) ==
      if t == 1 && v >= 0x1_0000_0000 then None
      else
        Some((if t == 1 then m.(kind := Low(v)) else if t == 2 then m.(n := v) else m.(timestamp := v), 1 + |Enc(v)|))
  {
    hide Key;
    hide DecKey;
    hide Enc;
    hide Dec64;
    KeyRoundTrip(t, Enc(v) + rest);
    RoundTrip64(v, rest);
    assert (Enc(Key(t)) + (Enc(v) + rest))[1..] == Enc(v) + rest;
  }

  datatype Chunk = Known(tag: nat) | Unknown(bytes: Bytes)

  ghost predicate ChunkOk(c: Chunk) {
    match c
    case Known(t) => 1 <= t <= 9
    case Unknown(s) => IsUnknown(s)
  }

  ghost predicate ChunksOk(cs: seq<Chunk>) {
    forall i :: 0 <= i < |cs| ==> ChunkOk(cs[i])
  }

  /** The fields of m named by the chunks, one after the other. */
  function Flatten(m: Message, cs: seq<Chunk>): Bytes
    requires forall i :: 0 <= i < |cs| && cs[i].Known? ==> 1 <= cs[i].tag <= 9
  {
    if cs == [] then []
    else (match cs[0] case Known(t) => FieldBytes(m, t) case Unknown(s) => s) + Flatten(m, cs[1..])
  }

  function Tags(cs: seq<Chunk>): set<nat> {
    set i | 0 <= i < |cs| && cs[i].Known? :: cs[i].tag
  }

  /** m with only the fields in `seen`. */
  function Masked(m: Message, seen: set<nat>): Message {
    Message(if 1 in seen then m.kind else 0, if 2 in seen then m.n else 0, if 3 in seen then m.from else [],
            if 4 in seen then m.to else [], if 5 in seen then m.content else [], if 6 in seen then m.timestamp else 0,
            if 7 in seen then m.payload else [], if 8 in seen then m.extra else [], if 9 in seen then m.stanza else [])
  }

  lemma LowOfKind(x: bv32)
    ensures Low(x as bv64) == x
  {
  }

  lemma SetMaskedKind(m: Message, seen: set<nat>)
    ensures Suits(KindOf(1), Get(m, 1)) && Set(Masked(m, seen), 1, Get(m, 1)) == Masked(m, seen + {1})
  {
    LowOfKind(m.kind);
  }

  lemma SetMaskedNumber(m: Message, seen: set<nat>, t: Tag)
    requires t == 2 || t == 6
    ensures Suits(KindOf(t), Get(m, t)) && Set(Masked(m, seen), t, Get(m, t)) == Masked(m, seen + {t})
  {
    if t == 2 { } else { assert t == 6; }
  }

  lemma SetMaskedText(m: Message, seen: set<nat>, t: Tag)
    requires t == 3 || t == 4 || t == 5
    ensures Suits(KindOf(t), Get(m, t)) && Set(Masked(m, seen), t, Get(m, t)) == Masked(m, seen + {t})
  {
    if t == 3 { } else if t == 4 { } else { assert t == 5; }
  }

  lemma SetMaskedTail(m: Message, seen: set<nat>, t: Tag)
    requires t == 7 || t == 8
    ensures Suits(KindOf(t), Get(m, t)) && Set(Masked(m, seen), t, Get(m, t)) == Masked(m, seen + {t})
  {
    if t == 7 { } else { assert t == 8; }
  }

  lemma SetMasked(m: Message, seen: set<nat>, t: Tag)
    ensures Suits(KindOf(t), Get(m, t)) && Set(Masked(m, seen), t, Get(m, t)) == Masked(m, seen + {t})
  {
    if t == 9 {
    } else {
      hide *;
      if t == 1 {
        SetMaskedKind(m, seen);
      } else if t == 2 || t == 6 {
        SetMaskedNumber(m, seen, t);
      } else if t <= 5 {
        SetMaskedText(m, seen, t);
      } else {
        SetMaskedTail(m, seen, t);
      }
    }
  }

  lemma {:induction false} DecodeChunks(m: Message, seen: set<nat>, cs: seq<Chunk>)
    requires Encodable(m) && NoNuls(m) && ChunksOk(cs)
    ensures Decode(Masked(m, seen), Flatten(m, cs)) == Some(Masked(m, seen + Tags(cs)))
    decreases |cs|
  {
    if cs == [] {
      assert seen + Tags(cs) == seen;
    } else {
      var rest := Flatten(m, cs[1..]);
      var head := match cs[0] case Known(t) => FieldBytes(m, t) case Unknown(s) => s;
      var seen' := match cs[0] case Known(t) => seen + {t} case Unknown(_) => seen;
      assert ChunkOk(cs[0]) && ChunksOk(cs[1..]);
      match cs[0] {
        case Known(t) => FieldRoundTrip(m, Masked(m, seen), t, rest); SetMasked(m, seen, t);
        case Unknown(s) => UnknownSkipped(Masked(m, seen), s, rest);
      }
      DecodeChunks(m, seen', cs[1..]);
      TagsCons(cs);
      assert seen' + Tags(cs[1..]) == seen + Tags(cs);
      DecodeStep(Masked(m, seen), Masked(m, seen'), head, rest);
    }
  }

  lemma DecodeStep(m: Message, m': Message, head: Bytes, rest: Bytes)
    requires DecField(m, head + rest) == Some((m', |head|))
    ensures Decode(m, head + rest) == Decode(m', rest)
  {
    assert (head + rest)[|head|..] == rest;
  }

  lemma TagsCons(cs: seq<Chunk>)
    requires cs != []
    ensures Tags(cs) == Tags(cs[1..]) + if cs[0].Known? then {cs[0].tag} else {}
  {
    forall t | t in Tags(cs) ensures t in Tags(cs[1..]) + (if cs[0].Known? then {cs[0].tag} else {}) {
      var i :| 0 <= i < |cs| && cs[i].Known? && cs[i].tag == t;
      if i > 0 {
        assert cs[1..][i - 1] == cs[i];
      }
    }
    forall t | t in Tags(cs[1..]) ensures t in Tags(cs) {
      var i :| 0 <= i < |cs[1..]| && cs[1..][i].Known? && cs[1..][i].tag == t;
      assert cs[i + 1] == cs[1..][i];
    }
  }

  lemma DefaultKind(m: Message)
    ensures Get(m, 1) == Default(1) <==> m.kind == 0
  {
  }

  lemma DefaultNumber(m: Message)
    ensures Get(m, 2) == Default(2) <==> m.n == 0
    ensures Get(m, 6) == Default(6) <==> m.timestamp == 0
  {
  }

  lemma DefaultText(m: Message)
    ensures (Get(m, 3) == Default(3) <==> m.from == []) && (Get(m, 4) == Default(4) <==> m.to == [])
      && (Get(m, 5) == Default(5) <==> m.content == [])
    ensures (Get(m, 7) == Default(7) <==> m.payload == []) && (Get(m, 8) == Default(8) <==> m.extra == [])
      && (Get(m, 9) == Default(9) <==> m.stanza == [])
  {
  }

  lemma MaskedAll(m: Message, seen: set<nat>)
    requires forall t: Tag :: 1 <= t <= 9 && Get(m, t) != Default(t) ==> t as nat in seen
    ensures Masked(m, seen) == m
  {
    DefaultKind(m);
    DefaultNumber(m);
    DefaultText(m);
    hide Get;
    hide Default;
  }

  /**
    Any list of the encoded fields of m that has every field with a non-default value, in any
    order, with repetitions, default values and unknown fields in between, decodes to m.
   */
  lemma AnyOrderDecodes(m: Message, cs: seq<Chunk>)
    requires Encodable(m) && NoNuls(m) && ChunksOk(cs)
    requires forall t: Tag :: 1 <= t <= 9 && Get(m, t) != Default(t) ==> t as nat in Tags(cs)
    ensures Decode(ZERO, Flatten(m, cs)) == Some(m)
  {
    DecodeChunks(m, {}, cs);
    assert Masked(m, {}) == ZERO;
    assert {} + Tags(cs) == Tags(cs);
    MaskedAll(m, Tags(cs));
  }

  /** The chunks the encoder writes. */
  function Written(m: Message, t: nat): (cs: seq<Chunk>)
    requires 1 <= t <= 10
    ensures forall i :: 0 <= i < |cs| ==> cs[i].Known? && 1 <= cs[i].tag <= 9
    decreases 10 - t
  {
    if t == 10 then [] else if Get(m, t) == Default(t) then Written(m, t + 1) else [Known(t)] + Written(m, t + 1)
  }

  lemma {:induction false} EncodeIsFlatten(m: Message, t: nat)
    requires 1 <= t <= 10
    ensures EncodeFrom(m, t) == Flatten(m, Written(m, t))
    decreases 10 - t
  {
    hide Get;
    hide Default;
    hide FieldBytes;
    if t < 10 {
      EncodeIsFlatten(m, t + 1);
      if Get(m, t) != Default(t) {
        assert Written(m, t)[1..] == Written(m, t + 1);
      }
    }
  }

  lemma {:induction false} AllWritten(m: Message, t: nat)
    requires 1 <= t <= 10
    ensures forall u: Tag :: t <= u <= 9 && Get(m, u) != Default(u) ==> u as nat in Tags(Written(m, t))
    decreases 10 - t
  {
    hide Get;
    hide Default;
    hide Tags;
    if t < 10 {
      AllWritten(m, t + 1);
      if Get(m, t) != Default(t) {
        TagsCons(Written(m, t));
        assert Written(m, t)[1..] == Written(m, t + 1);
      }
      forall u: Tag | t <= u <= 9 && Get(m, u) != Default(u) ensures u as nat in Tags(Written(m, t)) {
        if u != t { assert u as nat in Tags(Written(m, t + 1)); }
      }
    }
  }

  /** decode(encode(m)) = m for every message the encoder accepts. */
  lemma RoundTrip(m: Message)
    requires Encodable(m) && NoNuls(m)
    ensures Decode(ZERO, Encode(m)) == Some(m)
  {
    EncodeIsFlatten(m, 1);
    AllWritten(m, 1);
    AnyOrderDecodes(m, Written(m, 1));
  }

  // ----- sizes -----

  lemma ShortWord(x: bv32)
    ensures Nat(x) < 0x80 <==> x as bv64 < 0x80
    ensures Nat(x) < 0x4000 ==> (x as bv64) >> 7 < 0x80
  {
  }

  lemma OneByte(v: bv64)
    ensures v < 0x80 ==> |Enc(v)| == 1
  {
  }

  lemma TwoBytes(v: bv64)
    requires v >= 0x80 && v >> 7 < 0x80
    ensures |Enc(v)| == 2
  {
    OneByte(v >> 7);
  }

  lemma LengthSize(n: nat)
    requires n < 0x4000
    ensures |LengthBytes(n)| == if n < 0x80 then 1 else 2
  {
    hide Size32;
    hide Nat;
    hide Enc;
    Size32Value(n);
    var x := Size32(n);
    ShortWord(x);
    if n < 0x80 { OneByte(x as bv64); } else { TwoBytes(x as bv64); }
  }

  /** What a field of m costs on the wire. */
  function Cost(v: Value): nat {
    match v
    case Num(x) => 1 + |Enc(x)|
    case Data(d) => 1 + (if |d| < 0x80 then 1 else 2) + |d|
  }

  lemma FieldCost(m: Message, t: Tag)
    requires Get(m, t).Data? ==> |Get(m, t).d| < 0x4000
    ensures |FieldBytes(m, t)| == Cost(Get(m, t))
  {
    hide Key;
    KeyRoundTrip(t, []);
    hide Get;
    hide Enc;
    match Get(m, t)
    case Num(_) =>
    case Data(d) => LengthSize(|d|);
  }

  /** The most field t can cost in a message of a declared type. */
  function Most(t: Tag): nat {
    match KindOf(t)
    case Enum => 2
    case Int64 => 11
    case Text(cap) => Cost(Data(seq(cap - 1, _ => 1)))
    case Blob(cap) => Cost(Data(seq(cap, _ => 1)))
  }

  function MostFrom(t: nat): nat
    requires 1 <= t <= 10
    decreases 10 - t
  {
    if t == 10 then 0 else Most(t) + MostFrom(t + 1)
  }

  lemma MostInAll()
    ensures MostFrom(1) == 1065
  {
    assert Most(1) == 2 && Most(2) == 11 && Most(3) == 37 && Most(4) == 37 && Most(5) == 514 && Most(6) == 11
      && Most(7) == 259 && Most(8) == 129 && Most(9) == 65;
    assert MostFrom(6) == 11 + 259 + 129 + 65;
  }

  lemma FieldMost(m: Message, t: Tag)
    requires Encodable(m) && m.kind < 0x80
    ensures |FieldBytes(m, t)| <= Most(t)
  {
    FieldWithin(m, t);
    FieldCost(m, t);
    match Get(m, t)
    case Num(v) => if t == 1 { OneByte(v); } else { EncFits(v); }
    case Data(d) =>
  }

  lemma FieldWithin(m: Message, t: Tag)
    requires Encodable(m)
    ensures Fits(KindOf(t), Get(m, t)) && Suits(KindOf(t), Get(m, t))
    ensures Get(m, t).Data? ==> |Get(m, t).d| <= 512
  {
    GetSuits(m, t);
  }

  lemma {:induction false} EncodeFromMost(m: Message, t: nat)
    requires 1 <= t <= 10 && Encodable(m) && m.kind < 0x80
    ensures |EncodeFrom(m, t)| <= MostFrom(t)
    decreases 10 - t
  {
    hide Get;
    hide Most;
    hide FieldBytes;
    hide Encodable;
    hide Default;
    if t < 10 {
      EncodeFromMost(m, t + 1);
      FieldMost(m, t);
    }
  }

  /** Every message of a declared type encodes to at most 1065 bytes, one less than the header says. */
  lemma EncodedSize(m: Message)
    requires Encodable(m) && m.kind <= 30
    ensures |Encode(m)| <= 1065
  {
    EncodeFromMost(m, 1);
    MostInAll();
  }

  lemma {:induction false} DownSmall(v: bv64, i: nat)
    requires v < 0x80 && i > 0
    ensures Down(v, i) == 0
    decreases i
  {
    assert v >> 7 == 0;
    if i > 1 {
      DownSmall(v >> 7, i - 1);
    }
  }

  lemma {:induction false} EncAtLeast(v: bv64, i: nat)
    requires Down(v, i) != 0
    ensures |Enc(v)| > i
    decreases i
  {
    if i > 0 {
      if v < 0x80 { DownSmall(v, i); }
      EncAtLeast(v >> 7, i - 1);
    }
  }

  /** A word with its top bit set takes all ten bytes. */
  lemma TenBytes(v: bv64)
    requires v >= 0x8000_0000_0000_0000
    ensures |Enc(v)| == 10
  {
    DownStep(v, 0); DownStep(v, 1); DownStep(v, 2); DownStep(v, 3); DownStep(v, 4);
    DownStep(v, 5); DownStep(v, 6); DownStep(v, 7); DownStep(v, 8);
    assert Down(v, 9) == v >> 63;
    EncAtLeast(v, 9);
    EncFits(v);
  }

  /** Every field as long as it can be, negative numbers included. */
  ghost predicate Full(m: Message) {
    && 0 < m.kind <= 30 && m.n >= 0x8000_0000_0000_0000 && m.timestamp >= 0x8000_0000_0000_0000
    && |m.from| == 35 && |m.to| == 35 && |m.content| == 511 && |m.payload| == 256 && |m.extra| == 127
    && |m.stanza| == 63
  }

  lemma FullKind(m: Message)
    requires Full(m)
    ensures Get(m, 1) == Num(m.kind as bv64) && m.kind as bv64 != 0 && m.kind as bv64 < 0x80
  {
  }

  lemma FullNumber(m: Message, t: Tag)
    requires Full(m) && Get(m, t).Num?
    ensures Get(m, t).v != 0 && Default(t) == Num(0) && |Enc(Get(m, t).v)| == Most(t) - 1
  {
    hide Enc;
    if t == 1 {
      FullKind(m);
      OneByte(m.kind as bv64);
    } else {
      TenBytes(Get(m, t).v);
    }
  }

  lemma FullData(m: Message, t: Tag)
    requires Full(m) && Get(m, t).Data?
    ensures Get(m, t).d != [] && Default(t) == Data([]) && Cost(Get(m, t)) == Most(t) && |Get(m, t).d| <= 511
  {
  }

  lemma FullField(m: Message, t: Tag)
    requires Full(m)
    ensures Get(m, t) != Default(t) && |FieldBytes(m, t)| == Most(t)
  {
    hide Get;
    hide FieldBytes;
    hide Enc;
    hide Full;
    hide Most;
    hide Default;
    if Get(m, t).Num? { FullNumber(m, t); } else { FullData(m, t); }
    FieldCost(m, t);
  }

  lemma {:induction false} FullFrom(m: Message, t: nat)
    requires 1 <= t <= 10 && Full(m)
    ensures |EncodeFrom(m, t)| == MostFrom(t)
    decreases 10 - t
  {
    hide Get;
    hide Most;
    hide FieldBytes;
    hide Full;
    hide Default;
    if t < 10 {
      FullFrom(m, t + 1);
      FullField(m, t);
    }
  }

  /** The bound is reached. */
  lemma EncodedSizeReached(m: Message)
    requires Full(m)
    ensures |Encode(m)| == 1065
  {
    FullFrom(m, 1);
    MostInAll();
  }
}
