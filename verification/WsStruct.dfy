/**
  nanopb at work on the C struct of a WsMessage: the encoder walks the fields with the field
  iterator and writes to an output stream, the decoder reads fields from an input stream into
  the struct's arrays (proto/nanopb/pb_encode.c:418-469, 512-534, 783-929,
  proto/nanopb/pb_decode.c:990-1152, 1425-1585).
 */
module WsStruct {
  import opened Options
  import opened Streams
  import opened Varint
  import opened VarintLoops
  import opened Wire
  import opened WsMessage
  import F = FieldIter

  const TAGS: seq<nat> := [1, 2, 3, 4, 5, 6, 7, 8, 9]

  /** `size` bytes of the array; for a size beyond it, only that there are too many. */
  function Sized(buf: Bytes, size: nat): (b: Bytes)
    ensures |b| == size
  {
    if size <= |buf| then buf[..size] else buf + seq(size - |buf|, _ => 0)
  }

  class Struct {
    var kind: bv32
    var n: bv64
    var timestamp: bv64
    var payloadSize: nat
    const from: array<bv8>
    const to: array<bv8>
    const content: array<bv8>
    const payload: array<bv8>
    const extra: array<bv8>
    const stanza: array<bv8>

    ghost predicate Valid() {
      && from.Length == 36 && to.Length == 36 && content.Length == 512
      && payload.Length == 256 && extra.Length == 128 && stanza.Length == 64
      && from != to && from != payload && to != payload
    }

    ghost const Repr: set<object> := {this, from, to, content, payload, extra, stanza}

    function View(): Message
      reads Repr
    {
      Message(kind, n, CString(from[..]), CString(to[..]), CString(content[..]), timestamp,
              Sized(payload[..], payloadSize), CString(extra[..]), CString(stanza[..]))
    }

    /** Where the string of a text field is kept. */
    function Buffer(t: Tag): (b: array<bv8>)
      requires KindOf(t).Text?
      ensures b in Repr
    {
      if t == 3 then from else if t == 4 then to else if t == 5 then content else if t == 8 then extra else stanza
    }

    /** The word of a number field. */
    function Number(t: Tag): bv64
      requires !KindOf(t).Text? && !KindOf(t).Blob?
      reads this
    {
      if t == 1 then kind as bv64 else if t == 2 then n else timestamp
    }

    lemma TextView(t: Tag)
      requires Valid() && KindOf(t).Text?
      ensures Get(View(), t) == Data(CString(Buffer(t)[..])) && Buffer(t).Length == KindOf(t).cap
    {
    }

    lemma BlobView(t: Tag)
      requires KindOf(t).Blob?
      ensures Get(View(), t) == Data(Sized(payload[..], payloadSize))
    {
    }

    lemma NumberView(t: Tag)
      requires !KindOf(t).Text? && !KindOf(t).Blob?
      ensures Get(View(), t) == Num(Number(t))
    {
    }

    /** proto_WsMessage_init_zero. */
    constructor ()
      ensures Valid() && View() == ZERO && fresh(Repr)
    {
      kind, n, timestamp, payloadSize := 0, 0, 0, 0;
      from := new bv8[36](_ => 0);
      to := new bv8[36](_ => 0);
      content := new bv8[512](_ => 0);
      payload := new bv8[256](_ => 0);
      extra := new bv8[128](_ => 0);
      stanza := new bv8[64](_ => 0);
    }
  }

  // ----- writing -----

  lemma {:induction false} CStringUpTo(buf: Bytes, k: nat)
    requires k <= |buf| && NulFree(buf[..k]) && (k == |buf| || buf[k] == 0)
    ensures CString(buf) == buf[..k]
  {
    if k > 0 {
      assert buf[0] == buf[..k][0];
      assert buf[1..][..k - 1] == buf[..k][1..];
      CStringUpTo(buf[1..], k - 1);
      assert buf[..k] == [buf[0]] + buf[1..][..k - 1];
    }
  }

  lemma DataIs(bytes: Bytes)
    ensures EncData(bytes) == SizeBytes(Size32(|bytes|)) + bytes
  {
    hide Size32;
    hide SizeBytes;
  }

  /** pb_encode_string. */
  method EncodeString(out: OStream, bytes: Bytes) returns (ok: bool)
    requires out.Valid()
    modifies out, out.buf
    ensures out.Valid()
    ensures ok == (old(out.bytesWritten) + |EncData(bytes)| <= out.maxSize)
    ensures ok ==> out.Output() == old(out.Output()) + EncData(bytes)
  {
    hide Size32;
    hide Enc;
    hide EncData;
    var size := Size32(|bytes|);
    ghost var before, head := out.Output(), SizeBytes(size);
    DataIs(bytes);
    ok := EncodeVarint(out, size as bv64);
    if ok {
      ok := out.Write(bytes);
      assert (before + head) + bytes == before + (head + bytes);
    }
  }

  /** pb_enc_string: the bytes before the NUL, which must come before the end of the array. */
  method EncString(out: OStream, str: array<bv8>) returns (ok: bool)
    requires out.Valid() && str.Length > 0 && str != out.buf
    modifies out, out.buf
    ensures out.Valid()
    ensures ok
      == (|CString(str[..])| < str.Length && old(out.bytesWritten) + |EncData(CString(str[..]))| <= out.maxSize)
    ensures ok ==> out.Output() == old(out.Output()) + EncData(CString(str[..]))
  {
    var maxSize := str.Length - 1;
    var size := 0;
    while size < maxSize && str[size] != 0
      invariant 0 <= size <= maxSize && NulFree(str[..size])
    {
      size := size + 1;
    }
    if str[size] != 0 {
      assert str[..] == str[..size] + [str[size]];
      CStringUpTo(str[..], size + 1);
      return false;
    }
    CStringUpTo(str[..], size);
    assert str[..size] == str[..][..size];
    ok := EncodeString(out, str[..size]);
  }

  /** pb_enc_bytes. */
  method EncBytes(out: OStream, bytes: array<bv8>, size: nat) returns (ok: bool)
    requires out.Valid() && bytes != out.buf
    modifies out, out.buf
    ensures out.Valid()
    ensures ok == (size <= bytes.Length && old(out.bytesWritten) + |EncData(Sized(bytes[..], size))| <= out.maxSize)
    ensures ok ==> out.Output() == old(out.Output()) + EncData(Sized(bytes[..], size))
  {
    if size > bytes.Length {
      return false;
    }
    assert bytes[..size] == bytes[..][..size];
    ok := EncodeString(out, bytes[..size]);
  }

  /** pb_check_proto3_default_value. */
  method IsDefault(msg: Struct, t: Tag) returns (yes: bool)
    requires msg.Valid()
    ensures yes == (Get(msg.View(), t) == Default(t))
  {
    match KindOf(t)
    case Text(_) => msg.TextView(t); yes := msg.Buffer(t)[0] == 0;
    case Blob(_) => msg.BlobView(t); yes := msg.payloadSize == 0;
    case _ => msg.NumberView(t); yes := msg.Number(t) == 0;
  }

  /** encode_basic_field after the key: the contents of a field, by its kind. */
  method EncodeValue(out: OStream, msg: Struct, t: Tag) returns (ok: bool)
    requires out.Valid() && msg.Valid() && out !in msg.Repr && out.buf !in msg.Repr
    modifies out, out.buf
    ensures out.Valid()
    ensures var v := Get(msg.View(), t);
      && ok == (Fits(KindOf(t), v) && old(out.bytesWritten) + |ValueBytes(v)| <= out.maxSize)
      && (ok ==> out.Output() == old(out.Output()) + ValueBytes(v))
  {
    hide Get;
    hide Struct.View;
    hide CString;
    hide Sized;
    hide EncData;
    hide Enc;
    ghost var m := msg.View();
    match KindOf(t) {
      case Text(_) => msg.TextView(t); ok := EncString(out, msg.Buffer(t));
      case Blob(_) => msg.BlobView(t); ok := EncBytes(out, msg.payload, msg.payloadSize);
      case _ => msg.NumberView(t); ok := EncodeVarint(out, msg.Number(t));
    }
    assert msg.View() == m;
  }

  /** What the encoder makes of field t. */
  function Piece(m: Message, t: Tag): Bytes {
    if Get(m, t) == Default(t) then [] else FieldBytes(m, t)
  }

  lemma DefaultFits(t: Tag)
    ensures Fits(KindOf(t), Default(t))
  {
  }

  /** encode_field. */
  method EncodeField(out: OStream, msg: Struct, t: Tag) returns (ok: bool)
    requires out.Valid() && msg.Valid() && out !in msg.Repr && out.buf !in msg.Repr
    modifies out, out.buf
    ensures out.Valid()
    ensures var m := msg.View();
      && ok == (Fits(KindOf(t), Get(m, t)) && old(out.bytesWritten) + |Piece(m, t)| <= out.maxSize)
      && (ok ==> out.Output() == old(out.Output()) + Piece(m, t))
  {
    hide Get;
    hide Struct.View;
    hide Enc;
    hide ValueBytes;
    hide Default;
    ghost var m := msg.View();
    var skip := IsDefault(msg, t);
    if skip {
      DefaultFits(t);
      return true;
    }
    ok := EncodeVarint(out, Key(t));
    if ok {
      ok := EncodeValue(out, msg, t);
      assert msg.View() == m;
    }
  }

  /** The fields before t are written. */
  ghost predicate WrittenTo(m: Message, t: nat, done: Bytes) {
    && 1 <= t <= 10 && Encode(m) == done + EncodeFrom(m, t)
    && forall u: Tag :: 1 <= u < t ==> Fits(KindOf(u), Get(m, u))
  }

  lemma WrittenNone(m: Message)
    ensures WrittenTo(m, 1, [])
  {
  }

  lemma WrittenNext(m: Message, t: Tag, done: Bytes)
    requires WrittenTo(m, t, done)
    ensures Fits(KindOf(t), Get(m, t)) ==> WrittenTo(m, t + 1, done + Piece(m, t))
    ensures !Fits(KindOf(t), Get(m, t)) ==> !Encodable(m)
    ensures |done| + |Piece(m, t)| <= |Encode(m)|
  {
    hide Get;
    hide Default;
    hide Fits;
    hide FieldBytes;
    assert EncodeFrom(m, t) == Piece(m, t) + EncodeFrom(m, t + 1);
  }

  lemma WrittenAll(m: Message, done: Bytes)
    requires WrittenTo(m, 10, done)
    ensures Encodable(m) && Encode(m) == done
  {
  }

  /** pb_encode: the message is written exactly when it is encodable and fits. */
  method EncodeMessage(out: OStream, msg: Struct) returns (ok: bool)
    requires out.Valid() && msg.Valid() && out !in msg.Repr && out.buf !in msg.Repr
    modifies out, out.buf
    ensures out.Valid()
    ensures ok == (Encodable(msg.View()) && old(out.bytesWritten) + |Encode(msg.View())| <= out.maxSize)
    ensures ok ==> out.Output() == old(out.Output()) + Encode(msg.View())
  {
    hide Get;
    hide Struct.View;
    hide Fits;
    hide Piece;
    hide WrittenTo;
    hide Encodable;
    hide Encode;
    ghost var m := msg.View();
    ghost var done: Bytes := [];
    WrittenNone(m);
    var iter := new F.Iterator(TAGS);
    while true
      invariant iter.Valid() && iter.tags == TAGS && fresh(iter)
      invariant out.Valid() && msg.View() == m
      invariant WrittenTo(m, iter.index + 1, done) && out.Output() == old(out.Output()) + done
      decreases 9 - iter.index
    {
      var t: Tag := iter.tag;
      WrittenNext(m, t, done);
      ok := EncodeField(out, msg, t);
      if !ok {
        return;
      }
      done := done + Piece(m, t);
      var more := iter.Next();
      if !more {
        WrittenAll(m, done);
        return;
      }
    }
  }

  // ----- reading -----

  /** A length, checked against nothing yet, and the bytes it announces. */
  lemma DataOfLength(s: Bytes)
    ensures Dec32(s) == None ==> DecData(s) == None
    ensures Dec32(s).Some? ==> var (v, k) := Dec32(s).value;
      DecData(s) == if k + Nat(v) <= |s| then Some((s[k..k + Nat(v)], k + Nat(v))) else None
  {
    hide Dec32;
    hide Nat;
  }

  /** What is past the NUL does not count. */
  lemma {:induction false} CStringStops(d: Bytes, junk: Bytes)
    ensures CString(d + [0] + junk) == CString(d)
  {
    var all := d + [0] + junk;
    if d != [] {
      CStringStops(d[1..], junk);
      assert all[1..] == d[1..] + [0] + junk;
    }
  }

  method Copy(dest: array<bv8>, bytes: Bytes)
    requires |bytes| <= dest.Length
    modifies dest
    ensures dest[..|bytes|] == bytes && dest[|bytes|..] == old(dest[|bytes|..])
  {
    var i := 0;
    while i < |bytes|
      invariant 0 <= i <= |bytes| && dest[..i] == bytes[..i] && dest[|bytes|..] == old(dest[|bytes|..])
    {
      dest[i] := bytes[i];
      i := i + 1;
    }
  }

  /** The bytes go in front of a NUL that is already there. */
  method CopyString(dest: array<bv8>, bytes: Bytes)
    requires |bytes| < dest.Length && dest[|bytes|] == 0
    modifies dest
    ensures CString(dest[..]) == CString(bytes)
  {
    hide CString;
    ghost var tail := dest[|bytes|..];
    Copy(dest, bytes);
    CStringStops(bytes, tail[1..]);
    assert dest[..] == dest[..|bytes|] + dest[|bytes|..];
    assert dest[..] == bytes + [0] + tail[1..];
  }

  /** The string decoder of nanopb on a static array. */
  method DecString(input: IStream, dest: array<bv8>) returns (ok: bool)
    requires input.Valid()
    modifies input, dest
    ensures input.Valid()
    ensures var r := DecData(old(input.Rest()));
      && ok == (r.Some? && |r.value.0| < dest.Length)
      && (ok ==> CString(dest[..]) == CString(r.value.0) && input.Rest() == old(input.Rest())[r.value.1..])
  {
    hide Dec32;
    hide DecData;
    hide Nat;
    hide CString;
    ghost var s := input.Rest();
    DataOfLength(s);
    var length, eof, bytes;
    ok, length, eof := DecodeVarint32(input);
    if !ok {
      return;
    }
    var size := Nat(length);
    if size + 1 > dest.Length {
      return false;
    }
    dest[size] := 0;
    ghost var n := Dec32(s).value.1;
    assert input.Rest() == s[n..];
    ok, bytes := input.Read(size);
    if ok {
      assert bytes == s[n..n + size];
      CopyString(dest, bytes);
    }
  }

  /** pb_dec_bytes. */
  method DecBytes(input: IStream, dest: array<bv8>) returns (ok: bool, size: nat)
    requires input.Valid()
    modifies input, dest
    ensures input.Valid()
    ensures var r := DecData(old(input.Rest()));
      && ok == (r.Some? && |r.value.0| <= dest.Length)
      && (ok ==> Sized(dest[..], size) == r.value.0 && input.Rest() == old(input.Rest())[r.value.1..])
  {
    hide Dec32;
    hide DecData;
    hide Nat;
    DataOfLength(input.Rest());
    var length, eof, bytes;
    ok, length, eof := DecodeVarint32(input);
    if !ok {
      return false, 0;
    }
    size := Nat(length);
    if size > dest.Length {
      return false, size;
    }
    ok, bytes := input.Read(size);
    if ok {
      Copy(dest, bytes);
      assert dest[..][..size] == bytes;
    }
  }

  /** A string field: only its own array changes. */
  method DecodeText(input: IStream, msg: Struct, t: Tag) returns (ok: bool)
    requires input.Valid() && msg.Valid() && input !in msg.Repr && KindOf(t).Text?
    modifies input, msg.Buffer(t)
    ensures input.Valid()
    ensures var r := DecValue(KindOf(t), DataType, old(input.Rest()));
      && ok == r.Some?
      && (ok ==> msg.View() == Set(old(msg.View()), t, r.value.0) && input.Rest() == old(input.Rest())[r.value.1..])
  {
    hide DecData;
    hide CString;
    ok := DecString(input, msg.Buffer(t));
  }

  method DecodeBlob(input: IStream, msg: Struct, t: Tag) returns (ok: bool)
    requires input.Valid() && msg.Valid() && input !in msg.Repr && KindOf(t).Blob?
    modifies input, msg, msg.payload
    ensures input.Valid()
    ensures var r := DecValue(KindOf(t), DataType, old(input.Rest()));
      && ok == r.Some?
      && (ok ==> msg.View() == Set(old(msg.View()), t, r.value.0) && input.Rest() == old(input.Rest())[r.value.1..])
  {
    hide DecData;
    hide CString;
    var size;
    ok, size := DecBytes(input, msg.payload);
    msg.payloadSize := size;
  }

  /** The word goes to the field; an enum keeps its low half. */
  method StoreNumber(msg: Struct, t: Tag, value: bv64)
    requires msg.Valid() && !KindOf(t).Text? && !KindOf(t).Blob?
    modifies msg
    ensures Suits(KindOf(t), Num(value)) ==> msg.View() == Set(old(msg.View()), t, Num(value))
    ensures t == 1 ==> msg.kind == Low(value)
  {
    hide CString;
    hide Low;
    if t == 1 {
      msg.kind := Low(value);
    } else if t == 2 {
      msg.n := value;
    } else {
      msg.timestamp := value;
    }
  }

  /** pb_dec_varint: an enum must fit 32 bits, an int64 takes the word as it is. */
  method DecodeNumber(input: IStream, msg: Struct, t: Tag) returns (ok: bool)
    requires input.Valid() && msg.Valid() && input !in msg.Repr && !KindOf(t).Text? && !KindOf(t).Blob?
    modifies input, msg
    ensures input.Valid()
    ensures var r := DecValue(KindOf(t), VarintType, old(input.Rest()));
      && ok == r.Some?
      && (ok ==> msg.View() == Set(old(msg.View()), t, r.value.0) && input.Rest() == old(input.Rest())[r.value.1..])
  {
    hide Dec64;
    hide CString;
    hide Struct.View;
    hide Set;
    hide Low;
    var value;
    ok, value := DecodeVarint(input);
    if ok {
      StoreNumber(msg, t, value);
      ClampedEnum(value);
      if t == 1 {
        ok := msg.kind as bv64 == value;
      }
    }
  }

  lemma ClampedEnum(v: bv64)
    ensures Low(v) as bv64 == v <==> v < 0x1_0000_0000
  {
  }

  /** decode_basic_field. */
  method DecodeValue(input: IStream, msg: Struct, w: WireType, t: Tag) returns (ok: bool)
    requires input.Valid() && msg.Valid() && input !in msg.Repr
    modifies input, msg.Repr
    ensures input.Valid()
    ensures var r := DecValue(KindOf(t), w, old(input.Rest()));
      && ok == r.Some?
      && (ok ==> msg.View() == Set(old(msg.View()), t, r.value.0) && input.Rest() == old(input.Rest())[r.value.1..])
  {
    if w != TypeFor(t) { WrongType(t, w, input.Rest()); }
    hide DecValue;
    hide Set;
    hide Struct.View;
    if w != TypeFor(t) {
      return false;
    }
    match KindOf(t)
    case Text(_) => ok := DecodeText(input, msg, t);
    case Blob(_) => ok := DecodeBlob(input, msg, t);
    case _ => ok := DecodeNumber(input, msg, t);
  }

  lemma WrongType(t: Tag, w: WireType, s: Bytes)
    requires w != TypeFor(t)
    ensures DecValue(KindOf(t), w, s) == None
  {
  }

  /** pb_message_set_to_defaults: every field zeroed. */
  method Clear(msg: Struct)
    requires msg.Valid()
    modifies msg.Repr
    ensures msg.View() == ZERO
  {
    msg.kind, msg.n, msg.timestamp, msg.payloadSize := 0, 0, 0, 0;
    Fill(msg.from);
    Fill(msg.to);
    Fill(msg.content);
    Fill(msg.payload);
    Fill(msg.extra);
    Fill(msg.stanza);
  }

  method Fill(a: array<bv8>)
    modifies a
    ensures forall i :: 0 <= i < a.Length ==> a[i] == 0
  {
    forall i | 0 <= i < a.Length { a[i] := 0; }
  }

  // One step of the specification, in the order the decoder takes it.

  lemma RefusedKey(m: Message, s: Bytes)
    requires s != [] && (DecKey(s) == None || DecKey(s).value.0 == 0)
    ensures Decode(m, s) == None
  {
    hide DecKey;
  }

  lemma DecodeOne(m: Message, s: Bytes)
    requires s != []
    ensures DecField(m, s) == None ==> Decode(m, s) == None
    ensures DecField(m, s).Some? ==> Decode(m, s) == Decode(DecField(m, s).value.0, s[DecField(m, s).value.1..])
  {
    hide DecField;
  }

  lemma TailOfTail(s: Bytes, k: nat, n: nat)
    requires k + n <= |s|
    ensures s[k..][n..] == s[k + n..]
  {
  }

  lemma UnknownField(m: Message, s: Bytes)
    requires s != [] && DecKey(s).Some? && DecKey(s).value.0 > 9
    ensures var (_, w, k) := DecKey(s).value;
      Decode(m, s) == match Skip(w, s[k..]) case None => None case Some(n) => Decode(m, s[k..][n..])
  {
    hide *;
    UnknownStep(m, s);
    DecodeOne(m, s);
    var (_, w, k) := DecKey(s).value;
    if Skip(w, s[k..]).Some? { TailOfTail(s, k, Skip(w, s[k..]).value); }
  }

  lemma UnknownStep(m: Message, s: Bytes)
    requires DecKey(s).Some? && DecKey(s).value.0 > 9
    ensures var (_, w, k) := DecKey(s).value;
      DecField(m, s) == match Skip(w, s[k..]) case None => None case Some(n) => Some((m, k + n))
  {
    hide DecKey;
    hide Skip;
    hide DecValue;
    hide Set;
    hide KindOf;
  }

  lemma KnownField(m: Message, s: Bytes)
    requires s != [] && DecKey(s).Some? && 1 <= DecKey(s).value.0 <= 9
    ensures var (tag, w, k) := DecKey(s).value;
      Decode(m, s) == match DecValue(KindOf(tag), w, s[k..])
        case None => None
        case Some((v, n)) => Decode(Set(m, tag, v), s[k..][n..])
  {
    hide *;
    KnownStep(m, s);
    DecodeOne(m, s);
    var (tag, w, k) := DecKey(s).value;
    if DecValue(KindOf(tag), w, s[k..]).Some? { TailOfTail(s, k, DecValue(KindOf(tag), w, s[k..]).value.1); }
  }

  lemma KnownStep(m: Message, s: Bytes)
    requires DecKey(s).Some? && 1 <= DecKey(s).value.0 <= 9
    ensures var (tag, w, k) := DecKey(s).value;
      DecField(m, s) == match DecValue(KindOf(tag), w, s[k..])
        case None => None
        case Some((v, n)) => Some((Set(m, tag, v), k + n))
  {
    hide DecKey;
    hide Skip;
    hide DecValue;
    hide Set;
    hide KindOf;
  }

  /** What follows a key: the value of a known field, or bytes to skip. */
  method DecodeBody(input: IStream, msg: Struct, iter: F.Iterator, tag: nat, w: WireType, ghost here: Bytes)
    returns (ok: bool)
    requires input.Valid() && msg.Valid() && input !in msg.Repr && iter.Valid() && iter.tags == TAGS
    requires here != [] && DecKey(here).Some? && tag > 0
    requires var (t, u, k) := DecKey(here).value; t == tag && u == w && input.Rest() == here[k..]
    modifies input, msg.Repr, iter
    ensures input.Valid() && iter.Valid()
    ensures !ok ==> Decode(old(msg.View()), here).None?
    ensures ok ==> Decode(msg.View(), input.Rest()) == Decode(old(msg.View()), here) && input.BytesLeft() < |here|
  {
    hide DecKey;
    hide Skip;
    hide DecValue;
    hide Set;
    hide Decode;
    hide Struct.View;
    var found := iter.Find(tag);
    if found {
      KnownField(msg.View(), here);
      ok := DecodeValue(input, msg, w, tag);
    } else {
      UnknownField(msg.View(), here);
      ok := SkipField(input, w);
    }
  }

  /** pb_decode: the struct ends up as the input says, and bad input is refused. */
  method DecodeMessage(input: IStream, msg: Struct) returns (ok: bool)
    requires input.Valid() && msg.Valid() && input !in msg.Repr
    modifies input, msg.Repr
    ensures ok == Decode(ZERO, old(input.Rest())).Some?
    ensures ok ==> msg.View() == Decode(ZERO, old(input.Rest())).value
  {
    hide DecKey;
    hide Decode;
    hide Struct.View;
    ghost var s := input.Rest();
    Clear(msg);
    var iter := new F.Iterator(TAGS);
    while input.BytesLeft() > 0
      invariant input.Valid() && iter.Valid() && iter.tags == TAGS && fresh(iter)
      invariant Decode(msg.View(), input.Rest()) == Decode(ZERO, s)
      decreases input.BytesLeft()
    {
      ghost var here := input.Rest();
      var w, tag, eof;
      ok, w, tag, eof := DecodeTag(input);
      if !ok || tag == 0 {
        RefusedKey(msg.View(), here);
        return false;
      }
      ok := DecodeBody(input, msg, iter, tag, w, here);
      if !ok {
        return;
      }
    }
    DecodeEnd(msg.View());
    return true;
  }

  lemma DecodeEnd(m: Message)
    ensures Decode(m, []) == Some(m)
  {
  }
}
