/**
  The ESP32 client's frame builder (esp32/main/im_proto.c:30-43, 102-255): a chat frame never
  exceeds 256 bytes, its content being cut on a character boundary to what the frame has room for.
 */
module ChatFrame {
  import opened Options
  import opened Streams
  import opened Varint
  import opened Wire
  import opened WsMessage
  import opened WsStruct
  import C = Scalars
  import U = Utf8

  const MAX_FRAME: nat := 256
  const CONTENT_CAP: nat := 511
  const CONTENT_HEADROOM: nat := 4

  const CHAT: bv32 := 3
  const PRIVATE_CHAT: bv32 := 4

  /** A `const char *`: NULL, or the bytes before the NUL. */
  type CPointer = Option<Bytes>

  function Text(s: CPointer): (t: Bytes)
    ensures NulFree(t)
  {
    if s.Some? then CString(s.value) else []
  }

  /** What fits an array of `size` chars with its terminator. */
  function Fitted(s: CPointer, size: nat): Bytes
    requires size > 0
  {
    if |Text(s)| < size then Text(s) else Text(s)[..size - 1]
  }

  /** A chat message as the client sends it: no seq, no sender, no timestamp. */
  function Chat(kind: bv32, to: Bytes, content: Bytes, stanza: Bytes): Message {
    Message(kind, 0, [], to, content, 0, [], [], stanza)
  }

  // ----- sizes -----

  function Part(d: Bytes): nat {
    if d == [] then 0 else Cost(Data(d))
  }

  lemma EncodeFromSize(m: Message, t: Tag)
    requires Get(m, t).Data? ==> |Get(m, t).d| < 0x4000
    ensures |EncodeFrom(m, t)| == |EncodeFrom(m, t + 1)| + if Get(m, t) == Default(t) then 0 else Cost(Get(m, t))
  {
    FieldCost(m, t);
    hide Get;
    hide Default;
    hide FieldBytes;
    hide Cost;
  }

  lemma ChatTail(m: Message)
    requires m.timestamp == 0 && m.payload == [] && m.extra == [] && |m.stanza| < 0x4000
    ensures |EncodeFrom(m, 6)| == Part(m.stanza)
  {
    DefaultNumber(m);
    EncodeFromSize(m, 6);
    EncodeFromSize(m, 7);
    EncodeFromSize(m, 8);
    EncodeFromSize(m, 9);
    assert EncodeFrom(m, 10) == [];
  }

  lemma ChatSize(kind: bv32, to: Bytes, content: Bytes, stanza: Bytes)
    requires 0 < kind < 0x80 && |to| < 0x4000 && |content| < 0x4000 && |stanza| < 0x4000
    ensures |Encode(Chat(kind, to, content, stanza))| == 2 + Part(to) + Part(content) + Part(stanza)
  {
    var m := Chat(kind, to, content, stanza);
    ChatTail(m);
    DefaultKind(m);
    DefaultNumber(m);
    OneByte(kind as bv64);
    assert kind as bv64 < 0x80;
    EncodeFromSize(m, 1);
    EncodeFromSize(m, 2);
    EncodeFromSize(m, 3);
    EncodeFromSize(m, 4);
    EncodeFromSize(m, 5);
  }

  /** Content is in the frame as it is, so the frame is no smaller. */
  lemma ContentCounts(kind: bv32, to: Bytes, content: Bytes, stanza: Bytes)
    ensures |Encode(Chat(kind, to, content, stanza))| >= |content|
  {
    var m := Chat(kind, to, content, stanza);
    hide Enc;
    hide LengthBytes;
    assert Get(m, 5) == Data(content);
    assert |EncodeFrom(m, 5)| >= |content|;
    assert |EncodeFrom(m, 4)| >= |EncodeFrom(m, 5)|;
    assert |EncodeFrom(m, 3)| >= |EncodeFrom(m, 4)|;
    assert |EncodeFrom(m, 2)| >= |EncodeFrom(m, 3)|;
    assert |EncodeFrom(m, 1)| >= |EncodeFrom(m, 2)|;
  }

  /** One byte of content beyond 252 less the empty frame and the frame is full. */
  lemma FrameFull(kind: bv32, to: Bytes, content: Bytes, stanza: Bytes)
    requires 0 < kind < 0x80 && |to| <= 35 && |stanza| <= 63
    requires |content| > 252 - |Encode(Chat(kind, to, [], stanza))|
    ensures |Encode(Chat(kind, to, content, stanza))| >= 256
  {
    ChatSize(kind, to, [], stanza);
    if |content| < 0x4000 {
      ChatSize(kind, to, content, stanza);
    } else {
      ContentCounts(kind, to, content, stanza);
    }
  }

  /** What the code leaves for content in a frame whose other fields take `base` bytes. */
  function Budget(base: nat): nat {
    var room := if base + CONTENT_HEADROOM < MAX_FRAME then MAX_FRAME - base - CONTENT_HEADROOM else 0;
    if room > CONTENT_CAP then CONTENT_CAP else room
  }

  /** For the small frames there are, that is 252 less the frame. */
  lemma BudgetIs(base: nat)
    requires base <= 104
    ensures Budget(base) == 252 - base
  {
  }

  lemma EmptySmall(kind: bv32, to: Bytes, stanza: Bytes)
    requires 0 < kind < 0x80 && |to| <= 35 && |stanza| <= 63
    ensures |Encode(Chat(kind, to, [], stanza))| <= 104
  {
    ChatSize(kind, to, [], stanza);
  }

  /** The empty frame is small, and content within the budget leaves it below 256 bytes. */
  lemma FrameFits(kind: bv32, to: Bytes, content: Bytes, stanza: Bytes)
    requires 0 < kind < 0x80 && |to| <= 35 && |stanza| <= 63
    requires |content| <= 252 - |Encode(Chat(kind, to, [], stanza))|
    ensures |Encode(Chat(kind, to, [], stanza))| <= 104
    ensures |Encode(Chat(kind, to, content, stanza))| <= 255
  {
    ChatSize(kind, to, [], stanza);
    ChatSize(kind, to, content, stanza);
  }

  lemma ChatEncodable(kind: bv32, to: Bytes, content: Bytes, stanza: Bytes)
    requires |to| <= 35 && |content| <= 511 && |stanza| <= 63
    ensures Encodable(Chat(kind, to, content, stanza))
  {
  }

  // ----- filling the struct -----

  /** The array holds this string, terminated. */
  ghost predicate Holds(a: Bytes, s: Bytes) {
    |s| < |a| && a[..|s|] == s && a[|s|] == 0 && NulFree(s)
  }

  lemma HeldString(a: Bytes, s: Bytes)
    requires Holds(a, s)
    ensures CString(a) == s
  {
    CStringUpTo(a, |s|);
  }

  /** im_copy_cstr: as much of the string as fits. */
  method CopyCstr(dst: array<bv8>, src: CPointer)
    requires dst.Length > 0
    modifies dst
    ensures CString(dst[..]) == Fitted(src, dst.Length)
    ensures CString(dst[..]) <= Text(src)
    ensures |CString(dst[..])| == if |Text(src)| < dst.Length then |Text(src)| else dst.Length - 1
  {
    hide CString;
    var i := 0;
    ghost var text := Text(src);
    if src.Some? {
      CStringEnds(src.value);
      while i + 1 < dst.Length && U.At(src.value, i) != 0
        invariant 0 <= i <= |text| && i < dst.Length && dst[..i] == text[..i]
        decreases dst.Length - i
      {
        dst[i] := src.value[i];
        i := i + 1;
      }
    }
    dst[i] := 0;
    assert dst[..i] == text[..i];
    HeldString(dst[..], text[..i]);
  }

  /** Where a C string ends. */
  lemma CStringEnds(d: Bytes)
    ensures forall i :: 0 <= i < |CString(d)| ==> U.At(d, i) == CString(d)[i] != 0
    ensures U.At(d, |CString(d)|) == 0
  {
  }

  /** im_copy_prefix: the first `keep` bytes, as far as they fit. */
  method CopyPrefix(dst: array<bv8>, src: Bytes, keep: nat)
    requires dst.Length > 0 && NulFree(src)
    modifies dst
    ensures keep <= |src| && keep < dst.Length ==> CString(dst[..]) == src[..keep]
  {
    hide CString;
    var i := 0;
    while i < keep && i + 1 < dst.Length && U.At(src, i) != 0
      invariant 0 <= i <= keep && i <= |src| && i < dst.Length && dst[..i] == src[..i]
      decreases dst.Length - i
    {
      dst[i] := src[i];
      i := i + 1;
    }
    dst[i] := 0;
    assert dst[..i] == src[..i];
    if keep <= |src| && keep < dst.Length {
      HeldString(dst[..], src[..keep]);
    }
  }

  /** im_encode_msg. */
  method EncodeMsg(msg: Struct, out: array<bv8>, cap: nat) returns (ok: bool, n: nat)
    requires msg.Valid() && out !in msg.Repr && cap <= out.Length
    modifies out
    ensures ok == (cap > 0 && Encodable(msg.View()) && |Encode(msg.View())| <= cap)
    ensures ok ==> n == |Encode(msg.View())| && out[..n] == Encode(msg.View())
  {
    hide Encodable;
    hide Encode;
    hide Struct.View;
    if cap == 0 {
      return false, 0;
    }
    var stream := new OStream(out, cap);
    ok := EncodeMessage(stream, msg);
    n := stream.bytesWritten;
  }

  // ----- the builders -----

  datatype Status = Built | Truncated | Error

  /** Content goes into the struct; nothing else changes. */
  method SetContent(msg: Struct, content: Bytes, keep: nat)
    requires msg.Valid() && NulFree(content) && keep <= |content| && keep <= CONTENT_CAP
    modifies msg.content
    ensures msg.View() == old(msg.View()).(content := content[..keep])
  {
    hide CString;
    CopyPrefix(msg.content, content, keep);
  }

  /**
    The fix-up loop of the builder: it ends, shortens the content until the frame fits, and
    leaves everything alone when the frame already does.
   */
  method FixUp(msg: Struct, content: Bytes, out: array<bv8>, cap: nat, keep0: nat, n0: nat, cut0: bool)
    returns (ok: bool, keep: nat, n: nat, cut: bool)
    requires msg.Valid() && out !in msg.Repr && cap <= out.Length && n0 <= cap
    requires NulFree(content) && keep0 <= |content| && keep0 <= CONTENT_CAP
    requires msg.View().content == content[..keep0]
    requires n0 == |Encode(msg.View())| && out[..n0] == Encode(msg.View())
    modifies msg.content, out
    ensures n0 <= MAX_FRAME ==>
      ok && keep == keep0 && n == n0 && cut == cut0 && msg.View() == old(msg.View()) && out[..n] == old(out[..n0])
    ensures ok ==> keep <= keep0 && (n <= MAX_FRAME || keep == 0) && (cut == (cut0 || keep < keep0))
    ensures ok ==> msg.View() == old(msg.View()).(content := content[..keep])
    ensures ok ==> n <= cap && n == |Encode(msg.View())| && out[..n] == Encode(msg.View())
  {
    hide Encodable;
    hide Encode;
    hide Struct.View;
    keep, n, cut := keep0, n0, cut0;
    ghost var m := msg.View();
    assert m == m.(content := content[..keep0]);
    while n > MAX_FRAME && keep > 0
      invariant n0 <= MAX_FRAME ==> keep == keep0 && n == n0 && cut == cut0 && out[..n0] == old(out[..n0])
      invariant keep <= keep0 && cut == (cut0 || keep < keep0)
      invariant msg.View() == m.(content := content[..keep])
      invariant n <= cap && n == |Encode(msg.View())| && out[..n] == Encode(msg.View())
      decreases keep
    {
      keep := U.RunePrefixLen(content, keep - 1);
      cut := true;
      SetContent(msg, content, keep);
      ok, n := EncodeMsg(msg, out, cap);
      if !ok {
        return;
      }
    }
    ok := true;
  }

  /** The struct of a chat frame without its content. */
  method BaseMessage(kind: bv32, to: CPointer, stanza: CPointer) returns (msg: Struct)
    ensures msg.Valid() && fresh(msg.Repr)
    ensures msg.View() == Chat(kind, Fitted(to, 36), [], Fitted(stanza, 64))
  {
    hide CString;
    hide Fitted;
    msg := new Struct();
    ZeroStrings();
    msg.kind := kind;
    CopyCstr(msg.to, to);
    CopyCstr(msg.stanza, stanza);
  }

  lemma ZeroStrings()
    ensures ZERO == Chat(0, [], [], [])
  {
  }

  /** The bytes of a frame to this receiver under this stanza, without content. */
  function EmptySize(kind: bv32, to: CPointer, stanza: CPointer): nat {
    |Encode(Chat(kind, Fitted(to, 36), [], Fitted(stanza, 64)))|
  }

  lemma FittedSize(s: CPointer, size: nat)
    requires size > 0
    ensures |Fitted(s, size)| < size && NulFree(Fitted(s, size))
  {
  }

  /** What a finished frame promises. */
  ghost predicate ChatFrameOk(kind: bv32, to: CPointer, content: CPointer, stanza: CPointer, frame: Bytes,
                              sent: Message)
  {
    var text := Text(content);
    var base := EmptySize(kind, to, stanza);
    && |frame| <= 255 && frame == Encode(sent) && Decode(ZERO, frame) == Some(sent)
    && base <= 104 && |sent.content| <= 252 - base
    && sent.content <= text
    && (|sent.content| == |text| || |sent.content| + 4 > 252 - base)
    && sent == Chat(kind, Fitted(to, 36), sent.content, Fitted(stanza, 64))
    && U.CutsWhole(text, 252 - base, sent.content)
    && (U.ValidString(text) ==> NoLongerFits(kind, Fitted(to, 36), text, Fitted(stanza, 64), |sent.content|))
  }

  /** The cut is on a character boundary, and with any more whole characters the frame has 256 bytes or more. */
  ghost predicate NoLongerFits(kind: bv32, to: Bytes, text: Bytes, stanza: Bytes, keep: nat) {
    && keep <= |text| && U.Boundary(text, keep)
    && forall n :: keep < n <= |text| && U.Boundary(text, n) ==> |Encode(Chat(kind, to, text[..n], stanza))| >= 256
  }

  lemma CutIsLongest(kind: bv32, to: Bytes, text: Bytes, stanza: Bytes, keep: nat)
    requires 0 < kind < 0x80 && |to| <= 35 && |stanza| <= 63
    requires var base := |Encode(Chat(kind, to, [], stanza))|; base <= 104 && U.LongestCut(text, 252 - base, keep)
    ensures NoLongerFits(kind, to, text, stanza, keep)
  {
    hide Encode;
    forall n | keep < n <= |text| && U.Boundary(text, n) ensures |Encode(Chat(kind, to, text[..n], stanza))| >= 256 {
      FrameFull(kind, to, text[..n], stanza);
    }
  }

  lemma ChatRoundTrip(kind: bv32, to: CPointer, text: Bytes, keep: nat, stanza: CPointer)
    requires 0 < kind < 0x80 && NulFree(text) && keep <= |text| && keep <= 252 - EmptySize(kind, to, stanza)
    ensures var m := Chat(kind, Fitted(to, 36), text[..keep], Fitted(stanza, 64));
      Encodable(m) && |Encode(m)| <= 255 && Decode(ZERO, Encode(m)) == Some(m)
  {
    FittedSize(to, 36);
    FittedSize(stanza, 64);
    hide Fitted;
    hide Encode;
    hide Decode;
    var m := Chat(kind, Fitted(to, 36), text[..keep], Fitted(stanza, 64));
    FrameFits(kind, m.to, m.content, m.stanza);
    ChatEncodable(kind, m.to, m.content, m.stanza);
    hide Encodable;
    RoundTrip(m);
  }

  /** A frame whose content was cut by the client's walk is as promised. */
  lemma FrameIsOk(kind: bv32, to: CPointer, content: CPointer, stanza: CPointer, keep: nat)
    requires 0 < kind < 0x80 && EmptySize(kind, to, stanza) <= 104
    requires var text := Text(content);
      var budget := 252 - EmptySize(kind, to, stanza);
      && keep <= |text| && keep <= budget && (keep == |text| || keep + 4 > budget)
      && U.CutsWhole(text, budget, text[..keep])
      && (U.ValidString(text) ==> U.LongestCut(text, budget, keep))
    ensures var m := Chat(kind, Fitted(to, 36), Text(content)[..keep], Fitted(stanza, 64));
      ChatFrameOk(kind, to, content, stanza, Encode(m), m)
  {
    hide *;
    FittedSize(to, 36);
    FittedSize(stanza, 64);
    var text, to', stanza' := Text(content), Fitted(to, 36), Fitted(stanza, 64);
    EmptySizeIs(kind, to, stanza);
    ChatRoundTrip(kind, to, text, keep, stanza);
    if U.ValidString(text) {
      CutIsLongest(kind, to', text, stanza', keep);
    }
    Promised(kind, to, content, stanza, keep);
  }

  lemma EmptySizeIs(kind: bv32, to: CPointer, stanza: CPointer)
    ensures EmptySize(kind, to, stanza) == |Encode(Chat(kind, Fitted(to, 36), [], Fitted(stanza, 64)))|
  {
  }

  lemma Promised(kind: bv32, to: CPointer, content: CPointer, stanza: CPointer, keep: nat)
    requires EmptySize(kind, to, stanza) <= 104
    requires var text := Text(content);
      var budget := 252 - EmptySize(kind, to, stanza);
      && keep <= |text| && keep <= budget && (keep == |text| || keep + 4 > budget)
      && U.CutsWhole(text, budget, text[..keep])
      && (U.ValidString(text) ==> NoLongerFits(kind, Fitted(to, 36), text, Fitted(stanza, 64), keep))
    requires var m := Chat(kind, Fitted(to, 36), Text(content)[..keep], Fitted(stanza, 64));
      |Encode(m)| <= 255 && Decode(ZERO, Encode(m)) == Some(m)
    ensures var m := Chat(kind, Fitted(to, 36), Text(content)[..keep], Fitted(stanza, 64));
      ChatFrameOk(kind, to, content, stanza, Encode(m), m)
  {
    hide EmptySize;
    hide Text;
    hide Fitted;
    hide Encode;
    hide Decode;
    hide NoLongerFits;
    hide U.CutsWhole;
    hide U.ValidString;
  }

  lemma BaseFits(kind: bv32, to: CPointer, stanza: CPointer)
    requires 0 < kind < 0x80
    ensures var m := Chat(kind, Fitted(to, 36), [], Fitted(stanza, 64)); Encodable(m) && |Encode(m)| <= 104
  {
    FittedSize(to, 36);
    FittedSize(stanza, 64);
    hide Fitted;
    hide Encode;
    EmptySmall(kind, Fitted(to, 36), Fitted(stanza, 64));
    ChatEncodable(kind, Fitted(to, 36), [], Fitted(stanza, 64));
  }

  /** What a size_t pointer points to. */
  class Size {
    var value: nat

    constructor (value: nat)
      ensures this.value == value
    {
      this.value := value;
    }
  }

  /** im_proto_build_chat once its arguments are checked. */
  method BuildFrame(kind: bv32, to: CPointer, content: CPointer, stanza: CPointer, out: array<bv8>, outCap: nat)
    returns (status: Status, len: nat, ghost sent: Message)
    requires (kind == CHAT || kind == PRIVATE_CHAT) && MAX_FRAME <= outCap <= out.Length
    modifies out
    ensures status != Error
    ensures len <= outCap && ChatFrameOk(kind, to, content, stanza, out[..len], sent)
    ensures status == Truncated ==> |sent.content| < |Text(content)|
    ensures status == Built ==> sent.content == Text(content)
  {
    hide Encodable;
    hide Encode;
    hide Decode;
    hide Struct.View;
    hide CString;
    hide Fitted;
    hide U.CutsWhole;
    hide U.ValidString;
    hide U.LongestCut;
    ghost var base := Chat(kind, Fitted(to, 36), [], Fitted(stanza, 64));
    BaseFits(kind, to, stanza);
    var text := Text(content);
    var msg := BaseMessage(kind, to, stanza);
    var ok, n := EncodeMsg(msg, out, outCap);
    var budget := Budget(n);
    BudgetIs(n);
    var full := |text|;
    var keep := U.RunePrefixLen(text, budget);
    var cut := keep < full;
    ChatRoundTrip(kind, to, text, keep, stanza);
    FrameIsOk(kind, to, content, stanza, keep);
    hide ChatFrameOk;
    SetContent(msg, text, keep);
    sent := Chat(kind, Fitted(to, 36), text[..keep], Fitted(stanza, 64));
    ok, n := EncodeMsg(msg, out, outCap);
    ok, keep, n, cut := FixUp(msg, text, out, outCap, keep, n, cut);
    len := n;
    status := if cut then Truncated else Built;
  }

  /**
    im_proto_build_chat: an error, and nothing written, exactly for bad arguments; otherwise a
    frame of at most 255 bytes that decodes to the message with as much of the content as the
    frame has room for, "truncated" exactly when that is not all of it. (The error returns after
    a failed encode are unreachable, so they are not written out.)
   */
  method BuildChat(kind: bv32, to: CPointer, content: CPointer, stanza: CPointer,
                   out: array?<bv8>, outCap: nat, outLen: Size?)
    returns (status: Status, ghost sent: Message)
    requires out != null ==> outCap <= out.Length
    modifies if out == null then {} else {out}, if outLen == null then {} else {outLen}
    ensures status == Error <==>
      out == null || outLen == null || outCap < MAX_FRAME || (kind != CHAT && kind != PRIVATE_CHAT)
    ensures status == Error && outLen != null ==> outLen.value == old(outLen.value)
    ensures status == Error && out != null ==> out[..] == old(out[..])
    ensures status != Error ==>
      outLen.value <= outCap && ChatFrameOk(kind, to, content, stanza, out[..outLen.value], sent)
    ensures status == Truncated ==> |sent.content| < |Text(content)|
    ensures status == Built ==> sent.content == Text(content)
  {
    hide *;
    sent := ZERO;
    if out == null || outLen == null || outCap < MAX_FRAME {
      return Error, ZERO;
    }
    if kind != CHAT && kind != PRIVATE_CHAT {
      return Error, ZERO;
    }
    var len;
    status, len, sent := BuildFrame(kind, to, content, stanza, out, outCap);
    outLen.value := len;
  }

  /** im_proto_max_content_for_frame: the room of a public chat frame, and of a private one. */
  method MaxContentForFrame(to: CPointer, stanza: CPointer) returns (budget: nat)
    ensures budget == 252 - EmptySize(CHAT, to, stanza) == 252 - EmptySize(PRIVATE_CHAT, to, stanza)
    ensures budget >= 148
  {
    hide Encodable;
    hide Encode;
    hide Struct.View;
    hide CString;
    hide Fitted;
    BaseFits(CHAT, to, stanza);
    SameRoom(to, stanza);
    var msg := BaseMessage(CHAT, to, stanza);
    var probe := new bv8[256];
    var ok, n := EncodeMsg(msg, probe, 256);
    budget := Budget(n);
    BudgetIs(n);
  }

  lemma SameRoom(to: CPointer, stanza: CPointer)
    ensures EmptySize(CHAT, to, stanza) == EmptySize(PRIVATE_CHAT, to, stanza)
  {
    FittedSize(to, 36);
    FittedSize(stanza, 64);
    ChatSize(CHAT, Fitted(to, 36), [], Fitted(stanza, 64));
    ChatSize(PRIVATE_CHAT, Fitted(to, 36), [], Fitted(stanza, 64));
  }

  /** im_proto_decode: empty input is refused, other input is decoded into the zeroed struct. */
  method DecodeFrame(data: Bytes, out: Struct) returns (ok: bool)
    requires out.Valid()
    modifies out.Repr
    ensures ok == (data != [] && Decode(ZERO, data).Some?)
    ensures ok ==> out.View() == Decode(ZERO, data).value
  {
    hide Decode;
    hide Struct.View;
    if data == [] {
      return false;
    }
    Clear(out);
    var stream := new IStream(data);
    ok := DecodeMessage(stream, out);
  }
}
