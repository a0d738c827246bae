/**
  nanopb's loops over varints, proved against `Varint`: the encoder, which works on the low and the
  high half of a word so that a 32-bit processor need not shift 64-bit words
  (proto/nanopb/pb_encode.c:573-623), and the two decoders (proto/nanopb/pb_decode.c:171-263).

  The lemmas are about single steps of these loops: what is left of the word after each group of the
  encoder, and how a byte that is read goes into the word or ends the loop. Bit positions are bytes
  in the loops; `Pos` says which multiple of seven they are.
 */
module VarintLoops {
  import opened Options
  import opened Streams
  import opened Varint

  // ----- the encoder -----

  function Join(low: bv32, high: bv32): bv64 {
    ((high as bv64) << 32) | (low as bv64)
  }

  // While the encoder works through the low word, the word that remains after the next group is
  // the high word above what is left of the low word; 25, 18, 11 and 4 bits are left in turn.

  predicate Left25(rest: bv64, low: bv32, high: bv32) {
    rest >> 7 == ((high as bv64) << 25) | (low as bv64) && low < 0x2000000
  }

  predicate Left18(rest: bv64, low: bv32, high: bv32) {
    rest >> 7 == ((high as bv64) << 18) | (low as bv64) && low < 0x40000
  }

  predicate Left11(rest: bv64, low: bv32, high: bv32) {
    rest >> 7 == ((high as bv64) << 11) | (low as bv64) && low < 0x800
  }

  predicate Left4(rest: bv64, low: bv32, high: bv32) {
    rest >> 7 == ((high as bv64) << 4) | (low as bv64) && low < 0x10
  }

  /** The low word is used up: four of its bits are in `byte`. */
  predicate LeftNone(byte: bv8, rest: bv64, high: bv32) {
    rest == ((high as bv64) << 4) | (byte as bv64) && byte < 0x10
  }

  predicate Group(byte: bv8, rest: bv64) { byte == (rest & 0x7F) as bv8 }

  lemma From32(low: bv32, high: bv32)
    ensures Left25(Join(low, high), low >> 7, high) && Group((low & 0x7F) as bv8, Join(low, high))
  {
  }

  lemma From25(rest: bv64, low: bv32, high: bv32)
    requires Left25(rest, low, high)
    ensures low != 0 || high != 0 <==> rest >= 0x80
    ensures Left18(rest >> 7, low >> 7, high) && Group((low & 0x7F) as bv8, rest >> 7)
  {
  }

  lemma From18(rest: bv64, low: bv32, high: bv32)
    requires Left18(rest, low, high)
    ensures low != 0 || high != 0 <==> rest >= 0x80
    ensures Left11(rest >> 7, low >> 7, high) && Group((low & 0x7F) as bv8, rest >> 7)
  {
  }

  lemma From11(rest: bv64, low: bv32, high: bv32)
    requires Left11(rest, low, high)
    ensures low != 0 || high != 0 <==> rest >= 0x80
    ensures Left4(rest >> 7, low >> 7, high) && Group((low & 0x7F) as bv8, rest >> 7)
  {
  }

  lemma From4(rest: bv64, low: bv32, high: bv32)
    requires Left4(rest, low, high)
    ensures low != 0 || high != 0 <==> rest >= 0x80
    ensures LeftNone((low & 0x7F) as bv8, rest >> 7, high)
  {
  }

  /** The byte that mixes the top of the low word with the bottom of the high word. */
  lemma FromNone(byte: bv8, rest: bv64, high: bv32)
    requires LeftNone(byte, rest, high)
    ensures high == 0 ==> rest < 0x80 && Group(byte, rest)
    ensures InHigh(high >> 3, byte | (((high & 0x07) << 4) as bv8), rest)
  {
  }

  /** What the encoder's second loop knows. */
  ghost predicate InHigh(high: bv32, byte: bv8, rest: bv64) {
    byte == (rest & 0x7F) as bv8 && rest >> 7 == high as bv64
  }

  lemma HighStep(high: bv32, byte: bv8, rest: bv64)
    requires InHigh(high, byte, rest)
    ensures InHigh(high >> 7, (high & 0x7F) as bv8, rest >> 7)
    ensures high != 0 <==> rest >= 0x80
    ensures Group(byte, rest)
  {
  }

  /** What the encoder's first loop knows at its i-th group. */
  ghost predicate InLow(i: nat, low: bv32, high: bv32, byte: bv8, rest: bv64) {
    && (i == 0 ==> Left25(rest, low, high))
    && (i == 1 ==> Left18(rest, low, high))
    && (i == 2 ==> Left11(rest, low, high))
    && (i == 3 ==> Left4(rest, low, high))
    && (i == 4 ==> LeftNone(byte, rest, high))
    && (i < 4 ==> Group(byte, rest))
  }

  lemma LowStep(i: nat, low: bv32, high: bv32, byte: bv8, rest: bv64)
    requires i < 4 && InLow(i, low, high, byte, rest)
    ensures InLow(i + 1, low >> 7, high, (low & 0x7F) as bv8, rest >> 7)
    ensures low != 0 || high != 0 <==> rest >= 0x80
    ensures Group(byte, rest)
  {
    hide Left25;
    hide Left18;
    hide Left11;
    hide Left4;
    hide LeftNone;
    hide Group;
    match i
    case 0 => From25(rest, low, high);
    case 1 => From18(rest, low, high);
    case 2 => From11(rest, low, high);
    case _ => From4(rest, low, high);
  }

  /** Of the groups of v, those of `rest` are still to be written. */
  ghost predicate Pending(v: bv64, done: Bytes, rest: bv64) {
    Enc(v) == done + Enc(rest)
  }

  lemma PendingAll(v: bv64, none: Bytes)
    requires none == []
    ensures Pending(v, none, v)
  {
  }

  /** One group moves from the word to the buffer. */
  lemma EmitGroup(v: bv64, done: Bytes, rest: bv64, byte: bv8)
    requires Pending(v, done, rest) && rest >= 0x80 && Group(byte, rest)
    ensures Pending(v, done + [byte | 0x80], rest >> 7)
    ensures |done| + 2 <= 10
  {
    EncFits(v);
    assert Enc(rest) == [byte | 0x80] + Enc(rest >> 7);
  }

  lemma EmitLast(v: bv64, done: Bytes, rest: bv64, byte: bv8)
    requires Pending(v, done, rest) && rest < 0x80 && Group(byte, rest)
    ensures Enc(v) == done + [byte] && |done| + 1 <= 10
  {
    EncFits(v);
  }

  /** The groups that lie in the low word go to the buffer; the one in hand stays in `byte`. */
  method EmitLow(buffer: array<bv8>, low0: bv32, high: bv32) returns (i: nat, byte: bv8, ghost rest: bv64)
    requires buffer.Length == 10
    modifies buffer
    ensures i <= 4 && Pending(Join(low0, high), buffer[..i], rest)
    ensures high == 0 ==> rest < 0x80 && Group(byte, rest)
    ensures high != 0 ==> InHigh(high >> 3, byte | (((high & 0x07) << 4) as bv8), rest)
  {
    hide InLow;
    hide InHigh;
    hide Join;
    hide Pending;
    hide Group;
    hide Enc;
    i := 0;
    byte := (low0 & 0x7F) as bv8;
    var low := low0 >> 7;
    rest := Join(low0, high);
    LowStart(low0, high);
    PendingAll(rest, buffer[..0]);
    while i < 4 && (low != 0 || high != 0)
      invariant 0 <= i <= 4 && Pending(Join(low0, high), buffer[..i], rest) && InLow(i, low, high, byte, rest)
      decreases 4 - i
    {
      LowStep(i, low, high, byte, rest);
      EmitGroup(Join(low0, high), buffer[..i], rest, byte);
      byte := byte | 0x80;
      buffer[i] := byte;
      i := i + 1;
      assert buffer[..i] == buffer[..i - 1] + [byte];
      byte := (low & 0x7F) as bv8;
      low := low >> 7;
      rest := rest >> 7;
    }
    LowEnd(i, low, high, byte, rest);
  }

  /** The groups that lie in the high word go to the buffer; the last one stays in `byte`. */
  method EmitHigh(buffer: array<bv8>, i0: nat, high0: bv32, byte0: bv8, ghost v: bv64, ghost rest0: bv64)
    returns (i: nat, byte: bv8, ghost rest: bv64)
    requires buffer.Length == 10 && i0 < 10 && Pending(v, buffer[..i0], rest0) && InHigh(high0, byte0, rest0)
    modifies buffer
    ensures i < 10 && Pending(v, buffer[..i], rest) && rest < 0x80 && Group(byte, rest)
  {
    hide InHigh;
    hide Pending;
    hide Group;
    hide Enc;
    i, byte, rest := i0, byte0, rest0;
    var high := high0;
    while high != 0
      invariant 0 <= i < 10 && Pending(v, buffer[..i], rest) && InHigh(high, byte, rest)
      decreases high
    {
      HighStep(high, byte, rest);
      EmitGroup(v, buffer[..i], rest, byte);
      byte := byte | 0x80;
      buffer[i] := byte;
      i := i + 1;
      assert buffer[..i] == buffer[..i - 1] + [byte];
      byte := (high & 0x7F) as bv8;
      high := high >> 7;
      rest := rest >> 7;
    }
    HighStep(high, byte, rest);
  }

  /** The split-word encoder writes the canonical form of high and low together. */
  method EncodeVarint32(out: OStream, low: bv32, high: bv32) returns (ok: bool)
    requires out.Valid()
    modifies out, out.buf
    ensures out.Valid()
    ensures ok == (old(out.bytesWritten) + |Enc(Join(low, high))| <= out.maxSize)
    ensures out.Output() == old(out.Output()) + if ok then Enc(Join(low, high)) else []
  {
    hide InHigh;
    hide Join;
    hide Pending;
    hide Group;
    hide Enc;
    var buffer := new bv8[10];
    var i, byte;
    ghost var rest;
    i, byte, rest := EmitLow(buffer, low, high);
    if high != 0 {
      i, byte, rest := EmitHigh(buffer, i, high >> 3, byte | (((high & 0x07) << 4) as bv8), Join(low, high), rest);
    }
    EmitLast(Join(low, high), buffer[..i], rest, byte);
    buffer[i] := byte;
    i := i + 1;
    assert buffer[..i] == buffer[..i - 1] + [byte];
    ok := out.Write(buffer[..i]);
  }

  lemma LowStart(low: bv32, high: bv32)
    ensures InLow(0, low >> 7, high, (low & 0x7F) as bv8, Join(low, high))
  {
    From32(low, high);
  }

  lemma LowEnd(i: nat, low: bv32, high: bv32, byte: bv8, rest: bv64)
    requires i <= 4 && InLow(i, low, high, byte, rest) && (i < 4 ==> low == 0 && high == 0)
    ensures high == 0 ==> rest < 0x80 && Group(byte, rest)
    ensures high != 0 ==> InHigh(high >> 3, byte | (((high & 0x07) << 4) as bv8), rest)
  {
    if i < 4 {
      LowStep(i, low, high, byte, rest);
    } else {
      FromNone(byte, rest, high);
    }
  }

  lemma JoinSplit(v: bv64)
    ensures Join((v & 0xFFFFFFFF) as bv32, (v >> 32) as bv32) == v
  {
  }

  method EncodeVarint(out: OStream, value: bv64) returns (ok: bool)
    requires out.Valid()
    modifies out, out.buf
    ensures out.Valid()
    ensures ok == (old(out.bytesWritten) + |Enc(value)| <= out.maxSize)
    ensures out.Output() == old(out.Output()) + if ok then Enc(value) else []
  {
    if value <= 0x7F {
      ok := out.Write([value as bv8]);
    } else {
      JoinSplit(value);
      ok := EncodeVarint32(out, (value & 0xFFFFFFFF) as bv32, (value >> 32) as bv32);
    }
  }

  // ----- the 64-bit decoder -----

  /** The first i bytes of s all say that another byte follows. */
  ghost predicate Marked(s: Bytes, i: nat) {
    i <= |s| && forall j :: 0 <= j < i ==> s[j] >= 0x80
  }

  lemma EndAt(s: Bytes, i: nat)
    requires Marked(s, i)
    ensures i < |s| && s[i] < 0x80 ==> End(s) == Some(i)
    ensures i == |s| ==> End(s) == None
    ensures End(s).Some? ==> End(s).value >= i
  {
  }

  /** `bitpos` is the position of group i. */
  ghost predicate Pos(bitpos: bv8, i: nat) {
    i <= 10 && bitpos as int == 7 * i
  }

  lemma PosNext(p: bv8, i: nat)
    requires Pos(p, i)
    ensures i < 10 ==> Pos(p + 7, i + 1)
    ensures (p >= 63 <==> i >= 9) && (p >= 64 <==> i >= 10) && (p >= 32 <==> i >= 5) && (p == 28 <==> i == 4)
  {
  }

  lemma ShiftAgain(x: bv64, p: bv8)
    requires p == 7 || p == 14 || p == 21 || p == 28 || p == 35 || p == 42 || p == 49 || p == 56 || p == 63
    ensures (x << (p - 7)) << 7 == x << p
  {
  }

  lemma PosBefore(p: bv8, i: nat)
    requires Pos(p, i) && 1 <= i <= 9
    ensures Pos(p - 7, i - 1)
    ensures p == 7 || p == 14 || p == 21 || p == 28 || p == 35 || p == 42 || p == 49 || p == 56 || p == 63
  {
    if i == 1 { assert p == 7; } else if i == 2 { assert p == 14; } else if i == 3 { assert p == 21; }
  }

  lemma NoShift(x: bv64, p: bv8)
    requires Pos(p, 0)
    ensures x << p == x
  {
    assert p == 0;
  }

  lemma {:induction false} ShiftUp(x: bv64, p: bv8, i: nat)
    requires Pos(p, i) && i <= 9
    ensures x << p == Up(x, i)
    decreases i
  {
    hide Pos;
    if i == 0 {
      NoShift(x, p);
    } else {
      PosBefore(p, i);
      ShiftUp(x, p - 7, i - 1);
      ShiftAgain(x, p);
    }
  }

  lemma OrShift(a: bv64, b: bv64, c: bv64)
    ensures a | ((b | c) << 7) == (a | (b << 7)) | (c << 7)
  {
  }

  /** Appending a group adds it above all the others. */
  lemma {:induction false} WordSnoc(s: Bytes, b: bv8)
    ensures Word(s + [b]) == Word(s) | Up((b & 0x7F) as bv64, |s|)
  {
    if s == [] {
      WordSingle(b);
      assert s + [b] == [b];
    } else {
      WordSnoc(s[1..], b);
      WordCons(s[0], s[1..] + [b]);
      assert s + [b] == [s[0]] + (s[1..] + [b]);
      OrShift((s[0] & 0x7F) as bv64, Word(s[1..]), Up((b & 0x7F) as bv64, |s| - 1));
    }
  }

  lemma AddGroup(done: Bytes, b: bv8, p: bv8)
    requires |done| <= 9 && Pos(p, |done|)
    ensures Word(done) | (((b & 0x7F) as bv64) << p) == Word(done + [b])
  {
    hide *;
    WordSnoc(done, b);
    ShiftUp((b & 0x7F) as bv64, p, |done|);
  }

  lemma ByteTests(b: bv8)
    ensures b & 0xFE != 0 <==> b > 1
    ensures b & 0x80 == 0 <==> b < 0x80
  {
  }

  lemma Ends64(s: Bytes, i: nat)
    requires Marked(s, i) && i < |s| && i <= 9 && s[i] < 0x80 && (i == 9 ==> s[i] <= 1)
    ensures Dec64(s) == Some((Word(s[..i + 1]), i + 1))
  {
    EndAt(s, i);
  }

  lemma Fails64(s: Bytes, i: nat)
    requires Marked(s, i) && (i == |s| || (i < |s| && i == 9 && s[i] > 1) || i >= 10)
    ensures Dec64(s) == None
  {
    EndAt(s, i);
  }

  /** What the decoder's loop knows after i groups. */
  ghost predicate Read64(s: Bytes, i: nat, value: bv64, bitpos: bv8) {
    Marked(s, i) && i <= 9 && value == Word(s[..i]) && Pos(bitpos, i)
  }

  lemma Start64(s: Bytes)
    ensures Read64(s, 0, 0, 0)
  {
  }

  lemma Starved64(s: Bytes, i: nat, value: bv64, bitpos: bv8)
    requires Read64(s, i, value, bitpos) && i == |s|
    ensures Dec64(s) == None
  {
    Fails64(s, i);
  }

  lemma Overflow64(s: Bytes, i: nat, value: bv64, bitpos: bv8, byte: bv8)
    requires Read64(s, i, value, bitpos) && i < |s| && s[i] == byte && bitpos >= 63 && byte & 0xFE != 0
    ensures Dec64(s) == None
  {
    PosNext(bitpos, i);
    ByteTests(byte);
    Fails64(s, i);
  }

  /** One more group, the last one or with another one to come. */
  lemma Group64(s: Bytes, i: nat, value: bv64, bitpos: bv8, byte: bv8)
    requires Read64(s, i, value, bitpos) && i < |s| && s[i] == byte && !(bitpos >= 63 && byte & 0xFE != 0)
    ensures i == 9 ==> byte <= 1
    ensures value | (((byte & 0x7F) as bv64) << bitpos) == Word(s[..i + 1])
    ensures i < 9 ==> Pos(bitpos + 7, i + 1)
  {
    AddGroup(s[..i], byte, bitpos);
    hide Word;
    assert s[..i + 1] == s[..i] + [byte];
    PosNext(bitpos, i);
    ByteTests(byte);
  }

  lemma Last64(s: Bytes, i: nat, value: bv64, bitpos: bv8, byte: bv8)
    requires Read64(s, i, value, bitpos) && i < |s| && s[i] == byte && !(bitpos >= 63 && byte & 0xFE != 0)
      && byte & 0x80 == 0
    ensures Dec64(s) == Some((value | (((byte & 0x7F) as bv64) << bitpos), i + 1))
  {
    Group64(s, i, value, bitpos, byte);
    hide Word;
    hide Pos;
    ByteTests(byte);
    Ends64(s, i);
  }

  lemma More64(s: Bytes, i: nat, value: bv64, bitpos: bv8, byte: bv8)
    requires Read64(s, i, value, bitpos) && i < |s| && s[i] == byte && !(bitpos >= 63 && byte & 0xFE != 0)
      && byte & 0x80 != 0
    ensures Read64(s, i + 1, value | (((byte & 0x7F) as bv64) << bitpos), bitpos + 7) && bitpos + 7 <= 63
  {
    Group64(s, i, value, bitpos, byte);
    hide Word;
    PosNext(bitpos, i);
    PosNext(bitpos + 7, i + 1);
    hide Pos;
    ByteTests(byte);
  }

  lemma Advanced(s: Bytes, i: nat, b: bv8, rest: Bytes)
    requires i <= |s| && [b] + rest == s[i..]
    ensures i < |s| && s[i] == b && s[i + 1..] == rest
  {
    assert ([b] + rest)[0] == b && ([b] + rest)[1..] == rest;
  }

  method DecodeVarint(input: IStream) returns (ok: bool, value: bv64)
    requires input.Valid()
    modifies input
    ensures input.Valid()
    ensures ok == Dec64(old(input.Rest())).Some?
    ensures ok ==> var (v, n) := Dec64(old(input.Rest())).value; value == v && input.Rest() == old(input.Rest())[n..]
  {
    hide Read64;
    hide Dec64;
    ghost var s := input.Rest();
    ghost var i: nat := 0;
    var bitpos: bv8 := 0;
    value := 0;
    Start64(s);
    while true
      invariant input.Valid() && i <= |s| && input.Rest() == s[i..]
      invariant Read64(s, i, value, bitpos) && bitpos <= 63
      decreases |s| - i
    {
      var got, byte := input.ReadByte();
      if !got {
        Starved64(s, i, value, bitpos);
        return false, 0;
      }
      Advanced(s, i, byte, input.Rest());
      if bitpos >= 63 && byte & 0xFE != 0 {
        Overflow64(s, i, value, bitpos, byte);
        return false, 0;
      }
      if byte & 0x80 == 0 {
        Last64(s, i, value, bitpos, byte);
      } else {
        More64(s, i, value, bitpos, byte);
      }
      value := value | (((byte & 0x7F) as bv64) << bitpos);
      if byte & 0x80 == 0 {
        return true, value;
      }
      bitpos := bitpos + 7;
      i := i + 1;
    }
  }

  // ----- the 32-bit decoder -----

  /** The result of the 32-bit decoder's loop once byte b is in at `bitpos`. */
  function Merge32(result: bv32, b: bv8, bitpos: bv8): bv32 {
    if bitpos >= 32 then result
    else if bitpos == 28 then result | (((b & 0x0F) as bv32) << 28)
    else result | (((b & 0x7F) as bv32) << bitpos)
  }

  lemma LowOfLowGroup(w: bv64, b: bv8, p: bv8)
    requires p == 7 || p == 14 || p == 21
    ensures Low(w | (((b & 0x7F) as bv64) << p)) == Low(w) | (((b & 0x7F) as bv32) << p)
  {
  }

  lemma LowOfFifthGroup(w: bv64, b: bv8)
    ensures Low(w | (((b & 0x7F) as bv64) << 28)) == Low(w) | (((b & 0x0F) as bv32) << 28)
  {
  }

  lemma LowOfHighGroup(w: bv64, x: bv64, p: bv8)
    requires p == 35 || p == 42 || p == 49 || p == 56 || p == 63
    ensures Low(w | (x << p)) == Low(w)
  {
  }

  lemma MergeLowGroup(w: bv64, b: bv8, p: bv8)
    requires p == 7 || p == 14 || p == 21
    ensures Low(w | (((b & 0x7F) as bv64) << p)) == Merge32(Low(w), b, p)
  {
    hide Low;
    LowOfLowGroup(w, b, p);
  }

  lemma MergeFifthGroup(w: bv64, b: bv8)
    ensures Low(w | (((b & 0x7F) as bv64) << 28)) == Merge32(Low(w), b, 28)
  {
    hide Low;
    LowOfFifthGroup(w, b);
  }

  lemma MergeHighGroup(w: bv64, b: bv8, p: bv8)
    requires p == 35 || p == 42 || p == 49 || p == 56 || p == 63
    ensures Low(w | (((b & 0x7F) as bv64) << p)) == Merge32(Low(w), b, p)
  {
    hide Low;
    LowOfHighGroup(w, (b & 0x7F) as bv64, p);
  }

  lemma PosValues(p: bv8, i: nat)
    requires Pos(p, i) && 1 <= i <= 9
    ensures i <= 3 ==> p == 7 || p == 14 || p == 21
    ensures i == 4 ==> p == 28
    ensures 5 <= i ==> p == 35 || p == 42 || p == 49 || p == 56 || p == 63
  {
    if i == 1 { assert p == 7; } else if i == 2 { assert p == 14; } else if i == 3 { assert p == 21; }
  }

  lemma MergeAnyGroup(w: bv64, b: bv8, p: bv8, i: nat)
    requires Pos(p, i) && 1 <= i <= 9
    ensures Low(w | (((b & 0x7F) as bv64) << p)) == Merge32(Low(w), b, p)
  {
    hide *;
    PosValues(p, i);
    if i <= 3 {
      MergeLowGroup(w, b, p);
    } else if i == 4 {
      MergeFifthGroup(w, b);
    } else {
      MergeHighGroup(w, b, p);
    }
  }

  /** What the loop knows before it reads byte i. */
  ghost predicate Read32(s: Bytes, i: nat, result: bv32, bitpos: bv8) {
    Marked(s, i) && 1 <= i <= 10 && Pos(bitpos, i) && result == Low(Word(s[..i])) && Fits32(s, i, result)
  }

  /** A group added to the word read so far. */
  function WithGroup(w: bv64, b: bv8, p: bv8): bv64
    requires p <= 63
  {
    w | (((b & 0x7F) as bv64) << p)
  }

  lemma MergesGroup(w: bv64, b: bv8, p: bv8, i: nat)
    requires Pos(p, i) && 1 <= i <= 9
    ensures Low(WithGroup(w, b, p)) == Merge32(Low(w), b, p)
  {
    MergeAnyGroup(w, b, p, i);
    hide Low;
    hide Merge32;
  }

  lemma WordWithGroup(done: Bytes, b: bv8, p: bv8)
    requires |done| <= 9 && Pos(p, |done|)
    ensures WithGroup(Word(done), b, p) == Word(done + [b])
  {
    AddGroup(done, b, p);
    hide Word;
  }

  lemma MergeGroup(s: Bytes, i: nat, bitpos: bv8, byte: bv8)
    requires Marked(s, i) && 1 <= i <= 9 && Pos(bitpos, i) && i < |s| && s[i] == byte
    ensures Merge32(Low(Word(s[..i])), byte, bitpos) == Low(Word(s[..i + 1]))
  {
    hide *;
    MergesGroup(Word(s[..i]), byte, bitpos, i);
    WordWithGroup(s[..i], byte, bitpos);
    assert s[..i + 1] == s[..i] + [byte];
  }

  /** From the fifth group on the low word no longer changes. */
  lemma {:induction false} LowStable(s: Bytes, i: nat, n: nat, bitpos: bv8)
    requires 5 <= i <= n <= 10 && n <= |s| && Pos(bitpos, i) && Marked(s, n - 1)
    ensures Low(Word(s[..n])) == Low(Word(s[..i]))
    decreases n - i
  {
    if i < n {
      MergeGroup(s, i, bitpos, s[i]);
      PosNext(bitpos, i);
      hide Word;
      hide Low;
      LowStable(s, i + 1, n, bitpos + 7);
    }
  }

  /** The test the loop makes on byte i. */
  predicate Good32(result: bv32, b: bv8, bitpos: bv8) {
    if bitpos >= 32 then
      bitpos < 64 && (b & 0x7F == 0 || (result >> 31 != 0 && b == if bitpos < 63 then 0xFF else 0x01))
    else bitpos == 28 ==> !(b & 0x70 != 0 && b & 0x78 != 0x78)
  }

  lemma SignBit(x: bv32)
    ensures x >> 31 != 0 <==> x >= 0x80000000
  {
  }

  lemma GoodMeans(s: Bytes, i: nat, result: bv32, bitpos: bv8, byte: bv8)
    requires 1 <= i <= 10 && Pos(bitpos, i)
    ensures Good32(result, byte, bitpos) <==>
      i < 10 && (i == 4 ==> FifthOk(byte)) && (i >= 5 ==> Extension(byte, i, result))
  {
    PosNext(bitpos, i);
    SignBit(result);
    hide Pos;
  }

  lemma Starved32(s: Bytes, i: nat, result: bv32, bitpos: bv8)
    requires Read32(s, i, result, bitpos) && i == |s|
    ensures Dec32(s) == None
  {
    Fails64(s, i);
  }

  lemma Bad32(s: Bytes, i: nat, result: bv32, bitpos: bv8, byte: bv8)
    requires Read32(s, i, result, bitpos) && i < |s| && s[i] == byte && !Good32(result, byte, bitpos)
    ensures Dec32(s) == None
  {
    GoodMeans(s, i, result, bitpos, byte);
    hide Word;
    hide Low;
    hide Good32;
    if i == 10 {
      Fails64(s, i);
    } else if Dec64(s).Some? {
      EndAt(s, i);
      var n := Dec64(s).value.1;
      assert Marked(s, n - 1);
      if i >= 5 {
        LowStable(s, i, n, bitpos);
      }
    }
  }

  lemma Group32(s: Bytes, i: nat, result: bv32, bitpos: bv8, byte: bv8)
    requires Read32(s, i, result, bitpos) && i < |s| && s[i] == byte && Good32(result, byte, bitpos)
    ensures i < 10 && Fits32(s, i + 1, Merge32(result, byte, bitpos))
      && Merge32(result, byte, bitpos) == Low(Word(s[..i + 1]))
    ensures Pos(bitpos + 7, i + 1)
  {
    GoodMeans(s, i, result, bitpos, byte);
    PosNext(bitpos, i);
    MergeGroup(s, i, bitpos, byte);
    hide Word;
    hide Low;
    hide Good32;
    hide Pos;
  }

  lemma Last32(s: Bytes, i: nat, result: bv32, bitpos: bv8, byte: bv8)
    requires Read32(s, i, result, bitpos) && i < |s| && s[i] == byte && Good32(result, byte, bitpos) && byte & 0x80 == 0
    ensures Dec32(s) == Some((Merge32(result, byte, bitpos), i + 1))
  {
    Group32(s, i, result, bitpos, byte);
    GoodMeans(s, i, result, bitpos, byte);
    ByteTests(byte);
    hide Word;
    hide Low;
    hide Good32;
    hide Merge32;
    hide Pos;
    assert i == 9 ==> byte <= 1 by {
      if i == 9 { NinthExtension(byte, result); }
    }
    Ends64(s, i);
  }

  lemma NinthExtension(b: bv8, low: bv32)
    requires Extension(b, 9, low) && b < 0x80
    ensures b <= 1
  {
  }

  lemma More32(s: Bytes, i: nat, result: bv32, bitpos: bv8, byte: bv8)
    requires Read32(s, i, result, bitpos) && i < |s| && s[i] == byte && Good32(result, byte, bitpos) && byte & 0x80 != 0
    ensures Read32(s, i + 1, Merge32(result, byte, bitpos), bitpos + 7)
  {
    Group32(s, i, result, bitpos, byte);
    ByteTests(byte);
    hide Word;
    hide Low;
    hide Good32;
    hide Merge32;
    hide Pos;
  }

  /** The first byte: the whole number, or the first group of several. */
  lemma First32(s: Bytes, byte: bv8)
    requires s != [] && s[0] == byte
    ensures byte & 0x80 == 0 ==> Dec32(s) == Some((byte as bv32, 1))
    ensures byte & 0x80 != 0 ==> Read32(s, 1, (byte & 0x7F) as bv32, 7)
  {
    ByteTests(byte);
    FirstWord(s, byte);
    hide Word;
    if byte < 0x80 {
      Ends64(s, 0);
    }
  }

  lemma FirstWord(s: Bytes, byte: bv8)
    requires s != [] && s[0] == byte
    ensures Low(Word(s[..1])) == (byte & 0x7F) as bv32
    ensures byte < 0x80 ==> (byte & 0x7F) as bv32 == byte as bv32
  {
    assert s[..1] == [byte];
    WordSingle(byte);
    hide Word;
  }

  lemma MergeBranches(value: bv32, byte: bv8, bitpos: bv8)
    ensures bitpos >= 32 ==> Merge32(value, byte, bitpos) == value
    ensures bitpos == 28 ==> Merge32(value, byte, bitpos) == value | (((byte & 0x0F) as bv32) << bitpos)
    ensures bitpos < 32 && bitpos != 28 ==> Merge32(value, byte, bitpos) == value | (((byte & 0x7F) as bv32) << bitpos)
  {
  }

  method DecodeVarint32(input: IStream) returns (ok: bool, value: bv32, eof: bool)
    requires input.Valid()
    modifies input
    ensures input.Valid()
    ensures ok == Dec32(old(input.Rest())).Some?
    ensures ok ==> var (v, n) := Dec32(old(input.Rest())).value; value == v && input.Rest() == old(input.Rest())[n..]
    ensures eof == (old(input.Rest()) == [])
  {
    hide Read32;
    hide Dec32;
    hide Merge32;
    ghost var s := input.Rest();
    var got, byte := input.ReadByte();
    if !got {
      NothingToRead(s);
      return false, 0, true;
    }
    eof := false;
    Advanced(s, 0, byte, input.Rest());
    First32(s, byte);
    if byte & 0x80 == 0 {
      return true, byte as bv32, false;
    }
    var bitpos: bv8 := 7;
    value := (byte & 0x7F) as bv32;
    ghost var i: nat := 1;
    while true
      invariant input.Valid() && i <= |s| && input.Rest() == s[i..]
      invariant Read32(s, i, value, bitpos)
      decreases |s| - i
    {
      got, byte := input.ReadByte();
      if !got {
        Starved32(s, i, value, bitpos);
        return false, 0, false;
      }
      Advanced(s, i, byte, input.Rest());
      var result := value;
      if bitpos >= 32 {
        var signExtension: bv8 := if bitpos < 63 then 0xFF else 0x01;
        var validExtension := byte & 0x7F == 0x00 || (value >> 31 != 0 && byte == signExtension);
        if bitpos >= 64 || !validExtension {
          Bad32(s, i, value, bitpos, byte);
          return false, 0, false;
        }
      } else if bitpos == 28 {
        if byte & 0x70 != 0 && byte & 0x78 != 0x78 {
          Bad32(s, i, value, bitpos, byte);
          return false, 0, false;
        }
        result := value | (((byte & 0x0F) as bv32) << bitpos);
      } else {
        result := value | (((byte & 0x7F) as bv32) << bitpos);
      }
      MergeBranches(value, byte, bitpos);
      if byte & 0x80 == 0 {
        Last32(s, i, value, bitpos, byte);
      } else {
        More32(s, i, value, bitpos, byte);
      }
      value := result;
      if byte & 0x80 == 0 {
        return true, value, false;
      }
      bitpos := bitpos + 7;
      i := i + 1;
    }
  }

  lemma NothingToRead(s: Bytes)
    requires s == []
    ensures Dec32(s) == None
  {
  }

  // ----- both decoders on the same bytes -----

  /**
    Both loops on the same bytes: whatever the 32-bit decoder accepts the 64-bit decoder accepts,
    takes the same bytes and returns the same number modulo 2^32.
   */
  method DecodeWithBoth(s: Bytes) returns (ok32: bool, ok64: bool, v32: bv32, v64: bv64, left32: nat, left64: nat)
    ensures ok32 ==> ok64 && left32 == left64 && (v64 & 0xFFFFFFFF) as bv32 == v32
    ensures ok64 ==> left64 < |s|
  {
    hide Dec32;
    hide Dec64;
    var input32 := new IStream(s);
    var input64 := new IStream(s);
    var eof;
    ok32, v32, eof := DecodeVarint32(input32);
    ok64, v64 := DecodeVarint(input64);
    left32, left64 := input32.BytesLeft(), input64.BytesLeft();
    if ok32 {
      Dec32InDec64(s);
    }
  }
}
