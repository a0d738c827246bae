/**
  Base-128 varints on machine words: `Enc` and `Dec64` say what a varint is, `Dec32` what nanopb's
  32-bit decoder makes of it, which also accepts sign-extended and padded input
  (proto/nanopb/pb_encode.c:573-623, proto/nanopb/pb_decode.c:171-263).
 */
module Varint {
  import opened Options
  import opened Streams

  // ----- what a varint is -----

  /** Groups of seven bits, low group first, all but the last marked with the high bit. */
  function Enc(v: bv64): (s: Bytes)
    ensures s != []
    decreases v
  {
    if v < 0x80 then [v as bv8] else [((v & 0x7F) as bv8) | 0x80] + Enc(v >> 7)
  }

  /** The word a list of groups spells. */
  function Word(s: Bytes): bv64 {
    if s == [] then 0 else ((s[0] & 0x7F) as bv64) | (Word(s[1..]) << 7)
  }

  /** Position of the first byte without the high bit. */
  function End(s: Bytes): (k: Option<nat>)
    ensures k.Some? ==> k.value < |s| && s[k.value] < 0x80 && forall j :: 0 <= j < k.value ==> s[j] >= 0x80
    ensures k.None? ==> forall j :: 0 <= j < |s| ==> s[j] >= 0x80
  {
    if s == [] then None
    else if s[0] < 0x80 then Some(0)
    else match End(s[1..]) case None => None case Some(k) => Some(k + 1)
  }

  /** A 64-bit varint at the front of s, and the number of bytes it takes. */
  function Dec64(s: Bytes): (r: Option<(bv64, nat)>)
    ensures r.Some? ==> 1 <= r.value.1 <= |s| && r.value.1 <= 10
  {
    match End(s)
    case None => None
    case Some(k) => if k > 9 || (k == 9 && s[9] > 1) then None else Some((Word(s[..k + 1]), k + 1))
  }

  /** v shifted right by 7, i times. */
  function Down(v: bv64, i: nat): bv64 {
    if i == 0 then v else Down(v >> 7, i - 1)
  }

  /** x shifted left by 7, i times. */
  function Up(x: bv64, i: nat): bv64 {
    if i == 0 then x else Up(x, i - 1) << 7
  }

  // ----- the encoding is canonical and decodes back -----

  /** Byte i carries bits 7i to 7i+6 of v, and the high bit exactly when another byte follows. */
  lemma {:induction false} EncDigit(v: bv64, i: nat)
    requires i < |Enc(v)|
    ensures Enc(v)[i] & 0x7F == (Down(v, i) & 0x7F) as bv8
    ensures Enc(v)[i] >= 0x80 <==> i < |Enc(v)| - 1
    decreases i
  {
    if v >= 0x80 && i > 0 {
      EncDigit(v >> 7, i - 1);
    }
  }

  lemma SevenBits(v: bv64)
    ensures ((((v & 0x7F) as bv8 | 0x80) & 0x7F) as bv64) == v & 0x7F
    ensures v < 0x80 ==> (((v as bv8) & 0x7F) as bv64) == v
    ensures (v & 0x7F) | ((v >> 7) << 7) == v
  {
  }

  lemma WordCons(b: bv8, t: Bytes)
    ensures Word([b] + t) == ((b & 0x7F) as bv64) | (Word(t) << 7)
  {
    assert ([b] + t)[1..] == t;
  }

  lemma WordSingle(b: bv8)
    ensures Word([b]) == (b & 0x7F) as bv64
  {
    WordCons(b, []);
    assert [b] + [] == [b];
  }

  lemma EncWordMore(v: bv64)
    requires v >= 0x80 && Word(Enc(v >> 7)) == v >> 7
    ensures Word([((v & 0x7F) as bv8) | 0x80] + Enc(v >> 7)) == v
  {
    SevenBits(v);
    WordCons(((v & 0x7F) as bv8) | 0x80, Enc(v >> 7));
  }

  lemma EncWordLast(v: bv64)
    requires v < 0x80
    ensures Word([v as bv8]) == v
  {
    SevenBits(v);
    WordSingle(v as bv8);
  }

  lemma {:induction false} EncWord(v: bv64)
    ensures Word(Enc(v)) == v
    decreases v
  {
    if v >= 0x80 {
      EncWord(v >> 7);
      EncWordMore(v);
    } else {
      EncWordLast(v);
    }
  }

  lemma FirstOfEnc(v: bv64)
    ensures v < 0x80 ==> |Enc(v)| == 1 && Enc(v)[0] < 0x80
    ensures v >= 0x80 ==> Enc(v)[0] >= 0x80 && Enc(v)[1..] == Enc(v >> 7)
  {
  }

  lemma EndOfOne(s: Bytes)
    ensures s != [] && s[0] < 0x80 ==> End(s) == Some(0)
    ensures s != [] && s[0] >= 0x80 && End(s[1..]).Some? ==> End(s) == Some(End(s[1..]).value + 1)
  {
  }

  lemma {:induction false} EndOfEnc(v: bv64, rest: Bytes)
    ensures End(Enc(v) + rest) == Some(|Enc(v)| - 1)
    decreases v
  {
    FirstOfEnc(v);
    EndOfOne(Enc(v) + rest);
    hide Enc;
    hide End;
    if v >= 0x80 {
      EndOfEnc(v >> 7, rest);
      assert (Enc(v) + rest)[1..] == Enc(v)[1..] + rest;
    }
  }

  /** A value whose groups from the i-th on are zero takes at most i bytes. */
  lemma {:induction false} EncLength(v: bv64, i: nat)
    requires i >= 1 && Down(v, i) == 0
    ensures |Enc(v)| <= i
    decreases i
  {
    if v >= 0x80 {
      EncLength(v >> 7, i - 1);
    }
  }

  lemma DownBound(v: bv64)
    ensures Down(v, 9) <= 1 && Down(v, 10) == 0
  {
    DownStep(v, 0); DownStep(v, 1); DownStep(v, 2); DownStep(v, 3); DownStep(v, 4);
    DownStep(v, 5); DownStep(v, 6); DownStep(v, 7); DownStep(v, 8); DownStep(v, 9);
    assert Down(v, 9) == v >> 63;
  }

  /** At most ten bytes, and the tenth is at most 1. */
  lemma EncFits(v: bv64)
    ensures 1 <= |Enc(v)| <= 10
    ensures |Enc(v)| == 10 ==> Enc(v)[9] <= 1
  {
    DownBound(v);
    EncLength(v, 10);
    if |Enc(v)| == 10 {
      EncDigit(v, 9);
    }
  }

  lemma {:induction false} DownStep(v: bv64, i: nat)
    ensures Down(v, i + 1) == Down(v, i) >> 7
    decreases i
  {
    if i > 0 {
      DownStep(v >> 7, i - 1);
    }
  }

  /** The 64-bit decoder undoes the encoder and takes exactly its bytes, whatever follows. */
  lemma RoundTrip64(v: bv64, rest: Bytes)
    ensures Dec64(Enc(v) + rest) == Some((v, |Enc(v)|))
  {
    EncFits(v);
    EndOfEnc(v, rest);
    EncWord(v);
    assert (Enc(v) + rest)[..|Enc(v)|] == Enc(v);
  }

  // ----- what the decoders accept -----

  function Low(v: bv64): bv32 {
    (v & 0xFFFFFFFF) as bv32
  }

  /** A byte past the 32nd bit adds nothing, or extends the sign of a negative number. */
  predicate Extension(b: bv8, j: nat, low: bv32) {
    b & 0x7F == 0 || (low >= 0x80000000 && b == if j < 9 then 0xFF else 0x01)
  }

  predicate FifthOk(b: bv8) {
    b & 0x70 == 0 || b & 0x78 == 0x78
  }

  /** What the 32-bit decoder wants of the first n bytes of s beyond what the 64-bit decoder wants. */
  predicate Fits32(s: Bytes, n: nat, low: bv32)
    requires n <= |s|
  {
    (n > 4 ==> FifthOk(s[4])) && forall j :: 5 <= j < n ==> Extension(s[j], j, low)
  }

  /**
    Which varints the 64-bit decoder takes, whatever follows: those of up to nine bytes, padded ones
    included, and those of ten whose last byte is 0 or 1; it refuses longer ones.
   */
  lemma Dec64Takes(s: Bytes, rest: Bytes)
    requires s != [] && s[|s| - 1] < 0x80 && forall i :: 0 <= i < |s| - 1 ==> s[i] >= 0x80
    ensures Dec64(s + rest) ==
      if |s| <= 9 || (|s| == 10 && s[9] <= 1) then Some((Word(s), |s|)) else None
  {
    var t := s + rest;
    assert t[|s| - 1] < 0x80 && forall i :: 0 <= i < |s| - 1 ==> t[i] >= 0x80;
    assert End(t) == Some(|s| - 1);
    assert t[..|s|] == s;
    hide Word;
  }

  /** The 32-bit decoder accepts some of what the 64-bit decoder accepts, and keeps the low word. */
  function Dec32(s: Bytes): (r: Option<(bv32, nat)>)
    ensures r.Some? ==> 1 <= r.value.1 <= |s|
  {
    match Dec64(s)
    case None => None
    case Some((v, n)) => if Fits32(s, n, Low(v)) then Some((Low(v), n)) else None
  }

  // ----- how the two decoders relate -----

  /** Whatever the 32-bit decoder accepts, the 64-bit decoder accepts: the same bytes, the same number modulo 2^32. */
  lemma Dec32InDec64(s: Bytes)
    requires Dec32(s).Some?
    ensures Dec64(s).Some? && Dec64(s).value.1 == Dec32(s).value.1
    ensures (Dec64(s).value.0 & 0xFFFFFFFF) as bv32 == Dec32(s).value.0
  {
  }

  lemma SmallDigits(v: bv64)
    requires v < 0x1_0000_0000
    ensures Down(v, 4) < 0x10 && Down(v, 5) == 0
  {
    DownStep(v, 0); DownStep(v, 1); DownStep(v, 2); DownStep(v, 3); DownStep(v, 4);
    assert Down(v, 4) == v >> 28;
  }

  lemma SmallFifth(d: bv64, b: bv8)
    requires d < 0x10 && b < 0x80 && b & 0x7F == (d & 0x7F) as bv8
    ensures FifthOk(b)
  {
  }

  /** The 32-bit decoder undoes the encoder on every number below 2^32. */
  lemma RoundTrip32(v: bv64, rest: Bytes)
    requires v < 0x1_0000_0000
    ensures Dec32(Enc(v) + rest) == Some((Low(v), |Enc(v)|)) && |Enc(v)| <= 5
  {
    RoundTrip64(v, rest);
    SmallDigits(v);
    EncLength(v, 5);
    if |Enc(v)| == 5 {
      EncDigit(v, 4);
      SmallFifth(Down(v, 4), Enc(v)[4]);
    }
  }

  /** The converse fails: this is the encoding of 0x7_8000_0000, and the 32-bit decoder takes it for 0x8000_0000. */
  lemma Dec32IsLoose()
    ensures var s: Bytes := [0x80, 0x80, 0x80, 0x80, 0x78];
      Dec64(s) == Some((0x7_8000_0000, 5)) && Dec32(s) == Some((0x8000_0000, 5))
  {
    var s: Bytes := [0x80, 0x80, 0x80, 0x80, 0x78];
    Dec64Takes(s, []);
    assert s + [] == s;
    assert s[1..] == [0x80, 0x80, 0x80, 0x78] && s[2..] == [0x80, 0x80, 0x78] && s[3..] == [0x80, 0x78]
      && s[4..] == [0x78];
    WordCons(0x80, s[1..]); WordCons(0x80, s[2..]); WordCons(0x80, s[3..]); WordCons(0x80, s[4..]); WordSingle(0x78);
    assert s == [0x80] + s[1..] && s[1..] == [0x80] + s[2..] && s[2..] == [0x80] + s[3..] && s[3..] == [0x80] + s[4..];
  }
}
