/**
  UTF-8 as sections 3 and 4 of RFC 3629 define it, and the two truncators of the repository:
  the gateway's back-off loop (internal/gateway/truncate.go:53-75) and the forward walk of the
  ESP32 client (esp32/main/im_proto.c:53-100).
 */
module Utf8 {
  import opened Scalars

  predicate Tail(b: bv8) {
    0x80 <= b <= 0xBF
  }

  /** What the second byte after lead b may be. */
  predicate Second(b: bv8, c: bv8) {
    if b == 0xE0 then 0xA0 <= c <= 0xBF
    else if b == 0xED then 0x80 <= c <= 0x9F
    else if b == 0xF0 then 0x90 <= c <= 0xBF
    else if b == 0xF4 then 0x80 <= c <= 0x8F
    else Tail(c)
  }

  /** How many bytes a character with this lead byte has; 0 when no character starts with it. */
  function Width(b: bv8): nat {
    if b < 0x80 then 1 else if 0xC2 <= b <= 0xDF then 2 else if 0xE0 <= b <= 0xEF then 3
      else if 0xF0 <= b <= 0xF4 then 4 else 0
  }

  /** The width of the character at the front of s; 0 when there is none. */
  function First(s: Bytes): (n: nat)
    ensures n <= |s| && n <= 4
  {
    if s == [] then 0
    else
      var n := Width(s[0]);
      if n > |s| then 0
      else if n >= 2 && !Second(s[0], s[1]) then 0
      else if n >= 3 && !Tail(s[2]) then 0
      else if n >= 4 && !Tail(s[3]) then 0
      else n
  }

  /** utf8.ValidString. */
  predicate ValidString(s: Bytes)
    decreases |s|
  {
    s == [] || (First(s) > 0 && ValidString(s[First(s)..]))
  }

  /** n bytes of s are a whole number of characters. */
  predicate Boundary(s: Bytes, n: nat)
    decreases |s|
  {
    n == 0 || (First(s) > 0 && First(s) <= n && Boundary(s[First(s)..], n - First(s)))
  }

  // ----- prefixes of valid strings -----

  lemma FirstOfPrefix(s: Bytes, n: nat)
    requires 0 < n <= |s| && First(s) > 0
    ensures First(s[..n]) == if First(s) <= n then First(s) else 0
  {
  }

  /** A prefix of a valid string is valid exactly when it ends between two characters. */
  lemma {:induction false} ValidPrefix(s: Bytes, n: nat)
    requires ValidString(s) && n <= |s|
    ensures ValidString(s[..n]) <==> Boundary(s, n)
    decreases |s|
  {
    if n > 0 {
      var k := First(s);
      FirstOfPrefix(s, n);
      if k <= n {
        ValidPrefix(s[k..], n - k);
        assert s[..n][k..] == s[k..][..n - k];
      }
    }
  }

  lemma {:induction false} ValidConcat(s: Bytes, t: Bytes)
    requires ValidString(s) && ValidString(t)
    ensures ValidString(s + t)
    decreases |s|
  {
    hide First;
    if s == [] {
      assert s + t == t;
    } else {
      var k := First(s);
      FirstLocal(s, t);
      ValidConcat(s[k..], t);
      assert (s + t)[k..] == s[k..] + t;
    }
  }

  lemma FirstLocal(s: Bytes, t: Bytes)
    requires First(s) > 0
    ensures First(s + t) == First(s)
  {
  }

  // ----- what these are the encodings of -----

  lemma Bounds(b: bv8)
    ensures b < 0x80 <==> Val(b) < 0x80
    ensures Tail(b) <==> 0x80 <= Val(b) <= 0xBF
    ensures 0xC2 <= b <= 0xDF <==> 0xC2 <= Val(b) <= 0xDF
    ensures 0xE0 <= b <= 0xEF <==> 0xE0 <= Val(b) <= 0xEF
    ensures 0xF0 <= b <= 0xF4 <==> 0xF0 <= Val(b) <= 0xF4
  {
  }

  lemma OddLeads(b: bv8)
    ensures b == 0xE0 <==> Val(b) == 0xE0
    ensures b == 0xED <==> Val(b) == 0xED
    ensures b == 0xF0 <==> Val(b) == 0xF0
    ensures b == 0xF4 <==> Val(b) == 0xF4
  {
  }

  lemma OddSeconds(c: bv8)
    ensures 0xA0 <= c <= 0xBF <==> 0xA0 <= Val(c) <= 0xBF
    ensures 0x80 <= c <= 0x9F <==> 0x80 <= Val(c) <= 0x9F
    ensures 0x90 <= c <= 0xBF <==> 0x90 <= Val(c) <= 0xBF
    ensures 0x80 <= c <= 0x8F <==> 0x80 <= Val(c) <= 0x8F
  {
  }

  /** The width of a lead byte, in numbers. */
  lemma WidthVal(b: bv8)
    ensures Width(b) ==
      if Val(b) < 0x80 then 1 else if 0xC2 <= Val(b) <= 0xDF then 2 else if 0xE0 <= Val(b) <= 0xEF then 3
      else if 0xF0 <= Val(b) <= 0xF4 then 4 else 0
  {
    Bounds(b);
    hide Val;
  }

  lemma SecondVal(b: bv8, c: bv8)
    ensures Second(b, c) <==>
      if Val(b) == 0xE0 then 0xA0 <= Val(c) <= 0xBF
      else if Val(b) == 0xED then 0x80 <= Val(c) <= 0x9F
      else if Val(b) == 0xF0 then 0x90 <= Val(c) <= 0xBF
      else if Val(b) == 0xF4 then 0x80 <= Val(c) <= 0x8F
      else 0x80 <= Val(c) <= 0xBF
  {
    Bounds(c);
    OddLeads(b);
    OddSeconds(c);
    hide Val;
  }

  /** The recogniser finds every encoded character ... */
  lemma ScalarFirst(c: Scalar, rest: Bytes)
    ensures First(EncodeScalar(c) + rest) == |EncodeScalar(c)|
  {
    var e := EncodeScalar(c);
    var s := e + rest;
    hide Val;
    hide Width;
    hide Second;
    hide Tail;
    hide ByteOf;
    WidthVal(e[0]);
    if |e| >= 2 { SecondVal(e[0], e[1]); }
    if |e| >= 3 { Bounds(e[2]); }
    if |e| >= 4 { Bounds(e[3]); }
  }

  ghost predicate TailVal(v: nat) {
    0x80 <= v <= 0xBF
  }

  /** The bytes of a recognised character, in numbers. */
  lemma FirstVals(s: Bytes)
    requires First(s) > 0
    ensures First(s) == 1 ==> Val(s[0]) < 0x80
    ensures First(s) == 2 ==> 0xC2 <= Val(s[0]) <= 0xDF
    ensures First(s) == 3 ==>
      && 0xE0 <= Val(s[0]) <= 0xEF
      && (Val(s[0]) == 0xE0 ==> Val(s[1]) >= 0xA0) && (Val(s[0]) == 0xED ==> Val(s[1]) <= 0x9F)
    ensures First(s) == 4 ==>
      && 0xF0 <= Val(s[0]) <= 0xF4
      && (Val(s[0]) == 0xF0 ==> Val(s[1]) >= 0x90) && (Val(s[0]) == 0xF4 ==> Val(s[1]) <= 0x8F)
    ensures forall i :: 1 <= i < First(s) ==> TailVal(Val(s[i]))
  {
    hide Val;
    hide Width;
    hide Second;
    hide Tail;
    var k := First(s);
    WidthVal(s[0]);
    if k >= 2 { SecondVal(s[0], s[1]); }
    if k >= 3 { Bounds(s[2]); }
    if k >= 4 { Bounds(s[3]); }
  }

  /** Numbers put together from groups of six bits. */
  lemma Join2(x: nat, y: nat) returns (c: nat)
    requires y < 0x40
    ensures c == 0x40 * x + y && c / 0x40 == x && c % 0x40 == y
  {
    c := 0x40 * x + y;
  }

  lemma Join3(x: nat, y: nat, z: nat) returns (c: nat)
    requires y < 0x40 && z < 0x40
    ensures c == 0x1000 * x + 0x40 * y + z && c / 0x1000 == x && c / 0x40 % 0x40 == y && c % 0x40 == z
  {
    var d := Join2(x, y);
    c := Join2(d, z);
  }

  lemma Join4(w: nat, x: nat, y: nat, z: nat) returns (c: nat)
    requires x < 0x40 && y < 0x40 && z < 0x40
    ensures c == 0x40000 * w + 0x1000 * x + 0x40 * y + z
    ensures c / 0x40000 == w && c / 0x1000 % 0x40 == x && c / 0x40 % 0x40 == y && c % 0x40 == z
  {
    var d := Join3(w, x, y);
    c := Join2(d, z);
  }

  lemma ScalarOf1(a: bv8) returns (c: Scalar)
    requires Val(a) < 0x80
    ensures EncodeScalar(c) == [a]
  {
    hide Val;
    hide ByteOf;
    c := Val(a);
    ValInjective(ByteOf(c), a);
  }

  lemma ScalarOf2(a: bv8, b: bv8) returns (c: Scalar)
    requires 0xC2 <= Val(a) <= 0xDF && TailVal(Val(b))
    ensures EncodeScalar(c) == [a, b]
  {
    hide Val;
    hide ByteOf;
    c := Join2(Val(a) - 0xC0, Val(b) - 0x80);
    ValInjective(ByteOf(0xC0 + c / 0x40), a);
    ValInjective(ByteOf(0x80 + c % 0x40), b);
  }

  lemma ScalarOf3(a: bv8, b: bv8, d: bv8) returns (c: Scalar)
    requires 0xE0 <= Val(a) <= 0xEF && TailVal(Val(b)) && TailVal(Val(d))
    requires (Val(a) == 0xE0 ==> Val(b) >= 0xA0) && (Val(a) == 0xED ==> Val(b) <= 0x9F)
    ensures EncodeScalar(c) == [a, b, d]
  {
    hide Val;
    hide ByteOf;
    c := Join3(Val(a) - 0xE0, Val(b) - 0x80, Val(d) - 0x80);
    ValInjective(ByteOf(0xE0 + c / 0x1000), a);
    ValInjective(ByteOf(0x80 + c / 0x40 % 0x40), b);
    ValInjective(ByteOf(0x80 + c % 0x40), d);
  }

  lemma ScalarOf4(a: bv8, b: bv8, d: bv8, e: bv8) returns (c: Scalar)
    requires 0xF0 <= Val(a) <= 0xF4 && TailVal(Val(b)) && TailVal(Val(d)) && TailVal(Val(e))
    requires (Val(a) == 0xF0 ==> Val(b) >= 0x90) && (Val(a) == 0xF4 ==> Val(b) <= 0x8F)
    ensures EncodeScalar(c) == [a, b, d, e]
  {
    hide Val;
    hide ByteOf;
    c := Join4(Val(a) - 0xF0, Val(b) - 0x80, Val(d) - 0x80, Val(e) - 0x80);
    ValInjective(ByteOf(0xF0 + c / 0x40000), a);
    ValInjective(ByteOf(0x80 + c / 0x1000 % 0x40), b);
    ValInjective(ByteOf(0x80 + c / 0x40 % 0x40), d);
    ValInjective(ByteOf(0x80 + c % 0x40), e);
  }

  /** ... and nothing but encoded characters. */
  lemma FirstScalar(s: Bytes) returns (c: Scalar)
    requires First(s) > 0
    ensures EncodeScalar(c) == s[..First(s)]
  {
    FirstVals(s);
    hide First;
    hide Val;
    hide EncodeScalar;
    hide TailVal;
    var k := First(s);
    if k == 1 {
      c := ScalarOf1(s[0]);
    } else if k == 2 {
      c := ScalarOf2(s[0], s[1]);
    } else if k == 3 {
      c := ScalarOf3(s[0], s[1], s[2]);
    } else {
      c := ScalarOf4(s[0], s[1], s[2], s[3]);
    }
  }

  lemma {:induction false} EncodedIsValid(cs: seq<Scalar>)
    ensures ValidString(EncodeAll(cs))
  {
    if cs != [] {
      EncodedIsValid(cs[1..]);
      ScalarFirst(cs[0], EncodeAll(cs[1..]));
      hide First;
      hide EncodeScalar;
      assert EncodeAll(cs)[|EncodeScalar(cs[0])|..] == EncodeAll(cs[1..]);
    }
  }

  lemma {:induction false} ValidIsEncoded(s: Bytes) returns (cs: seq<Scalar>)
    requires ValidString(s)
    ensures s == EncodeAll(cs)
    decreases |s|
  {
    hide First;
    hide EncodeScalar;
    cs := [];
    if s != [] {
      var k := First(s);
      var c := FirstScalar(s);
      var rest := ValidIsEncoded(s[k..]);
      hide ValidString;
      cs := [c] + rest;
      assert cs[1..] == rest && s == s[..k] + s[k..];
    }
  }

  /** Valid strings are exactly the encodings of lists of scalar values. */
  lemma ValidMeans(s: Bytes)
    ensures ValidString(s) <==> exists cs :: s == EncodeAll(cs)
  {
    if ValidString(s) {
      var cs := ValidIsEncoded(s);
    }
    forall cs | s == EncodeAll(cs) ensures ValidString(s) {
      EncodedIsValid(cs);
    }
  }

  /** Boundaries are exactly the ends of whole numbers of characters. */
  lemma {:induction false} BoundaryMeans(cs: seq<Scalar>, n: nat)
    ensures Boundary(EncodeAll(cs), n) <==> exists k: nat :: k <= |cs| && n == SizeOf(cs, k)
  {
    hide First;
    hide EncodeScalar;
    if n == 0 {
      assert cs[..0] == [];
      assert n == SizeOf(cs, 0);
    } else if cs == [] {
      NoFirst();
      assert forall k: nat :: k <= |cs| ==> SizeOf(cs, k) == 0;
    } else {
      var s := EncodeAll(cs);
      ScalarFirst(cs[0], EncodeAll(cs[1..]));
      var w := |EncodeScalar(cs[0])|;
      assert s[w..] == EncodeAll(cs[1..]);
      forall k: nat | 0 < k <= |cs| ensures SizeOf(cs, k) == w + SizeOf(cs[1..], k - 1) {
        assert cs[..k][1..] == cs[1..][..k - 1];
      }
      if w <= n {
        BoundaryMeans(cs[1..], n - w);
        if Boundary(s, n) {
          var k: nat :| k <= |cs[1..]| && n - w == SizeOf(cs[1..], k);
          assert n == SizeOf(cs, k + 1);
        } else {
          forall k: nat | k <= |cs| ensures n != SizeOf(cs, k) {
            assert k > 0 ==> n - w != SizeOf(cs[1..], k - 1);
            assert cs[..0] == [];
          }
        }
      } else {
        forall k: nat | k <= |cs| ensures n != SizeOf(cs, k) {
          assert cs[..0] == [];
        }
      }
    }
  }

  lemma NoFirst()
    ensures First([]) == 0
  {
  }

  /** r is the longest cut of s on a character boundary within the budget. */
  ghost predicate LongestCut(s: Bytes, budget: nat, r: nat) {
    r <= |s| && r <= budget && Boundary(s, r) && forall n :: r < n <= budget && n <= |s| ==> !Boundary(s, n)
  }

  /** Of any list of characters s may encode, the cut holds the longest leading part that fits. */
  ghost predicate CutsWhole(s: Bytes, budget: nat, cut: Bytes) {
    forall cs :: s == EncodeAll(cs) ==> LeadingThatFit(cs, budget, cut)
  }

  lemma LongestCutMeans(cs: seq<Scalar>, budget: nat, r: nat)
    requires LongestCut(EncodeAll(cs), budget, r)
    ensures LeadingThatFit(cs, budget, EncodeAll(cs)[..r])
  {
    var s := EncodeAll(cs);
    hide EncodeAll;
    hide Boundary;
    BoundaryMeans(cs, r);
    var k: nat :| k <= |cs| && r == SizeOf(cs, k);
    if k < |cs| {
      SizeGrows(cs, k);
      BoundaryMeans(cs, SizeOf(cs, k + 1));
    } else {
      assert cs[..k] == cs;
    }
    assert FitUpTo(cs, budget, s[..r], k);
  }

  lemma CutsWholeIf(s: Bytes, budget: nat, r: nat)
    requires r <= |s| && (ValidString(s) ==> LongestCut(s, budget, r))
    ensures CutsWhole(s, budget, s[..r])
  {
    forall cs | s == EncodeAll(cs) ensures LeadingThatFit(cs, budget, s[..r]) {
      EncodedIsValid(cs);
      LongestCutMeans(cs, budget, r);
    }
  }

  lemma {:induction false} AllBoundary(s: Bytes)
    requires ValidString(s)
    ensures Boundary(s, |s|)
    decreases |s|
  {
    if s != [] {
      AllBoundary(s[First(s)..]);
    }
  }

  // ----- the gateway's loop -----

  /** truncateToBytesOnRuneBoundary. */
  method TruncateToBytesOnRuneBoundary(s: Bytes, maxBytes: nat) returns (cut: Bytes)
    ensures cut <= s && |cut| <= maxBytes
    ensures |s| <= maxBytes ==> cut == s
    ensures |s| > maxBytes ==> ValidString(cut) && forall n :: |cut| < n <= maxBytes ==> !ValidString(s[..n])
    ensures ValidString(s) ==> LongestCut(s, maxBytes, |cut|)
    ensures CutsWhole(s, maxBytes, cut)
  {
    hide First;
    hide Boundary;
    hide CutsWhole;
    if |s| <= maxBytes {
      if ValidString(s) {
        AllBoundary(s);
      }
      CutsWholeIf(s, maxBytes, |s|);
      assert s[..|s|] == s;
      return s;
    }
    cut := s[..maxBytes];
    while !ValidString(cut)
      invariant |cut| <= maxBytes && cut == s[..|cut|]
      invariant forall n :: |cut| < n <= maxBytes ==> !ValidString(s[..n])
      decreases |cut|
    {
      cut := cut[..|cut| - 1];
    }
    if ValidString(s) {
      forall n | |cut| <= n <= maxBytes ensures ValidString(s[..n]) <==> Boundary(s, n) {
        ValidPrefix(s, n);
      }
    }
    CutsWholeIf(s, maxBytes, |cut|);
  }

  // ----- the client's walk -----

  /** im_utf8_seq_len: a stray or odd byte counts as one. */
  function SeqLen(c: bv8): (n: nat)
    ensures 1 <= n <= 4
  {
    if c & 0x80 == 0 then 1
    else if c & 0xE0 == 0xC0 then 2
    else if c & 0xF0 == 0xE0 then 3
    else if c & 0xF8 == 0xF0 then 4
    else 1
  }

  lemma LeadWidth(c: bv8)
    requires Width(c) > 0
    ensures SeqLen(c) == Width(c)
  {
  }

  lemma TailMask(c: bv8)
    ensures c & 0xC0 == 0x80 <==> Tail(c)
  {
  }

  /** The byte at position i of a C string; the terminating NUL past its end. */
  function At(s: Bytes, i: nat): bv8 {
    if i < |s| then s[i] else 0
  }

  /** Boundaries past a boundary are boundaries of the rest. */
  lemma {:induction false} BoundaryPast(s: Bytes, i: nat, n: nat)
    requires Boundary(s, i) && i <= |s| && i <= n
    ensures Boundary(s, n) <==> Boundary(s[i..], n - i)
    decreases |s|
  {
    if i > 0 {
      var k := First(s);
      BoundaryPast(s[k..], i - k, n - k);
      assert s[k..][i - k..] == s[i..];
    } else {
      assert s[0..] == s;
    }
  }

  lemma ZeroBoundary(s: Bytes)
    ensures Boundary(s, 0)
  {
  }

  /** One character further is the next boundary. */
  lemma NextBoundary(s: Bytes, i: nat)
    requires Boundary(s, i) && i < |s| && ValidString(s[i..])
    ensures var k := First(s[i..]);
      k > 0 && Boundary(s, i + k) && ValidString(s[i + k..]) && forall n :: i < n < i + k ==> !Boundary(s, n)
  {
    var k := First(s[i..]);
    assert s[i..][k..] == s[i + k..];
    forall n | i < n <= i + k ensures Boundary(s, n) <==> n == i + k {
      BoundaryPast(s, i, n);
    }
  }

  lemma FirstBytes(s: Bytes, i: nat)
    requires i < |s| && First(s[i..]) > 0
    ensures var k := First(s[i..]);
      Width(s[i]) == k && i + k <= |s| && forall n :: i < n < i + k ==> Tail(s[n])
  {
    var t := s[i..];
    assert t[0] == s[i];
    forall n | i < n < i + First(t) ensures Tail(s[n]) {
      assert t[n - i] == s[n];
    }
  }

  lemma NoMoreBoundaries(s: Bytes)
    ensures forall n :: n > |s| ==> !Boundary(s, n)
    decreases |s|
  {
    if First(s) > 0 {
      NoMoreBoundaries(s[First(s)..]);
    }
  }

  /**
    im_rune_prefix_len on any bytes: within the budget and within the string, and it stops only at
    a NUL, at the end, or where the next lead byte asks for more than the budget has. On a valid
    string without NUL it is the longest cut on a character boundary.
   */
  method RunePrefixLen(s: Bytes, maxBytes: nat) returns (i: nat)
    ensures i <= |s| && i <= maxBytes
    ensures At(s, i) == 0 || i + SeqLen(At(s, i)) > maxBytes
    ensures ValidString(s) && (forall j :: 0 <= j < |s| ==> s[j] != 0) ==> LongestCut(s, maxBytes, i)
    ensures (forall j :: 0 <= j < |s| ==> s[j] != 0) ==> CutsWhole(s, maxBytes, s[..i])
  {
    hide ValidString;
    hide Boundary;
    hide First;
    hide Width;
    hide SeqLen;
    hide CutsWhole;
    ghost var good := ValidString(s) && forall j :: 0 <= j < |s| ==> s[j] != 0;
    i := 0;
    assert s[0..] == s;
    ZeroBoundary(s);
    while At(s, i) != 0
      invariant i <= |s| && i <= maxBytes
      invariant good ==> Boundary(s, i) && ValidString(s[i..])
      decreases |s| - i
    {
      if good {
        NextBoundary(s, i);
        FirstBytes(s, i);
        LeadWidth(s[i]);
      }
      var c := At(s, i);
      var want := SeqLen(c);
      if want == 1 {
        if i + 1 > maxBytes {
          break;
        }
        i := i + 1;
      } else {
        var k := 1;
        if i + want > maxBytes {
          break;
        }
        while k < want && At(s, i + k) != 0 && At(s, i + k) & 0xC0 == 0x80
          invariant 1 <= k <= want && i + k <= |s|
          invariant good ==> i + want <= |s| && forall n :: i < n < i + want ==> Tail(s[n])
        {
          k := k + 1;
        }
        if k < want { TailMask(At(s, i + k)); }
        i := i + if k == want then want else 1;
      }
    }
    if good && i == |s| {
      NoMoreBoundaries(s);
    }
    if forall j :: 0 <= j < |s| ==> s[j] != 0 {
      CutsWholeIf(s, maxBytes, i);
    }
  }

  /** There is only one longest cut, so on valid strings without NUL the two truncators agree. */
  lemma LongestCutUnique(s: Bytes, budget: nat, r: nat, q: nat)
    requires LongestCut(s, budget, r) && LongestCut(s, budget, q)
    ensures r == q
  {
  }

  /** Both truncators side by side. */
  method BothTruncators(s: Bytes, budget: nat) returns (gateway: Bytes, client: nat)
    ensures |gateway| <= budget && client <= budget
    ensures ValidString(s) && (forall j :: 0 <= j < |s| ==> s[j] != 0) ==> client <= |s| && gateway == s[..client]
  {
    gateway := TruncateToBytesOnRuneBoundary(s, budget);
    client := RunePrefixLen(s, budget);
    if ValidString(s) && forall j :: 0 <= j < |s| ==> s[j] != 0 {
      LongestCutUnique(s, budget, |gateway|, client);
    }
  }

  // ----- hardware frames -----

  const HARDWARE_CONTENT_BUDGET: nat := 256

  /** "...[", five three-byte characters, "]". */
  const TRUNCATE_SUFFIX: Bytes :=
    [] + [0x2E] + [0x2E] + [0x2E] + [0x5B] + [0xE9, 0x95, 0xBF] + [0xE6, 0xB6, 0x88] + [0xE6, 0x81, 0xAF] +
      [0xE6, 0x88, 0xAA] + [0xE6, 0x96, 0xAD] + [0x5D]

  lemma Append1(cs: seq<Scalar>, s: Bytes, c: Scalar, a: bv8)
    requires EncodeAll(cs) == s && c < 0x80 && Val(a) == c
    ensures EncodeAll(cs + [c]) == s + [a]
  {
    hide Val;
    EncodeAllConcat(cs, [c]);
    assert [c][1..] == [];
    ValInjective(ByteOf(c), a);
  }

  lemma ThreeBytes(c: Scalar, a: bv8, b: bv8, d: bv8)
    requires 0x800 <= c < 0x10000
    requires Val(a) == 0xE0 + c / 0x1000 && Val(b) == 0x80 + c / 0x40 % 0x40 && Val(d) == 0x80 + c % 0x40
    ensures EncodeScalar(c) == [a, b, d]
  {
    hide Val;
    ValInjective(ByteOf(0xE0 + c / 0x1000), a);
    ValInjective(ByteOf(0x80 + c / 0x40 % 0x40), b);
    ValInjective(ByteOf(0x80 + c % 0x40), d);
  }

  lemma Append3(cs: seq<Scalar>, s: Bytes, c: Scalar, a: bv8, b: bv8, d: bv8)
    requires EncodeAll(cs) == s && 0x800 <= c < 0x10000
    requires Val(a) == 0xE0 + c / 0x1000 && Val(b) == 0x80 + c / 0x40 % 0x40 && Val(d) == 0x80 + c % 0x40
    ensures EncodeAll(cs + [c]) == s + [a, b, d]
  {
    hide Val;
    ThreeBytes(c, a, b, d);
    hide EncodeScalar;
    EncodeAllConcat(cs, [c]);
    assert [c][1..] == [];
  }

  /** "...[", then what the client shows for "long message cut off", then "]". */
  ghost const SUFFIX_CHARACTERS: seq<Scalar> :=
    [] + [0x2E] + [0x2E] + [0x2E] + [0x5B] + [0x957F] + [0x6D88] + [0x606F] + [0x622A] + [0x65AD] + [0x5D]

  lemma SuffixMeans()
    ensures |TRUNCATE_SUFFIX| == 20 && TRUNCATE_SUFFIX == EncodeAll(SUFFIX_CHARACTERS)
  {
    assert EncodeAll([]) == [];
    hide EncodeAll;
    var cs: seq<Scalar>, s: Bytes := [], [];
    Append1(cs, s, 0x2E, 0x2E);
    cs, s := cs + [0x2E], s + [0x2E];
    Append1(cs, s, 0x2E, 0x2E);
    cs, s := cs + [0x2E], s + [0x2E];
    Append1(cs, s, 0x2E, 0x2E);
    cs, s := cs + [0x2E], s + [0x2E];
    Append1(cs, s, 0x5B, 0x5B);
    cs, s := cs + [0x5B], s + [0x5B];
    Append3(cs, s, 0x957F, 0xE9, 0x95, 0xBF);
    cs, s := cs + [0x957F], s + [0xE9, 0x95, 0xBF];
    Append3(cs, s, 0x6D88, 0xE6, 0xB6, 0x88);
    cs, s := cs + [0x6D88], s + [0xE6, 0xB6, 0x88];
    Append3(cs, s, 0x606F, 0xE6, 0x81, 0xAF);
    cs, s := cs + [0x606F], s + [0xE6, 0x81, 0xAF];
    Append3(cs, s, 0x622A, 0xE6, 0x88, 0xAA);
    cs, s := cs + [0x622A], s + [0xE6, 0x88, 0xAA];
    Append3(cs, s, 0x65AD, 0xE6, 0x96, 0xAD);
    cs, s := cs + [0x65AD], s + [0xE6, 0x96, 0xAD];
    Append1(cs, s, 0x5D, 0x5D);
  }

  lemma SuffixValid()
    ensures |TRUNCATE_SUFFIX| == 20 && ValidString(TRUNCATE_SUFFIX)
  {
    SuffixMeans();
    EncodedIsValid(SUFFIX_CHARACTERS);
  }

  /**
    truncateContentForHardware: never more than 256 bytes; a prefix of the content that keeps
    whole characters, then the suffix, which is there even when nothing was cut.
   */
  method TruncateContentForHardware(content: Bytes) returns (r: Bytes)
    ensures |r| <= 256
    ensures exists n: nat :: n <= |content| && n <= 236 && r == content[..n] + TRUNCATE_SUFFIX
              && (ValidString(content) ==> LongestCut(content, 236, n)) && CutsWhole(content, 236, content[..n])
    ensures ValidString(content) ==> ValidString(r)
  {
    SuffixValid();
    hide ValidString;
    hide Boundary;
    hide First;
    hide CutsWhole;
    var suffixLen := |TRUNCATE_SUFFIX|;
    var budget := HARDWARE_CONTENT_BUDGET;
    var prefixBudget := budget - suffixLen;
    if prefixBudget < 0 {
      prefixBudget := 0;
    }
    var prefix := TruncateToBytesOnRuneBoundary(content, prefixBudget);
    r := prefix + TRUNCATE_SUFFIX;
    assert |prefix| <= |content| && r == content[..|prefix|] + TRUNCATE_SUFFIX;
    assert prefix == content[..|prefix|];
    if ValidString(content) {
      ValidPrefix(content, |prefix|);
      ValidConcat(prefix, TRUNCATE_SUFFIX);
    }
  }
}
