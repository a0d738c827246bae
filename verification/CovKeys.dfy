/**
  The string keys of conversations and cached verdicts (internal/logic/session/allocator.go:100-105,
  internal/router/interceptors.go:205-207): what they tell apart and what they do not.
 */
module CovKeys {

  /** Go's string order. */
  predicate Less(a: string, b: string) {
    b != "" && (a == "" || a[0] < b[0] || (a[0] == b[0] && Less(a[1..], b[1..])))
  }

  /** buildCovID. */
  function PrivateKey(a: string, b: string): string {
    if Less(a, b) then "cov:" + a + ":" + b else "cov:" + b + ":" + a
  }

  /** groupMemberKey. */
  function GroupKey(g: string, u: string): string {
    "grp:" + g + ":" + u
  }

  predicate NoColon(s: string) {
    ':' !in s
  }

  lemma {:induction false} LessTotal(a: string, b: string)
    ensures a == b ==> !Less(a, b)
    ensures a != b ==> (Less(a, b) <==> !Less(b, a))
    decreases |a|
  {
    if a != "" && b != "" && a[0] == b[0] {
      LessTotal(a[1..], b[1..]);
      assert a == [a[0]] + a[1..] && b == [b[0]] + b[1..];
    }
  }

  /** The key of a pair does not depend on who asks. */
  lemma KeySymmetric(a: string, b: string)
    ensures PrivateKey(a, b) == PrivateKey(b, a)
  {
    LessTotal(a, b);
  }

  /** a comes before b in a dictionary: it is a proper beginning of b, or smaller where they first differ. */
  ghost predicate Before(a: string, b: string) {
    exists k :: 0 <= k <= |a| && k < |b| && a[..k] == b[..k] && (k == |a| || a[k] < b[k])
  }

  lemma BeforeLater(a: string, b: string)
    requires a != "" && b != "" && a[0] == b[0]
    ensures Before(a, b) <==> Before(a[1..], b[1..])
  {
    var c, d := a[1..], b[1..];
    if Before(c, d) {
      var k :| 0 <= k <= |c| && k < |d| && c[..k] == d[..k] && (k == |c| || c[k] < d[k]);
      assert a[..k + 1] == [a[0]] + c[..k] && b[..k + 1] == [b[0]] + d[..k];
    }
    if Before(a, b) {
      var k :| 0 <= k <= |a| && k < |b| && a[..k] == b[..k] && (k == |a| || a[k] < b[k]);
      assert k > 0;
      assert c[..k - 1] == a[..k][1..] && d[..k - 1] == b[..k][1..];
    }
  }

  lemma BeforeNow(a: string, b: string)
    requires a != "" && b != "" && a[0] != b[0]
    ensures Before(a, b) <==> a[0] < b[0]
  {
    if a[0] < b[0] {
      assert a[..0] == b[..0];
    }
    if Before(a, b) {
      var k :| 0 <= k <= |a| && k < |b| && a[..k] == b[..k] && (k == |a| || a[k] < b[k]);
      assert k > 0 ==> a[..k][0] == b[..k][0];
    }
  }

  lemma {:induction false} LessMeans(a: string, b: string)
    ensures Less(a, b) <==> Before(a, b)
    decreases |a|
  {
    if a == "" {
      assert b != "" ==> a[..0] == b[..0];
    } else if b != "" {
      if a[0] == b[0] {
        LessMeans(a[1..], b[1..]);
        BeforeLater(a, b);
      } else {
        BeforeNow(a, b);
      }
      hide Before;
    }
  }

  /** The pair's key names the two in dictionary order, whoever asks. */
  lemma KeyNames(a: string, b: string)
    requires Before(a, b)
    ensures PrivateKey(a, b) == PrivateKey(b, a) == "cov:" + a + ":" + b
  {
    LessMeans(a, b);
    KeySymmetric(a, b);
  }

  /** How many colons there are. */
  function Colons(s: string): nat {
    if s == "" then 0 else (if s[0] == ':' then 1 else 0) + Colons(s[1..])
  }

  lemma {:induction false} ColonsConcat(a: string, b: string)
    ensures Colons(a + b) == Colons(a) + Colons(b)
  {
    if a == "" {
      assert a + b == b;
    } else {
      assert (a + b)[1..] == a[1..] + b;
      ColonsConcat(a[1..], b);
    }
  }

  lemma {:induction false} ColonsZero(a: string)
    ensures Colons(a) == 0 <==> NoColon(a)
  {
    if a != "" {
      ColonsZero(a[1..]);
      assert a == [a[0]] + a[1..];
    }
  }

  lemma KeyColons(a: string, b: string)
    ensures Colons(a + ":" + b) == Colons(a) + 1 + Colons(b)
  {
    ColonsConcat(a + ":", b);
    ColonsConcat(a, ":");
    assert Colons(":") == 1;
  }

  /** With no colon before it, the first colon tells where the first part ends. */
  lemma {:induction false} SplitFirst(a: string, b: string, c: string, d: string)
    requires a + ":" + b == c + ":" + d && NoColon(a) && NoColon(c)
    ensures a == c && b == d
  {
    var s, t := a + ":" + b, c + ":" + d;
    assert s[0] == (if a == "" then ':' else a[0]) && t[0] == (if c == "" then ':' else c[0]);
    if a != "" && c != "" {
      assert s[1..] == a[1..] + ":" + b && t[1..] == c[1..] + ":" + d;
      assert a[0] == s[0] == t[0] == c[0];
      SplitFirst(a[1..], b, c[1..], d);
      assert a == [a[0]] + a[1..] && c == [c[0]] + c[1..];
    } else if a == "" && c == "" {
      assert b == s[1..] && d == t[1..];
    }
  }

  /** With no colon after it, the last colon tells where the last part begins. */
  lemma {:induction false} SplitLast(a: string, b: string, c: string, d: string)
    requires a + ":" + b == c + ":" + d && NoColon(b) && NoColon(d)
    ensures a == c && b == d
  {
    var s, t := a + ":" + b, c + ":" + d;
    var end := |s| - 1;
    assert s[end] == (if b == "" then ':' else b[|b| - 1]) && t[end] == (if d == "" then ':' else d[|d| - 1]);
    if b != "" && d != "" {
      var i, j := |b| - 1, |d| - 1;
      assert s[..end] == a + ":" + b[..i] && t[..end] == c + ":" + d[..j];
      assert b[i] == s[end] == t[end] == d[j];
      SplitLast(a, b[..i], c, d[..j]);
      assert b == b[..i] + [b[i]] && d == d[..j] + [d[j]];
    } else if b == "" && d == "" {
      assert a == s[..end] && c == t[..end];
    }
  }

  /** Two ids without a colon have a key of their own. */
  lemma KeyInjective(a: string, b: string, c: string, d: string)
    requires PrivateKey(a, b) == PrivateKey(c, d) && NoColon(a) && NoColon(b)
    ensures (a == c && b == d) || (a == d && b == c)
  {
    var (x, y) := if Less(a, b) then (a, b) else (b, a);
    var (z, w) := if Less(c, d) then (c, d) else (d, c);
    assert PrivateKey(a, b) == "cov:" + (x + ":" + y) && PrivateKey(c, d) == "cov:" + (z + ":" + w);
    Tail4("cov:", x + ":" + y, z + ":" + w);
    KeyColons(x, y);
    KeyColons(z, w);
    ColonsZero(x); ColonsZero(y); ColonsZero(z); ColonsZero(w);
    SplitFirst(x, y, z, w);
  }

  lemma Tail4(p: string, s: string, t: string)
    requires p + s == p + t
    ensures s == t
  {
    assert s == (p + s)[|p|..] && t == (p + t)[|p|..];
  }

  /** A member's key tells group and user apart as long as user ids have no colon. */
  lemma GroupKeyInjective(g: string, u: string, h: string, v: string)
    requires GroupKey(g, u) == GroupKey(h, v) && NoColon(u) && NoColon(v)
    ensures g == h && u == v
  {
    assert GroupKey(g, u) == "grp:" + (g + ":" + u) && GroupKey(h, v) == "grp:" + (h + ":" + v);
    Tail4("grp:", g + ":" + u, h + ":" + v);
    SplitLast(g, u, h, v);
  }

  /** Without that, keys collide: a pair of pairs and a pair of members. */
  lemma KeysCollide()
    ensures PrivateKey("a", "b:c") == PrivateKey("a:b", "c")
    ensures GroupKey("g", "h:u") == GroupKey("g:h", "u")
  {
    assert Less("a", "b:c") && Less("a:b", "c");
  }
}
