/** White space as Go's `strings.TrimSpace` sees it. */
module Strings {
  predicate IsSpace(c: char) {
    || '\t' <= c <= '\r' || c == ' ' || c == '\U{85}' || c == '\U{A0}' || c == '\U{1680}'
    || '\U{2000}' <= c <= '\U{200A}' || c == '\U{2028}' || c == '\U{2029}' || c == '\U{202F}'
    || c == '\U{205F}' || c == '\U{3000}'
  }

  function TrimLeft(s: string): (t: string)
    ensures t != "" ==> !IsSpace(t[0])
  {
    if s != "" && IsSpace(s[0]) then TrimLeft(s[1..]) else s
  }

  function TrimRight(s: string): (t: string)
    ensures t <= s
    ensures t != "" ==> !IsSpace(t[|t| - 1])
  {
    if s != "" && IsSpace(s[|s| - 1]) then TrimRight(s[..|s| - 1]) else s
  }

  function TrimSpace(s: string): string {
    TrimRight(TrimLeft(s))
  }

  lemma {:induction false} TrimLeftDrops(s: string) returns (n: nat)
    ensures n <= |s| && TrimLeft(s) == s[n..] && forall i | 0 <= i < n :: IsSpace(s[i])
  {
    if s != "" && IsSpace(s[0]) {
      var m := TrimLeftDrops(s[1..]);
      n := m + 1;
      assert s[1..][m..] == s[n..];
      assert forall i | 0 < i < n :: s[i] == s[1..][i - 1];
    } else {
      n := 0;
    }
  }

  lemma {:induction false} TrimRightDrops(s: string) returns (n: nat)
    ensures n <= |s| && TrimRight(s) == s[..n] && forall i | n <= i < |s| :: IsSpace(s[i])
  {
    if s != "" && IsSpace(s[|s| - 1]) {
      n := TrimRightDrops(s[..|s| - 1]);
      assert s[..|s| - 1][..n] == s[..n];
      assert forall i | n <= i < |s| - 1 :: s[i] == s[..|s| - 1][i];
    } else {
      n := |s|;
    }
  }

  /** Trimming keeps one stretch of the text and drops nothing but spaces. */
  lemma TrimSpaceIsSlice(s: string) returns (lo: nat, hi: nat)
    ensures lo <= hi <= |s| && TrimSpace(s) == s[lo..hi]
    ensures forall i | 0 <= i < lo || hi <= i < |s| :: IsSpace(s[i])
  {
    lo := TrimLeftDrops(s);
    var t := TrimLeft(s);
    var n := TrimRightDrops(t);
    hi := lo + n;
    assert s[lo..][..n] == s[lo..hi];
    assert forall i | hi <= i < |s| :: s[i] == t[i - lo];
  }

  /** A text that neither starts nor ends with white space is left alone. */
  lemma {:induction false} TrimmedAlready(s: string)
    requires s != "" && !IsSpace(s[0]) && !IsSpace(s[|s| - 1])
    ensures TrimSpace(s) == s
  {
    assert TrimLeft(s) == s;
  }

  /** The text with its ASCII letters in lower case. */
  function FoldCase(s: string): string {
    seq(|s|, i requires 0 <= i < |s| => if 'A' <= s[i] <= 'Z' then s[i] + ' ' else s[i])
  }

  lemma {:induction false} TrimIdempotent(s: string)
    ensures TrimSpace(TrimSpace(s)) == TrimSpace(s)
  {
    var t := TrimSpace(s);
    if t != "" {
      assert t[0] == TrimLeft(s)[0];
    }
  }

  /** Go's order on strings, by code point. */
  predicate StringLe(a: string, b: string) {
    a == "" || (b != "" && (a[0] < b[0] || (a[0] == b[0] && StringLe(a[1..], b[1..]))))
  }

  lemma {:induction false} FirstDifference(a: string, b: string, n: nat)
    requires n < |a| && n < |b| && a[n] < b[n] && forall i | 0 <= i < n :: a[i] == b[i]
    ensures StringLe(a, b) && !StringLe(b, a)
    decreases n
  {
    if n > 0 {
      FirstDifference(a[1..], b[1..], n - 1);
    }
  }

  lemma {:induction false} PrefixIsLe(a: string, b: string)
    requires a <= b
    ensures StringLe(a, b) && (StringLe(b, a) ==> a == b)
  {
    if a != "" {
      PrefixIsLe(a[1..], b[1..]);
    }
  }

  predicate LessAt(a: string, b: string, n: nat) {
    n < |a| && n < |b| && a[n] < b[n] && forall i | 0 <= i < n :: a[i] == b[i]
  }

  /** A string comes before another if it is a prefix or has the smaller character where
      they part. */
  lemma StringLeMeans(a: string, b: string)
    ensures StringLe(a, b) <==> a <= b || exists n: nat :: LessAt(a, b, n)
  {
    if a <= b {
      PrefixIsLe(a, b);
    } else if b <= a {
      PrefixIsLe(b, a);
      assert forall n: nat :: !LessAt(a, b, n);
    } else {
      var n := PartingOf(a, b);
      if a[n] < b[n] {
        FirstDifference(a, b, n);
        assert LessAt(a, b, n);
      } else {
        FirstDifference(b, a, n);
        assert forall m: nat :: !LessAt(a, b, m);
      }
    }
  }

  lemma {:induction false} PartingOf(a: string, b: string) returns (n: nat)
    requires !(a <= b) && !(b <= a)
    ensures n < |a| && n < |b| && a[n] != b[n] && forall i | 0 <= i < n :: a[i] == b[i]
  {
    n := 0;
    while n < |a| && n < |b| && a[n] == b[n]
      invariant n <= |a| && n <= |b| && forall i | 0 <= i < n :: a[i] == b[i]
    {
      n := n + 1;
    }
  }

  lemma {:induction false} StringLeTotal(a: string, b: string)
    ensures StringLe(a, b) || StringLe(b, a)
  {
    if a != "" && b != "" {
      StringLeTotal(a[1..], b[1..]);
    }
  }

  lemma {:induction false} StringLeTransitive(a: string, b: string, c: string)
    requires StringLe(a, b) && StringLe(b, c)
    ensures StringLe(a, c)
  {
    if a != "" && a[0] == b[0] && b[0] == c[0] {
      StringLeTransitive(a[1..], b[1..], c[1..]);
    }
  }
}
