/** Go's string comparison and strings.HasPrefix, on which the prefix
    normaliser relies.  A Go string is compared element by element; here a
    string is a sequence of characters compared by code point, which is the
    same order as Go's byte order on valid UTF-8. */
module StringOrder {

  /** strings.HasPrefix(s, prefix). */
  predicate HasPrefix(s: string, prefix: string)
  {
    |prefix| <= |s| && s[..|prefix|] == prefix
  }

  /** a <= b in Go: lexicographic, a proper prefix sorts first. */
  predicate LessEq(a: string, b: string)
    decreases |a|
  {
    |a| == 0 || (|b| > 0 && (a[0] < b[0] || (a[0] == b[0] && LessEq(a[1..], b[1..]))))
  }

  /** a < b in Go. */
  predicate Less(a: string, b: string)
  {
    LessEq(a, b) && a != b
  }

  lemma {:induction false} LessEqReflexive(a: string)
    ensures LessEq(a, a)
  {
    if |a| > 0 {
      LessEqReflexive(a[1..]);
    }
  }

  lemma {:induction false} LessEqAntisymmetric(a: string, b: string)
    requires LessEq(a, b) && LessEq(b, a)
    ensures a == b
  {
    if |a| > 0 && |b| > 0 {
      LessEqAntisymmetric(a[1..], b[1..]);
      assert a == [a[0]] + a[1..];
      assert b == [b[0]] + b[1..];
    }
  }

  lemma {:induction false} LessEqTransitive(a: string, b: string, c: string)
    requires LessEq(a, b) && LessEq(b, c)
    ensures LessEq(a, c)
  {
    if |a| > 0 && |b| > 0 && |c| > 0 && a[0] == b[0] == c[0] {
      LessEqTransitive(a[1..], b[1..], c[1..]);
    }
  }

  lemma {:induction false} LessEqTotal(a: string, b: string)
    ensures LessEq(a, b) || LessEq(b, a)
  {
    if |a| > 0 && |b| > 0 && a[0] == b[0] {
      LessEqTotal(a[1..], b[1..]);
    }
  }

  /** A prefix sorts no later than the string it starts. */
  lemma {:induction false} PrefixLessEq(s: string, prefix: string)
    requires HasPrefix(s, prefix)
    ensures LessEq(prefix, s)
  {
    if |prefix| > 0 {
      assert s[1..][..|prefix| - 1] == prefix[1..];
      PrefixLessEq(s[1..], prefix[1..]);
    }
  }

  lemma PrefixTransitive(s: string, m: string, prefix: string)
    requires HasPrefix(s, m) && HasPrefix(m, prefix)
    ensures HasPrefix(s, prefix)
  {
    assert s[..|prefix|] == s[..|m|][..|prefix|];
  }

  /** The fact the normaliser rests on: in lexicographic order, the strings
      that start with a given prefix form one contiguous run, so if
      a <= b <= c and c starts with a, then b starts with a too. */
  lemma {:induction false} PrefixBetween(a: string, b: string, c: string)
    requires LessEq(a, b) && LessEq(b, c)
    requires HasPrefix(c, a)
    ensures HasPrefix(b, a)
  {
    if |a| > 0 {
      assert c[0] == a[0];
      assert b[0] == a[0];
      assert c[1..][..|a| - 1] == a[1..];
      PrefixBetween(a[1..], b[1..], c[1..]);
      assert b[..|a|] == [b[0]] + b[1..][..|a| - 1];
      assert a == [a[0]] + a[1..];
    }
  }
}
