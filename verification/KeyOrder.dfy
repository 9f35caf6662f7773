/** Lexicographic order of keys over signed characters, a prefix first. */
module KeyOrder {
  import opened MapTypes

  predicate Less(a: Key, b: Key)
    decreases |a|
  {
    b != [] && (a == [] || a[0] < b[0] || (a[0] == b[0] && Less(a[1..], b[1..])))
  }

  lemma {:induction false} LessIrreflexive(a: Key)
    ensures !Less(a, a)
    decreases |a|
  {
    if a != [] {
      LessIrreflexive(a[1..]);
    }
  }

  lemma {:induction false} LessTransitive(a: Key, b: Key, c: Key)
    requires Less(a, b) && Less(b, c)
    ensures Less(a, c)
    decreases |a|
  {
    if a != [] && a[0] == b[0] == c[0] {
      LessTransitive(a[1..], b[1..], c[1..]);
    }
  }

  lemma {:induction false} LessTotal(a: Key, b: Key)
    requires a != b
    ensures Less(a, b) || Less(b, a)
    decreases |a|
  {
    if a != [] && b != [] && a[0] == b[0] {
      assert a == [a[0]] + a[1..] && b == [b[0]] + b[1..];
      LessTotal(a[1..], b[1..]);
    }
  }

  /** A common prefix plays no part. */
  lemma {:induction false} LessUnder(p: Key, x: Key, y: Key)
    ensures Less(p + x, p + y) <==> Less(x, y)
    decreases |p|
  {
    if p == [] {
      assert p + x == x && p + y == y;
    } else {
      assert (p + x)[1..] == p[1..] + x && (p + y)[1..] == p[1..] + y;
      LessUnder(p[1..], x, y);
    }
  }

  /** A proper prefix comes first. */
  lemma PrefixLess(p: Key, k: Key)
    requires p < k
    ensures Less(p, k)
  {
    LessUnder(p, [], k[|p|..]);
    assert p + [] == p && p + k[|p|..] == k;
  }

  /** Keys that part after `p` are ordered by the next character. */
  lemma PartLess(p: Key, a: Ch, x: Key, b: Ch, y: Key)
    requires a != b
    ensures Less(p + [a] + x, p + [b] + y) <==> a < b
  {
    assert p + [a] + x == p + ([a] + x) && p + [b] + y == p + ([b] + y);
    LessUnder(p, [a] + x, [b] + y);
  }

  /** Where two keys part, unless one is a prefix of the other. */
  lemma {:induction false} Parting(a: Key, b: Key) returns (p: Key)
    requires !(a <= b) && !(b <= a)
    ensures p < a && p < b && a[|p|] != b[|p|]
    decreases |a|
  {
    if a[0] != b[0] {
      p := [];
    } else {
      assert a == [a[0]] + a[1..] && b == [b[0]] + b[1..];
      p := Parting(a[1..], b[1..]);
      p := [a[0]] + p;
      assert a[1..][|p| - 1] == a[|p|] && b[1..][|p| - 1] == b[|p|];
    }
  }

  /** What lies beyond `a` but not under it lies beyond everything under `a`. */
  lemma BeyondAll(a: Key, b: Key, m: Key)
    requires a <= b && !(a <= m)
    ensures Less(a, m) <==> Less(b, m)
  {
    if m <= a {
      assert m != a;
      PrefixLess(m, a);
      assert m < b;
      PrefixLess(m, b);
      NotBoth(m, a);
      NotBoth(m, b);
    } else {
      var p := Parting(a, m);
      var i := |p|;
      assert a == p + [a[i]] + a[i + 1..];
      assert m == p + [m[i]] + m[i + 1..];
      assert b == p + [a[i]] + b[i + 1..];
      PartLess(p, a[i], a[i + 1..], m[i], m[i + 1..]);
      PartLess(p, a[i], b[i + 1..], m[i], m[i + 1..]);
    }
  }

  lemma NotBoth(a: Key, b: Key)
    requires Less(a, b)
    ensures !Less(b, a) && a != b
  {
    LessIrreflexive(a);
    if Less(b, a) {
      LessTransitive(a, b, a);
    }
  }

  lemma LessProper(a: Key, b: Key)
    requires a <= b && Less(a, b)
    ensures a < b
  {
    LessIrreflexive(a);
    assert a == b[..|a|];
    assert b[..|b|] == b;
  }
}
