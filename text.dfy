/** The Python string operations the agent relies on (`split`, `join`,
    `rsplit`, `startswith`, `endswith`, byte-wise ordering), written out over
    `seq<char>` together with the algebra the codec proofs need. */
module Text {
  import opened Wrappers

  /** `s.startswith(prefix)` */
  predicate StartsWith(s: string, prefix: string) {
    prefix <= s
  }

  /** `s.endswith(suffix)` */
  predicate EndsWith(s: string, suffix: string) {
    |suffix| <= |s| && s[|s| - |suffix|..] == suffix
  }

  /** Position of the last occurrence of `c` in `s`. */
  function LastIndex(s: string, c: char): (i: nat)
    requires c in s
    ensures i < |s| && s[i] == c
    ensures c !in s[i + 1..]
  {
    if s[|s| - 1] == c then |s| - 1
    else
      var i := LastIndex(s[..|s| - 1], c);
      assert s[i + 1..] == s[..|s| - 1][i + 1..] + [s[|s| - 1]];
      i
  }

  /** The last occurrence of a separator that is absent from the tail is the
      separator itself. */
  lemma LastIndexOfJoined(a: string, c: char, b: string)
    requires c !in b
    ensures c in a + [c] + b && LastIndex(a + [c] + b, c) == |a|
  {
    var s := a + [c] + b;
    assert s[|a|] == c;
    var i := LastIndex(s, c);
    assert s[|a| + 1..] == b;
  }

  /** `s.split(c)`: the pieces of `s` between occurrences of `c`, defined
      from the right; like Python it never returns an empty list. */
  function Split(s: string, c: char): (parts: seq<string>)
    ensures |parts| >= 1
    ensures forall i :: 0 <= i < |parts| ==> c !in parts[i]
    decreases |s|
  {
    if c !in s then [s]
    else
      var i := LastIndex(s, c);
      Split(s[..i], c) + [s[i + 1..]]
  }

  /** `c.join(parts)`; the empty list joins to the empty string. */
  function Join(parts: seq<string>, c: char): string
  {
    if |parts| == 0 then ""
    else if |parts| == 1 then parts[0]
    else Join(parts[..|parts| - 1], c) + [c] + parts[|parts| - 1]
  }

  /** Everything before the last `c`: `s.rsplit(c, 1)[0]`. */
  function BeforeLast(s: string, c: char): (r: string)
    requires c in s
    ensures |r| < |s|
  {
    s[..LastIndex(s, c)]
  }

  /** Position of the first occurrence of `c` in `s`. */
  function FirstIndex(s: string, c: char): (i: nat)
    requires c in s
    ensures i < |s| && s[i] == c
    ensures c !in s[..i]
  {
    if s[0] == c then 0
    else
      var i := FirstIndex(s[1..], c);
      assert s[..i + 1] == [s[0]] + s[1..][..i];
      i + 1
  }

  /** Everything after the first `c`: `s.split(c, 1)[1]`. */
  function AfterFirst(s: string, c: char): (r: string)
    requires c in s
    ensures |r| < |s|
  {
    s[FirstIndex(s, c) + 1..]
  }

  /** The part after the first separator does not depend on how the text
      after the first separator continues. */
  lemma AfterFirstOfJoined(head: string, c: char, rest: string)
    requires c !in head
    ensures c in head + [c] + rest && AfterFirst(head + [c] + rest, c) == rest
  {
    var s := head + [c] + rest;
    assert s[|head|] == c;
    var i := FirstIndex(s, c);
    assert s[..|head|] == head;
    assert i == |head|;
  }

  lemma JoinAppend(parts: seq<string>, last: string, c: char)
    requires |parts| >= 1
    ensures Join(parts + [last], c) == Join(parts, c) + [c] + last
  {
    assert (parts + [last])[..|parts|] == parts;
  }

  lemma {:induction false} JoinConcat(a: seq<string>, b: seq<string>, c: char)
    requires |a| >= 1 && |b| >= 1
    ensures Join(a + b, c) == Join(a, c) + [c] + Join(b, c)
    decreases |b|
  {
    if |b| == 1 {
      JoinAppend(a, b[0], c);
    } else {
      var b' := b[..|b| - 1];
      assert a + b == (a + b') + [b[|b| - 1]];
      JoinAppend(a + b', b[|b| - 1], c);
      JoinConcat(a, b', c);
      JoinAppend(b', b[|b| - 1], c);
    }
  }

  /** Splitting then joining gives the string back. */
  lemma {:induction false} JoinSplit(s: string, c: char)
    ensures Join(Split(s, c), c) == s
    decreases |s|
  {
    if c in s {
      var i := LastIndex(s, c);
      JoinSplit(s[..i], c);
      JoinAppend(Split(s[..i], c), s[i + 1..], c);
      assert s == s[..i] + [c] + s[i + 1..];
    }
  }

  /** A separator-free tail after the last separator is the last piece. */
  lemma SplitAtLast(a: string, c: char, t: string)
    requires c !in t
    ensures Split(a + [c] + t, c) == Split(a, c) + [t]
  {
    var s := a + [c] + t;
    LastIndexOfJoined(a, c, t);
    assert s[..|a|] == a;
    assert s[|a| + 1..] == t;
  }

  /** Splitting distributes over a separator. */
  lemma {:induction false} SplitConcat(a: string, c: char, b: string)
    ensures Split(a + [c] + b, c) == Split(a, c) + Split(b, c)
    decreases |b|
  {
    if c !in b {
      SplitAtLast(a, c, b);
    } else {
      var j := LastIndex(b, c);
      var b', t := b[..j], b[j + 1..];
      assert b == b' + [c] + t;
      assert a + [c] + b == (a + [c] + b') + [c] + t;
      SplitAtLast(a + [c] + b', c, t);
      SplitAtLast(b', c, t);
      SplitConcat(a, c, b');
    }
  }

  /** Joining separator-free pieces and splitting again gives the pieces back. */
  lemma {:induction false} SplitJoin(parts: seq<string>, c: char)
    requires |parts| >= 1
    requires forall i :: 0 <= i < |parts| ==> c !in parts[i]
    ensures Split(Join(parts, c), c) == parts
    decreases |parts|
  {
    if |parts| > 1 {
      var init, last := parts[..|parts| - 1], parts[|parts| - 1];
      assert Join(parts, c) == Join(init, c) + [c] + last;
      SplitJoin(init, c);
      SplitConcat(Join(init, c), c, last);
      assert Split(last, c) == [last];
      assert init + [last] == parts;
    }
  }

  /** Splitting a string that already ends in a piece `c` + `t` peels that
      piece off. */
  lemma SplitLast(s: string, c: char)
    requires c in s
    ensures Split(s, c) == Split(BeforeLast(s, c), c) + [s[LastIndex(s, c) + 1..]]
  {
  }

  /** `list.reverse()` */
  function Reverse<T>(s: seq<T>): (r: seq<T>)
    ensures |r| == |s|
  {
    seq(|s|, i requires 0 <= i < |s| => s[|s| - 1 - i])
  }

  lemma ReverseReverse<T>(s: seq<T>)
    ensures Reverse(Reverse(s)) == s
  {
  }

  lemma ConcatAssoc<T>(a: seq<T>, b: seq<T>, c: seq<T>)
    ensures a + b + c == a + (b + c)
  {
  }

  lemma DropHead<T>(x: T, s: seq<T>)
    ensures ([x] + s)[1..] == s
  {
  }

  /** Byte-wise lexicographic order of Python 2 `str` values. */
  predicate Less(a: string, b: string)
    decreases |a|
  {
    if |a| == 0 then |b| > 0
    else if |b| == 0 then false
    else if a[0] != b[0] then a[0] < b[0]
    else Less(a[1..], b[1..])
  }

  lemma {:induction false} LessIrreflexive(a: string)
    ensures !Less(a, a)
    decreases |a|
  {
    if |a| > 0 {
      LessIrreflexive(a[1..]);
    }
  }

  lemma {:induction false} LessTransitive(a: string, b: string, d: string)
    requires Less(a, b) && Less(b, d)
    ensures Less(a, d)
    decreases |a|
  {
    if |a| > 0 && a[0] == b[0] && b[0] == d[0] {
      LessTransitive(a[1..], b[1..], d[1..]);
    }
  }

  lemma {:induction false} LessTotal(a: string, b: string)
    requires a != b
    ensures Less(a, b) || Less(b, a)
    decreases |a|
  {
    if |a| > 0 && |b| > 0 && a[0] == b[0] {
      assert a == [a[0]] + a[1..] && b == [b[0]] + b[1..];
      LessTotal(a[1..], b[1..]);
    }
  }

  lemma LessAsymmetric(a: string, b: string)
    requires Less(a, b)
    ensures !Less(b, a)
  {
    if Less(b, a) {
      LessTransitive(a, b, a);
      LessIrreflexive(a);
    }
  }

  /** Two strings that agree on a common prefix compare like the first
      characters where they differ. */
  lemma {:induction false} LessAfterCommonPrefix(p: string, x: char, a: string, y: char, b: string)
    requires x < y
    ensures Less(p + [x] + a, p + [y] + b)
    decreases |p|
  {
    if |p| > 0 {
      assert (p + [x] + a)[1..] == p[1..] + [x] + a;
      assert (p + [y] + b)[1..] == p[1..] + [y] + b;
      LessAfterCommonPrefix(p[1..], x, a, y, b);
    }
  }

  /** A finite non-empty set of strings has a greatest element. */
  lemma {:induction false} GreatestExists(s: set<string>)
    requires s != {}
    ensures exists m :: m in s && forall y :: y in s && y != m ==> Less(y, m)
    decreases |s|
  {
    var x :| x in s;
    var rest := s - {x};
    if rest == {} {
      assert forall y :: y in s && y != x ==> y in rest;
    } else {
      GreatestExists(rest);
      var m :| m in rest && forall y :: y in rest && y != m ==> Less(y, m);
      if Less(x, m) {
        assert forall y :: y in s && y != m ==> Less(y, m);
      } else {
        LessTotal(x, m);
        forall y | y in s && y != x
          ensures Less(y, x)
        {
          if y != m {
            LessTransitive(y, m, x);
          }
        }
      }
    }
  }

  /** Strictly decreasing, so also free of duplicates. */
  ghost predicate Descending(r: seq<string>) {
    forall i, j :: 0 <= i < j < |r| ==> Less(r[j], r[i])
  }

  /** `sorted(s)` followed by `reverse()`: the elements of `s` from the
      greatest to the least. */
  method SortDescending(s: set<string>) returns (r: seq<string>)
    ensures Descending(r)
    ensures |r| == |s|
    ensures forall x :: x in r <==> x in s
  {
    r := [];
    var rest := s;
    while rest != {}
      invariant forall x :: x in s <==> x in r || x in rest
      invariant forall x :: x in r ==> x !in rest
      invariant |r| + |rest| == |s|
      invariant Descending(r)
      invariant forall i, y :: 0 <= i < |r| && y in rest ==> Less(y, r[i])
      decreases |rest|
    {
      GreatestExists(rest);
      var m :| m in rest && forall y :: y in rest && y != m ==> Less(y, m);
      r := r + [m];
      rest := rest - {m};
    }
  }

  /** Position of the first character of `s` outside `allowed` (the loop
      `for ch in s: assert ch in allowed`), or None when every character is
      allowed. */
  method FirstOutside(s: string, allowed: set<char>) returns (bad: Option<nat>)
    ensures bad.None? <==> forall i :: 0 <= i < |s| ==> s[i] in allowed
    ensures bad.Some? ==> bad.value < |s| && s[bad.value] !in allowed
                          && forall i :: 0 <= i < bad.value ==> s[i] in allowed
  {
    for k := 0 to |s|
      invariant forall i :: 0 <= i < k ==> s[i] in allowed
    {
      if s[k] !in allowed {
        return Some(k);
      }
    }
    return None;
  }
}
