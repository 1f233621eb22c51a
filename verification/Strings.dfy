/** Go string helpers the mesh code relies on: byte order, TrimSpace, Contains, Join and Split. */
module Strings {

  datatype Option<+T> = None | Some(value: T)

  /** The order of Go's `<` on strings. Code point order and UTF-8 byte order agree. */
  predicate Less(a: string, b: string) {
    b != [] && (a == [] || a[0] < b[0] || (a[0] == b[0] && Less(a[1..], b[1..])))
  }

  lemma {:induction false} LessTotal(a: string, b: string)
    ensures a == b || Less(a, b) || Less(b, a)
    ensures !(Less(a, b) && Less(b, a))
    ensures !Less(a, a)
  {
    if a != [] && b != [] {
      LessTotal(a[1..], b[1..]);
      if a[0] == b[0] && a[1..] == b[1..] {
        assert a == [a[0]] + a[1..] == b;
      }
      LessTotal(a[1..], a[1..]);
    } else if a != [] {
      LessTotal(a[1..], a[1..]);
    }
  }

  /** The strings agree before i, where the first ends or has the lower character. */
  ghost predicate LowerAt(a: string, b: string, i: nat) {
    i <= |a| && i < |b| && a[..i] == b[..i] && (i == |a| || a[i] < b[i])
  }

  /** The order is the dictionary's. */
  lemma {:induction false} LessIff(a: string, b: string)
    ensures Less(a, b) <==> exists i: nat :: LowerAt(a, b, i)
  {
    if b != [] && (a == [] || a[0] < b[0]) {
      assert LowerAt(a, b, 0);
    } else if b != [] && a[0] == b[0] {
      LessIff(a[1..], b[1..]);
      if i: nat :| LowerAt(a[1..], b[1..], i) {
        assert a[..i + 1] == [a[0]] + a[1..][..i] && b[..i + 1] == [b[0]] + b[1..][..i];
        assert LowerAt(a, b, i + 1);
      }
      if i: nat :| LowerAt(a, b, i) {
        assert i > 0 && a[1..][..i - 1] == a[..i][1..] && b[1..][..i - 1] == b[..i][1..];
        assert LowerAt(a[1..], b[1..], i - 1);
      }
    } else {
      assert forall i: nat | 0 < i <= |a| && i < |b| :: a[..i][0] == a[0] && b[..i][0] == b[0];
    }
  }

  lemma {:induction false} LessTransitive(a: string, b: string, c: string)
    requires Less(a, b) && Less(b, c)
    ensures Less(a, c)
  {
    if a != [] && a[0] == b[0] == c[0] {
      LessTransitive(a[1..], b[1..], c[1..]);
    }
  }

  /** unicode.IsSpace, the class strings.TrimSpace cuts. */
  predicate IsSpace(c: char) {
    var x := c as int;
    0x09 <= x <= 0x0D || x == 0x20 || x == 0x85 || x == 0xA0 || x == 0x1680 ||
    0x2000 <= x <= 0x200A || x == 0x2028 || x == 0x2029 || x == 0x202F || x == 0x205F || x == 0x3000
  }

  function TrimLeft(s: string): string {
    if s != [] && IsSpace(s[0]) then TrimLeft(s[1..]) else s
  }

  function TrimRight(s: string): string {
    if s != [] && IsSpace(s[|s| - 1]) then TrimRight(s[..|s| - 1]) else s
  }

  function TrimSpace(s: string): string {
    TrimRight(TrimLeft(s))
  }

  ghost predicate Blank(s: string) {
    forall i | 0 <= i < |s| :: IsSpace(s[i])
  }

  /** t is s without the space around it. */
  ghost predicate TrimmedTo(s: string, pre: string, t: string, post: string) {
    s == pre + t + post && Blank(pre) && Blank(post) && (t == "" || (!IsSpace(t[0]) && !IsSpace(t[|t| - 1])))
  }

  lemma {:induction false} TrimLeftIs(s: string) returns (pre: string)
    ensures s == pre + TrimLeft(s) && Blank(pre) && (TrimLeft(s) == "" || !IsSpace(TrimLeft(s)[0]))
  {
    if s != [] && IsSpace(s[0]) {
      var rest := TrimLeftIs(s[1..]);
      pre := [s[0]] + rest;
      assert s == [s[0]] + s[1..];
    } else {
      pre := [];
      assert s == [] + s;
    }
  }

  lemma {:induction false} TrimRightIs(s: string) returns (post: string)
    ensures s == TrimRight(s) + post && Blank(post)
    ensures TrimRight(s) == "" || (!IsSpace(TrimRight(s)[|TrimRight(s)| - 1]) && TrimRight(s)[0] == s[0])
  {
    if s != [] && IsSpace(s[|s| - 1]) {
      var rest := TrimRightIs(s[..|s| - 1]);
      post := rest + [s[|s| - 1]];
      assert s == s[..|s| - 1] + [s[|s| - 1]];
      assert s == TrimRight(s) + post;
    } else {
      post := [];
      assert s == s + [];
    }
  }

  lemma TrimSpaceIs(s: string) returns (pre: string, post: string)
    ensures TrimmedTo(s, pre, TrimSpace(s), post)
  {
    pre := TrimLeftIs(s);
    post := TrimRightIs(TrimLeft(s));
    assert s == pre + (TrimSpace(s) + post);
  }

  /** There is only one way to cut the space off. */
  lemma TrimmedUnique(s: string, pre: string, t: string, post: string, pre': string, t': string, post': string)
    requires TrimmedTo(s, pre, t, post) && TrimmedTo(s, pre', t', post')
    ensures t == t'
  {
    TrimmedAt(s, pre, t, post);
    TrimmedAt(s, pre', t', post');
    assert t == "" <==> t' == "";
    assert t != "" ==> |pre| == |pre'| && |pre| + |t| == |pre'| + |t'|;
  }

  lemma TrimmedAt(s: string, pre: string, t: string, post: string)
    requires TrimmedTo(s, pre, t, post)
    ensures |pre| + |t| <= |s| && t == s[|pre|..|pre| + |t|]
    ensures forall i | 0 <= i < |s| && (i < |pre| || |pre| + |t| <= i) :: IsSpace(s[i])
    ensures t != "" ==> !IsSpace(s[|pre|]) && !IsSpace(s[|pre| + |t| - 1])
  {
    forall i | 0 <= i < |s| && (i < |pre| || |pre| + |t| <= i) ensures IsSpace(s[i]) {
      assert s[i] == if i < |pre| then pre[i] else post[i - |pre| - |t|];
    }
  }

  predicate Contains(s: string, sub: string) {
    sub <= s || (s != [] && Contains(s[1..], sub))
  }

  ghost predicate HoldsAt(s: string, pre: string, sub: string, post: string) {
    s == pre + sub + post
  }

  /** One string is somewhere inside the other. */
  lemma {:induction false} ContainsIff(s: string, sub: string)
    ensures Contains(s, sub) <==> exists pre, post :: HoldsAt(s, pre, sub, post)
  {
    if sub <= s {
      assert HoldsAt(s, "", sub, s[|sub|..]);
    } else if s != [] {
      ContainsIff(s[1..], sub);
      if Contains(s[1..], sub) {
        var pre, post :| HoldsAt(s[1..], pre, sub, post);
        assert s == [s[0]] + s[1..];
        assert HoldsAt(s, [s[0]] + pre, sub, post);
      }
      forall pre, post | HoldsAt(s, pre, sub, post) ensures Contains(s[1..], sub) {
        assert pre != "";
        assert HoldsAt(s[1..], pre[1..], sub, post);
      }
    }
  }

  lemma ContainsThrough(s: string, mid: string, sub: string)
    requires Contains(s, mid) && Contains(mid, sub)
    ensures Contains(s, sub)
  {
    ContainsIff(s, mid);
    ContainsIff(mid, sub);
    ContainsIff(s, sub);
    var a, d :| HoldsAt(s, a, mid, d);
    var b, c :| HoldsAt(mid, b, sub, c);
    assert HoldsAt(s, a + b, sub, c + d);
  }

  predicate HasPrefix(s: string, pre: string) {
    pre <= s
  }

  /** strings.Join(parts, sep) for a one-character separator. */
  function Join(parts: seq<string>, sep: char): string {
    if |parts| == 0 then []
    else if |parts| == 1 then parts[0]
    else parts[0] + [sep] + Join(parts[1..], sep)
  }

  /** strings.Split(s, sep): always at least one part. */
  function Split(s: string, sep: char): (parts: seq<string>)
    ensures |parts| >= 1
  {
    if s == [] then [[]]
    else
      var rest := Split(s[1..], sep);
      if s[0] == sep then [[]] + rest else [[s[0]] + rest[0]] + rest[1..]
  }

  lemma {:induction false} SplitOfOne(s: string, sep: char)
    requires sep !in s
    ensures Split(s, sep) == [s]
  {
    if s != [] {
      SplitOfOne(s[1..], sep);
      assert s == [s[0]] + s[1..];
    }
  }

  lemma {:induction false} SplitAtSeparator(head: string, tail: string, sep: char)
    requires sep !in head
    ensures Split(head + [sep] + tail, sep) == [head] + Split(tail, sep)
  {
    var s := head + [sep] + tail;
    if head == [] {
      assert s[1..] == tail;
    } else {
      assert s[1..] == head[1..] + [sep] + tail;
      SplitAtSeparator(head[1..], tail, sep);
      assert head == [head[0]] + head[1..];
    }
  }

  /** Splitting what was joined gives the parts back, when no part holds the separator. */
  lemma {:induction false} SplitJoin(parts: seq<string>, sep: char)
    requires |parts| >= 1
    requires forall i | 0 <= i < |parts| :: sep !in parts[i]
    ensures Split(Join(parts, sep), sep) == parts
  {
    if |parts| == 1 {
      SplitOfOne(parts[0], sep);
    } else {
      SplitJoin(parts[1..], sep);
      SplitAtSeparator(parts[0], Join(parts[1..], sep), sep);
      assert parts == [parts[0]] + parts[1..];
    }
  }

  /** A separator that is in neither head fixes where two joined strings split. */
  lemma CutUnique(a: string, x: string, b: string, y: string, sep: char)
    requires sep !in a && sep !in b
    requires a + [sep] + x == b + [sep] + y
    ensures a == b && x == y
  {
    var s, t := a + [sep] + x, b + [sep] + y;
    assert s[|a|] == sep && t[|b|] == sep;
    assert |a| == |b|;
    assert a == s[..|a|] && b == t[..|b|];
    assert x == s[|a| + 1..] && y == t[|b| + 1..];
  }
}
