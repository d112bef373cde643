/**
 * The order `sort.Strings` puts keys in (lexicographic, character by
 * character) and the sort itself, used by `print` (mock.go) to list the
 * configuration by key.
 */
module KeyOrder {

  /**
   * `a` sorts strictly before `b`: a proper prefix, or smaller at the first
   * difference. No string sorts before itself.
   */
  predicate Less(a: string, b: string)
    ensures Less(a, b) ==> a != b
    ensures |a| < |b| && a == b[..|a|] ==> Less(a, b)
    decreases |a|
  {
    if |a| == 0 then |b| > 0
    else if |b| == 0 then false
    else if a[0] != b[0] then a[0] < b[0]
    else Less(a[1..], b[1..])
  }

  predicate LessEq(a: string, b: string) {
    a == b || Less(a, b)
  }

  lemma {:induction false} LessTransitive(a: string, b: string, c: string)
    requires Less(a, b) && Less(b, c)
    ensures Less(a, c)
    decreases |a|
  {
    if |a| > 0 && a[0] == b[0] && b[0] == c[0] {
      LessTransitive(a[1..], b[1..], c[1..]);
    }
  }

  /** Any two distinct strings are ordered one way. */
  lemma {:induction false} LessTotal(a: string, b: string)
    requires a != b
    ensures Less(a, b) || Less(b, a)
    decreases |a|
  {
    if |a| > 0 && |b| > 0 && a[0] == b[0] {
      assert a == [a[0]] + a[1..] && b == [b[0]] + b[1..];
      LessTotal(a[1..], b[1..]);
    }
  }

  lemma LessAsymmetric(a: string, b: string)
    requires Less(a, b)
    ensures !Less(b, a)
  {
    if Less(b, a) {
      LessTransitive(a, b, a);
    }
  }

  /** Not-before is the same as at-or-after. */
  lemma NotLessIsLessEq(a: string, b: string)
    ensures !Less(b, a) <==> LessEq(a, b)
  {
    if a != b {
      LessTotal(a, b);
    }
    if Less(a, b) {
      LessAsymmetric(a, b);
    }
  }

  lemma LessEqTransitive(a: string, b: string, c: string)
    requires LessEq(a, b) && LessEq(b, c)
    ensures LessEq(a, c)
  {
    if a != b && b != c {
      LessTransitive(a, b, c);
    }
  }

  ghost predicate Sorted(s: seq<string>) {
    forall i, j :: 0 <= i < j < |s| ==> LessEq(s[i], s[j])
  }

  ghost predicate StrictlySorted(s: seq<string>) {
    forall i, j :: 0 <= i < j < |s| ==> Less(s[i], s[j])
  }

  ghost predicate NoDuplicates(s: seq<string>) {
    forall i, j :: 0 <= i < j < |s| ==> s[i] != s[j]
  }

  /**
   * Two strictly sorted listings of the same keys are the same listing: the
   * order `print` shows does not depend on the order the keys were gathered in.
   */
  lemma {:induction false} StrictlySortedUnique(a: seq<string>, b: seq<string>)
    requires StrictlySorted(a) && StrictlySorted(b)
    requires forall k :: k in a <==> k in b
    ensures a == b
    decreases |a|
  {
    if a == [] {
      HeadIsMember(b);
    } else {
      assert a[0] in b;
      assert b != [];
      assert b[0] in a;
      if a[0] != b[0] {
        var j :| 0 <= j < |a| && a[j] == b[0];
        var k :| 0 <= k < |b| && b[k] == a[0];
        assert Less(a[0], b[0]);
        assert Less(b[0], a[0]);
        LessTransitive(a[0], b[0], a[0]);
      }
      forall x ensures x in a[1..] <==> x in b[1..] {
        if x in a[1..] {
          var i :| 0 <= i < |a[1..]| && a[1..][i] == x;
          assert Less(a[0], a[i + 1]);
        }
        if x in b[1..] {
          var i :| 0 <= i < |b[1..]| && b[1..][i] == x;
          assert Less(b[0], b[i + 1]);
        }
        assert x in a <==> x == a[0] || x in a[1..];
        assert x in b <==> x == b[0] || x in b[1..];
      }
      StrictlySortedUnique(a[1..], b[1..]);
      assert a == [a[0]] + a[1..] && b == [b[0]] + b[1..];
    }
  }

  lemma HeadIsMember(s: seq<string>)
    ensures s == [] || s[0] in s
  {
  }

  /** Puts `x` in front of the first element it does not sort after. */
  function Insert(x: string, xs: seq<string>): (r: seq<string>)
    ensures multiset(r) == multiset(xs) + multiset{x}
    ensures forall y :: y in r <==> y == x || y in xs
    ensures Sorted(xs) ==> Sorted(r)
    ensures StrictlySorted(xs) && x !in xs ==> StrictlySorted(r)
    decreases |xs|
  {
    if xs == [] then
      [x]
    else if !Less(xs[0], x) then
      InsertFront(x, xs);
      [x] + xs
    else
      var rest := Insert(x, xs[1..]);
      assert xs == [xs[0]] + xs[1..];
      InsertBehind(x, xs, rest);
      [xs[0]] + rest
  }

  lemma InsertFront(x: string, xs: seq<string>)
    requires xs != [] && !Less(xs[0], x)
    ensures Sorted(xs) ==> Sorted([x] + xs)
    ensures StrictlySorted(xs) && x !in xs ==> StrictlySorted([x] + xs)
  {
    var r := [x] + xs;
    NotLessIsLessEq(x, xs[0]);
    if Sorted(xs) {
      forall i, j | 0 <= i < j < |r| ensures LessEq(r[i], r[j]) {
        if i == 0 && j > 1 {
          LessEqTransitive(x, xs[0], xs[j - 1]);
        }
      }
    }
    if StrictlySorted(xs) && x !in xs {
      forall i, j | 0 <= i < j < |r| ensures Less(r[i], r[j]) {
        if i == 0 && j > 1 {
          LessTransitive(x, xs[0], xs[j - 1]);
        }
      }
    }
  }

  lemma InsertBehind(x: string, xs: seq<string>, rest: seq<string>)
    requires xs != [] && Less(xs[0], x)
    requires forall y :: y in rest <==> y == x || y in xs[1..]
    requires Sorted(xs[1..]) ==> Sorted(rest)
    requires StrictlySorted(xs[1..]) && x !in xs[1..] ==> StrictlySorted(rest)
    ensures Sorted(xs) ==> Sorted([xs[0]] + rest)
    ensures StrictlySorted(xs) && x !in xs ==> StrictlySorted([xs[0]] + rest)
  {
    var r := [xs[0]] + rest;
    if Sorted(xs) {
      forall i, j | 0 <= i < j < |r| ensures LessEq(r[i], r[j]) {
        if i == 0 {
          assert r[j] in rest;
          if r[j] != x {
            var k :| 0 <= k < |xs[1..]| && xs[1..][k] == r[j];
            assert xs[k + 1] == r[j];
          }
        }
      }
    }
    if StrictlySorted(xs) && x !in xs {
      forall i, j | 0 <= i < j < |r| ensures Less(r[i], r[j]) {
        if i == 0 {
          assert r[j] in rest;
          if r[j] != x {
            var k :| 0 <= k < |xs[1..]| && xs[1..][k] == r[j];
            assert xs[k + 1] == r[j];
          }
        }
      }
    }
  }

  /**
   * sort.Strings: a sorted rearrangement of `s`; when `s` holds no string
   * twice, every string sorts strictly before the next.
   */
  function Sort(s: seq<string>): (r: seq<string>)
    ensures multiset(r) == multiset(s)
    ensures Sorted(r)
    ensures NoDuplicates(s) ==> StrictlySorted(r)
    decreases |s|
  {
    if s == [] then []
    else
      assert s == [s[0]] + s[1..];
      var rest := Sort(s[1..]);
      assert s[0] in multiset(s[1..]) <==> s[0] in s[1..];
      assert s[0] in multiset(rest) <==> s[0] in rest;
      Insert(s[0], rest)
  }
}
