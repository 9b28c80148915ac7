/** The Lua library behaviour the scripts rely on: `table.sort`, `math.random`, string order, and a
    list whose elements are removed while `ipairs` walks over it. */
module LuaTables {

  // ----- table.sort -----

  /** A comparison that sorts the elements of `dom`: asymmetric, and "not less" is transitive. */
  ghost predicate StrictWeakOn<T(!new)>(less: (T, T) -> bool, dom: seq<T>) {
    && (forall x, y | x in dom && y in dom :: less(x, y) ==> !less(y, x))
    && (forall x, y, z | x in dom && y in dom && z in dom :: !less(x, y) && !less(y, z) ==> !less(x, z))
  }

  ghost predicate Ordered<T(!new)>(less: (T, T) -> bool, s: seq<T>) {
    forall i, j | 0 <= i < j < |s| :: !less(s[j], s[i])
  }

  /** What a caller may rely on after `table.sort(a, less)`: a permutation always, and an ordered one
      only when the comparison is a strict weak order on the elements. Callers never see which order
      the equal elements end up in. */
  method TableSort<T(!new)>(a: seq<T>, less: (T, T) -> bool) returns (b: seq<T>)
    ensures multiset(b) == multiset(a)
    ensures |b| == |a|
    ensures forall x :: x in b <==> x in a
    ensures StrictWeakOn(less, a) ==> Ordered(less, b)
  {
    b := [];
    for i := 0 to |a|
      invariant |b| == i
      invariant multiset(b) == multiset(a[..i])
      invariant StrictWeakOn(less, a) ==> Ordered(less, b)
    {
      var k := i;
      while k > 0 && less(a[i], b[k - 1])
        invariant 0 <= k <= i
        invariant k < i ==> less(a[i], b[k])
      {
        k := k - 1;
      }
      InsertNext(a, i, b, k);
      if StrictWeakOn(less, a) {
        SameElements(b, a[..i]);
        InsertOrdered(less, a, b, a[i], k);
      }
      b := b[..k] + [a[i]] + b[k..];
    }
    assert a[..|a|] == a;
    SameElements(b, a);
  }

  lemma InsertNext<T>(a: seq<T>, i: nat, b: seq<T>, k: nat)
    requires i < |a| && k <= |b|
    requires multiset(b) == multiset(a[..i])
    ensures multiset(b[..k] + [a[i]] + b[k..]) == multiset(a[..i + 1])
  {
    assert a[..i + 1] == a[..i] + [a[i]];
    assert b == b[..k] + b[k..];
  }

  lemma SameElements<T>(s: seq<T>, t: seq<T>)
    requires multiset(s) == multiset(t)
    ensures forall x :: x in s <==> x in t
  {
    assert forall x :: x in s <==> x in multiset(s);
    assert forall x :: x in t <==> x in multiset(t);
  }

  lemma InsertOrdered<T(!new)>(less: (T, T) -> bool, dom: seq<T>, b: seq<T>, x: T, k: nat)
    requires StrictWeakOn(less, dom)
    requires x in dom && (forall y | y in b :: y in dom)
    requires Ordered(less, b)
    requires k <= |b|
    requires k < |b| ==> less(x, b[k])
    requires k > 0 ==> !less(x, b[k - 1])
    ensures Ordered(less, b[..k] + [x] + b[k..])
  {
    forall j | 0 <= j < k ensures !less(x, b[j]) {
      if j < k - 1 {
        assert !less(b[k - 1], b[j]);
      }
    }
    forall j | k <= j < |b| ensures !less(b[j], x) {
      assert !less(b[k], x);
      if j > k {
        assert !less(b[j], b[k]);
      }
    }
  }

  /** `math.random(n)`: some number from 1 to n. */
  method Random(n: nat) returns (k: nat)
    requires n > 0
    ensures 1 <= k <= n
  {
    k :| 1 <= k <= n;
  }

  // ----- string comparison -----

  /** Lua's `a < b` on strings. */
  predicate Before(a: string, b: string) {
    if b == "" then false
    else if a == "" then true
    else if a[0] != b[0] then a[0] < b[0]
    else Before(a[1..], b[1..])
  }

  /** The strings agree up to the n-th character, where `a` ends or has the smaller character. */
  predicate DecidesAt(a: string, b: string, n: nat) {
    n <= |a| && n < |b| && a[..n] == b[..n] && (n == |a| || a[n] < b[n])
  }

  /** The first character that differs decides, and a proper prefix comes first. */
  lemma {:induction false} BeforeExactly(a: string, b: string)
    ensures Before(a, b) <==> exists n: nat :: DecidesAt(a, b, n)
  {
    forall n: nat | 0 < n <= |a| && n <= |b| && a[..n] == b[..n] ensures a[0] == b[0] {
      assert a[..n][0] == b[..n][0];
    }
    if a == "" || b == "" || a[0] != b[0] {
      if Before(a, b) {
        assert DecidesAt(a, b, 0);
      }
    } else {
      BeforeExactly(a[1..], b[1..]);
      forall n: nat ensures DecidesAt(a[1..], b[1..], n) <==> DecidesAt(a, b, n + 1) {
        if n < |a| && n < |b| {
          assert a[1..][..n] == a[..n + 1][1..] && b[1..][..n] == b[..n + 1][1..];
          assert a[..n + 1] == [a[0]] + a[1..][..n] && b[..n + 1] == [b[0]] + b[1..][..n];
        }
      }
      if n: nat :| DecidesAt(a, b, n) {
        assert n > 0;
        assert DecidesAt(a[1..], b[1..], n - 1);
      }
    }
  }

  lemma {:induction false} BeforeAsymmetric(a: string, b: string)
    requires Before(a, b)
    ensures !Before(b, a)
  {
    if a != "" && a[0] == b[0] {
      BeforeAsymmetric(a[1..], b[1..]);
    }
  }

  lemma {:induction false} NotBeforeTransitive(a: string, b: string, c: string)
    requires !Before(a, b) && !Before(b, c)
    ensures !Before(a, c)
  {
    if a != "" && b != "" && c != "" && a[0] == b[0] == c[0] {
      NotBeforeTransitive(a[1..], b[1..], c[1..]);
    }
  }

  // ----- removing from a list while walking over it -----

  ghost predicate NoDuplicates<T>(s: seq<T>) {
    forall i, j | 0 <= i < j < |s| :: s[i] != s[j]
  }

  /** The list `for i, y in ipairs(s) do if x == y then table.remove(s, i) end end` leaves behind when
      the walk has reached index `i`: an element that slides into a freed place is never looked at. */
  function RemoveWhileWalking<T(==)>(s: seq<T>, x: T, i: nat): seq<T>
    decreases |s| - i
  {
    if i >= |s| then s
    else if s[i] == x then RemoveWhileWalking(s[..i] + s[i + 1..], x, i + 1)
    else RemoveWhileWalking(s, x, i + 1)
  }

  /** The list without any occurrence of `x`, in the old order. */
  function Without<T(==)>(s: seq<T>, x: T): seq<T> {
    if s == [] then []
    else if s[0] == x then Without(s[1..], x)
    else [s[0]] + Without(s[1..], x)
  }

  ghost predicate AdjacentTwice<T>(s: seq<T>, x: T) {
    exists k :: 0 <= k < |s| - 1 && s[k] == x && s[k + 1] == x
  }

  lemma {:induction false} WithoutMembers<T>(s: seq<T>, x: T)
    ensures forall y :: y in Without(s, x) <==> y in s && y != x
    ensures NoDuplicates(s) ==> NoDuplicates(Without(s, x))
  {
    if s != [] {
      WithoutMembers(s[1..], x);
      assert s == [s[0]] + s[1..];
      assert NoDuplicates(s) ==> s[0] !in s[1..] && NoDuplicates(s[1..]);
    }
  }

  /** What the walk does to the part of the list it has not reached. */
  function Skipping<T(==)>(t: seq<T>, x: T): seq<T> {
    if t == [] then []
    else if t[0] != x then [t[0]] + Skipping(t[1..], x)
    else if |t| == 1 then []
    else [t[1]] + Skipping(t[2..], x)
  }

  lemma {:induction false} WalkIsSkipping<T>(s: seq<T>, x: T, i: nat)
    requires i <= |s|
    ensures RemoveWhileWalking(s, x, i) == s[..i] + Skipping(s[i..], x)
    decreases |s| - i
  {
    if i < |s| {
      if s[i] == x {
        var t := s[..i] + s[i + 1..];
        if i + 1 <= |t| {
          WalkIsSkipping(t, x, i + 1);
          assert t[..i + 1] == s[..i] + [s[i + 1]];
          assert t[i + 1..] == s[i..][2..];
        }
      } else {
        WalkIsSkipping(s, x, i + 1);
        assert s[..i + 1] == s[..i] + [s[i]];
        assert s[i + 1..] == s[i..][1..];
      }
    }
  }

  lemma AdjacentTwiceCons<T>(t: seq<T>, x: T)
    requires |t| >= 2
    ensures AdjacentTwice(t, x) <==> (t[0] == x && t[1] == x) || AdjacentTwice(t[1..], x)
  {
    if k :| 0 < k < |t| - 1 && t[k] == x && t[k + 1] == x {
      assert t[1..][k - 1] == x && t[1..][k - 1 + 1] == x;
    }
    if k :| 0 <= k < |t[1..]| - 1 && t[1..][k] == x && t[1..][k + 1] == x {
      assert t[k + 1] == x && t[k + 1 + 1] == x;
    }
    if t[0] == x && t[1] == x {
      assert t[0 + 1] == x;
    }
  }

  lemma {:induction false} SkippingExact<T>(t: seq<T>, x: T)
    ensures Skipping(t, x) == Without(t, x) <==> !AdjacentTwice(t, x)
    decreases |t|
  {
    if |t| >= 2 {
      AdjacentTwiceCons(t, x);
      if t[0] != x {
        SkippingExact(t[1..], x);
        assert Skipping(t, x)[1..] == Skipping(t[1..], x) && Without(t, x)[1..] == Without(t[1..], x);
      } else if t[1] == x {
        WithoutMembers(t, x);
        assert x in Skipping(t, x);
      } else {
        assert t[1..][1..] == t[2..];
        if |t| >= 3 {
          AdjacentTwiceCons(t[1..], x);
        }
        SkippingExact(t[2..], x);
      }
    } else if |t| == 1 {
      assert t[1..] == [];
    }
  }

  /** The walk removes every occurrence, keeping the order of the rest, exactly when the element never
      stands next to itself; a list without duplicates is always such a list. */
  lemma RemoveWhileWalkingExact<T>(s: seq<T>, x: T)
    ensures RemoveWhileWalking(s, x, 0) == Without(s, x) <==> !AdjacentTwice(s, x)
    ensures NoDuplicates(s) ==> RemoveWhileWalking(s, x, 0) == Without(s, x)
  {
    WalkIsSkipping(s, x, 0);
    assert s[0..] == s && s[..0] == [];
    SkippingExact(s, x);
  }
}
