/**
 * The few pieces of Ruby's Array and Hash library that the game relies on,
 * stated as functions over sequences and maps: `count`/`filter.length`,
 * `compact`, the ordered intersection `&`, `min`, `max`, and the lookup of a
 * `Hash.new(0)` that answers 0 for a missing key.
 */
module RubyArrays {

  datatype Option<T> = None | Some(value: T)

  function Min(a: int, b: int): int
  {
    if a <= b then a else b
  }

  /** The number of elements of `s` equal to `x` (`s.filter { |e| e == x }.length`). */
  function Count<T(==)>(s: seq<T>, x: T): (n: nat)
    ensures n <= |s|
  {
    if s == [] then 0
    else Count(s[..|s| - 1], x) + (if s[|s| - 1] == x then 1 else 0)
  }

  /** `Array#compact`: the present values of `s`, in order. */
  function Compact<T>(s: seq<Option<T>>): (r: seq<T>)
    ensures |r| <= |s|
  {
    if s == [] then []
    else Compact(s[..|s| - 1]) + (if s[|s| - 1].Some? then [s[|s| - 1].value] else [])
  }

  /** `Array#&`: the elements of `a` that also occur in `b`, each once, in the order of their first occurrence in `a`. */
  function Intersection<T(==,!new)>(a: seq<T>, b: seq<T>): (r: seq<T>)
    ensures forall x :: x in r <==> x in a && x in b
    ensures forall i, j :: 0 <= i < j < |r| ==> r[i] != r[j]
  {
    if a == [] then []
    else
      var init := a[..|a| - 1];
      var r := Intersection(init, b);
      var last := a[|a| - 1];
      assert a == init + [last];
      if last in b && last !in r then r + [last] else r
  }

  /** The first element of `a & b` is the first element of `a` that occurs in `b`. */
  lemma {:induction false} IntersectionHead<T(!new)>(a: seq<T>, b: seq<T>)
    ensures var r := Intersection(a, b);
      r != [] ==> exists k :: 0 <= k < |a| && a[k] == r[0] && forall j :: 0 <= j < k ==> a[j] !in b
  {
    if a != [] {
      var init := a[..|a| - 1];
      IntersectionHead(init, b);
      var r := Intersection(init, b);
      if r != [] {
        var k :| 0 <= k < |init| && init[k] == r[0] && forall j :: 0 <= j < k ==> init[j] !in b;
        assert a[k] == init[k];
        assert forall j :: 0 <= j < k ==> a[j] == init[j];
      } else {
        forall j | 0 <= j < |init| ensures a[j] !in b {
          assert init[j] !in r;
        }
      }
    }
  }

  /** `Array#min` over a list of scores; the empty list (for which Ruby answers nil) gives 0. */
  function MinOf(s: seq<nat>): (m: nat)
    ensures s != [] ==> m in s
    ensures forall i :: 0 <= i < |s| ==> m <= s[i]
  {
    if s == [] then 0
    else if |s| == 1 then s[0]
    else
      var rest := MinOf(s[1..]);
      assert forall i :: 1 <= i < |s| ==> s[i] == s[1..][i - 1];
      if s[0] <= rest then s[0] else rest
  }

  /** `Array#max` over a list of counts; the empty list (for which Ruby answers nil) gives 0. */
  function MaxOf(s: seq<nat>): (m: nat)
    ensures s != [] ==> exists i :: 0 <= i < |s| && s[i] == m
    ensures s == [] ==> m == 0
    ensures forall i :: 0 <= i < |s| ==> s[i] <= m
  {
    if s == [] then 0
    else
      var rest := MaxOf(s[..|s| - 1]);
      assert forall i :: 0 <= i < |s| - 1 ==> s[i] == s[..|s| - 1][i];
      if s[|s| - 1] >= rest then s[|s| - 1] else rest
  }

  /** Reading key `k` of a `Hash.new(0)`: the stored value, or 0 when `k` is absent. */
  function Lookup<K>(m: map<K, int>, k: K): int
  {
    if k in m then m[k] else 0
  }

  lemma {:induction false} CompactAppend<T>(a: seq<Option<T>>, b: seq<Option<T>>)
    ensures Compact(a + b) == Compact(a) + Compact(b)
    decreases |b|
  {
    if b == [] {
      assert a + b == a;
    } else {
      var b' := b[..|b| - 1];
      assert (a + b)[..|a + b| - 1] == a + b';
      CompactAppend(a, b');
    }
  }

  /** Compacting one more element appends that element if it is present. */
  lemma {:induction false} CompactStep<T>(s: seq<Option<T>>, k: nat)
    requires 0 < k <= |s|
    ensures Compact(s[..k]) == Compact(s[..k - 1]) + (if s[k - 1].Some? then [s[k - 1].value] else [])
  {
    assert s[..k][..k - 1] == s[..k - 1];
  }

  lemma {:induction false} CountAppend<T>(a: seq<T>, b: seq<T>, x: T)
    ensures Count(a + b, x) == Count(a, x) + Count(b, x)
    decreases |b|
  {
    if b == [] {
      assert a + b == a;
    } else {
      var b' := b[..|b| - 1];
      assert (a + b)[..|a + b| - 1] == a + b';
      CountAppend(a, b', x);
    }
  }

  lemma {:induction false} CountSingleton<T>(y: T, x: T)
    ensures Count([y], x) == if y == x then 1 else 0
  {
    assert [y][..0] == [];
  }

  /** In a list whose every element is `x`, all of them count. */
  lemma {:induction false} CountAll<T>(s: seq<T>, x: T)
    requires forall i :: 0 <= i < |s| ==> s[i] == x
    ensures Count(s, x) == |s|
  {
    if s != [] {
      CountAll(s[..|s| - 1], x);
    }
  }

  /** Counting agrees with the multiplicity in the multiset of the list. */
  lemma {:induction false} CountIsMultiplicity<T>(s: seq<T>, x: T)
    ensures Count(s, x) == multiset(s)[x]
  {
    if s != [] {
      CountIsMultiplicity(s[..|s| - 1], x);
      assert s == s[..|s| - 1] + [s[|s| - 1]];
    }
  }
}
