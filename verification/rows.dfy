/**
 * Query building blocks over tables held as sequences of rows: `.filter()`,
 * `.get()`, slicing `[:n]`, `Paginator(...).get_page(k)`, and the
 * uniqueness that `unique=True` / `unique_together` impose on a table.
 */
module Rows {
  import opened Wrappers

  /** Fixed page size of every paginated listing (`Paginator(qs, 20)`). */
  const PAGE_SIZE: nat := 20

  function Min(a: int, b: int): int { if a <= b then a else b }

  /** `.filter(p)`: the rows satisfying `p`, in table order. */
  function Filter<T(!new)>(s: seq<T>, p: T -> bool): (r: seq<T>)
    ensures |r| <= |s|
    ensures forall x :: x in r <==> x in s && p(x)
    ensures forall i :: 0 <= i < |r| ==> p(r[i])
    ensures multiset(r) <= multiset(s)
    ensures forall x :: p(x) ==> multiset(r)[x] == multiset(s)[x]
  {
    if s == [] then []
    else
      assert s == [s[0]] + s[1..];
      assert multiset(s) == multiset{s[0]} + multiset(s[1..]);
      if p(s[0]) then [s[0]] + Filter(s[1..], p) else Filter(s[1..], p)
  }

  /** Filtering a table that grew by rows `b` adds the matches among `b`, after the old matches. */
  lemma {:induction false} FilterConcat<T(!new)>(a: seq<T>, b: seq<T>, p: T -> bool)
    ensures Filter(a + b, p) == Filter(a, p) + Filter(b, p)
  {
    if a == [] {
      assert a + b == b;
    } else {
      FilterConcat(a[1..], b, p);
      FilterConsConcat(a[0], a[1..], b, p);
      HeadTail(a);
    }
  }

  /** One step of `FilterConcat`: a row put in front of both sides. */
  lemma FilterConsConcat<T(!new)>(x: T, a: seq<T>, b: seq<T>, p: T -> bool)
    requires Filter(a + b, p) == Filter(a, p) + Filter(b, p)
    ensures Filter([x] + a + b, p) == Filter([x] + a, p) + Filter(b, p)
  {
    FilterCons(x, a, p);
    FilterCons(x, a + b, p);
    AppendAssoc([x], a, b);
    if p(x) {
      AppendAssoc([x], Filter(a, p), Filter(b, p));
    }
  }

  lemma HeadTail<T>(s: seq<T>)
    requires s != []
    ensures [s[0]] + s[1..] == s
  {
  }

  lemma AppendAssoc<T>(x: seq<T>, y: seq<T>, z: seq<T>)
    ensures (x + y) + z == x + (y + z)
  {
  }

  lemma AppendSuffix<T>(a: seq<T>, b: seq<T>)
    ensures (a + b)[|a|..] == b
  {
  }

  /** Filtering a row followed by a table. */
  lemma FilterCons<T(!new)>(x: T, s: seq<T>, p: T -> bool)
    ensures Filter([x] + s, p) == if p(x) then [x] + Filter(s, p) else Filter(s, p)
  {
    assert ([x] + s)[1..] == s;
  }

  /** A filter every row passes keeps the table as it is. */
  lemma {:induction false} FilterAll<T(!new)>(s: seq<T>, p: T -> bool)
    requires forall i :: 0 <= i < |s| ==> p(s[i])
    ensures Filter(s, p) == s
  {
    if s != [] {
      FilterAll(s[1..], p);
    }
  }

  /** A filter no row passes gives the empty table. */
  lemma {:induction false} FilterNone<T(!new)>(s: seq<T>, p: T -> bool)
    requires forall i :: 0 <= i < |s| ==> !p(s[i])
    ensures Filter(s, p) == []
  {
    if s != [] {
      FilterNone(s[1..], p);
    }
  }

  /** `.get(p)` on a filter that at most one row satisfies; `None` is `DoesNotExist`. */
  function Find<T(!new)>(s: seq<T>, p: T -> bool): (r: Option<T>)
    ensures r.Some? ==> r.value in s && p(r.value)
    ensures r.None? <==> forall x :: x in s ==> !p(x)
  {
    if s == [] then None else if p(s[0]) then Some(s[0]) else Find(s[1..], p)
  }

  /** When only `x` satisfies `p`, `.get(p)` returns `x`. */
  lemma {:induction false} FindOnly<T(!new)>(s: seq<T>, p: T -> bool, x: T)
    requires x in s && p(x)
    requires forall y :: y in s && p(y) ==> y == x
    ensures Find(s, p) == Some(x)
  {
    if s[0] != x {
      assert !p(s[0]);
      FindOnly(s[1..], p, x);
    }
  }

  /** The slice `qs[:n]`. */
  function Take<T>(s: seq<T>, n: nat): (r: seq<T>)
    ensures |r| == Min(n, |s|)
    ensures r <= s
  {
    s[..Min(n, |s|)]
  }

  /** Page `k` (counting from 1) of a result: rows (k-1)*20 up to k*20-1. */
  function Page<T(!new)>(s: seq<T>, k: nat): (r: seq<T>)
    requires k >= 1
    ensures |r| <= PAGE_SIZE
    ensures forall x :: x in r ==> x in s
    ensures |r| == if (k - 1) * PAGE_SIZE >= |s| then 0 else Min(PAGE_SIZE, |s| - (k - 1) * PAGE_SIZE)
    ensures forall i :: 0 <= i < |r| ==> r[i] == s[(k - 1) * PAGE_SIZE + i]
  {
    s[Min((k - 1) * PAGE_SIZE, |s|)..Min(k * PAGE_SIZE, |s|)]
  }

  /** The number of pages the paginator reports: at least one, even for an empty result. */
  function PageCount(n: nat): (c: nat)
    ensures c >= 1
    ensures (c - 1) * PAGE_SIZE < n <= c * PAGE_SIZE || (n == 0 && c == 1)
  {
    if n <= PAGE_SIZE then 1 else 1 + PageCount(n - PAGE_SIZE)
  }

  /** The first `n` pages, concatenated. */
  function Pages<T(!new)>(s: seq<T>, n: nat): seq<T>
  {
    if n == 0 then [] else Pages(s, n - 1) + Page(s, n)
  }

  /** Reading pages 1..n in turn gives the first 20*n rows, each exactly once. */
  lemma {:induction false} PagesArePrefix<T(!new)>(s: seq<T>, n: nat)
    ensures Pages(s, n) == s[..Min(n * PAGE_SIZE, |s|)]
  {
    if n > 0 {
      PagesArePrefix(s, n - 1);
      assert s[..Min(n * PAGE_SIZE, |s|)]
          == s[..Min((n - 1) * PAGE_SIZE, |s|)] + s[Min((n - 1) * PAGE_SIZE, |s|)..Min(n * PAGE_SIZE, |s|)];
    }
  }

  /** The pages of a result cover it, and every page after the last one is empty. */
  lemma PagesCoverResult<T(!new)>(s: seq<T>, k: nat)
    requires k > PageCount(|s|)
    ensures Pages(s, PageCount(|s|)) == s
    ensures Page(s, k) == []
  {
    PagesArePrefix(s, PageCount(|s|));
  }

  /** No two rows share a key: `unique=True` or `unique_together`. */
  predicate Distinct<T, K(==)>(s: seq<T>, key: T -> K) {
    forall i, j :: 0 <= i < j < |s| ==> key(s[i]) != key(s[j])
  }

  /** Some row of `s` already has key `k`. */
  predicate KeyTaken<T, K(==)>(s: seq<T>, key: T -> K, k: K) {
    exists i :: 0 <= i < |s| && key(s[i]) == k
  }

  /** An insert that the unique constraint admits keeps the table unique. */
  lemma AppendKeepsDistinct<T, K>(s: seq<T>, x: T, key: T -> K)
    requires Distinct(s, key)
    requires !KeyTaken(s, key, key(x))
    ensures Distinct(s + [x], key)
  {
    forall i, j | 0 <= i < j < |s| + 1
      ensures key((s + [x])[i]) != key((s + [x])[j])
    {
      if j == |s| {
        assert (s + [x])[i] == s[i];
      } else {
        assert (s + [x])[i] == s[i] && (s + [x])[j] == s[j];
      }
    }
  }

  /** Django's `save()`: overwrite the row with the same primary key, or append a new row. */
  function Upsert<T(!new)>(s: seq<T>, x: T, id: T -> nat): (r: seq<T>)
    requires Distinct(s, id)
    ensures Distinct(r, id)
    ensures x in r
    ensures |r| == if KeyTaken(s, id, id(x)) then |s| else |s| + 1
    ensures forall y :: y in r ==> y == x || (y in s && id(y) != id(x))
    ensures forall y :: y in s && id(y) != id(x) ==> y in r
    ensures !KeyTaken(s, id, id(x)) ==> r == s + [x]
  {
    match IndexOf(s, id, id(x))
    case None =>
      AppendKeepsDistinct(s, x, id);
      s + [x]
    case Some(k) =>
      var r := s[k := x];
      assert r[k] == x;
      assert forall i :: 0 <= i < |s| && i != k ==> id(s[i]) != id(x);
      assert forall y :: y in s && id(y) != id(x) ==> y in r by {
        forall y | y in s && id(y) != id(x) ensures y in r {
          var i :| 0 <= i < |s| && s[i] == y;
          assert r[i] == y;
        }
      }
      r
  }

  /** A second unique column stays unique when the saved row does not clash with any other row. */
  lemma UpsertKeepsDistinct<T(!new), K>(s: seq<T>, x: T, id: T -> nat, key: T -> K)
    requires Distinct(s, id) && Distinct(s, key)
    requires forall i :: 0 <= i < |s| && id(s[i]) != id(x) ==> key(s[i]) != key(x)
    ensures Distinct(Upsert(s, x, id), key)
  {
    var r := Upsert(s, x, id);
    forall i, j | 0 <= i < j < |r| ensures key(r[i]) != key(r[j]) {
      assert id(r[i]) != id(r[j]);
      if r[i] != x && r[j] != x {
        var a :| 0 <= a < |s| && s[a] == r[i];
        var b :| 0 <= b < |s| && s[b] == r[j];
        assert a != b;
      } else if r[i] == x {
        var b :| 0 <= b < |s| && s[b] == r[j];
      } else {
        var a :| 0 <= a < |s| && s[a] == r[i];
      }
    }
  }

  /** The position of the row whose key is `k`, if there is one. */
  function IndexOf<T, K(==)>(s: seq<T>, key: T -> K, k: K): (r: Option<nat>)
    ensures r.Some? ==> r.value < |s| && key(s[r.value]) == k
    ensures r.None? <==> !KeyTaken(s, key, k)
    ensures r.Some? && Distinct(s, key) ==> forall i :: 0 <= i < |s| && key(s[i]) == k ==> i == r.value
  {
    if s == [] then None
    else if key(s[0]) == k then Some(0)
    else
      match IndexOf(s[1..], key, k)
      case None =>
        assert !KeyTaken(s, key, k) by {
          forall i | 0 <= i < |s| ensures key(s[i]) != k {
            if i > 0 { assert s[1..][i - 1] == s[i]; }
          }
        }
        None
      case Some(j) =>
        assert s[1..][j] == s[j + 1];
        assert Distinct(s, key) ==> Distinct(s[1..], key) by {
          if Distinct(s, key) {
            forall a, b | 0 <= a < b < |s[1..]| ensures key(s[1..][a]) != key(s[1..][b]) {
              assert s[1..][a] == s[a + 1] && s[1..][b] == s[b + 1];
            }
          }
        }
        assert Distinct(s, key) ==> forall i :: 0 <= i < |s| && key(s[i]) == k ==> i == j + 1 by {
          if Distinct(s, key) {
            forall i | 0 <= i < |s| && key(s[i]) == k ensures i == j + 1 {
              assert i != 0;
              assert s[1..][i - 1] == s[i];
            }
          }
        }
        Some(j + 1)
  }

  /** Every row of a result is on the page its position falls in, and that page exists. */
  lemma OnItsPage<T(!new)>(s: seq<T>, i: nat)
    requires i < |s|
    ensures 1 <= i / PAGE_SIZE + 1 <= PageCount(|s|)
    ensures s[i] in Page(s, i / PAGE_SIZE + 1)
  {
    var k := i / PAGE_SIZE + 1;
    assert (k - 1) * PAGE_SIZE <= i < k * PAGE_SIZE;
    assert Page(s, k)[i - (k - 1) * PAGE_SIZE] == s[i];
  }

  /** No row appears twice in `s`. */
  predicate NoDuplicates<T(==)>(s: seq<T>) {
    forall i, j :: 0 <= i < j < |s| ==> s[i] != s[j]
  }

  /** A table keyed by an auto-increment primary key: keys are distinct, positive and below `next`. */
  predicate KeyedBelow<T>(s: seq<T>, id: T -> nat, next: nat) {
    && Distinct(s, id)
    && (forall i :: 0 <= i < |s| ==> 0 < id(s[i]) < next)
  }

  /** Inserting a row under the next key keeps the table keyed below the bumped counter. */
  lemma InsertNextKey<T>(s: seq<T>, x: T, id: T -> nat, next: nat)
    requires KeyedBelow(s, id, next) && id(x) == next && next > 0
    ensures KeyedBelow(s + [x], id, next + 1)
  {
    assert !KeyTaken(s, id, id(x));
    AppendKeepsDistinct(s, x, id);
  }

  /** Saving a row with a positive key keeps the table keyed below the (possibly raised) counter. */
  lemma UpsertKeyed<T(!new)>(s: seq<T>, x: T, id: T -> nat, next: nat)
    requires KeyedBelow(s, id, next) && id(x) > 0
    ensures KeyedBelow(Upsert(s, x, id), id, if next <= id(x) then id(x) + 1 else next)
  {
    var r := Upsert(s, x, id);
    forall i | 0 <= i < |r| ensures 0 < id(r[i]) < (if next <= id(x) then id(x) + 1 else next) {
      assert r[i] in r;
      if r[i] != x {
        var j :| 0 <= j < |s| && s[j] == r[i];
      }
    }
  }
}
