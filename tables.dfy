/** Database tables as sequences of rows in storage order, with the LINQ operators the
    controllers apply to them. */
module Tables {
  import opened Common

  /** A row of a table: its primary key and its other columns. */
  datatype Row<T> = Row(id: Guid, data: T)

  /** No two rows share a primary key. */
  predicate UniqueIds<T>(t: seq<Row<T>>) {
    forall i, j :: 0 <= i < j < |t| ==> t[i].id != t[j].id
  }

  /** Some row has key `id` (`AnyAsync(r => r.Id == id)`). */
  predicate HasId<T>(t: seq<Row<T>>, id: Guid) {
    exists i :: 0 <= i < |t| && t[i].id == id
  }

  /** The position of the first row with key `id` (`FirstOrDefaultAsync(r => r.Id == id)`,
      `FindAsync(id)`), or None when there is none. */
  function IndexOf<T>(t: seq<Row<T>>, id: Guid): (r: Option<nat>)
    ensures r.Some? ==> r.value < |t| && t[r.value].id == id
    ensures r.Some? ==> forall j :: 0 <= j < r.value ==> t[j].id != id
    ensures r.None? <==> !HasId(t, id)
  {
    if t == [] then None
    else if t[0].id == id then Some(0)
    else match IndexOf(t[1..], id)
      case None =>
        assert forall j :: 0 < j < |t| ==> t[j] == t[1..][j - 1];
        None
      case Some(k) => Some(k + 1)
  }

  /** With unique keys, the row at position `i` is the one `IndexOf` finds for its key. */
  lemma IndexOfUnique<T>(t: seq<Row<T>>, i: nat)
    requires UniqueIds(t) && i < |t|
    ensures IndexOf(t, t[i].id) == Some(i)
  {
  }

  /** Appending a row keeps every key that was there. */
  lemma HasIdAppend<T>(t: seq<Row<T>>, x: Row<T>)
    ensures forall id :: HasId(t, id) ==> HasId(t + [x], id)
  {
    forall id | HasId(t, id) ensures HasId(t + [x], id) {
      var i :| 0 <= i < |t| && t[i].id == id;
      assert (t + [x])[i] == t[i];
    }
  }

  /** Appending a row under a fresh key keeps keys unique. */
  lemma UniqueIdsAppend<T>(t: seq<Row<T>>, x: Row<T>)
    requires UniqueIds(t) && !HasId(t, x.id)
    ensures UniqueIds(t + [x])
  {
  }

  /** A row appended under a fresh key is the one found for that key. */
  lemma {:induction false} IndexOfAppended<T>(t: seq<Row<T>>, x: Row<T>)
    requires !HasId(t, x.id)
    ensures IndexOf(t + [x], x.id) == Some(|t|)
  {
    if t != [] {
      assert (t + [x])[1..] == t[1..] + [x];
      IndexOfAppended(t[1..], x);
    }
  }

  /** `Remove` of the row at position `i`. */
  function RemoveAt<T>(t: seq<T>, i: nat): seq<T>
    requires i < |t|
  {
    t[..i] + t[i + 1..]
  }

  /** Removing the row at position `i` from a table with unique keys removes exactly the
      row with that key and keeps the keys unique. */
  lemma RemoveAtExactly<T>(t: seq<Row<T>>, i: nat)
    requires UniqueIds(t) && i < |t|
    ensures UniqueIds(RemoveAt(t, i))
    ensures forall k :: 0 <= k < |RemoveAt(t, i)| ==> RemoveAt(t, i)[k] in t && RemoveAt(t, i)[k].id != t[i].id
    ensures forall k :: 0 <= k < |t| && t[k].id != t[i].id ==> t[k] in RemoveAt(t, i)
  {
    var r := RemoveAt(t, i);
    assert forall k :: 0 <= k < |r| ==> r[k] == if k < i then t[k] else t[k + 1];
    forall k | 0 <= k < |t| && t[k].id != t[i].id
      ensures t[k] in r
    {
      if k < i { assert r[k] == t[k]; } else { assert r[k - 1] == t[k]; }
    }
  }

  /** `Where(p)`: the rows satisfying `p`, in their original order. */
  function Filter<T>(s: seq<T>, p: T -> bool): (r: seq<T>)
    ensures |r| <= |s|
    ensures forall i :: 0 <= i < |r| ==> r[i] in s && p(r[i])
    ensures forall i :: 0 <= i < |s| && p(s[i]) ==> s[i] in r
  {
    if s == [] then [] else (if p(s[0]) then [s[0]] else []) + Filter(s[1..], p)
  }

  /** An element that passes the filter is kept. */
  lemma FilterKeeps<T>(s: seq<T>, p: T -> bool, x: T)
    requires x in s && p(x)
    ensures x in Filter(s, p)
  {
    var k :| 0 <= k < |s| && s[k] == x;
  }

  /** Filtering keeps the keys unique. */
  lemma {:induction false} FilterUniqueIds<T>(t: seq<Row<T>>, p: Row<T> -> bool)
    requires UniqueIds(t)
    ensures UniqueIds(Filter(t, p))
  {
    if t != [] {
      FilterUniqueIds(t[1..], p);
      var rest := Filter(t[1..], p);
      forall x | x in rest ensures x.id != t[0].id {
        var k :| 0 <= k < |t[1..]| && t[1..][k] == x;
        assert t[k + 1] == x;
      }
      var r := Filter(t, p);
      assert r == (if p(t[0]) then [t[0]] else []) + rest;
    }
  }

  /** `ok` holds of every pair of rows, taken in table order. */
  predicate Pairwise<T>(s: seq<T>, ok: (T, T) -> bool) {
    forall i, j :: 0 <= i < j < |s| ==> ok(s[i], s[j])
  }

  /** Filtering keeps a pairwise property. */
  lemma {:induction false} FilterPairwise<T>(s: seq<T>, p: T -> bool, ok: (T, T) -> bool)
    requires Pairwise(s, ok)
    ensures Pairwise(Filter(s, p), ok)
  {
    if s != [] {
      FilterPairwise(s[1..], p, ok);
      var rest := Filter(s[1..], p);
      forall x | x in rest ensures ok(s[0], x) {
        var k :| 0 <= k < |s[1..]| && s[1..][k] == x;
        assert s[k + 1] == x;
      }
      assert Filter(s, p) == (if p(s[0]) then [s[0]] else []) + rest;
    }
  }

  /** Appending a row compatible with every existing one keeps a pairwise property. */
  lemma PairwiseAppend<T>(s: seq<T>, x: T, ok: (T, T) -> bool)
    requires Pairwise(s, ok)
    requires forall k :: 0 <= k < |s| ==> ok(s[k], x)
    ensures Pairwise(s + [x], ok)
  {
  }

  /** Removing a row keeps a pairwise property. */
  lemma PairwiseRemoveAt<T>(s: seq<T>, i: nat, ok: (T, T) -> bool)
    requires Pairwise(s, ok) && i < |s|
    ensures Pairwise(RemoveAt(s, i), ok)
  {
    var r := RemoveAt(s, i);
    assert forall k :: 0 <= k < |r| ==> r[k] == if k < i then s[k] else s[k + 1];
  }

  /** Overwriting a row with one compatible with all the others keeps a pairwise property. */
  /** Overwriting a row with one under the same key keeps every key present. */
  lemma HasIdUpdate<T>(t: seq<Row<T>>, i: nat, x: Row<T>)
    requires i < |t| && x.id == t[i].id
    ensures forall id :: HasId(t, id) ==> HasId(t[i := x], id)
  {
    forall id | HasId(t, id) ensures HasId(t[i := x], id) {
      var j :| 0 <= j < |t| && t[j].id == id;
      assert t[i := x][j].id == id;
    }
  }

  lemma PairwiseUpdate<T>(s: seq<T>, i: nat, x: T, ok: (T, T) -> bool)
    requires Pairwise(s, ok) && i < |s|
    requires forall k :: 0 <= k < |s| && k != i ==> ok(s[k], x) && ok(x, s[k])
    ensures Pairwise(s[i := x], ok)
  {
  }

  /** The position of the first element satisfying `p` (`FirstOrDefault(p)`). */
  function FirstIndex<T>(s: seq<T>, p: T -> bool): (r: Option<nat>)
    ensures r.Some? ==> r.value < |s| && p(s[r.value])
    ensures r.Some? ==> forall j :: 0 <= j < r.value ==> !p(s[j])
    ensures r.None? ==> forall j :: 0 <= j < |s| ==> !p(s[j])
  {
    if s == [] then None
    else if p(s[0]) then Some(0)
    else match FirstIndex(s[1..], p)
      case None =>
        assert forall j :: 0 < j < |s| ==> s[j] == s[1..][j - 1];
        None
      case Some(k) => Some(k + 1)
  }

  /** The keys of the rows, in table order (`Select(r => r.Id)`). */
  function IdsOf<T>(t: seq<Row<T>>): (r: seq<Guid>)
    ensures |r| == |t| && forall k :: 0 <= k < |t| ==> r[k] == t[k].id
  {
    seq(|t|, k requires 0 <= k < |t| => t[k].id)
  }

  /** No value occurs twice. */
  predicate NoDuplicates(s: seq<Guid>) {
    forall i, j :: 0 <= i < j < |s| ==> s[i] != s[j]
  }

  /** The values of `s`, as a set. */
  ghost function Elems(s: seq<Guid>): set<Guid> {
    set x | x in s
  }

  /** The keys of a table, as a set. */
  ghost function KeySet<T>(t: seq<Row<T>>): set<Guid> {
    set r | r in t :: r.id
  }

  /** A non-empty sequence has no duplicates exactly when its head is not repeated and its tail has none. */
  lemma NoDuplicatesCons(s: seq<Guid>)
    requires s != []
    ensures NoDuplicates(s) <==> s[0] !in s[1..] && NoDuplicates(s[1..])
  {
    var rest := s[1..];
    if s[0] !in rest && NoDuplicates(rest) {
      forall i, j | 0 <= i < j < |s| ensures s[i] != s[j] {
        assert s[j] == rest[j - 1];
        if i > 0 { assert s[i] == rest[i - 1]; }
      }
    }
    if NoDuplicates(s) {
      forall i, j | 0 <= i < j < |rest| ensures rest[i] != rest[j] {
        assert rest[i] == s[i + 1] && rest[j] == s[j + 1];
      }
    }
  }

  lemma ElemsCons(s: seq<Guid>)
    requires s != []
    ensures Elems(s) == Elems(s[1..]) + {s[0]}
    ensures s[0] in s[1..] <==> s[0] in Elems(s[1..])
  {
    assert s == [s[0]] + s[1..];
  }

  /** A sequence has as many distinct values as elements exactly when it has no duplicates. */
  lemma {:induction false} DistinctCount(s: seq<Guid>)
    ensures |Elems(s)| <= |s|
    ensures |Elems(s)| == |s| <==> NoDuplicates(s)
  {
    if s != [] {
      var rest := s[1..];
      DistinctCount(rest);
      ElemsCons(s);
      NoDuplicatesCons(s);
      if s[0] in rest {
        assert Elems(s) == Elems(rest);
      } else {
        assert |Elems(s)| == |Elems(rest)| + 1;
      }
    }
  }

  /** With unique keys, a table has as many keys as rows. */
  lemma {:induction false} KeyCount<T>(t: seq<Row<T>>)
    requires UniqueIds(t)
    ensures |KeySet(t)| == |t|
  {
    if t != [] {
      var rest := t[1..];
      KeyCount(rest);
      var all, others := KeySet(t), KeySet(rest);
      assert t == [t[0]] + rest;
      assert all == others + {t[0].id};
      assert t[0].id !in others;
      assert |all| == |others| + 1;
    }
  }

  /** A subset is no larger than its superset, and as large only when it is the whole superset. */
  lemma SubsetSize(a: set<Guid>, b: set<Guid>)
    requires a <= b
    ensures |a| <= |b|
    ensures |a| == |b| ==> a == b
  {
    var rest := b - a;
    assert b == a + rest && a * rest == {};
    assert |b| == |a| + |rest|;
    if |a| == |b| {
      assert |rest| == 0;
    }
  }

  /** `Take(n)`: the first `n` rows, or all of them when there are fewer. */
  function Take<T>(s: seq<T>, n: nat): (r: seq<T>)
    ensures |r| == if |s| <= n then |s| else n
    ensures r <= s
  {
    if |s| <= n then s else s[..n]
  }

  /** `Select(f)`: `f` applied to each row, in order. */
  function Select<T, U>(s: seq<T>, f: T -> U): (r: seq<U>)
    ensures |r| == |s| && forall i :: 0 <= i < |s| ==> r[i] == f(s[i])
  {
    seq(|s|, i requires 0 <= i < |s| => f(s[i]))
  }

  /** The image of every element is selected. */
  lemma SelectKeeps<T, U>(s: seq<T>, f: T -> U, x: T)
    requires x in s
    ensures f(x) in Select(s, f)
  {
    var k :| 0 <= k < |s| && s[k] == x;
    assert Select(s, f)[k] == f(x);
  }
}
