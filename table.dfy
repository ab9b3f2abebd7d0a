/** A database table as the routes see it through the ORM: a sequence of
    records in storage order, each with a unique string id, and the
    queries the routes ask of it (find by id, delete by id, filter, order
    by a date key, take the first n). */
module Table {
  import opened Common

  ghost predicate UniqueIds<T>(rows: seq<T>, idOf: T -> string) {
    forall i, j :: 0 <= i < j < |rows| ==> idOf(rows[i]) != idOf(rows[j])
  }

  /** `findUnique({ where: { id } })`, as the position of the record. */
  function Find<T>(rows: seq<T>, idOf: T -> string, id: string): (r: Option<nat>)
    ensures r.Some? ==> r.value < |rows| && idOf(rows[r.value]) == id
    ensures r.None? ==> forall i :: 0 <= i < |rows| ==> idOf(rows[i]) != id
  {
    if rows == [] then None
    else if idOf(rows[0]) == id then Some(0)
    else match Find(rows[1..], idOf, id)
      case None => None
      case Some(k) => Some(k + 1)
  }

  /** With unique ids, the record found is the only one with that id. */
  lemma FindIsOnly<T>(rows: seq<T>, idOf: T -> string, id: string, i: nat)
    requires UniqueIds(rows, idOf)
    requires i < |rows| && idOf(rows[i]) == id
    ensures Find(rows, idOf, id) == Some(i)
  {
  }

  /** `delete({ where: { id } })` of the record at position k. */
  function RemoveAt<T>(rows: seq<T>, k: nat): (r: seq<T>)
    requires k < |rows|
    ensures |r| == |rows| - 1
    ensures multiset(r) + multiset{rows[k]} == multiset(rows)
  {
    assert rows == rows[..k] + [rows[k]] + rows[k + 1..];
    rows[..k] + rows[k + 1..]
  }

  /** The lookup depends only on the ids stored, position by position. */
  lemma {:induction false} FindSeesOnlyIds<T>(a: seq<T>, b: seq<T>, idOf: T -> string, id: string)
    requires |a| == |b|
    requires forall i :: 0 <= i < |a| ==> idOf(a[i]) == idOf(b[i])
    ensures Find(a, idOf, id) == Find(b, idOf, id)
  {
    if a != [] {
      FindSeesOnlyIds(a[1..], b[1..], idOf, id);
    }
  }

  /** Deleting keeps every other record, in order, and only those. */
  lemma {:induction false} RemoveAtKeepsOthers<T>(rows: seq<T>, idOf: T -> string, k: nat)
    requires UniqueIds(rows, idOf)
    requires k < |rows|
    ensures |RemoveAt(rows, k)| == |rows| - 1
    ensures UniqueIds(RemoveAt(rows, k), idOf)
    ensures forall x :: x in RemoveAt(rows, k) <==> x in rows && idOf(x) != idOf(rows[k])
    ensures forall i :: 0 <= i < |rows| - 1 ==> RemoveAt(rows, k)[i] == rows[if i < k then i else i + 1]
  {
    var r := RemoveAt(rows, k);
    assert forall i :: 0 <= i < |r| ==> r[i] == rows[if i < k then i else i + 1];
    forall x | x in rows && idOf(x) != idOf(rows[k]) ensures x in r {
      var j :| 0 <= j < |rows| && rows[j] == x;
      assert r[if j < k then j else j - 1] == x;
    }
  }

  /** The records that satisfy `keep`, in storage order. */
  function Filter<T(!new)>(rows: seq<T>, keep: T -> bool): (r: seq<T>)
    ensures forall i :: 0 <= i < |r| ==> keep(r[i])
    ensures forall x :: multiset(r)[x] == if keep(x) then multiset(rows)[x] else 0
  {
    if rows == [] then []
    else
      assert rows == [rows[0]] + rows[1..];
      if keep(rows[0]) then [rows[0]] + Filter(rows[1..], keep) else Filter(rows[1..], keep)
  }

  predicate InOrder(x: int, y: int, ascending: bool) {
    if ascending then x <= y else y <= x
  }

  /** `orderBy: { key: "asc" }` or `"desc"` holds of s. */
  ghost predicate SortedBy<T>(s: seq<T>, key: T -> int, ascending: bool) {
    forall i, j :: 0 <= i < j < |s| ==> InOrder(key(s[i]), key(s[j]), ascending)
  }

  function Insert<T>(x: T, s: seq<T>, key: T -> int, ascending: bool): seq<T>
  {
    if s == [] || InOrder(key(x), key(s[0]), ascending) then [x] + s
    else [s[0]] + Insert(x, s[1..], key, ascending)
  }

  lemma {:induction false} InsertAddsOne<T>(x: T, s: seq<T>, key: T -> int, ascending: bool)
    ensures multiset(Insert(x, s, key, ascending)) == multiset(s) + multiset{x}
  {
    if s != [] && !InOrder(key(x), key(s[0]), ascending) {
      InsertAddsOne(x, s[1..], key, ascending);
      assert s == [s[0]] + s[1..];
    }
  }

  lemma {:induction false} InsertKeepsOrder<T>(x: T, s: seq<T>, key: T -> int, ascending: bool)
    requires SortedBy(s, key, ascending)
    ensures SortedBy(Insert(x, s, key, ascending), key, ascending)
  {
    if s != [] && !InOrder(key(x), key(s[0]), ascending) {
      var rest := Insert(x, s[1..], key, ascending);
      InsertKeepsOrder(x, s[1..], key, ascending);
      InsertAddsOne(x, s[1..], key, ascending);
      forall i | 0 <= i < |rest| ensures InOrder(key(s[0]), key(rest[i]), ascending) {
        assert rest[i] in multiset(rest);
        if rest[i] != x {
          assert rest[i] in multiset(s[1..]);
          var j :| 0 <= j < |s[1..]| && s[1..][j] == rest[i];
          assert s[j + 1] == rest[i];
        }
      }
    }
  }

  /** The records of s ordered by key; records with equal keys, whose order
      the database leaves open, keep their storage order. */
  function SortBy<T>(s: seq<T>, key: T -> int, ascending: bool): seq<T>
  {
    if s == [] then [] else Insert(s[0], SortBy(s[1..], key, ascending), key, ascending)
  }

  /** Ordering returns the same records, each as often as stored, in key
      order. */
  lemma {:induction false} SortByOrders<T>(s: seq<T>, key: T -> int, ascending: bool)
    ensures SortedBy(SortBy(s, key, ascending), key, ascending)
    ensures multiset(SortBy(s, key, ascending)) == multiset(s)
  {
    if s != [] {
      SortByOrders(s[1..], key, ascending);
      InsertKeepsOrder(s[0], SortBy(s[1..], key, ascending), key, ascending);
      InsertAddsOne(s[0], SortBy(s[1..], key, ascending), key, ascending);
      assert s == [s[0]] + s[1..];
    }
  }

  /** `take: n` when a cap is given, everything otherwise. */
  function Take<T>(s: seq<T>, cap: Option<nat>): (r: seq<T>)
    ensures cap.Some? ==> |r| <= cap.value
    ensures cap.None? ==> r == s
    ensures |r| <= |s| && r == s[..|r|]
    ensures cap.Some? && cap.value <= |s| ==> |r| == cap.value
    ensures cap.Some? && cap.value > |s| ==> r == s
  {
    if cap.Some? && cap.value < |s| then s[..cap.value] else s
  }

  /** `findMany({ where, orderBy, take })`. */
  function FindMany<T(!new)>(rows: seq<T>, keep: T -> bool, key: T -> int, ascending: bool, cap: Option<nat>): seq<T>
  {
    Take(SortBy(Filter(rows, keep), key, ascending), cap)
  }

  /** What `findMany` returns: stored records that match, in key order,
      at most `cap` of them, and with no cap every matching record exactly
      as often as it is stored; a capped result is the front of the
      uncapped one. */
  lemma FindManyMeetsQuery<T(!new)>(rows: seq<T>, keep: T -> bool, key: T -> int, ascending: bool, cap: Option<nat>)
    ensures var r := FindMany(rows, keep, key, ascending, cap);
      && (forall i :: 0 <= i < |r| ==> keep(r[i]) && r[i] in rows)
      && SortedBy(r, key, ascending)
      && (cap.Some? ==> |r| <= cap.value)
      && (cap.Some? ==>
            |r| == if cap.value <= |FindMany(rows, keep, key, ascending, None)|
                   then cap.value else |FindMany(rows, keep, key, ascending, None)|)
      && (cap.None? ==> forall x :: multiset(r)[x] == if keep(x) then multiset(rows)[x] else 0)
      && r == FindMany(rows, keep, key, ascending, None)[..|r|]
  {
    var matching := Filter(rows, keep);
    var sorted := SortBy(matching, key, ascending);
    SortByOrders(matching, key, ascending);
    var r := Take(sorted, cap);
    assert r == FindMany(rows, keep, key, ascending, cap);
    forall i | 0 <= i < |r| ensures keep(r[i]) && r[i] in rows {
      assert r[i] == sorted[i];
      assert sorted[i] in multiset(sorted);
      assert multiset(matching)[r[i]] > 0;
    }
  }

  /** With no cap, `findMany` returns every matching record exactly as
      often as it is stored, and nothing else. */
  lemma FindManyComplete<T(!new)>(rows: seq<T>, keep: T -> bool, key: T -> int, ascending: bool)
    ensures forall x :: multiset(FindMany(rows, keep, key, ascending, None))[x] == if keep(x) then multiset(rows)[x] else 0
  {
    SortByOrders(Filter(rows, keep), key, ascending);
  }

  /** When at most one stored record can match, `findMany` returns at most
      one record, whatever the order and the cap. */
  lemma FindManyAtMostOne<T(!new)>(rows: seq<T>, keep: T -> bool, key: T -> int, ascending: bool, cap: Option<nat>)
    requires forall i, j :: 0 <= i < |rows| && 0 <= j < |rows| && keep(rows[i]) && keep(rows[j]) ==> i == j
    ensures |FindMany(rows, keep, key, ascending, cap)| <= 1
  {
    FilterAtMostOne(rows, keep);
    var matching := Filter(rows, keep);
    SortByOrders(matching, key, ascending);
    assert |multiset(SortBy(matching, key, ascending))| == |multiset(matching)|;
  }

  lemma {:induction false} FilterAtMostOne<T(!new)>(rows: seq<T>, keep: T -> bool)
    requires forall i, j :: 0 <= i < |rows| && 0 <= j < |rows| && keep(rows[i]) && keep(rows[j]) ==> i == j
    ensures |Filter(rows, keep)| <= 1
  {
    if rows != [] {
      var tail := rows[1..];
      assert forall i, j :: 0 <= i < |tail| && 0 <= j < |tail| && keep(tail[i]) && keep(tail[j]) ==> i == j by {
        forall i, j | 0 <= i < |tail| && 0 <= j < |tail| && keep(tail[i]) && keep(tail[j]) ensures i == j {
          assert tail[i] == rows[i + 1] && tail[j] == rows[j + 1];
        }
      }
      FilterAtMostOne(tail, keep);
      if keep(rows[0]) {
        assert forall j :: 0 <= j < |tail| ==> !keep(tail[j]) by {
          forall j | 0 <= j < |tail| ensures !keep(tail[j]) { assert tail[j] == rows[j + 1]; }
        }
        var rest := Filter(tail, keep);
        forall x ensures multiset(rest)[x] == 0 {
          if x in tail {
            var j :| 0 <= j < |tail| && tail[j] == x;
            assert !keep(x);
          }
        }
        assert multiset(rest) == multiset{};
      }
    }
  }
}
