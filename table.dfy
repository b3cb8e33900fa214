/** What a `SELECT ... WHERE ... ORDER BY ...` over one table means, and the `WHERE id = ?` scan,
    stated once for any row type. */
module Table {
  import opened Wrappers

  /** The rows that satisfy `keep`, in their original order. */
  function Filter<T(!new)>(rows: seq<T>, keep: T -> bool): (r: seq<T>)
    ensures |r| <= |rows|
  {
    if rows == [] then []
    else
      var last := rows[|rows| - 1];
      Filter(rows[..|rows| - 1], keep) + (if keep(last) then [last] else [])
  }

  /** Each row is kept as often as the table holds it when it satisfies `keep`, and never otherwise. */
  lemma {:induction false} FilterCount<T(!new)>(rows: seq<T>, keep: T -> bool, x: T)
    ensures multiset(Filter(rows, keep))[x] == if keep(x) then multiset(rows)[x] else 0
  {
    if rows != [] {
      var last := rows[|rows| - 1];
      assert rows == rows[..|rows| - 1] + [last];
      FilterCount(rows[..|rows| - 1], keep, x);
    }
  }

  /** A row is in the filtered table exactly when it is in the table and satisfies `keep`. */
  lemma FilterMembers<T(!new)>(rows: seq<T>, keep: T -> bool, x: T)
    ensures x in Filter(rows, keep) <==> x in rows && keep(x)
  {
    FilterCount(rows, keep, x);
    assert x in Filter(rows, keep) <==> x in multiset(Filter(rows, keep));
    assert x in rows <==> x in multiset(rows);
  }

  /** A filter that accepts every row keeps the whole table. */
  lemma {:induction false} FilterKeepsAll<T(!new)>(rows: seq<T>, keep: T -> bool)
    requires forall x :: keep(x)
    ensures Filter(rows, keep) == rows
  {
    if rows != [] {
      FilterKeepsAll(rows[..|rows| - 1], keep);
      assert rows == rows[..|rows| - 1] + [rows[|rows| - 1]];
    }
  }

  /** Filtering depends only on which rows `keep` accepts. */
  lemma {:induction false} FilterSameRows<T(!new)>(rows: seq<T>, keep: T -> bool, keep': T -> bool)
    requires forall x :: keep(x) == keep'(x)
    ensures Filter(rows, keep) == Filter(rows, keep')
  {
    if rows != [] {
      FilterSameRows(rows[..|rows| - 1], keep, keep');
    }
  }

  // ---------------------------------------------------------------------------------------------
  // The primary key

  /** Some row of `rows` has the key `id`. */
  ghost predicate HasKey<T>(rows: seq<T>, key: T -> int, id: int) {
    exists i :: 0 <= i < |rows| && key(rows[i]) == id
  }

  /** The keys strictly increase along `rows`: the table's rowid order, and no key twice. */
  ghost predicate KeysAscending<T>(rows: seq<T>, key: T -> int) {
    forall i, j :: 0 <= i < j < |rows| ==> key(rows[i]) < key(rows[j])
  }

  /** A table in key order stays in key order without its last row. */
  lemma KeysAscendingInit<T>(rows: seq<T>, key: T -> int)
    requires rows != [] && KeysAscending(rows, key)
    ensures KeysAscending(rows[..|rows| - 1], key)
  {
    var init := rows[..|rows| - 1];
    forall i, j | 0 <= i < j < |init| ensures key(init[i]) < key(init[j]) {
      assert init[i] == rows[i] && init[j] == rows[j];
    }
  }

  /** `DELETE ... WHERE id = ?`: the rows whose key is not `id`, in their order. */
  function Delete<T(!new)>(rows: seq<T>, key: T -> int, id: int): (r: seq<T>)
    ensures |r| <= |rows|
  {
    if rows == [] then []
    else
      var last := rows[|rows| - 1];
      Delete(rows[..|rows| - 1], key, id) + (if key(last) != id then [last] else [])
  }

  /** A row survives the delete exactly when it is in the table and its key is not `id`. */
  lemma {:induction false} DeleteMembers<T(!new)>(rows: seq<T>, key: T -> int, id: int, x: T)
    ensures x in Delete(rows, key, id) <==> x in rows && key(x) != id
  {
    if rows != [] {
      var init, last := rows[..|rows| - 1], rows[|rows| - 1];
      DeleteMembers(init, key, id, x);
      assert rows == init + [last];
    }
  }

  /** Deleting a key no row has leaves the table as it is. */
  lemma {:induction false} DeleteAbsent<T(!new)>(rows: seq<T>, key: T -> int, id: int)
    requires !HasKey(rows, key, id)
    ensures Delete(rows, key, id) == rows
  {
    if rows != [] {
      var init := rows[..|rows| - 1];
      assert !HasKey(init, key, id) by {
        forall i | 0 <= i < |init| ensures key(init[i]) != id {
          assert init[i] == rows[i];
        }
      }
      DeleteAbsent(init, key, id);
      assert key(rows[|rows| - 1]) != id;
      assert rows == rows[..|rows| - 1] + [rows[|rows| - 1]];
    }
  }

  /** Deleting from a table in key order leaves it in key order. */
  lemma {:induction false} DeleteKeepsKeysAscending<T(!new)>(rows: seq<T>, key: T -> int, id: int)
    requires KeysAscending(rows, key)
    ensures KeysAscending(Delete(rows, key, id), key)
  {
    if rows != [] {
      var init, last := rows[..|rows| - 1], rows[|rows| - 1];
      KeysAscendingInit(rows, key);
      DeleteKeepsKeysAscending(init, key, id);
      var d := Delete(init, key, id);
      forall x | x in d ensures key(x) < key(last) {
        DeleteMembers(init, key, id, x);
        var i :| 0 <= i < |init| && init[i] == x;
        assert rows[i] == x;
      }
    }
  }

  /** With every key distinct, one row goes exactly when the key is present. */
  lemma {:induction false} DeleteCount<T(!new)>(rows: seq<T>, key: T -> int, id: int)
    requires KeysAscending(rows, key)
    ensures |Delete(rows, key, id)| == if HasKey(rows, key, id) then |rows| - 1 else |rows|
  {
    if rows != [] {
      var init, last := rows[..|rows| - 1], rows[|rows| - 1];
      KeysAscendingInit(rows, key);
      DeleteCount(init, key, id);
      if key(last) == id {
        assert !HasKey(init, key, id) by {
          forall i | 0 <= i < |init| ensures key(init[i]) != id {
            assert init[i] == rows[i];
          }
        }
        assert HasKey(rows, key, id);
      } else {
        assert HasKey(rows, key, id) <==> HasKey(init, key, id) by {
          if HasKey(rows, key, id) {
            var i :| 0 <= i < |rows| && key(rows[i]) == id;
            assert init[i] == rows[i];
          }
          if HasKey(init, key, id) {
            var i :| 0 <= i < |init| && key(init[i]) == id;
            assert rows[i] == init[i];
          }
        }
      }
    }
  }

  // ---------------------------------------------------------------------------------------------
  // ORDER BY

  /** `s` is in `le` order: every element is `le` every later one. */
  ghost predicate SortedBy<T>(s: seq<T>, le: (T, T) -> bool) {
    forall i, j :: 0 <= i < j < |s| ==> le(s[i], s[j])
  }

  /** `le` is a total preorder, the shape of every ORDER BY key and of a well-behaved
      `Comparator`'s "compares as less or equal". */
  ghost predicate TotalPreorder<T(!new)>(le: (T, T) -> bool) {
    && (forall a, b :: le(a, b) || le(b, a))
    && (forall a, b, c :: le(a, b) && le(b, c) ==> le(a, c))
  }

  /** An element `le` both `x` and every element of `rest` is `le` every element of any
      rearrangement of `rest` with `x` added. */
  lemma LeAllRearranged<T>(h: T, x: T, rest: seq<T>, tail: seq<T>, le: (T, T) -> bool)
    requires le(h, x)
    requires forall j :: 0 <= j < |rest| ==> le(h, rest[j])
    requires multiset(tail) == multiset(rest) + multiset{x}
    ensures forall j :: 0 <= j < |tail| ==> le(h, tail[j])
  {
    forall j | 0 <= j < |tail| ensures le(h, tail[j]) {
      assert tail[j] in multiset(tail);
      if tail[j] != x {
        assert tail[j] in multiset(rest);
        var k :| 0 <= k < |rest| && rest[k] == tail[j];
      }
    }
  }

  /** `x` placed into the sorted `s` just before the first element it is `le`. */
  function Insert<T(!new)>(x: T, s: seq<T>, le: (T, T) -> bool): (r: seq<T>)
    requires TotalPreorder(le) && SortedBy(s, le)
    ensures SortedBy(r, le)
    ensures multiset(r) == multiset(s) + multiset{x}
  {
    if s == [] || le(x, s[0]) then
      assert forall j :: 0 < j < |s| ==> le(s[0], s[j]);
      [x] + s
    else
      var tail := Insert(x, s[1..], le);
      assert s == [s[0]] + s[1..];
      LeAllRearranged(s[0], x, s[1..], tail, le);
      [s[0]] + tail
  }

  /** The rows of `s` rearranged into `le` order, by insertion. */
  function SortBy<T(!new)>(s: seq<T>, le: (T, T) -> bool): (r: seq<T>)
    requires TotalPreorder(le)
    ensures SortedBy(r, le)
    ensures multiset(r) == multiset(s)
  {
    if s == [] then []
    else
      assert s == [s[0]] + s[1..];
      Insert(s[0], SortBy(s[1..], le), le)
  }

  /** One more row of the table adds that row to the filtered rows when it satisfies `keep`. */
  lemma FilterStep<T(!new)>(rows: seq<T>, keep: T -> bool, i: int)
    requires 0 <= i < |rows|
    ensures multiset(Filter(rows[..i + 1], keep)) ==
              multiset(Filter(rows[..i], keep)) + if keep(rows[i]) then multiset{rows[i]} else multiset{}
  {
    assert rows[..i + 1][..i] == rows[..i];
  }

  /** The engine's evaluation of `SELECT * FROM rows WHERE keep ORDER BY le` as the Java loop then
      receives it: a scan of the table that files every matching row into its place in the result.
      The result holds exactly the matching rows, as often as the table does, in `le` order; the
      order among rows that `le` ranks equal is not specified. */
  method Select<T(!new)>(rows: seq<T>, keep: T -> bool, le: (T, T) -> bool) returns (result: seq<T>)
    requires TotalPreorder(le)
    ensures SortedBy(result, le)
    ensures multiset(result) == multiset(Filter(rows, keep))
  {
    result := [];
    var i := 0;
    assert rows[..0] == [];
    while i < |rows|
      invariant 0 <= i <= |rows|
      invariant SortedBy(result, le)
      invariant multiset(result) == multiset(Filter(rows[..i], keep))
    {
      FilterStep(rows, keep, i);
      if keep(rows[i]) {
        result := Insert(rows[i], result, le);
      }
      i := i + 1;
    }
    assert rows[..|rows|] == rows;
  }

  /** The `WHERE id = ?` lookup: the position of the first row whose key is `id`, if any. */
  method Find<T>(rows: seq<T>, key: T -> int, id: int) returns (found: Option<nat>)
    ensures found.None? <==> forall j :: 0 <= j < |rows| ==> key(rows[j]) != id
    ensures found.Some? ==> found.value < |rows| && key(rows[found.value]) == id
    ensures found.Some? ==> forall j :: 0 <= j < found.value ==> key(rows[j]) != id
  {
    var i := 0;
    while i < |rows|
      invariant 0 <= i <= |rows|
      invariant forall j :: 0 <= j < i ==> key(rows[j]) != id
    {
      if key(rows[i]) == id {
        return Some(i);
      }
      i := i + 1;
    }
    return None;
  }
}
