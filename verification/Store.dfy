/**
 The results table: rows under ids that are never given out twice, listed newest first.
 The SQL engine is not part of this model; a query's ORDER BY is the sorted permutation.
 */
module Store {
  import opened Wrappers
  import opened Sorting

  // One stored measurement; `data` stands for the columns no operation here looks at.
  datatype Row = Row(id: int, createdAt: int, data: string)

  // ORDER BY created_at DESC, id DESC
  predicate NotAfter(a: Row, b: Row) {
    a.createdAt > b.createdAt || (a.createdAt == b.createdAt && a.id >= b.id)
  }

  function NewestFirst(rows: seq<Row>): (r: seq<Row>)
    ensures multiset(r) == multiset(rows) && |r| == |rows|
  {
    Sort(NotAfter, rows)
  }

  ghost predicate DistinctIds(rows: seq<Row>) {
    forall i, j :: 0 <= i < j < |rows| ==> rows[i].id != rows[j].id
  }

  lemma DistinctRowsRanked(rows: seq<Row>)
    requires DistinctIds(rows)
    ensures Ordering(NotAfter) && Ranked(NotAfter, rows)
  {
    forall x, y | x in rows && y in rows && NotAfter(x, y) && NotAfter(y, x)
      ensures x == y
    {
      var i :| 0 <= i < |rows| && rows[i] == x;
      var j :| 0 <= j < |rows| && rows[j] == y;
    }
  }

  // LIMIT and OFFSET
  function Slice(s: seq<Row>, limit: nat, offset: nat): seq<Row> {
    s[Min(offset, |s|)..Min(offset + limit, |s|)]
  }

  function Keep(rows: seq<Row>, cutoff: int): (r: seq<Row>)
    ensures |r| <= |rows|
  {
    if rows == [] then []
    else (if rows[0].createdAt < cutoff then [] else [rows[0]]) + Keep(rows[1..], cutoff)
  }

  function Drop(rows: seq<Row>, id: int): (r: seq<Row>)
    ensures |r| <= |rows|
  {
    if rows == [] then []
    else (if rows[0].id == id then [] else [rows[0]]) + Drop(rows[1..], id)
  }

  lemma {:induction false} KeepCounts(rows: seq<Row>, cutoff: int, x: Row)
    ensures multiset(Keep(rows, cutoff))[x] == if x.createdAt < cutoff then 0 else multiset(rows)[x]
  {
    if rows != [] {
      assert rows == [rows[0]] + rows[1..];
      KeepCounts(rows[1..], cutoff, x);
    }
  }

  lemma SplitFirst(rows: seq<Row>)
    requires rows != [] && DistinctIds(rows)
    ensures DistinctIds(rows[1..]) && forall x :: x in rows[1..] ==> x in rows && x.id != rows[0].id
    ensures forall x :: x in rows ==> x == rows[0] || x in rows[1..]
  {
  }

  lemma NewestFirstDistinct(rows: seq<Row>, i: nat, j: nat)
    requires DistinctIds(rows) && i < j < |rows|
    ensures NewestFirst(rows)[i] != NewestFirst(rows)[j]
  {
    var s := NewestFirst(rows);
    if s[i] == s[j] {
      assert s == s[..i] + [s[i]] + s[i + 1..j] + [s[j]] + s[j + 1..];
      assert multiset(rows)[s[i]] >= 2;
      OnlyOnce(rows, s[i]);
    }
  }

  lemma {:induction false} OnlyOnce(rows: seq<Row>, x: Row)
    requires DistinctIds(rows)
    ensures multiset(rows)[x] <= 1
  {
    if rows != [] {
      assert rows == [rows[0]] + rows[1..];
      SplitFirst(rows);
      OnlyOnce(rows[1..], x);
      assert rows[0] !in multiset(rows[1..]);
    }
  }

  // Later rows come first, and of two rows saved at one moment the one with the higher id.
  lemma NewestFirstOrder(rows: seq<Row>, i: nat, j: nat)
    requires DistinctIds(rows) && i < j < |rows|
    ensures var a, b := NewestFirst(rows)[i], NewestFirst(rows)[j];
            a.createdAt > b.createdAt || (a.createdAt == b.createdAt && a.id > b.id)
  {
    var s := NewestFirst(rows);
    DistinctRowsRanked(rows);
    SortSorts(NotAfter, rows);
    NewestFirstDistinct(rows, i, j);
    hide NewestFirst;
    assert NotAfter(s[i], s[j]);
    assert s[i] in multiset(rows) && s[j] in multiset(rows);
    OneRowAnId(rows, s[i], s[j]);
  }

  lemma OneRowAnId(rows: seq<Row>, x: Row, y: Row)
    requires DistinctIds(rows) && x in rows && y in rows && x != y
    ensures x.id != y.id
  {
    var i :| 0 <= i < |rows| && rows[i] == x;
    var j :| 0 <= j < |rows| && rows[j] == y;
  }

  lemma JoinFirst(x: Row, rows: seq<Row>)
    requires DistinctIds(rows) && forall y :: y in rows ==> y.id != x.id
    ensures DistinctIds([x] + rows)
  {
  }

  lemma {:induction false} KeepIsSubsequence(rows: seq<Row>, cutoff: int)
    requires DistinctIds(rows)
    ensures DistinctIds(Keep(rows, cutoff))
    ensures forall x :: x in Keep(rows, cutoff) <==> x in rows && x.createdAt >= cutoff
  {
    if rows != [] {
      hide DistinctIds;
      SplitFirst(rows);
      KeepIsSubsequence(rows[1..], cutoff);
      JoinFirst(rows[0], Keep(rows[1..], cutoff));
    }
  }

  lemma {:induction false} DropIsSubsequence(rows: seq<Row>, id: int)
    requires DistinctIds(rows)
    ensures DistinctIds(Drop(rows, id))
    ensures forall x :: x in Drop(rows, id) <==> x in rows && x.id != id
  {
    if rows != [] {
      hide DistinctIds;
      SplitFirst(rows);
      DropIsSubsequence(rows[1..], id);
      JoinFirst(rows[0], Drop(rows[1..], id));
    }
  }

  // Saving a row no older than any other puts it at the head of the list.
  lemma SavedRowComesFirst(rows: seq<Row>, row: Row)
    requires DistinctIds(rows + [row])
    requires forall x :: x in rows ==> NotAfter(row, x)
    ensures NewestFirst(rows + [row]) == [row] + NewestFirst(rows)
  {
    DistinctRowsRanked(rows + [row]);
    SortSorts(NotAfter, rows);
    var b := [row] + NewestFirst(rows);
    forall j | 0 <= j < |rows|
      ensures NotAfter(row, NewestFirst(rows)[j])
    {
      assert NewestFirst(rows)[j] in multiset(rows);
    }
    SortIsCanonical(NotAfter, rows + [row], b);
  }

  lemma HeadCounts(head: seq<Row>, tail: seq<Row>, cutoff: int, x: Row)
    requires (forall r :: r in head ==> r.createdAt >= cutoff) && forall r :: r in tail ==> r.createdAt < cutoff
    ensures multiset(head)[x] == if x.createdAt < cutoff then 0 else multiset(head + tail)[x]
  {
    assert x in multiset(tail) ==> x in tail;
    assert x in multiset(head) ==> x in head;
  }

  lemma KeepIsHead(rows: seq<Row>, s: seq<Row>, cutoff: int, k: nat)
    requires multiset(s) == multiset(rows) && k <= |s|
    requires (forall x :: x in s[..k] ==> x.createdAt >= cutoff) && forall x :: x in s[k..] ==> x.createdAt < cutoff
    ensures multiset(Keep(rows, cutoff)) == multiset(s[..k])
  {
    hide Keep;
    assert s == s[..k] + s[k..];
    forall x: Row
      ensures multiset(Keep(rows, cutoff))[x] == multiset(s[..k])[x]
    {
      KeepCounts(rows, cutoff, x);
      HeadCounts(s[..k], s[k..], cutoff, x);
    }
  }

  // Pruning cuts the tail off the newest-first list, exactly the rows older than the cutoff.
  lemma PruneCutsTail(rows: seq<Row>, cutoff: int)
    requires DistinctIds(rows)
    ensures var k := |Keep(rows, cutoff)|;
            && NewestFirst(Keep(rows, cutoff)) == NewestFirst(rows)[..k]
            && (forall x :: x in NewestFirst(rows)[k..] ==> x.createdAt < cutoff)
            && (forall x :: x in NewestFirst(rows)[..k] ==> x.createdAt >= cutoff)
  {
    hide Keep, NotAfter;
    var s := NewestFirst(rows);
    DistinctRowsRanked(rows);
    SortSorts(NotAfter, rows);
    var k := SplitAt(s, cutoff);
    KeepIsHead(rows, s, cutoff, k);
    assert |Keep(rows, cutoff)| == |multiset(Keep(rows, cutoff))| == |multiset(s[..k])| == k;
    KeepIsSubsequence(rows, cutoff);
    DistinctRowsRanked(Keep(rows, cutoff));
    SortIsCanonical(NotAfter, Keep(rows, cutoff), s[..k]);
  }

  lemma SplitAt(s: seq<Row>, cutoff: int) returns (k: nat)
    requires Sorted(NotAfter, s)
    ensures k <= |s|
    ensures forall x :: x in s[..k] ==> x.createdAt >= cutoff
    ensures forall x :: x in s[k..] ==> x.createdAt < cutoff
  {
    k := 0;
    while k < |s| && s[k].createdAt >= cutoff
      invariant k <= |s|
      invariant forall i :: 0 <= i < k ==> s[i].createdAt >= cutoff
    {
      k := k + 1;
    }
    assert forall i :: k < i < |s| ==> NotAfter(s[k], s[i]);
  }

  class Table {
    var rows: seq<Row>
    var lastId: nat

    ghost predicate Valid()
      reads this
    {
      && DistinctIds(rows)
      && forall r :: r in rows ==> 1 <= r.id <= lastId
    }

    constructor ()
      ensures Valid() && rows == []
    {
      rows, lastId := [], 0;
    }

    // AUTOINCREMENT: the new id is above every id ever used.  A zero created_at is now.
    method Save(createdAt: int, now: int, data: string) returns (saved: Row)
      requires Valid()
      modifies this
      ensures Valid()
      ensures saved == Row(old(lastId) + 1, if createdAt == 0 then now else createdAt, data)
      ensures rows == old(rows) + [saved] && lastId == saved.id
    {
      saved := Row(lastId + 1, if createdAt == 0 then now else createdAt, data);
      rows, lastId := rows + [saved], lastId + 1;
    }

    method List(limit: int, offset: int) returns (r: Option<seq<Row>>)
      requires Valid()
      ensures r.None? <==> limit <= 0
      ensures r.Some? ==> r.value == Slice(NewestFirst(rows), limit, if offset < 0 then 0 else offset)
      ensures r.Some? ==> var from := if offset < 0 then 0 else offset;
                          && |r.value| == Max(0, Min(limit, |rows| - from))
                          && forall k :: 0 <= k < |r.value| ==> r.value[k] == NewestFirst(rows)[from + k]
    {
      if limit <= 0 {
        return None;
      }
      var from := if offset < 0 then 0 else offset;
      r := Some(Slice(NewestFirst(rows), limit, from));
    }

    method Count() returns (n: nat)
      ensures n == |rows|
    {
      n := |rows|;
    }

    method Delete(id: int) returns (removed: bool)
      requires Valid()
      modifies this
      ensures Valid() && lastId == old(lastId)
      ensures removed <==> exists x :: x in old(rows) && x.id == id
      ensures forall x :: x in rows <==> x in old(rows) && x.id != id
      ensures rows == Drop(old(rows), id)
    {
      DropIsSubsequence(rows, id);
      var kept := Drop(rows, id);
      ghost var was := rows;
      removed := |kept| < |rows|;
      DropLength(rows, id);
      rows := kept;
    }

    method PruneOlderThan(cutoff: int) returns (removed: nat)
      requires Valid()
      modifies this
      ensures Valid() && lastId == old(lastId)
      ensures rows == if cutoff <= 0 then old(rows) else Keep(old(rows), cutoff)
      ensures removed == |old(rows)| - |rows|
    {
      if cutoff <= 0 {
        return 0;
      }
      KeepIsSubsequence(rows, cutoff);
      var kept := Keep(rows, cutoff);
      removed := |rows| - |kept|;
      rows := kept;
    }
  }

  lemma {:induction false} DropLength(rows: seq<Row>, id: int)
    ensures |Drop(rows, id)| < |rows| <==> exists x :: x in rows && x.id == id
  {
    if rows != [] {
      DropLength(rows[1..], id);
      assert rows[0] in rows;
      assert forall x :: x in rows[1..] ==> x in rows;
    }
  }
}
