/**
 * Tables of records keyed by a surrogate integer id, with the three statements the store issues
 * on them: SELECT ... WHERE id=?, UPDATE ... WHERE id=? (full-record replace) and
 * DELETE ... WHERE id=?. Also the order-preserving selection that list comprehensions and
 * append-in-a-loop filters compute.
 */
module Tables {
  import opened Text

  /** One row: the id column and the record's other columns. */
  datatype Row<T> = Row(id: int, data: T)

  /** [x for x in s if p(x)]: the elements of s that satisfy p, in their original order. */
  function Select<T(!new)>(s: seq<T>, p: T -> bool): (r: seq<T>)
    ensures |r| <= |s|
    ensures forall x :: x in r <==> x in s && p(x)
  {
    if s == [] then []
    else (if p(s[0]) then [s[0]] else []) + Select(s[1..], p)
  }

  /** Selecting over s + [x] extends the selection over s by x when x qualifies: the step of a
      loop that appends the qualifying elements one by one. */
  lemma {:induction false} SelectAppend<T(!new)>(s: seq<T>, x: T, p: T -> bool)
    ensures Select(s + [x], p) == Select(s, p) + (if p(x) then [x] else [])
  {
    if s == [] {
      assert [x][1..] == [];
    } else {
      assert (s + [x])[1..] == s[1..] + [x];
      SelectAppend(s[1..], x, p);
    }
  }

  /** A condition every element meets selects the whole sequence. */
  lemma {:induction false} SelectAll<T(!new)>(s: seq<T>, p: T -> bool)
    requires forall x :: x in s ==> p(x)
    ensures Select(s, p) == s
  {
    if s != [] {
      SelectAll(s[1..], p);
      assert s == [s[0]] + s[1..];
    }
  }

  lemma SelectCons<T(!new)>(x: T, s: seq<T>, p: T -> bool)
    ensures Select([x] + s, p) == (if p(x) then [x] else []) + Select(s, p)
  {
    assert ([x] + s)[1..] == s;
  }

  /** Selecting by a conjunction is selecting by one condition, then by the other. */
  lemma {:induction false} SelectConjunction<T(!new)>(s: seq<T>, p: T -> bool, q: T -> bool, pq: T -> bool)
    requires forall x :: pq(x) == (p(x) && q(x))
    ensures Select(s, pq) == Select(Select(s, p), q)
  {
    if s != [] {
      SelectConjunction(s[1..], p, q, pq);
      assert Select(s, pq) == (if pq(s[0]) then [s[0]] else []) + Select(s[1..], pq);
      if p(s[0]) {
        assert Select(s, p) == [s[0]] + Select(s[1..], p);
        SelectCons(s[0], Select(s[1..], p), q);
      } else {
        assert Select(s, p) == Select(s[1..], p);
      }
    }
  }

  /** Selection keeps order: r is s with some elements deleted. */
  predicate IsSubsequence<T(==)>(r: seq<T>, s: seq<T>)
    decreases |s|
  {
    if r == [] then true
    else if s == [] then false
    else if r[0] == s[0] then IsSubsequence(r[1..], s[1..])
    else IsSubsequence(r, s[1..])
  }

  lemma {:induction false} SelectIsSubsequence<T(!new)>(s: seq<T>, p: T -> bool)
    ensures IsSubsequence(Select(s, p), s)
  {
    if s != [] {
      SelectIsSubsequence(s[1..], p);
      if !p(s[0]) {
        assert Select(s, p) == Select(s[1..], p);
        SubsequenceSkip(Select(s[1..], p), s[0], s[1..]);
        assert [s[0]] + s[1..] == s;
      } else {
        var r := Select(s, p);
        assert r == [s[0]] + Select(s[1..], p);
        assert r[0] == s[0] && r[1..] == Select(s[1..], p);
      }
    }
  }

  lemma {:induction false} SubsequenceSkip<T>(r: seq<T>, x: T, s: seq<T>)
    requires IsSubsequence(r, s)
    ensures IsSubsequence(r, [x] + s)
    decreases |s|, 1
  {
    if r != [] && r[0] == x {
      assert ([x] + s)[1..] == s;
      SubsequenceDropFirst(r, s);
    } else if r != [] {
      assert ([x] + s)[1..] == s;
    }
  }

  /** A subsequence of a suffix is a subsequence of the whole. */
  lemma {:induction false} SubsequenceOfSuffix<T>(r: seq<T>, s: seq<T>, n: nat)
    requires n <= |s| && IsSubsequence(r, s[n..])
    ensures IsSubsequence(r, s)
    decreases n
  {
    if n > 0 {
      assert [s[n - 1]] + s[n..] == s[n - 1..];
      SubsequenceSkip(r, s[n - 1], s[n..]);
      SubsequenceOfSuffix(r, s, n - 1);
    } else {
      assert s[n..] == s;
    }
  }

  lemma {:induction false} SubsequenceDropFirst<T>(r: seq<T>, s: seq<T>)
    requires r != [] && IsSubsequence(r, s)
    ensures IsSubsequence(r[1..], s)
    decreases |s|, 0
  {
    if r[0] != s[0] {
      SubsequenceDropFirst(r, s[1..]);
      SubsequenceSkip(r[1..], s[0], s[1..]);
      assert [s[0]] + s[1..] == s;
    } else {
      SubsequenceSkip(r[1..], s[0], s[1..]);
      assert [s[0]] + s[1..] == s;
    }
  }

  // ---------------------------------------------------------------
  //  keyed tables
  // ---------------------------------------------------------------

  /** The table's primary-key constraint. */
  predicate UniqueIds<T>(rows: seq<Row<T>>)
  {
    forall i, j :: 0 <= i < j < |rows| ==> rows[i].id != rows[j].id
  }

  predicate HasId<T>(rows: seq<Row<T>>, id: int)
  {
    exists i :: 0 <= i < |rows| && rows[i].id == id
  }

  /** SELECT ... WHERE id=? with fetchone(): the first row with that id, if any. */
  function Find<T>(rows: seq<Row<T>>, id: int): (r: Option<Row<T>>)
    ensures r.Some? ==> r.value in rows && r.value.id == id
    ensures r.None? <==> !HasId(rows, id)
  {
    if rows == [] then None
    else if rows[0].id == id then Some(rows[0])
    else
      var r := Find(rows[1..], id);
      assert HasId(rows, id) ==> HasId(rows[1..], id) by {
        if HasId(rows, id) {
          var i :| 0 <= i < |rows| && rows[i].id == id;
          assert rows[1..][i - 1].id == id;
        }
      }
      r
  }

  /** UPDATE ... SET <every column> WHERE id=?: each row with that id gets the new columns,
      every other row stays, and the order of the table is kept. */
  function Replace<T>(rows: seq<Row<T>>, id: int, data: T): (r: seq<Row<T>>)
    ensures |r| == |rows|
    ensures forall i :: 0 <= i < |rows| ==> r[i].id == rows[i].id
    ensures forall i :: 0 <= i < |rows| ==> r[i].data == (if rows[i].id == id then data else rows[i].data)
  {
    if rows == [] then []
    else [if rows[0].id == id then Row(id, data) else rows[0]] + Replace(rows[1..], id, data)
  }

  /** DELETE ... WHERE id=? */
  function Remove<T(!new)>(rows: seq<Row<T>>, id: int): seq<Row<T>>
  {
    Select(rows, (r: Row<T>) => r.id != id)
  }

  /** Replacing by a key that occurs once, at index k, rewrites index k alone. */
  lemma ReplaceAt<T>(rows: seq<Row<T>>, k: int, data: T)
    requires UniqueIds(rows) && 0 <= k < |rows|
    ensures Replace(rows, rows[k].id, data) == rows[k := Row(rows[k].id, data)]
  {
  }

  /** After an update, a lookup by the updated id sees the new record (when the id existed)
      and lookups by other ids see what they saw before. */
  lemma {:induction false} FindAfterReplace<T>(rows: seq<Row<T>>, id: int, data: T, other: int)
    ensures Find(Replace(rows, id, data), id) == if HasId(rows, id) then Some(Row(id, data)) else None
    ensures other != id ==> Find(Replace(rows, id, data), other) == Find(rows, other)
  {
    if rows != [] {
      FindAfterReplace(rows[1..], id, data, other);
      var r := Replace(rows, id, data);
      assert r == [if rows[0].id == id then Row(id, data) else rows[0]] + Replace(rows[1..], id, data);
      assert r[1..] == Replace(rows[1..], id, data);
      HasIdTail(rows, id);
    }
  }

  /** Past a first row without the id, the id is present exactly when it is in the rest. */
  lemma HasIdTail<T>(rows: seq<Row<T>>, id: int)
    requires rows != []
    ensures rows[0].id != id ==> (HasId(rows, id) <==> HasId(rows[1..], id))
  {
    if rows[0].id != id {
      if HasId(rows, id) {
        var i :| 0 <= i < |rows| && rows[i].id == id;
        assert rows[1..][i - 1].id == id;
      }
      if HasId(rows[1..], id) {
        var i :| 0 <= i < |rows[1..]| && rows[1..][i].id == id;
        assert rows[i + 1].id == id;
      }
    }
  }

  /** A delete removes exactly the rows with the id, keeps the order of the others, and keeps
      the primary-key constraint. */
  lemma RemoveSpec<T(!new)>(rows: seq<Row<T>>, id: int)
    ensures forall x :: x in Remove(rows, id) <==> x in rows && x.id != id
    ensures IsSubsequence(Remove(rows, id), rows)
    ensures !HasId(Remove(rows, id), id)
    ensures UniqueIds(rows) ==> UniqueIds(Remove(rows, id))
  {
    var p := (r: Row<T>) => r.id != id;
    SelectIsSubsequence(rows, p);
    var r := Remove(rows, id);
    if UniqueIds(rows) {
      SubsequenceUnique(r, rows);
    }
  }

  lemma {:induction false} SubsequenceUnique<T>(r: seq<Row<T>>, s: seq<Row<T>>)
    requires IsSubsequence(r, s) && UniqueIds(s)
    ensures UniqueIds(r)
    decreases |s|
  {
    if r != [] && s != [] {
      if r[0] == s[0] {
        SubsequenceUnique(r[1..], s[1..]);
        forall j | 0 < j < |r| ensures r[0].id != r[j].id {
          SubsequenceMember(r[1..], s[1..], j - 1);
          var k :| 0 <= k < |s[1..]| && s[1..][k] == r[j];
          assert s[k + 1] == r[j];
        }
      } else {
        SubsequenceUnique(r, s[1..]);
      }
    }
  }

  lemma {:induction false} SubsequenceMember<T>(r: seq<T>, s: seq<T>, j: int)
    requires IsSubsequence(r, s) && 0 <= j < |r|
    ensures exists k :: 0 <= k < |s| && s[k] == r[j]
    decreases |s|
  {
    if r[0] == s[0] {
      if j == 0 {
        assert s[0] == r[0];
      } else {
        SubsequenceMember(r[1..], s[1..], j - 1);
        var k :| 0 <= k < |s[1..]| && s[1..][k] == r[1..][j - 1];
        assert s[k + 1] == r[j];
      }
    } else {
      SubsequenceMember(r, s[1..], j);
      var k :| 0 <= k < |s[1..]| && s[1..][k] == r[j];
      assert s[k + 1] == r[j];
    }
  }

  /** An AUTOINCREMENT table: unique ids, every one between 1 and the last id handed out. */
  predicate Keyed<T>(rows: seq<Row<T>>, last: int)
  {
    UniqueIds(rows) && forall i :: 0 <= i < |rows| ==> 1 <= rows[i].id <= last
  }

  /** An insert takes the id after the last one handed out, which no row has. */
  lemma KeyedInsert<T>(rows: seq<Row<T>>, last: int, data: T)
    requires Keyed(rows, last) && last >= 0
    ensures !HasId(rows, last + 1)
    ensures Keyed(rows + [Row(last + 1, data)], last + 1)
  {
  }

  /** Whether a table is keyed depends on its ids alone. */
  lemma KeyedSameIds<S, T>(a: seq<Row<S>>, b: seq<Row<T>>, last: int)
    requires Keyed(a, last)
    requires |a| == |b| && forall i :: 0 <= i < |a| ==> a[i].id == b[i].id
    ensures Keyed(b, last)
  {
  }

  /** A delete keeps a table keyed. */
  lemma RemoveKeyed<T(!new)>(rows: seq<Row<T>>, last: int, id: int)
    requires Keyed(rows, last)
    ensures Keyed(Remove(rows, id), last)
  {
    RemoveSpec(rows, id);
    var r := Remove(rows, id);
    forall i | 0 <= i < |r| ensures 1 <= r[i].id <= last {
      assert r[i] in r;
      var k :| 0 <= k < |rows| && rows[k] == r[i];
    }
  }

  /** After a delete, the ids present are the ids present before except the deleted one. */
  lemma HasIdAfterRemove<T(!new)>(rows: seq<Row<T>>, id: int, x: int)
    ensures HasId(Remove(rows, id), x) <==> HasId(rows, x) && x != id
  {
    RemoveSpec(rows, id);
    var r := Remove(rows, id);
    if HasId(rows, x) && x != id {
      var i :| 0 <= i < |rows| && rows[i].id == x;
      assert rows[i] in r;
      var k :| 0 <= k < |r| && r[k] == rows[i];
    }
    if HasId(r, x) {
      var k :| 0 <= k < |r| && r[k].id == x;
      assert r[k] in r;
    }
  }
}
