/** Operations on a table stored as the sequence of its rows in storage order:
    the row-level meaning of SQL `WHERE`, lookups by primary key, `COUNT(*)`. */
module Tables {
  import opened Wrappers

  /** The rows satisfying `p`, in storage order (a `WHERE` clause). */
  function Filter<T>(s: seq<T>, p: T -> bool): (r: seq<T>)
    ensures |r| <= |s|
  {
    if s == [] then []
    else if p(s[0]) then [s[0]] + Filter(s[1..], p) else Filter(s[1..], p)
  }

  /** `Filter` keeps exactly the elements that satisfy `p`. */
  lemma {:induction false} FilterIn<T>(s: seq<T>, p: T -> bool)
    ensures forall i :: 0 <= i < |Filter(s, p)| ==> p(Filter(s, p)[i])
    ensures forall x :: x in Filter(s, p) <==> x in s && p(x)
  {
    if s != [] {
      assert s == [s[0]] + s[1..];
      FilterIn(s[1..], p);
    }
  }

  /** Filtering a table with one more row at its end filters that row alone. */
  lemma {:induction false} FilterAgregar<T>(s: seq<T>, x: T, p: T -> bool)
    ensures Filter(s + [x], p) == Filter(s, p) + (if p(x) then [x] else [])
  {
    if s != [] {
      assert (s + [x])[1..] == s[1..] + [x];
      FilterAgregar(s[1..], x, p);
    } else {
      assert [x][1..] == [];
    }
  }

  /** A `WHERE` that every row satisfies returns the whole table. */
  lemma {:induction false} FilterTodos<T>(s: seq<T>, p: T -> bool)
    requires forall i :: 0 <= i < |s| ==> p(s[i])
    ensures Filter(s, p) == s
  {
    if s != [] {
      FilterTodos(s[1..], p);
    }
  }

  /** No two rows share a primary key. */
  predicate UniqueIds<T>(s: seq<T>, idOf: T -> int) {
    forall i, j :: 0 <= i < j < |s| ==> idOf(s[i]) != idOf(s[j])
  }

  /** `SELECT ... WHERE id = %s` then `fetchone()`: the row with that key, or None. */
  function FindById<T(!new)>(s: seq<T>, idOf: T -> int, id: int): (r: Option<T>)
    ensures r.Some? ==> r.value in s && idOf(r.value) == id
    ensures r.None? <==> forall x :: x in s ==> idOf(x) != id
  {
    if s == [] then None
    else if idOf(s[0]) == id then Some(s[0])
    else FindById(s[1..], idOf, id)
  }

  /** `UPDATE ... WHERE id = %s`: the rows with `row`'s key become `row`. */
  function ReplaceById<T>(s: seq<T>, idOf: T -> int, row: T): (r: seq<T>)
    ensures |r| == |s|
    ensures forall i :: 0 <= i < |s| ==> r[i] == if idOf(s[i]) == idOf(row) then row else s[i]
  {
    seq(|s|, i requires 0 <= i < |s| => if idOf(s[i]) == idOf(row) then row else s[i])
  }

  /** `ReplaceById` puts `row` where a row with its key was, and finds nothing to
      replace when there was none. */
  lemma FindByIdReplace<T(!new)>(s: seq<T>, idOf: T -> int, row: T)
    ensures FindById(ReplaceById(s, idOf, row), idOf, idOf(row))
            == if FindById(s, idOf, idOf(row)).Some? then Some(row) else None
  {
    var r := ReplaceById(s, idOf, row);
    var found := FindById(r, idOf, idOf(row));
    if FindById(s, idOf, idOf(row)).Some? {
      var k :| 0 <= k < |s| && s[k] == FindById(s, idOf, idOf(row)).value;
      assert r[k] == row;
      var j :| 0 <= j < |r| && r[j] == found.value;
      assert idOf(s[j]) == idOf(row);
    } else {
      assert r == s;
    }
  }

  /** `INSERT` of a row whose key no row has yet: looking the key up finds that row. */
  lemma {:induction false} FindByIdAppend<T(!new)>(s: seq<T>, idOf: T -> int, row: T)
    requires forall x :: x in s ==> idOf(x) != idOf(row)
    ensures FindById(s + [row], idOf, idOf(row)) == Some(row)
  {
    if s != [] {
      assert (s + [row])[1..] == s[1..] + [row];
      FindByIdAppend(s[1..], idOf, row);
    }
  }

  /** `DELETE ... WHERE id = %s`: the rows with any other key, in order. */
  function DeleteById<T>(s: seq<T>, idOf: T -> int, id: int): (r: seq<T>)
    ensures |r| <= |s|
  {
    Filter(s, (x: T) => idOf(x) != id)
  }

  /** The rows an `UPDATE` or `DELETE ... WHERE id = %s` matches: `cursor.rowcount`. */
  function CountById<T>(s: seq<T>, idOf: T -> int, id: int): (n: nat)
    ensures n <= |s|
  {
    |Filter(s, (x: T) => idOf(x) == id)|
  }

  /** A statement on a key matches no row exactly when the key is absent. */
  lemma CountByIdZero<T(!new)>(s: seq<T>, idOf: T -> int, id: int)
    ensures CountById(s, idOf, id) == 0 <==> FindById(s, idOf, id).None?
  {
    var f := Filter(s, (x: T) => idOf(x) == id);
    FilterIn(s, (x: T) => idOf(x) == id);
    if f != [] {
      assert f[0] in f;
    }
  }

  /** `DELETE` removes exactly the matched rows and keeps every other one. */
  lemma {:induction false} DeleteByIdCount<T(!new)>(s: seq<T>, idOf: T -> int, id: int)
    ensures |DeleteById(s, idOf, id)| + CountById(s, idOf, id) == |s|
    ensures forall x :: x in DeleteById(s, idOf, id) <==> x in s && idOf(x) != id
    ensures FindById(DeleteById(s, idOf, id), idOf, id).None?
  {
    FilterIn(s, (x: T) => idOf(x) != id);
    if s != [] {
      DeleteByIdCount(s[1..], idOf, id);
    }
  }
}
