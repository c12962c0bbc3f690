/** Merging measured cells from several stores into one. The key of a cell is derived from what it
    measured, and an insert that conflicts does nothing. */
module CellMerge {
  import opened Chunks
  import opened Wrappers

  datatype Cell = Cell(key: string, row: string)

  type Table = map<string, Cell>

  /** One row: absent keys are taken, present ones keep what they have. */
  function Insert(t: Table, c: Cell): Table {
    if c.key in t then t else t[c.key := c]
  }

  function InsertAll(t: Table, rows: seq<Cell>): Table {
    if rows == [] then t else Insert(InsertAll(t, rows[..|rows| - 1]), rows[|rows| - 1])
  }

  /** One statement, with the number of rows it returns. */
  method InsertChunk(t: Table, chunk: seq<Cell>) returns (t': Table, returned: nat)
    ensures t' == InsertAll(t, chunk)
    ensures returned == |t'| - |t|
  {
    t', returned := t, 0;
    for i := 0 to |chunk|
      invariant t' == InsertAll(t, chunk[..i])
      invariant returned == |t'| - |t|
    {
      assert chunk[..i + 1][..i] == chunk[..i];
      if chunk[i].key !in t' {
        t', returned := t'[chunk[i].key := chunk[i]], returned + 1;
      }
    }
    assert chunk[..|chunk|] == chunk;
  }

  lemma {:induction false} InsertAllConcat(t: Table, a: seq<Cell>, b: seq<Cell>)
    ensures InsertAll(t, a + b) == InsertAll(InsertAll(t, a), b)
    decreases |b|
  {
    if b == [] {
      assert a + b == a;
    } else {
      InsertAllConcat(t, a, b[..|b| - 1]);
      assert (a + b)[..|a + b| - 1] == a + b[..|b| - 1];
    }
  }

  lemma NothingInserted(t: Table)
    ensures InsertAll(t, []) == t
  {
  }

  lemma NextChunk(t: Table, rows: seq<Cell>, i: nat, end: nat)
    requires i <= end <= |rows|
    ensures InsertAll(InsertAll(t, rows[..i]), rows[i..end]) == InsertAll(t, rows[..end])
  {
    InsertAllConcat(t, rows[..i], rows[i..end]);
    assert rows[..i] + rows[i..end] == rows[..end];
  }

  /** The merge: all rows of all sources, chunk by chunk. Any positive chunk size gives the one
      first-wins union, and the count is the growth of the target. */
  method Merge(target: Table, sources: seq<seq<Cell>>, size: nat) returns (t: Table, inserted: nat)
    requires size > 0
    ensures t == InsertAll(target, Concat(sources))
    ensures inserted == |t| - |target|
  {
    var rows := [];
    for s := 0 to |sources|
      invariant rows == Concat(sources[..s])
    {
      assert sources[..s + 1][..s] == sources[..s];
      rows := rows + sources[s];
    }
    assert sources[..|sources|] == sources;
    hide InsertAll, Concat;
    t, inserted := target, 0;
    var i := 0;
    NothingInserted(target);
    while i < |rows|
      invariant t == InsertAll(target, rows[..Min(i, |rows|)])
      invariant inserted == |t| - |target|
    {
      var end := Min(i + size, |rows|);
      NextChunk(target, rows, i, end);
      var returned;
      t, returned := InsertChunk(t, rows[i..end]);
      inserted := inserted + returned;
      i := i + size;
    }
    assert rows[..|rows|] == rows;
  }

  // ----- what the union is -----

  function Lookup(t: Table, key: string): Option<Cell> {
    if key in t then Some(t[key]) else None
  }

  /** The first row with a key. */
  function First(rows: seq<Cell>, key: string): (found: Option<Cell>)
    ensures found.Some? ==> found.value in rows && found.value.key == key
    ensures found.None? ==> forall c :: c in rows ==> c.key != key
  {
    if rows == [] then None
    else if rows[0].key == key then Some(rows[0])
    else
      assert rows == [rows[0]] + rows[1..];
      First(rows[1..], key)
  }

  lemma {:induction false} FirstOfMore(rows: seq<Cell>, c: Cell, key: string)
    ensures First(rows + [c], key) ==
      if First(rows, key).Some? then First(rows, key) else if c.key == key then Some(c) else None
  {
    if rows == [] {
      assert rows + [c] == [c] && [c][1..] == [];
    } else {
      assert (rows + [c])[1..] == rows[1..] + [c];
      FirstOfMore(rows[1..], c, key);
    }
  }

  /** The target keeps its own cells; any other key holds the first row that brought it. */
  lemma {:induction false} FirstWins(t: Table, rows: seq<Cell>, key: string)
    ensures Lookup(InsertAll(t, rows), key) == if key in t then Some(t[key]) else First(rows, key)
    decreases |rows|
  {
    if rows != [] {
      hide First;
      var n := |rows| - 1;
      FirstWins(t, rows[..n], key);
      assert rows == rows[..n] + [rows[n]];
      FirstOfMore(rows[..n], rows[n], key);
    }
  }

  /** Rows that share a key the target does not hold are equal cells. */
  ghost predicate Consistent(t: Table, rows: seq<Cell>) {
    forall c, d :: c in rows && d in rows && c.key == d.key && c.key !in t ==> c == d
  }

  /** For such rows the order makes no difference. */
  lemma OrderIsIrrelevant(t: Table, a: seq<Cell>, b: seq<Cell>)
    requires multiset(a) == multiset(b) && Consistent(t, a)
    ensures InsertAll(t, a) == InsertAll(t, b)
  {
    hide InsertAll, First, Lookup;
    assert forall c :: c in a <==> c in multiset(b);
    assert forall c :: c in a <==> c in b;
    forall key ensures Lookup(InsertAll(t, a), key) == Lookup(InsertAll(t, b), key) {
      FirstWins(t, a, key);
      FirstWins(t, b, key);
    }
    SameLookups(InsertAll(t, a), InsertAll(t, b));
  }

  lemma SameLookups(t: Table, u: Table)
    requires forall key :: Lookup(t, key) == Lookup(u, key)
    ensures t == u
  {
    forall key ensures key in t <==> key in u {
      assert Lookup(t, key) == Lookup(u, key);
    }
    forall key | key in t ensures t[key] == u[key] {
      assert Lookup(t, key) == Lookup(u, key);
    }
  }

  /** The same rows with one of them moved to the front, where it wins its key. */
  lemma MovedToFront(t: Table, a: seq<Cell>, c: Cell) returns (b: seq<Cell>)
    requires c in a && c.key !in t
    ensures multiset(b) == multiset(a) && Lookup(InsertAll(t, b), c.key) == Some(c)
  {
    var i :| 0 <= i < |a| && a[i] == c;
    b := [c] + (a[..i] + a[i + 1..]);
    assert a == a[..i] + [c] + a[i + 1..];
    hide InsertAll, Lookup;
    FirstWins(t, b, c.key);
  }

  ghost predicate OrderFree(t: Table, a: seq<Cell>) {
    forall b :: multiset(b) == multiset(a) ==> InsertAll(t, a) == InsertAll(t, b)
  }

  /** The order of the rows makes no difference exactly when rows that share a key are equal cells, save
      for keys the target holds already: there no row gets in. */
  lemma OrderIsIrrelevantIff(t: Table, a: seq<Cell>)
    ensures OrderFree(t, a) <==> Consistent(t, a)
  {
    hide InsertAll, Lookup;
    if Consistent(t, a) {
      forall b | multiset(b) == multiset(a) ensures InsertAll(t, a) == InsertAll(t, b) {
        OrderIsIrrelevant(t, a, b);
      }
    } else {
      var c, d :| c in a && d in a && c.key == d.key && c.key !in t && c != d;
      var b := MovedToFront(t, a, c);
      var b' := MovedToFront(t, a, d);
      assert InsertAll(t, b) != InsertAll(t, b');
    }
  }
}
