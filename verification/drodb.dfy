/**
  The SQL construction inside the `DroDB` record store: a store bound to one table
  turns a record (a dict from column name to value) into a parameterised statement.
  Running the statement through SQLite is outside this model; what is modelled is the
  text and the parameter list handed to `execute`.
 */
module DroDB {
  import opened Wrappers
  import Order
  import Sql

  /** A column value, one of SQLite's storage classes. The builders never inspect it. */
  datatype Value = Null | Integer(i: int) | Real(r: real) | Text(s: string) | Blob(bytes: seq<bv8>)

  /** A record: the dict from column name to value that `insert` and `update` receive. */
  type Record = map<string, Value>

  /** A statement and the parameters bound to its `?` markers, as passed to `execute`. */
  datatype Statement = Statement(sql: string, params: seq<Value>)

  /**
    The store's table binding. The table comes from an optional keyword argument; when it
    is missing, string formatting renders Python's `None` as the text "None".
   */
  datatype Store = Store(table: Option<string>)
  {
    function Name(): string
    {
      match table
      case Some(t) => t
      case None => "None"
    }
  }

  /** Every key of the record is a plain identifier. */
  predicate PlainKeys(rec: Record)
  {
    forall k :: k in rec ==> Sql.Plain(k)
  }

  /** No key of the record holds a `?`. */
  predicate MarkFreeKeys(rec: Record)
  {
    forall k :: k in rec ==> '?' !in k
  }

  /** Columns drawn from a record with plain keys are plain. */
  lemma PlainColumns(rec: Record, columns: seq<string>)
    requires PlainKeys(rec)
    requires forall i :: 0 <= i < |columns| ==> columns[i] in rec
    ensures Sql.AllPlain(columns)
  {
  }

  /** Columns drawn from a record whose keys hold no `?` hold none either. */
  lemma MarkFreeColumns(rec: Record, columns: seq<string>)
    requires MarkFreeKeys(rec)
    requires forall i :: 0 <= i < |columns| ==> columns[i] in rec
    ensures Sql.MarkFree(columns)
  {
  }

  /** `[rec[v] for v in klist]`: the values listed in the order of their columns. */
  function ValuesFor(rec: Record, columns: seq<string>): (values: seq<Value>)
    requires forall i :: 0 <= i < |columns| ==> columns[i] in rec
    ensures |values| == |columns|
    ensures forall i :: 0 <= i < |columns| ==> values[i] == rec[columns[i]]
    decreases |columns|
  {
    if |columns| == 0 then [] else [rec[columns[0]]] + ValuesFor(rec, columns[1..])
  }

  // Fixed-shape queries.

  /** `getrec(id)`: one marker, bound to the id. */
  function GetRec(store: Store, id: Value): (st: Statement)
    ensures st.params == [id]
    ensures '?' !in store.Name() ==> Sql.Placeholders(st.sql) == |st.params|
    ensures Sql.Plain(store.Name()) ==> Sql.TableOf(st.sql) == Some(store.Name())
    ensures Sql.Plain(store.Name()) ==> Sql.KindOf(st.sql) == Some(Sql.SelectRow)
  {
    Sql.SelectByIdFacts(store.Name());
    Statement(Sql.SelectByIdSql(store.Name()), [id])
  }

  /** `getrecs()`: every row of the table, nothing bound. */
  function GetRecs(store: Store): (st: Statement)
    ensures st.params == []
    ensures '?' !in store.Name() ==> Sql.Placeholders(st.sql) == 0
    ensures Sql.Plain(store.Name()) ==> Sql.TableOf(st.sql) == Some(store.Name())
    ensures Sql.Plain(store.Name()) ==> Sql.KindOf(st.sql) == Some(Sql.SelectAll)
  {
    Sql.SelectAllFacts(store.Name());
    Statement(Sql.SelectAllSql(store.Name()), [])
  }

  /** `delete(id)`: one marker, bound to the id. */
  function Delete(store: Store, id: Value): (st: Statement)
    ensures st.params == [id]
    ensures '?' !in store.Name() ==> Sql.Placeholders(st.sql) == |st.params|
    ensures Sql.Plain(store.Name()) ==> Sql.TableOf(st.sql) == Some(store.Name())
    ensures Sql.Plain(store.Name()) ==> Sql.KindOf(st.sql) == Some(Sql.DeleteRow)
  {
    Sql.DeleteFacts(store.Name());
    Statement(Sql.DeleteSql(store.Name()), [id])
  }

  /** `countrecs()`: a row count over the table, nothing bound. */
  function CountRecs(store: Store): (st: Statement)
    ensures st.params == []
    ensures '?' !in store.Name() ==> Sql.Placeholders(st.sql) == 0
    ensures Sql.Plain(store.Name()) ==> Sql.TableOf(st.sql) == Some(store.Name())
    ensures Sql.Plain(store.Name()) ==> Sql.KindOf(st.sql) == Some(Sql.CountAll)
  {
    Sql.CountFacts(store.Name());
    Statement(Sql.CountSql(store.Name()), [])
  }

  // insert

  /**
    `insert(rec)`: the columns are the keys in sorted order, the parameters the values
    in that same order, and the VALUES clause carries one marker per parameter.
   */
  function Insert(store: Store, rec: Record): (st: Statement)
    ensures |st.params| == |rec|
    ensures forall i :: 0 <= i < |st.params| ==> st.params[i] == rec[Order.SortedKeys(rec.Keys)[i]]
    ensures PlainKeys(rec) ==>
      Sql.ParseInsert(store.Name(), st.sql) == Some((Order.SortedKeys(rec.Keys), Sql.Marks(|st.params|)))
    ensures MarkFreeKeys(rec) && '?' !in store.Name() ==> Sql.Placeholders(st.sql) == |st.params|
    ensures Sql.Plain(store.Name()) ==> Sql.TableOf(st.sql) == Some(store.Name())
  {
    var klist := Order.SortedKeys(rec.Keys);
    var values := ValuesFor(rec, klist);
    var name := store.Name();
    InsertFacts(rec, name, klist, |values|);
    Statement(Sql.InsertSql(name, klist, |values|), values)
  }

  /** What the INSERT text says, read back: its table, its column list, its markers. */
  lemma InsertFacts(rec: Record, table: string, columns: seq<string>, n: nat)
    requires forall i :: 0 <= i < |columns| ==> columns[i] in rec
    ensures PlainKeys(rec) ==> Sql.ParseInsert(table, Sql.InsertSql(table, columns, n)) == Some((columns, Sql.Marks(n)))
    ensures MarkFreeKeys(rec) && '?' !in table ==> Sql.Placeholders(Sql.InsertSql(table, columns, n)) == n
    ensures Sql.Plain(table) ==> Sql.TableOf(Sql.InsertSql(table, columns, n)) == Some(table)
  {
    if PlainKeys(rec) {
      PlainColumns(rec, columns);
      Sql.InsertReadback(table, columns, n);
    }
    if MarkFreeKeys(rec) && '?' !in table {
      MarkFreeColumns(rec, columns);
      Sql.InsertPlaceholders(table, columns, n);
    }
    if Sql.Plain(table) {
      Sql.InsertTable(table, columns, n);
    }
  }

  // update

  /** The first position of `x` in `s`. */
  function Position(s: seq<string>, x: string): (d: nat)
    requires x in s
    ensures d < |s| && s[d] == x
    ensures forall i :: 0 <= i < d ==> s[i] != x
    decreases |s|
  {
    if s[0] == x then 0 else 1 + Position(s[1..], x)
  }

  /** `s` without its element at `d`, as `del s[d]` leaves it. */
  function RemoveAt<T>(s: seq<T>, d: nat): (r: seq<T>)
    requires d < |s|
    ensures |r| == |s| - 1
    ensures forall i :: 0 <= i < d ==> r[i] == s[i]
    ensures forall i :: d <= i < |r| ==> r[i] == s[i + 1]
  {
    s[..d] + s[d + 1..]
  }

  /** In a list without repeats, the element at `d` is found at `d` and nowhere else. */
  lemma PositionOfDistinct(s: seq<string>, d: nat)
    requires Order.Distinct(s) && d < |s|
    ensures Position(s, s[d]) == d
    ensures s[d] !in RemoveAt(s, d)
  {
    var p := Position(s, s[d]);
    assert p == d;
    var r := RemoveAt(s, d);
    forall i | 0 <= i < |r|
      ensures r[i] != s[d]
    {
      if i < d {
        assert r[i] == s[i];
      } else {
        assert r[i] == s[i + 1];
      }
    }
  }

  /**
    The loop `for i, k in enumerate(klist): if k == 'id': del klist[i]; del values[i]`.
    Python's enumerate walks an index `j` over the list as it currently is, so after a
    deletion the element that moved into position `j` is never visited. Because dict keys
    are distinct, that skipped element is never a second "id".
   */
  method ExcludeId(klist0: seq<string>, values0: seq<Value>) returns (klist: seq<string>, values: seq<Value>)
    requires |values0| == |klist0|
    requires Order.Distinct(klist0)
    ensures |values| == |klist|
    ensures "id" !in klist
    ensures |klist| == |klist0| - (if "id" in klist0 then 1 else 0)
    ensures "id" !in klist0 ==> klist == klist0 && values == values0
    ensures "id" in klist0 ==>
      && klist == RemoveAt(klist0, Position(klist0, "id"))
      && values == RemoveAt(values0, Position(klist0, "id"))
  {
    klist, values := klist0, values0;
    ghost var removed: int := -1;
    var j := 0;
    while j < |klist|
      invariant |values| == |klist|
      invariant -1 <= removed < j
      invariant removed == -1 ==> klist == klist0 && values == values0 && j <= |klist| && "id" !in klist0[..j]
      invariant removed >= 0 ==>
        && removed < |klist0| && klist0[removed] == "id"
        && klist == RemoveAt(klist0, removed) && values == RemoveAt(values0, removed)
    {
      if removed >= 0 {
        // what is left holds no second "id"
        PositionOfDistinct(klist0, removed);
      }
      var i, k := j, klist[j];
      if k == "id" {
        klist := klist[..i] + klist[i + 1..];
        values := values[..i] + values[i + 1..];
        removed := i;
        assert klist == RemoveAt(klist0, removed) && values == RemoveAt(values0, removed);
      } else if removed == -1 {
        assert klist0[..j + 1] == klist0[..j] + [k];
      }
      j := j + 1;
    }
    if removed >= 0 {
      PositionOfDistinct(klist0, removed);
      assert "id" in klist0 && |klist| == |klist0| - 1;
    } else {
      assert klist0[..j] == klist0;
      assert "id" !in klist0;
    }
  }

  /** The SET columns `update` must produce: the record's keys other than "id", sorted. */
  function SetColumns(rec: Record): (columns: seq<string>)
    ensures Order.StrictlyIncreasing(columns)
    ensures "id" !in columns
    ensures forall k :: k in columns <==> k in rec && k != "id"
    ensures |columns| == 0 <==> rec.Keys <= {"id"}
  {
    var columns := Order.SortedKeys(rec.Keys - {"id"});
    assert |columns| > 0 ==> columns[0] in rec.Keys - {"id"};
    columns
  }

  /** Deleting position `d` of a list without repeats removes exactly the element there. */
  lemma RemoveAtMembers(s: seq<string>, d: nat)
    requires Order.Distinct(s) && d < |s|
    ensures forall x :: x in RemoveAt(s, d) <==> x in s && x != s[d]
  {
    var r := RemoveAt(s, d);
    PositionOfDistinct(s, d);
    forall x | x in s && x != s[d]
      ensures x in r
    {
      var i :| 0 <= i < |s| && s[i] == x;
      if i < d {
        assert r[i] == x;
      } else {
        assert r[i - 1] == x;
      }
    }
  }

  /** Deleting the "id" entry from the sorted keys leaves exactly the SET columns. */
  lemma ExcludedAreSetColumns(rec: Record, klist: seq<string>, d: nat)
    requires klist == Order.SortedKeys(rec.Keys) && d < |klist| && klist[d] == "id"
    ensures RemoveAt(klist, d) == SetColumns(rec)
  {
    Order.IncreasingDistinct(klist);
    Order.IncreasingWithout(klist, d);
    RemoveAtMembers(klist, d);
    Order.SortedKeysCharacterised(rec.Keys - {"id"}, RemoveAt(klist, d));
  }

  /** Deleting the same position from two aligned lists keeps them aligned. */
  lemma RemoveKeepsAlignment(rec: Record, klist: seq<string>, values: seq<Value>, d: nat)
    requires |klist| == |values| && d < |klist|
    requires forall i :: 0 <= i < |klist| ==> klist[i] in rec && values[i] == rec[klist[i]]
    ensures forall i :: 0 <= i < |klist| - 1 ==> RemoveAt(values, d)[i] == rec[RemoveAt(klist, d)[i]]
  {
    forall i | 0 <= i < |klist| - 1
      ensures RemoveAt(values, d)[i] == rec[RemoveAt(klist, d)[i]]
    {
      if i < d {
        assert RemoveAt(values, d)[i] == values[i] && RemoveAt(klist, d)[i] == klist[i];
      } else {
        assert RemoveAt(values, d)[i] == values[i + 1] && RemoveAt(klist, d)[i] == klist[i + 1];
      }
    }
  }

  /** What the exclusion loop leaves of the sorted keys and their values: the SET columns and their values. */
  lemma KeptAreSetColumns(rec: Record, klist: seq<string>, values: seq<Value>, kept: seq<string>, vals: seq<Value>)
    requires klist == Order.SortedKeys(rec.Keys) && values == ValuesFor(rec, klist)
    requires "id" !in klist ==> kept == klist && vals == values
    requires "id" in klist ==>
      && kept == RemoveAt(klist, Position(klist, "id"))
      && vals == RemoveAt(values, Position(klist, "id"))
    ensures kept == SetColumns(rec)
    ensures |vals| == |kept|
    ensures forall i :: 0 <= i < |kept| ==> vals[i] == rec[kept[i]]
  {
    if "id" in klist {
      var d := Position(klist, "id");
      ExcludedAreSetColumns(rec, klist, d);
      RemoveKeepsAlignment(rec, klist, values, d);
    } else {
      Order.SortedKeysCharacterised(rec.Keys - {"id"}, klist);
    }
  }

  /** What the UPDATE text says, read back: its table, its SET columns, its markers. */
  lemma UpdateFacts(rec: Record, table: string, columns: seq<string>)
    requires forall i :: 0 <= i < |columns| ==> columns[i] in rec
    ensures PlainKeys(rec) ==> Sql.ParseUpdate(table, Sql.UpdateSql(table, columns)) == Some(columns)
    ensures MarkFreeKeys(rec) && '?' !in table ==> Sql.Placeholders(Sql.UpdateSql(table, columns)) == |columns| + 1
    ensures Sql.Plain(table) ==> Sql.TableOf(Sql.UpdateSql(table, columns)) == Some(table)
  {
    if PlainKeys(rec) {
      PlainColumns(rec, columns);
      Sql.UpdateReadback(table, columns);
    }
    if MarkFreeKeys(rec) && '?' !in table {
      MarkFreeColumns(rec, columns);
      Sql.UpdatePlaceholders(table, columns);
    }
    if Sql.Plain(table) {
      Sql.UpdateTable(table, columns);
    }
  }

  /**
    The first half of `update(rec)`: sort the keys, list the values in that order, then
    run the exclusion loop. What is left is the SET columns, each with its own value.
   */
  method SetClause(rec: Record) returns (columns: seq<string>, values: seq<Value>)
    ensures columns == SetColumns(rec)
    ensures |values| == |columns|
    ensures forall i :: 0 <= i < |columns| ==> values[i] == rec[columns[i]]
  {
    var klist := Order.SortedKeys(rec.Keys);
    var vs := ValuesFor(rec, klist);
    Order.IncreasingDistinct(klist);
    columns, values := ExcludeId(klist, vs);
    KeptAreSetColumns(rec, klist, vs, columns, values);
  }

  /**
    The parameter list of `update`: the SET values, then the id bound by the WHERE clause.
    Kept apart from `Update` only to split its proof obligation into smaller ones.
   */
  lemma UpdateParams(id: Value, rec: Record, columns: seq<string>, values: seq<Value>)
    requires columns == SetColumns(rec) && |values| == |columns|
    requires forall i :: 0 <= i < |columns| ==> values[i] == rec[columns[i]]
    ensures |values + [id]| == |SetColumns(rec)| + 1
    ensures (values + [id])[|columns|] == id
    ensures forall i :: 0 <= i < |SetColumns(rec)| ==> (values + [id])[i] == rec[SetColumns(rec)[i]]
    ensures |values + [id]| == 1 <==> rec.Keys <= {"id"}
  {
  }

  /**
    `update(id, rec)`: the SET list names every key but "id", in sorted order, each with
    one marker; the parameters are the matching values followed by the row id.
   */
  method Update(store: Store, id: Value, rec: Record) returns (st: Statement)
    ensures |st.params| == |SetColumns(rec)| + 1
    ensures st.params[|st.params| - 1] == id
    ensures forall i :: 0 <= i < |SetColumns(rec)| ==> st.params[i] == rec[SetColumns(rec)[i]]
    ensures |st.params| == 1 <==> rec.Keys <= {"id"}
    ensures PlainKeys(rec) ==> Sql.ParseUpdate(store.Name(), st.sql) == Some(SetColumns(rec))
    ensures MarkFreeKeys(rec) && '?' !in store.Name() ==> Sql.Placeholders(st.sql) == |st.params|
    ensures Sql.Plain(store.Name()) ==> Sql.TableOf(st.sql) == Some(store.Name())
  {
    var columns, values := SetClause(rec);
    st := Statement(Sql.UpdateSql(store.Name(), columns), values + [id]);
    UpdateParams(id, rec, columns, values);
    UpdateFacts(rec, store.Name(), columns);
  }
}
