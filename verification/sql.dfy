/**
  The SQL text the record store produces, one template per statement it issues, and
  readers that take a produced statement apart again: the table it names, the column
  list of an INSERT, the SET columns of an UPDATE, and the number of `?` placeholders.
  Identifiers are interpolated into the text unchecked; the readback results hold for
  "plain" identifiers, which contain none of the template's punctuation.
 */
module Sql {
  import opened Wrappers
  import opened Strings

  /** Characters the templates use as punctuation around identifiers. */
  const Punctuation: string := " ,)?"

  /** A non-empty identifier holding none of the template punctuation. */
  predicate Plain(name: string)
  {
    |name| > 0 && forall i :: 0 <= i < |name| ==> name[i] !in Punctuation
  }

  predicate AllPlain(names: seq<string>)
  {
    forall i :: 0 <= i < |names| ==> Plain(names[i])
  }

  /** No name holds a `?`, so none adds a marker to the statement it is pasted into. */
  predicate MarkFree(names: seq<string>)
  {
    forall i :: 0 <= i < |names| ==> '?' !in names[i]
  }

  /** Number of `?` parameter markers in a statement. */
  function Placeholders(sql: string): nat
  {
    Occurrences('?', sql)
  }

  /** The generator `'?' for i in range(n)`: one marker per bound value. */
  function Marks(n: nat): (marks: seq<string>)
    ensures |marks| == n
  {
    seq(n, i => "?")
  }

  /** The mapped lambda `'{} = ?'.format(str)`: one assignment per SET column. */
  function Assignments(columns: seq<string>): (frags: seq<string>)
    ensures |frags| == |columns|
  {
    seq(|columns|, i requires 0 <= i < |columns| => columns[i] + " = ?")
  }

  // The statements, as formatted in DroDB.py. Identifiers are pasted in verbatim.

  /** `getrec`'s query; its WHERE keyword is written in lower case. */
  function SelectByIdSql(table: string): string
  {
    "SELECT * FROM " + table + " where id = ?"
  }

  /** `getrecs`'s query. */
  function SelectAllSql(table: string): string
  {
    "SELECT * FROM " + table
  }

  /** `insert`'s statement: the joined columns, then one joined marker per value. */
  function InsertSql(table: string, columns: seq<string>, n: nat): string
  {
    "INSERT INTO " + table + " (" + Join(", ", columns) + ") VALUES (" + Join(", ", Marks(n)) + ")"
  }

  /** `update`'s statement: the joined assignments, then the id condition. */
  function UpdateSql(table: string, columns: seq<string>): string
  {
    "UPDATE " + table + " SET " + Join(", ", Assignments(columns)) + " WHERE id = ?"
  }

  /** `delete`'s statement. */
  function DeleteSql(table: string): string
  {
    "DELETE FROM " + table + " WHERE id = ?"
  }

  /** `countrecs`'s query. */
  function CountSql(table: string): string
  {
    "SELECT COUNT(*) FROM " + table
  }

  // Readback.

  /** The word following `lead`, when the statement starts with `lead`. */
  function After(sql: string, lead: string): Option<string>
  {
    if lead <= sql then Some(Word(sql[|lead|..])) else None
  }

  /** A statement whose first character differs from that of `lead` does not start with `lead`. */
  lemma NotLead(lead: string, sql: string)
    requires |lead| > 0 && |sql| > 0 && lead[0] != sql[0]
    ensures !(lead <= sql)
  {
  }

  /** The table a statement of one of the six shapes addresses. */
  function TableOf(sql: string): Option<string>
  {
    if "SELECT * FROM " <= sql then After(sql, "SELECT * FROM ")
    else if "SELECT COUNT(*) FROM " <= sql then After(sql, "SELECT COUNT(*) FROM ")
    else if "INSERT INTO " <= sql then After(sql, "INSERT INTO ")
    else if "UPDATE " <= sql then After(sql, "UPDATE ")
    else if "DELETE FROM " <= sql then After(sql, "DELETE FROM ")
    else None
  }

  /**
    What a statement without a column list does: read the row with a given id, read
    every row, count the rows, or delete the row with a given id.
   */
  datatype Kind = SelectRow | SelectAll | CountAll | DeleteRow

  /** What follows the table word of a statement that starts with `lead`. */
  function Condition(sql: string, lead: string): string
    requires lead <= sql
  {
    var rest := sql[|lead|..];
    rest[|Word(rest)|..]
  }

  /** ASCII letters folded to lower case; SQL keywords are read without regard to case. */
  function Lower(s: string): (r: string)
    ensures |r| == |s|
  {
    seq(|s|, i requires 0 <= i < |s| => if 'A' <= s[i] <= 'Z' then (s[i] as int + 32) as char else s[i])
  }

  /** ` WHERE id = ?`, the keyword in any case: the single marker is compared with the row id. */
  predicate ById(cond: string)
  {
    |cond| == 13 && cond[0] == ' ' && Lower(cond[1..6]) == "where" && cond[6..] == " id = ?"
  }

  /** The kind of a SELECT, COUNT or DELETE statement, read from its lead and its condition. */
  function KindOf(sql: string): Option<Kind>
  {
    if "SELECT * FROM " <= sql then
      var cond := Condition(sql, "SELECT * FROM ");
      if cond == "" then Some(SelectAll) else if ById(cond) then Some(SelectRow) else None
    else if "SELECT COUNT(*) FROM " <= sql then
      if Condition(sql, "SELECT COUNT(*) FROM ") == "" then Some(CountAll) else None
    else if "DELETE FROM " <= sql then
      if ById(Condition(sql, "DELETE FROM ")) then Some(DeleteRow) else None
    else None
  }

  /**
    The column list and the VALUES markers of `INSERT INTO table (...) VALUES (...)`,
    the column list ending at the first `)`.
   */
  function ParseInsert(table: string, sql: string): Option<(seq<string>, seq<string>)>
  {
    var head := "INSERT INTO " + table + " (";
    if head <= sql then InsertLists(sql[|head|..]) else None
  }

  /** The two lists of `cols) VALUES (marks)`. */
  function InsertLists(rest: string): Option<(seq<string>, seq<string>)>
  {
    var mid := ") VALUES (";
    var i := Span(rest, ')');
    var tail := rest[i..];
    if |tail| < |mid| + 1 || !(mid <= tail) || tail[|tail| - 1] != ')' then None
    else Some((SplitList(rest[..i]), SplitList(tail[|mid|..|tail| - 1])))
  }

  /** The columns of assignments `c = ?`, or None when one is not of that shape. */
  function Unassign(frags: seq<string>): Option<seq<string>>
    decreases |frags|
  {
    if |frags| == 0 then Some([])
    else
      var f := frags[0];
      if |f| < 4 || f[|f| - 4..] != " = ?" then None
      else match Unassign(frags[1..])
        case None => None
        case Some(rest) => Some([f[..|f| - 4]] + rest)
  }

  /** The SET columns of `UPDATE table SET ... WHERE id = ?`. */
  function ParseUpdate(table: string, sql: string): Option<seq<string>>
  {
    var head := "UPDATE " + table + " SET ";
    var foot := " WHERE id = ?";
    if |sql| < |head| + |foot| || !(head <= sql) || sql[|sql| - |foot|..] != foot then None
    else Unassign(SplitList(sql[|head|..|sql| - |foot|]))
  }

  // Properties of the templates.

  lemma PlainHasNo(name: string, c: char)
    requires Plain(name) && c in Punctuation
    ensures c !in name
  {
  }

  lemma {:induction false} MarkFreeCount(names: seq<string>)
    requires MarkFree(names)
    ensures TotalOccurrences('?', names) == 0
    decreases |names|
  {
    if |names| > 0 {
      OccurrencesAbsent('?', names[0]);
      MarkFreeCount(names[1..]);
    }
  }

  lemma {:induction false} MarksCount(n: nat)
    ensures TotalOccurrences('?', Marks(n)) == n
    decreases n
  {
    if n > 0 {
      assert Marks(n)[1..] == Marks(n - 1);
      MarksCount(n - 1);
    }
  }

  lemma {:induction false} AssignmentsCount(columns: seq<string>)
    requires MarkFree(columns)
    ensures TotalOccurrences('?', Assignments(columns)) == |columns|
    decreases |columns|
  {
    if |columns| > 0 {
      assert Assignments(columns)[1..] == Assignments(columns[1..]);
      AssignmentsCount(columns[1..]);
      OccurrencesAbsent('?', columns[0]);
      assert Assignments(columns)[0] == "" + columns[0] + " = " + ['?'];
      FramedMark('?', "", columns[0], " = ");
    }
  }

  /** Pieces free of `c` around `x` add no occurrence of `c`. */
  lemma Framed(c: char, a: string, x: string, d: string)
    requires c !in a && c !in d
    ensures Occurrences(c, a + x + d) == Occurrences(c, x)
  {
    OccurrencesAbsent(c, a);
    OccurrencesAbsent(c, d);
    OccurrencesAppend(c, a, x);
    OccurrencesAppend(c, a + x, d);
  }

  /** As `Framed`, with one `c` at the very end. */
  lemma FramedMark(c: char, a: string, x: string, b: string)
    requires c !in a && c !in b
    ensures Occurrences(c, a + x + b + [c]) == Occurrences(c, x) + 1
  {
    Framed(c, a, x, b);
    OccurrencesAppend(c, a + x + b, [c]);
    assert CountFrom(c, [c], 1) == 0;
    assert Occurrences(c, [c]) == 1;
  }

  /** Two pieces joined by a `c`-free separator. */
  lemma Joined(c: char, x: string, b: string, y: string)
    requires c !in b
    ensures Occurrences(c, x + b + y) == Occurrences(c, x) + Occurrences(c, y)
  {
    OccurrencesAbsent(c, b);
    OccurrencesAppend(c, x, b);
    OccurrencesAppend(c, x + b, y);
  }

  /** A statement built from names free of `?` carries one marker per value it binds. */
  lemma InsertPlaceholders(table: string, columns: seq<string>, n: nat)
    requires '?' !in table && MarkFree(columns)
    ensures Placeholders(InsertSql(table, columns, n)) == n
  {
    var cols := Join(", ", columns);
    var marks := Join(", ", Marks(n));
    var lists := cols + ") VALUES (" + marks;
    assert InsertSql(table, columns, n) == ("INSERT INTO " + table + " (") + lists + ")";
    Framed('?', "INSERT INTO " + table + " (", lists, ")");
    Joined('?', cols, ") VALUES (", marks);
    OccurrencesJoin('?', ", ", columns);
    MarkFreeCount(columns);
    OccurrencesJoin('?', ", ", Marks(n));
    MarksCount(n);
  }

  lemma UpdatePlaceholders(table: string, columns: seq<string>)
    requires '?' !in table && MarkFree(columns)
    ensures Placeholders(UpdateSql(table, columns)) == |columns| + 1
  {
    var sets := Join(", ", Assignments(columns));
    assert UpdateSql(table, columns) == ("UPDATE " + table + " SET ") + sets + " WHERE id = " + ['?'];
    FramedMark('?', "UPDATE " + table + " SET ", sets, " WHERE id = ");
    OccurrencesJoin('?', ", ", Assignments(columns));
    AssignmentsCount(columns);
  }

  lemma InsertListsShape(colText: string, markText: string)
    requires ')' !in colText
    ensures InsertLists(colText + ") VALUES (" + markText + ")") == Some((SplitList(colText), SplitList(markText)))
  {
    var mid := ") VALUES (";
    var tail := mid + markText + ")";
    var rest := colText + tail;
    assert rest == colText + ") VALUES (" + markText + ")";
    SpanStops(colText, tail, ')');
    assert rest[..|colText|] == colText;
    assert rest[|colText|..] == tail;
    assert tail[|mid|..|tail| - 1] == markText;
  }

  /** An INSERT whose column text has no `)` splits at the right places. */
  lemma InsertShape(table: string, colText: string, markText: string)
    requires ')' !in colText
    ensures ParseInsert(table, "INSERT INTO " + table + " (" + colText + ") VALUES (" + markText + ")")
         == Some((SplitList(colText), SplitList(markText)))
  {
    var head := "INSERT INTO " + table + " (";
    var rest := colText + ") VALUES (" + markText + ")";
    var sql := "INSERT INTO " + table + " (" + colText + ") VALUES (" + markText + ")";
    assert sql == head + rest;
    assert sql[|head|..] == rest;
    InsertListsShape(colText, markText);
  }

  /** The column list of a produced INSERT reads back as the columns, the VALUES list as its markers. */
  lemma InsertReadback(table: string, columns: seq<string>, n: nat)
    requires AllPlain(columns)
    ensures ParseInsert(table, InsertSql(table, columns, n)) == Some((columns, Marks(n)))
  {
    forall i | 0 <= i < |columns|
      ensures ')' !in columns[i] && ',' !in columns[i]
    {
      PlainHasNo(columns[i], ')');
      PlainHasNo(columns[i], ',');
    }
    AbsentFromJoin(')', ", ", columns);
    InsertShape(table, Join(", ", columns), Join(", ", Marks(n)));
    SplitJoin(columns);
    SplitJoin(Marks(n));
  }

  lemma {:induction false} UnassignAssignments(columns: seq<string>)
    ensures Unassign(Assignments(columns)) == Some(columns)
    decreases |columns|
  {
    if |columns| > 0 {
      var f := Assignments(columns)[0];
      assert f == columns[0] + " = ?";
      assert f[|f| - 4..] == " = ?";
      assert f[..|f| - 4] == columns[0];
      assert Assignments(columns)[1..] == Assignments(columns[1..]);
      UnassignAssignments(columns[1..]);
      assert columns == [columns[0]] + columns[1..];
    }
  }

  /** The SET list of a produced UPDATE reads back as exactly the columns it was built from. */
  lemma UpdateReadback(table: string, columns: seq<string>)
    requires AllPlain(columns)
    ensures ParseUpdate(table, UpdateSql(table, columns)) == Some(columns)
  {
    var head := "UPDATE " + table + " SET ";
    var foot := " WHERE id = ?";
    var sets := Join(", ", Assignments(columns));
    var sql := UpdateSql(table, columns);
    assert sql == head + sets + foot;
    assert head <= sql;
    assert sql[|sql| - |foot|..] == foot;
    assert sql[|head|..|sql| - |foot|] == sets;
    forall i | 0 <= i < |columns|
      ensures |Assignments(columns)[i]| > 0 && ',' !in Assignments(columns)[i]
    {
      PlainHasNo(columns[i], ',');
    }
    SplitJoin(Assignments(columns));
    UnassignAssignments(columns);
  }

  /** `lead` followed by a plain table and then a blank (or nothing) reads back as that table. */
  lemma TableAfterLead(lead: string, table: string, trail: string, sql: string)
    requires Plain(table)
    requires |trail| == 0 || trail[0] == ' '
    requires sql == lead + table + trail
    ensures After(sql, lead) == Some(table)
  {
    PlainHasNo(table, ' ');
    assert sql == lead + (table + trail);
    assert sql[|lead|..] == table + trail;
    WordOf(table, trail);
  }

  /** `lead`, a plain table, then `trail` starting with a blank (or empty): the condition is `trail`. */
  lemma ConditionAfterLead(lead: string, table: string, trail: string, sql: string)
    requires Plain(table)
    requires |trail| == 0 || trail[0] == ' '
    requires sql == lead + table + trail
    ensures lead <= sql && Condition(sql, lead) == trail
  {
    PlainHasNo(table, ' ');
    assert sql == lead + (table + trail);
    assert sql[|lead|..] == table + trail;
    WordOf(table, trail);
    assert (table + trail)[|table|..] == trail;
  }

  /** Both spellings the store uses compare the marker with the row id. */
  lemma IdConditions()
    ensures ById(" where id = ?") && ById(" WHERE id = ?")
  {
  }

  lemma SelectByIdFacts(table: string)
    ensures '?' !in table ==> Placeholders(SelectByIdSql(table)) == 1
    ensures Plain(table) ==> TableOf(SelectByIdSql(table)) == Some(table)
    ensures Plain(table) ==> KindOf(SelectByIdSql(table)) == Some(SelectRow)
  {
    var sql := SelectByIdSql(table);
    if '?' !in table {
      OccurrencesAbsent('?', table);
      assert sql == "SELECT * FROM " + table + " where id = " + ['?'];
      FramedMark('?', "SELECT * FROM ", table, " where id = ");
    }
    if Plain(table) {
      TableAfterLead("SELECT * FROM ", table, " where id = ?", sql);
      ConditionAfterLead("SELECT * FROM ", table, " where id = ?", sql);
      IdConditions();
    }
  }

  lemma SelectAllFacts(table: string)
    ensures '?' !in table ==> Placeholders(SelectAllSql(table)) == 0
    ensures Plain(table) ==> TableOf(SelectAllSql(table)) == Some(table)
    ensures Plain(table) ==> KindOf(SelectAllSql(table)) == Some(SelectAll)
  {
    var sql := SelectAllSql(table);
    if '?' !in table {
      OccurrencesAbsent('?', table);
      assert sql == "SELECT * FROM " + table + "";
      Framed('?', "SELECT * FROM ", table, "");
    }
    if Plain(table) {
      assert sql == "SELECT * FROM " + table + "";
      TableAfterLead("SELECT * FROM ", table, "", sql);
      ConditionAfterLead("SELECT * FROM ", table, "", sql);
    }
  }

  lemma DeleteFacts(table: string)
    ensures '?' !in table ==> Placeholders(DeleteSql(table)) == 1
    ensures Plain(table) ==> TableOf(DeleteSql(table)) == Some(table)
    ensures Plain(table) ==> KindOf(DeleteSql(table)) == Some(DeleteRow)
  {
    var sql := DeleteSql(table);
    if '?' !in table {
      OccurrencesAbsent('?', table);
      assert sql == "DELETE FROM " + table + " WHERE id = " + ['?'];
      FramedMark('?', "DELETE FROM ", table, " WHERE id = ");
    }
    if Plain(table) {
      TableAfterLead("DELETE FROM ", table, " WHERE id = ?", sql);
      ConditionAfterLead("DELETE FROM ", table, " WHERE id = ?", sql);
      IdConditions();
      assert sql[0] == 'D';
      NotLead("SELECT * FROM ", sql);
      NotLead("SELECT COUNT(*) FROM ", sql);
      NotLead("INSERT INTO ", sql);
      NotLead("UPDATE ", sql);
    }
  }

  lemma CountFacts(table: string)
    ensures '?' !in table ==> Placeholders(CountSql(table)) == 0
    ensures Plain(table) ==> TableOf(CountSql(table)) == Some(table)
    ensures Plain(table) ==> KindOf(CountSql(table)) == Some(CountAll)
  {
    var sql := CountSql(table);
    if '?' !in table {
      OccurrencesAbsent('?', table);
      assert sql == "SELECT COUNT(*) FROM " + table + "";
      Framed('?', "SELECT COUNT(*) FROM ", table, "");
    }
    if Plain(table) {
      assert sql == "SELECT COUNT(*) FROM " + table + "";
      TableAfterLead("SELECT COUNT(*) FROM ", table, "", sql);
      ConditionAfterLead("SELECT COUNT(*) FROM ", table, "", sql);
      assert sql[7] == 'C';
    }
  }

  lemma InsertTable(table: string, columns: seq<string>, n: nat)
    requires Plain(table)
    ensures TableOf(InsertSql(table, columns, n)) == Some(table)
  {
    var sql := InsertSql(table, columns, n);
    var trail := " (" + Join(", ", columns) + ") VALUES (" + Join(", ", Marks(n)) + ")";
    assert sql == "INSERT INTO " + table + trail;
    TableAfterLead("INSERT INTO ", table, trail, sql);
    assert sql[0] == 'I';
  }

  lemma UpdateTable(table: string, columns: seq<string>)
    requires Plain(table)
    ensures TableOf(UpdateSql(table, columns)) == Some(table)
  {
    var sql := UpdateSql(table, columns);
    var trail := " SET " + Join(", ", Assignments(columns)) + " WHERE id = ?";
    assert sql == "UPDATE " + table + trail;
    TableAfterLead("UPDATE ", table, trail, sql);
    assert sql[0] == 'U';
  }
}
