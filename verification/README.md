# DroDB statement builders

`DroDB` is a small record store over one SQLite table. A store is bound to a table
name. Its record operations turn a Python dict (column name to value) into one
parameterised SQL statement, then hand that statement and its parameter list to
`sqlite3`. This project models how those statements are built and proves what they
contain:

- `insert(rec)` sorts the record's keys. It lists the values in that order and emits
  `INSERT INTO t (c1, c2, ...) VALUES (?, ?, ...)`.
- `update(id, rec)` sorts the keys and lists the values the same way. It then drops the
  `id` column and its value with an in-place `del` inside an `enumerate` loop, and emits
  `UPDATE t SET c1 = ?, ... WHERE id = ?` with the values followed by the row id.
- `getrec`, `getrecs`, `delete` and `countrecs` emit fixed statements over the bound
  table. `getrec` and `delete` bind the id; the other two bind nothing.

Modules:

- `Wrappers` holds `Option`.
- `Strings` holds `Join` (Python's `str.join`), counting of a character, splitting a
  `", "`-separated list, and the first word of a text.
- `Order` holds Python's string `<` (code-point lexicographic order) and `SortedKeys`,
  which models `sorted(rec.keys())`.
- `Sql` holds the six statement templates. It also holds readers that take a built
  statement apart again: the table it names, the INSERT column and marker lists, the
  UPDATE SET columns, the number of `?` markers, and `KindOf`, which tells a
  select-by-id, select-all, count or delete-by-id statement by its lead and its
  condition (the `WHERE id = ?` keyword is read in any case, as SQL reads it).
- `DroDB` holds the record, value, statement and store types and the six builders.
  The update loop is the method `ExcludeId`, which follows Python's `enumerate`
  semantics over a list that shrinks as it is walked.

The builders interpolate the table name and the column names into the SQL text
without quoting. A name containing a space, a comma, `)` or `?` changes the shape of the
statement. The readback and table results are therefore stated for "plain" names
(`Sql.Plain`: non-empty and free of those characters). The marker-count results only
need the names to be free of `?`. The parameter-list results hold for every record.

When the store was created without a `table` argument, Python formats the missing
table as the text `None`. `Store.Name` models that.

## Model

| member | source | states |
|---|---|---|
| Order.Agree | DroDB.py:107 | the position where a string comparison stops: the two strings agree before it, and differ at it unless one of them ends there |
| Order.BelowFirstDifference | DroDB.py:107 | `Below`, the order `sorted` uses, is Python's `str <`: true exactly when, at the first position where the two strings differ, the left one has the smaller code point, or when the left one is a proper prefix of the right one |
| Order.SortedKeys | DroDB.py:107 | `sorted(rec.keys())` lists every key exactly once, nothing else, in strictly increasing Python string order |
| Order.SortedKeysCharacterised | DroDB.py:107 | a list equals the sorted keys exactly when it is strictly increasing and has the same members as the key set, so the sorted order is unique |
| Order.IncreasingDistinct | DroDB.py:107 | a strictly increasing key list has no repeated name, so `update`'s key list holds "id" at most once |
| DroDB.ValuesFor | DroDB.py:108 | the value list has one entry per column, and entry i is the record's value for column i |
| DroDB.Insert | DroDB.py:107-114 | the parameters are the record's values, one per key, in sorted-key order; reading the INSERT text back gives the sorted keys as the column list and one `?` per parameter; marker count equals parameter count; the statement addresses the store's table |
| Sql.InsertReadback | DroDB.py:109-113 | splitting the column list and the VALUES list of a built INSERT gives back exactly the columns joined in and one `?` per value |
| Sql.InsertPlaceholders | DroDB.py:109-114 | an INSERT whose table and column names hold no `?` carries exactly as many `?` markers as values it binds |
| Sql.InsertTable | DroDB.py:109-110 | the table named after `INSERT INTO` is the store's table |
| Strings.JoinLayout | DroDB.py:111-112 | `", ".join` of no parts is empty; otherwise the text starts with the first part and ends with the last |
| Strings.JoinLength | DroDB.py:111-112 | a joined text is as long as all its parts together plus one separator between each pair of neighbours |
| Strings.SplitJoin | DroDB.py:111 | joining non-empty comma-free names with ", " and splitting the result at ", " gives back the same names |
| Strings.OccurrencesJoin | DroDB.py:111-112 | joining with a separator free of a character adds no occurrence of it: the joined text holds the parts' occurrences in total |
| Sql.MarksCount | DroDB.py:112 | the generated markers carry one `?` per value bound |
| DroDB.ExcludeId | DroDB.py:127-130 | the enumerate/del loop over distinct keys removes exactly the first "id" and its value, at the same position, and nothing else; without an "id" both lists come out unchanged; no "id" is left, so the element skipped after the deletion is never a missed "id" |
| DroDB.SetColumns | DroDB.py:125-130 | the SET columns are strictly increasing, never contain "id", contain every other key of the record, and are empty exactly when the record has no key other than "id" |
| DroDB.SetClause | DroDB.py:125-130 | sorting, listing values and running the exclusion loop yield the SET columns with their own values, aligned |
| DroDB.Update | DroDB.py:125-136 | the parameters are the SET values in column order followed by the row id, one more than the SET columns; the list is just the id exactly when the record has no key but "id"; reading the UPDATE back gives the SET columns; marker count equals parameter count; the statement addresses the store's table |
| Sql.UpdateReadback | DroDB.py:132-135 | stripping `" = ?"` from each fragment of a built UPDATE's SET list gives back exactly the columns |
| Sql.UnassignAssignments | DroDB.py:134 | the `c = ?` fragments built from a column list strip back to that list |
| Sql.AssignmentsCount | DroDB.py:134 | the SET fragments over columns free of `?` carry one `?` per column |
| Sql.UpdatePlaceholders | DroDB.py:132-136 | an UPDATE whose table and column names hold no `?` carries one `?` per SET column plus one for the WHERE clause |
| Sql.UpdateTable | DroDB.py:132-133 | the table named after `UPDATE` is the store's table |
| DroDB.GetRec | DroDB.py:86-87 | binds only the id, to the statement's single `?`; the statement selects from the store's table the row whose id equals that marker |
| Sql.SelectByIdFacts | DroDB.py:86 | the select-by-id text has one `?` when the table name holds none; when it is plain, the text names the table and reads back as a `SELECT *` whose only condition compares the id with the marker |
| DroDB.GetRecs | DroDB.py:95-96 | binds nothing and has no `?`; the statement selects every row of the store's table, with no condition |
| Sql.SelectAllFacts | DroDB.py:95 | the select-all text has no `?` when the table name holds none; when it is plain, the text names the table and reads back as a `SELECT *` with nothing after the table |
| DroDB.Delete | DroDB.py:146-147 | binds only the id, to the statement's single `?`; the statement deletes from the store's table the row whose id equals that marker |
| Sql.DeleteFacts | DroDB.py:146 | the delete text has one `?` when the table name holds none; when it is plain, the text names the table and reads back as a `DELETE` whose only condition compares the id with the marker |
| DroDB.CountRecs | DroDB.py:157-159 | binds nothing and has no `?`; the statement counts every row of the store's table, with no condition |
| Sql.CountFacts | DroDB.py:157 | the count text has no `?` when the table name holds none; when it is plain, the text names the table and reads back as a `SELECT COUNT(*)` with nothing after the table |

## Left out

- Running statements through `sqlite3` is not modelled: `execute`, `commit`, cursors, `fetchone` and `lastrowid`. Row ids, row contents and counts are SQLite behaviour, not code of the store, so no table state is modelled. The builders return the statement and parameter list they would pass to `execute`.
- `sql_do`, `sql_query`, `sql_query_row` and `sql_query_value` are not modelled. They pass caller SQL straight to `sqlite3` and have no logic of their own.
- The constructor, the connection, the `filename` property and `close` are not modelled. As written, the constructor never completes. Its first statement (DroDB.py:19) assigns through the `filename` setter, and that setter (DroDB.py:167-171) sets `row_factory` on `self._db`, which DroDB.py:25 only creates later. So every construction raises `AttributeError` before a connection exists, and no builder is reached through a constructed store. `Store` stands in for a store whose construction had succeeded; it keeps only the optional table name.
- The `test()` demo driver is not modelled; it is console output over a database.
- TestDroDB.py and api.py are not part of this model. The tests only check the truthiness of SQLite results, and api.py is an unrelated web route.
- Keys are modelled as strings only. Keys that Python cannot compare with each other (for example a `str` and an `int`) make `sorted` raise `TypeError`; numeric keys of mixed types (`int`, `float`, `bool`) sort without error. Non-string keys that do sort (of one type, or numeric of mixed types) fail in `insert`'s `join` (DroDB.py:111). In `update`, each key goes through `'{} = ?'.format(...)` first (DroDB.py:134), so such keys are rendered with `str()` and the statement is built, for example `UPDATE t SET 1 = ? WHERE id = ?` for the key `1`. None of these paths is modelled.
- Keys are strings of Unicode scalar values. A Python `str` can also hold lone surrogates (U+D800 to U+DFFF), which Dafny's `char` excludes.
- Values are opaque SQLite storage classes. How `sqlite3` adapts Python values is not modelled.
- An empty record gives `INSERT INTO t () VALUES ()`, and a record holding only `id` gives `UPDATE t SET  WHERE id = ?`. SQLite rejects both. The model builds the same text and proves the same facts about it, but the rejection is not modelled.
- DroDB.Insert: the readback and table results are stated only for plain table and column names, and the marker count only for names free of `?`. Names are interpolated unquoted, so other names can change the statement's shape.
- DroDB.Update: the readback and table results are stated only for plain table and column names, and the marker count only for names free of `?`, for the same reason.
- DroDB.GetRec: the table and statement-kind results are stated only for a plain table name, and the marker count only for a table name free of `?`, for the same reason.
- DroDB.GetRecs: the table and statement-kind results are stated only for a plain table name, and the marker count only for a table name free of `?`.
- DroDB.Delete: the table and statement-kind results are stated only for a plain table name, and the marker count only for a table name free of `?`.
- DroDB.CountRecs: the table and statement-kind results are stated only for a plain table name, and the marker count only for a table name free of `?`.
- DroDB.ExcludeId: requires the key list to have no repeats. That always holds for the keys of a dict, and `SetClause` supplies it from the sorted keys.
