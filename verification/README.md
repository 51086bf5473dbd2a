# DBService in Dafny

A model of the core of DBService, a small Java library for CRUD access to a
MySQL database. It has two layers:

- **`MySQLAccessor`** holds one JDBC connection. It builds `INSERT`,
  `UPDATE` and `DELETE` statements as text with `?` placeholders, binds
  record values to them through a chain of `instanceof` tests, builds
  interpolated `SELECT ... WHERE` queries, and closes the connection in
  `finally` blocks when asked to.
- **`GenericDAO<T>`** is the abstract data-access object. It checks its
  arguments, opens a connection and makes one accessor call per
  operation. It wraps failures into `DbAccessException` and converts
  between records and entities through two hooks, `entityFromMap` and
  `mapFromEntity`.

The model uses the following conventions:

- A Java reference that may be null is an `Option`.
- An exception is a `Fault`.
- A method that returns or throws yields a `Result` (`Outcome` for
  `void`).
- A `Map<String, Object>` is a `Record`: its entries in iteration order,
  with unique keys.

Files and modules:

- `base.dfy` (`Base`): `Option`, `Result`, `Outcome`, the rendering of a
  possibly-null string, and the "null or empty" test.
- `faults.dfy` (`Faults`): the exceptions. It also holds the two rules
  that decide which exception a caller sees: `finally` masking, and the
  DAO's re-wrapping into `DbAccessException`.
- `data.dfy` (`Data`): column values with their runtime class, records,
  and `Map` operations.
- `statements.dfy` (`Statements`): the three statement builders, which
  are loops over a buffer proved against reference functions. Also the
  exact statement shapes, the `?` counts, and the where-query text.
- `binding.dfy` (`Binding`): the setter dispatch chains and the three
  bind loops.
- `mysql_accessor.dfy` (`MySql`): class `MySqlAccessor`, whose state is
  the connection.
- `generic_dao.dfy` (`Dao`): class `DbAccessor`, which records every call
  made on the accessor interface. Also class `GenericDao<E>` and the
  insert-or-update decision of `save`.

JDBC is outside the model:

- **Driver responses are parameters.** Loading the driver, connecting,
  `executeUpdate`, `executeQuery` and `Connection.close()` are not
  modelled; each accessor method takes the driver's answer as a
  parameter.
- **The DAO's accessor is an answer function.** The DAO sees any
  implementation of `DBAccessor` that never returns a null list. It is modelled by an answer function
  over the calls made so far, and the DAO's contracts state the exact
  calls made.

## Model

| member | source | states |
|---|---|---|
| Base.JavaText | src/dbservice/MySQLAccessor.java:434 | Appending a null String writes "null"; any other string is written as is. |
| Base.Present | src/dbservice/GenericDAO.java:45-47 | The "null or `isEmpty()`" guard passes only a non-null, non-empty string; null never passes. |
| Faults.Message | src/dbservice/GenericDAO.java:71 | `getMessage()` is the exception's own message; JVM-raised NullPointerException and StringIndexOutOfBounds carry none in this model. |
| Faults.Caught | src/dbservice/GenericDAO.java:70-74 | A caught exception becomes a `DbAccessException` with the original's message and the original as cause. Without a `catch (Exception)` clause, only `SQLException` and `ClassNotFoundException` are caught; anything else passes through unchanged. |
| Faults.Finish | src/dbservice/MySQLAccessor.java:146-155 | An exception thrown while closing in `finally` replaces the `try` block's result or exception. Otherwise that result stands. |
| Data.DecimalText | src/dbservice/MySQLAccessor.java:293 | An Integer or Long is rendered with only a sign and decimal digits. |
| Data.Render | src/dbservice/MySQLAccessor.java:293 | `"=" + fieldValue` renders null as "null", a String as itself, and an Integer or Long as sign and digits. |
| Data.Columns | src/dbservice/MySQLAccessor.java:121 | The column list has one name per entry, in the map's iteration order. |
| Data.Values | src/dbservice/MySQLAccessor.java:123 | The value list has one value per entry, in the same order as the columns. |
| Data.HasKey | src/dbservice/GenericDAO.java:61 | `containsKey(k)` holds iff `k` is one of the record's column names. |
| Data.Get | src/dbservice/GenericDAO.java:61 | `get` of an absent key is null; a present key yields its entry's value. |
| Data.GetFindsEntry | src/dbservice/GenericDAO.java:68 | In a map each key has one value, so `get` returns the value stored under it. |
| Data.NonNulls | src/dbservice/MySQLAccessor.java:139-143 | The values a bind loop uses contain no null, come from the input, and are all of it when it has no null. |
| Data.NonNullFields | src/dbservice/GenericDAO.java:52-57 | After stripping, an entry is kept iff it was there with a non-null value; no null remains. |
| Data.RemoveKey | src/dbservice/GenericDAO.java:63 | `remove(k)` keeps exactly the entries whose key is not `k`, and `k` is absent afterwards. |
| Statements.LastIndexOf | src/dbservice/MySQLAccessor.java:402-406 | `lastIndexOf(", ")` is -1 or a position where the separator occurs, and no later position has it. |
| Statements.Before | src/dbservice/MySQLAccessor.java:402-406 | `substring(0, k)` throws exactly when `k` is negative, and otherwise is the first `k` characters. |
| Statements.InsertText | src/dbservice/MySQLAccessor.java:394-408 | Reference definition of the insert text, with both `substring(0, lastIndexOf(", "))` cuts; None where one throws. Its shape is stated by `InsertTextShape` and `InsertTextNoColumns`. |
| Statements.AppendTerminated | src/dbservice/MySQLAccessor.java:399-405 | A buffer loop leaves the buffer as it was, followed by every item in order, each followed by the separator. |
| Statements.ValuesText | src/dbservice/MySQLAccessor.java:403-406 | The second cut throws exactly when the placeholder buffer has no ", " at all; otherwise the text is a prefix of the buffer that ended in ", ", closed by ")". |
| Statements.BuildInsertText | src/dbservice/MySQLAccessor.java:394-408 | The two buffer loops and two cuts of `buildInsertStatement` produce the reference insert text, or throw where it does. |
| Statements.InsertTextShape | src/dbservice/MySQLAccessor.java:394-408 | For n > 0 columns the text is exactly `INSERT INTO t (c1, ..., cn) VALUES (?, ..., ?)` with n `?`. |
| Statements.InsertTextNoColumns | src/dbservice/MySQLAccessor.java:402 | With no columns (and no comma in the table name) `substring(0, -1)` throws. |
| Statements.InsertPlaceholders | src/dbservice/MySQLAccessor.java:403-407 | The insert text has exactly one placeholder per column, provided no name contains a `?`. |
| Statements.UpdateText | src/dbservice/MySQLAccessor.java:424-437 | Reference definition of the update text; whenever it exists it ends with the WHERE placeholder " = ?". |
| Statements.BuildUpdateText | src/dbservice/MySQLAccessor.java:424-437 | The buffer loop and cut of `buildUpdateStatement` produce the reference update text, or throw where it does. |
| Statements.UpdateTextShape | src/dbservice/MySQLAccessor.java:424-437 | For n > 0 columns the text is exactly `UPDATE t SET c1 = ?, ..., cn = ? WHERE w = ?`; a null `w` is written "null". |
| Statements.UpdateTextNoColumns | src/dbservice/MySQLAccessor.java:433 | With no columns (and no comma in the table name) building the update text throws. |
| Statements.InsertTextOneSeparatorTable | src/dbservice/MySQLAccessor.java:402-406 | With no columns and one ", " in the table name, the first cut lands inside the name and the second cut still throws. |
| Statements.InsertTextTwoSeparatorTable | src/dbservice/MySQLAccessor.java:402-406 | With no columns and two ", " in the table name, each cut removes one of them and a text is built. |
| Statements.InsertTextTrailingCommaTable | src/dbservice/MySQLAccessor.java:397-406 | With no columns and a table name `a, b,`, the final comma and the space of " (" form the second separator, and `INSERT INTO a)` is built. |
| Statements.UpdateTextTrailingCommaTable | src/dbservice/MySQLAccessor.java:428-434 | With no columns and a table name ending in a comma, the comma and the space of " SET " form a separator, and a text is built. |
| Statements.UpdateTextSeparatorTable | src/dbservice/MySQLAccessor.java:433-434 | With no columns and a ", " in the table name, the cut lands at the name's last ", " and a text is built. |
| Statements.UpdatePlaceholders | src/dbservice/MySQLAccessor.java:430-434 | The update text has n + 1 placeholders: one per column and the WHERE one. |
| Statements.DeleteText | src/dbservice/MySQLAccessor.java:451-463 | A null where field gives `DELETE FROM t` (every row); otherwise `DELETE FROM t WHERE w = ?`. |
| Statements.DeletePlaceholders | src/dbservice/MySQLAccessor.java:456-459 | The delete text has one placeholder with a where field and none without one. |
| Statements.WhereText | src/dbservice/MySQLAccessor.java:290-296 | The query of `getRecordWhere`/`getRecordsWhere` always starts `SELECT * FROM t WHERE f=`, with a null field written "null". |
| Statements.WhereTextQuoted | src/dbservice/MySQLAccessor.java:290-291 | For every String value `v` the query is exactly `SELECT * FROM t WHERE f= 'v'`. |
| Statements.WhereTextUnquoted | src/dbservice/MySQLAccessor.java:292-296 | For every non-String value the query is exactly `SELECT * FROM t WHERE f=` followed by `String.valueOf(v)`; for null, `f=null`. |
| Statements.WhereTextInjection | src/dbservice/MySQLAccessor.java:290-296 | A String value is pasted between quotes unescaped, so a value can close the quote and add any condition. |
| Statements.WhereTextNumeric | src/dbservice/MySQLAccessor.java:292-293 | For an Integer or Long value the query is `SELECT * FROM t WHERE f=` followed by nothing but a sign and digits. |
| Binding.SetterFor | src/dbservice/MySQLAccessor.java:127-143 | A null value gets no setter. Any other value gets one whose `instanceof` test it passes. |
| Binding.Fits | src/dbservice/MySQLAccessor.java:127-143 | A value passes a setter's `instanceof` test only when it is not null. |
| Binding.Tests | src/dbservice/MySQLAccessor.java:127-197 | The ordered typed tests of each chain: `setObject` is never tested (it is the fallback), only the update chain tests Timestamp, and no test is repeated. |
| Binding.SetterForIsFirstFit | src/dbservice/MySQLAccessor.java:127-251 | Each chain (insert at 127-143, update at 179-197, delete reusing the insert chain at 235-251) is the first-match dispatch over its ordered tests (String, Integer, Long, Double, [Timestamp], Date, Boolean, else `setObject`). Only the update chain has Timestamp. |
| Binding.BindAll | src/dbservice/MySQLAccessor.java:125-144 | Reference definition of a bind loop: at most one bind per value, the k-th bind at index k + 1, never a null value. |
| Binding.BindAllMeaning | src/dbservice/MySQLAccessor.java:125-144 | Bind k fills index k + 1 with the k-th non-null value, through its setter; nulls use up no index. |
| Binding.BindsCoverAllValues | src/dbservice/MySQLAccessor.java:125-144 | Without null values, there is one bind per value. |
| Binding.InsertBinds | src/dbservice/MySQLAccessor.java:123-144 | The loop of `insertRecord` issues exactly the binds the reference definition gives for its values. |
| Binding.UpdateBinds | src/dbservice/MySQLAccessor.java:169-206 | The flag loop of `updateRecords` binds the field values and then the where-value. With no fields it binds nothing. |
| Binding.UpdateBindsWhereLast | src/dbservice/MySQLAccessor.java:199-206 | A non-null where-value is bound exactly once, last, at index 1 + the number of non-null field values, after the field binds. |
| Binding.UpdateNullWhereUnbound | src/dbservice/MySQLAccessor.java:193-197 | A null where-value is skipped, leaving the WHERE placeholder unbound. |
| Binding.DeleteBinds | src/dbservice/MySQLAccessor.java:234-252 | The where-value is bound at index 1 only when the where field is non-null and the value is non-null. |
| MySql.AfterClose | src/dbservice/MySQLAccessor.java:52-56 | `closeConnection(false)` leaves the connection as it was; a change can only be to closed. |
| MySql.CloseOutcome | src/dbservice/MySQLAccessor.java:48-56 | `closeConnection(false)` never throws. With the flag set it throws NullPointerException when no connection was ever opened; otherwise it passes exactly when the driver closes. |
| MySql.OrEmpty | src/dbservice/MySQLAccessor.java:35-36 | A null username or password becomes "". |
| MySql.FirstRow | src/dbservice/MySQLAccessor.java:302-308 | No row gives null; otherwise the first row only. |
| MySql.MySqlAccessor.constructor | src/dbservice/MySQLAccessor.java:33-36 | Stores the four settings; no connection yet. |
| MySql.MySqlAccessor.Create | src/dbservice/MySQLAccessor.java:28-37 | Throws `IllegalArgumentException("Error: url is null or zero length!")` iff the url is null or empty. Otherwise stores the settings, with a null username or password as "". |
| MySql.MySqlAccessor.OpenConnection | src/dbservice/MySQLAccessor.java:40-45 | A null driver name throws NullPointerException; a missing driver throws ClassNotFoundException; a refused connection throws SQLException. The connection is open iff none of these happened. |
| MySql.MySqlAccessor.CloseConnection | src/dbservice/MySQLAccessor.java:48-50 | Closes the connection, or throws as the close outcome says. |
| MySql.MySqlAccessor.CloseConnectionIf | src/dbservice/MySQLAccessor.java:52-56 | With the flag false it changes nothing and throws nothing; otherwise it behaves as `closeConnection()`. |
| MySql.MySqlAccessor.InsertRecord | src/dbservice/MySQLAccessor.java:115-157 | Sends the insert text with the insert-chain binds of the values. Returns true iff exactly one row was affected. Throws StringIndexOutOfBounds for unbuildable text and NullPointerException without a connection. The close in `finally` overrides. |
| MySql.MySqlAccessor.UpdateRecords | src/dbservice/MySQLAccessor.java:160-223 | Sends the update text with the update-chain binds of the values followed by the where-value (nothing when there are no fields). Returns the driver's row count; fails as insert does. |
| MySql.MySqlAccessor.DeleteRecords | src/dbservice/MySQLAccessor.java:226-268 | Sends the delete text with its single optional bind; returns the driver's row count; fails without a connection; closes as asked. |
| MySql.MySqlAccessor.GetRecordWhere | src/dbservice/MySQLAccessor.java:280-321 | Runs the interpolated where-query. Returns null when no row matches, else the first row. Closes as asked; a close failure overrides. |
| MySql.MySqlAccessor.GetRecordsWhere | src/dbservice/MySQLAccessor.java:335-380 | Runs the same query and returns every row. |
| MySql.MySqlAccessor.FindRecordsFromSql | src/dbservice/MySQLAccessor.java:59-94 | Returns the driver's rows for arbitrary SQL, or its failure; NullPointerException without a connection; closes as asked. |
| MySql.MySqlAccessor.UpdateRecordsFromSql | src/dbservice/MySQLAccessor.java:96-112 | Runs arbitrary SQL. Its own close is skipped when there is no connection, so the NullPointerException of the `try` surfaces. |
| Dao.DbAccessor.constructor | src/dbservice/DBAccessor.java:12 | An accessor starts with no calls made. |
| Dao.DbAccessor.Perform | src/dbservice/DBAccessor.java:19-108 | A call is appended to the record of calls, and its reply is the answer to it. |
| Dao.OpenThen | src/dbservice/GenericDAO.java:59-61 | Every DAO operation calls `openConnection` first and makes its own call only if that did not throw. |
| Dao.RemoveNullFields | src/dbservice/GenericDAO.java:52-57 | The in-place removal loop of `save` leaves exactly the non-null entries, in order. |
| Dao.SaveCall | src/dbservice/GenericDAO.java:61-69 | Insert iff the key is absent or null, and then the key is gone from the payload. Otherwise update of the same payload with WHERE key = its non-null value. Closes in both cases. |
| Dao.SaveDecision | src/dbservice/GenericDAO.java:61-69 | `save` inserts iff the primary key is absent or null. The insert carries every non-null entry except the key. The update carries every non-null entry including the key, and its WHERE is the key with its non-null value. Both close the connection. |
| Dao.SaveInsertBindsEveryPlaceholder | src/dbservice/GenericDAO.java:61-64 | In the insert `save` issues, the number of binds equals the number of placeholders, which equals the number of columns. |
| Dao.SaveUpdateBindsEveryPlaceholder | src/dbservice/GenericDAO.java:66-68 | In the update `save` issues, the binds fill all n + 1 placeholders, with the key's value last. |
| Dao.SaveArgsOk | src/dbservice/GenericDAO.java:45-47 | `save`'s guard passes iff the table and key names are non-null and non-empty and the entity is non-null. |
| Dao.LookupArgsOk | src/dbservice/GenericDAO.java:113-115 | The guard of `findWhere` and `findAllWhere` (also :136-138) passes iff the table and field names are non-null and non-empty and the value is non-null. |
| Dao.GenericDao.constructor | src/dbservice/GenericDAO.java:27-28 | A DAO created without an accessor has none. |
| Dao.GenericDao.WithAccessor | src/dbservice/GenericDAO.java:30-32 | Stores the given accessor unchecked. |
| Dao.GenericDao.SetDb | src/dbservice/GenericDAO.java:210-215 | Null throws IllegalArgumentException and changes nothing; otherwise the accessor is replaced. |
| Dao.GenericDao.EntitiesOf | src/dbservice/GenericDAO.java:223-229 | Converting a list of records gives a list of the same length whose element i is `entityFromMap` of record i. |
| Dao.GenericDao.EntitiesFromMap | src/dbservice/GenericDAO.java:223-229 | The same length as the input; element i is `entityFromMap` of record i. |
| Dao.GenericDao.MapsFromEntities | src/dbservice/GenericDAO.java:237-243 | The same length as the input; element i is `mapFromEntity` of entity i. |
| Dao.GenericDao.Save | src/dbservice/GenericDAO.java:43-75 | A null or empty table or key name, or a null entity, throws IllegalArgumentException before any accessor call. Otherwise opens, then makes the insert or update call of the stripped record. Any failure from `openConnection` on becomes a `DbAccessException`. |
| Dao.GenericDao.Delete | src/dbservice/GenericDAO.java:86-99 | Only the table name is checked. Field and value reach `deleteRecords` unchanged, so a null field deletes every row. Any failure is wrapped. |
| Dao.GenericDao.FindWhere | src/dbservice/GenericDAO.java:111-132 | Rejects a null or empty table or field, or a null value, before any call. Returns null iff the accessor returned null, else `entityFromMap` of the record. Only SQL and driver-loading failures are wrapped. |
| Dao.GenericDao.FindAllWhere | src/dbservice/GenericDAO.java:134-152 | The same guard. Returns the entities of all returned rows, in order; wraps as `findWhere` does. |
| Dao.GenericDao.GetRecordsFromSql | src/dbservice/GenericDAO.java:162-182 | Rejects null or empty SQL before any call; converts every returned row; wraps any failure. |
| Dao.GenericDao.ModifyRecordsFromSql | src/dbservice/GenericDAO.java:190-204 | Rejects null or empty SQL before any call; wraps only SQL and driver-loading failures. |

## Left out

- JDBC itself is not modelled: driver loading, `DriverManager.getConnection`, `createStatement`/`prepareStatement`, `executeQuery`/`executeUpdate` and `Connection.close()`. Their results and exceptions are parameters of the accessor methods.
- A closed connection is treated like an open one. A driver that refuses to work on it reports this through the same parameters.
- Reading a `ResultSet` into maps is not modelled. This includes the column metadata loop and the `NullPointerException` that `findRecordsFromSQL` swallows per column (src/dbservice/MySQLAccessor.java:72-81). Rows arrive as records.
- `Statement.close()` / `PreparedStatement.close()` in the `finally` blocks is not modelled; only the connection close, which can replace the pending exception, is.
- `openConnection` overwrites `conn` without closing the previous connection, so that connection leaks. Only the state of the current connection is modelled.
- Faults.Message: the model gives exceptions the JVM raises (NullPointerException, StringIndexOutOfBoundsException) a null message. Java gives them text: "String index out of range: -1" or "begin 0, end -1, length n" for `substring(0, -1)`, depending on the Java version, and a helpful message for NullPointerException since Java 15. So the message a `DbAccessException` copies from them (src/dbservice/GenericDAO.java:71-73) is null here and text in Java.
- `Double`, `java.sql.Date`, `java.sql.Timestamp` and other objects are opaque values carrying only their `toString()` text; there is no floating-point semantics.
- Map iteration order is taken to be the record's order. `HashMap`'s actual order is not modelled.
- MySql.MySqlAccessor.InsertRecord: a null table name, or a null column name inside a map, is not modelled. Table names are strings here, so the "null" that Java writes for a null table (src/dbservice/MySQLAccessor.java:397) is not captured.
- MySql.MySqlAccessor.UpdateRecords: a null table name is not modelled; Java writes it as "null" (src/dbservice/MySQLAccessor.java:428).
- MySql.MySqlAccessor.DeleteRecords: a null table name is not modelled; Java writes it as "null" (src/dbservice/MySQLAccessor.java:454).
- MySql.MySqlAccessor.GetRecordWhere: a null table name is not modelled; Java writes it as "null" (src/dbservice/MySQLAccessor.java:296).
- MySql.MySqlAccessor.GetRecordsWhere: a null table name is not modelled; Java writes it as "null" (src/dbservice/MySQLAccessor.java:351).
- Dao.GenericDao.FindAllWhere: an accessor that returns a null list cannot be expressed, because a reply's rows are always a list. In Java that null reaches `entitiesFromMap` outside the `try` (src/dbservice/GenericDAO.java:151) and escapes as an unwrapped NullPointerException.
- Dao.GenericDao.GetRecordsFromSql: likewise a null list from `findRecordsFromSQL` is not expressible. In Java it throws NullPointerException inside the `try` (src/dbservice/GenericDAO.java:173), which is then wrapped.
- The `entityFromMap`/`mapFromEntity` hooks are total functions that never return null. An exception thrown inside a hook is not modelled; `getRecordsFromSQL` would wrap it, while `save` and `findWhere`/`findAllWhere` would let it escape unwrapped.
- Dao.GenericDao.Save: failures of the hook and of the null-stripping loop (src/dbservice/GenericDAO.java:51-57) are not modelled. They run before the `try`, so in Java they escape unwrapped: an exception from `mapFromEntity`, the NullPointerException of a null map at `fields.keySet()`, and an UnsupportedOperationException from a map whose key-set iterator refuses `remove`. The model's record is always a mutable map. The removals themselves are not captured either: `save` drops the null entries (:55) and, for an insert, the key (:63) from the very map `mapFromEntity` returned, so a hook that hands out a map it keeps (an entity's backing map, say) sees those entries disappear. The model's hook returns a value, and the stripped record is a copy, so this aliasing is not expressed.
- `getDb` (src/dbservice/GenericDAO.java:206-208) is a plain getter of the `db` field and has no member of its own.
- src/dbservice/DBAccessor.java contributes only the shape of `Dao.DbAccessor`. src/dbservice/DbAccessException.java is the `DbAccess` case of `Fault`.
- Concurrency: the single `conn` field is shared by every call, with no locking.

## Notes on the code as written

These notes follow the code where a plain reading of the library's contract would say more.

- **Not every DAO method wraps every failure.** Among the DAO methods that call the accessor, only `save`, `delete` and `getRecordsFromSQL` have a `catch (Exception)` clause. `findWhere`, `findAllWhere` and `modifyRecordsFromSQL` catch only `SQLException` and `ClassNotFoundException`, so a runtime exception passes through unwrapped. For example, the NullPointerException of a DAO built without an accessor.
- **Empty records make the statement builders throw.** An empty record reaching `insertRecord` or `updateRecords` makes the statement builder throw `StringIndexOutOfBoundsException`. A table name can change this, because each cut looks for ", " in the whole text `INSERT INTO t (` or `UPDATE t SET `. That text holds a separator when the name contains ", " or ends in "," (the comma then meets the space of " (" or " SET "). The update builder cuts once, so one such separator is enough for it to build a text; the insert builder cuts twice, so it throws unless the text holds at least two. The builders are modelled with Java's `lastIndexOf`/`substring` semantics rather than with a non-empty precondition.
