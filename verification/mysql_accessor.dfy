/** `MySQLAccessor`: one JDBC connection and the CRUD primitives over it.
    The driver is not modelled; each operation takes the driver's answer
    (rows affected, rows read, a failure) as a parameter, and what the
    accessor does around it is modelled: the SQL text, the bindings, the
    exceptions, and the closing in the `finally` blocks. */
module MySql {
  import opened Base
  import opened Faults
  import opened Data
  import opened Statements
  import opened Binding

  /** The `conn` field: null until the first `openConnection`. */
  datatype ConnState = NoConnection | Open | Closed

  /** How `Class.forName` and `DriverManager.getConnection` answer. */
  datatype ConnectAnswer = DriverMissing(msg: Option<string>) | Refused(msg: Option<string>) | Connected

  /** How `Connection.close()` answers. */
  datatype CloseAnswer = Closes | CloseFails(msg: Option<string>)

  /** A prepared statement as handed to `executeUpdate`: its text and the
      setter calls made on it. */
  datatype Prepared = Prepared(sql: string, binds: seq<Bind>)

  const UrlMessage := "Error: url is null or zero length!"

  /** The connection after `closeConnection(flag)`. */
  function AfterClose(conn: ConnState, flag: bool, answer: CloseAnswer): (c: ConnState)
    ensures !flag ==> c == conn
    ensures c != conn ==> c == Closed
    ensures flag && conn != NoConnection && answer.Closes? ==> c == Closed
  {
    if flag && conn != NoConnection && answer.Closes? then Closed else conn
  }

  /** What `closeConnection(flag)` throws: nothing when `flag` is false,
      a NullPointerException when there never was a connection. */
  function CloseOutcome(conn: ConnState, flag: bool, answer: CloseAnswer): (r: Outcome<Fault>)
    ensures !flag ==> r == Pass
    ensures flag && conn == NoConnection ==> r == Fail(NullPointer)
    ensures flag && conn != NoConnection ==> (r.Pass? <==> answer.Closes?)
  {
    if !flag then Pass
    else if conn == NoConnection then Fail(NullPointer)
    else if answer.CloseFails? then Fail(SqlFailure(answer.msg))
    else Pass
  }

  function OrEmpty(s: Option<string>): (r: string)
    ensures s.Some? ==> r == s.value
    ensures s.None? ==> r == ""
  {
    if s.Some? then s.value else ""
  }

  /** The first row, or null when the query matched nothing. */
  function FirstRow(rows: seq<Record>): (r: Option<Record>)
    ensures r.None? <==> rows == []
    ensures r.Some? ==> r.value == rows[0]
  {
    if rows == [] then None else Some(rows[0])
  }

  class MySqlAccessor {
    const driverClassName: Option<string>
    const url: string
    const username: string
    const password: string
    var conn: ConnState

    /** Stores the settings; `Create` is the Java constructor with its guard. */
    constructor (driverClassName: Option<string>, url: string, username: string, password: string)
      requires url != ""
      ensures this.driverClassName == driverClassName && this.url == url
      ensures this.username == username && this.password == password
      ensures conn == NoConnection
    {
      this.driverClassName := driverClassName;
      this.url := url;
      this.username := username;
      this.password := password;
      conn := NoConnection;
    }

    /** `new MySQLAccessor(driver, url, username, password)`: a null or empty
        url throws IllegalArgumentException; a null username or password
        becomes "". */
    static method Create(driverClassName: Option<string>, url: Option<string>,
                         username: Option<string>, password: Option<string>)
      returns (r: Result<MySqlAccessor, Fault>)
      ensures r.Failure? <==> !Present(url)
      ensures r.Failure? ==> r.error == IllegalArgument(Some(UrlMessage))
      ensures r.Success? ==> fresh(r.value) && r.value.conn == NoConnection
      ensures r.Success? ==> r.value.driverClassName == driverClassName && r.value.url == url.value
      ensures r.Success? ==> r.value.username == OrEmpty(username) && r.value.password == OrEmpty(password)
    {
      if url.None? || url.value == "" {
        return Failure(IllegalArgument(Some(UrlMessage)));
      }
      var a := new MySqlAccessor(driverClassName, url.value, OrEmpty(username), OrEmpty(password));
      r := Success(a);
    }

    /** `openConnection()`: loads the driver class, then connects. */
    method OpenConnection(answer: ConnectAnswer) returns (r: Outcome<Fault>)
      modifies this
      ensures driverClassName.None? ==> r == Fail(NullPointer)
      ensures driverClassName.Some? && answer.DriverMissing? ==> r == Fail(ClassNotFound(answer.msg))
      ensures driverClassName.Some? && answer.Refused? ==> r == Fail(SqlFailure(answer.msg))
      ensures r.Pass? <==> driverClassName.Some? && answer.Connected?
      ensures conn == if r.Pass? then Open else old(conn)
    {
      if driverClassName.None? {
        return Fail(NullPointer);
      }
      match answer
      case DriverMissing(m) => r := Fail(ClassNotFound(m));
      case Refused(m) => r := Fail(SqlFailure(m));
      case Connected =>
        conn := Open;
        r := Pass;
    }

    /** `closeConnection()`. */
    method CloseConnection(answer: CloseAnswer) returns (r: Outcome<Fault>)
      modifies this
      ensures conn == AfterClose(old(conn), true, answer)
      ensures r == CloseOutcome(old(conn), true, answer)
    {
      if conn == NoConnection {
        return Fail(NullPointer);
      }
      match answer
      case CloseFails(m) => r := Fail(SqlFailure(m));
      case Closes =>
        conn := Closed;
        r := Pass;
    }

    /** `closeConnection(boolean)`: a no-op when the flag is false. */
    method CloseConnectionIf(flag: bool, answer: CloseAnswer) returns (r: Outcome<Fault>)
      modifies this
      ensures !flag ==> r == Pass && conn == old(conn)
      ensures conn == AfterClose(old(conn), flag, answer)
      ensures r == CloseOutcome(old(conn), flag, answer)
    {
      if flag {
        r := CloseConnection(answer);
      } else {
        r := Pass;
      }
    }

    /** `insertRecord`: INSERT over the record's columns, each non-null value
        bound in iteration order; true iff exactly one row was inserted.
        `execute` is the driver's answer to `executeUpdate`. */
    method InsertRecord(table: string, fields: Record, closeAfter: bool,
                        execute: Result<int, Fault>, closing: CloseAnswer)
      returns (r: Result<bool, Fault>, sent: Option<Prepared>)
      modifies this
      ensures var text := InsertText(table, Columns(fields));
        sent == if text.Some? && old(conn) != NoConnection
                then Some(Prepared(text.value, BindAll(InsertChain, Values(fields)))) else None
      ensures conn == AfterClose(old(conn), closeAfter, closing)
      ensures r == Finish(
        if InsertText(table, Columns(fields)).None? then Failure(IndexOutOfBounds)
        else if old(conn) == NoConnection then Failure(NullPointer)
        else if execute.Failure? then Failure(execute.error)
        else Success(execute.value == 1),
        CloseOutcome(old(conn), closeAfter, closing))
    {
      var primary: Result<bool, Fault>;
      sent := None;
      var text := BuildInsertText(table, Columns(fields));
      if text.None? {
        primary := Failure(IndexOutOfBounds);
      } else if conn == NoConnection {
        primary := Failure(NullPointer);
      } else {
        var binds := InsertBinds(Values(fields));
        sent := Some(Prepared(text.value, binds));
        primary := if execute.Failure? then Failure(execute.error) else Success(execute.value == 1);
      }
      var cleanup := CloseConnectionIf(closeAfter, closing);
      r := Finish(primary, cleanup);
    }

    /** `updateRecords`: UPDATE setting every column, WHERE one field;
        binds the field values, then the where-value; returns the rows
        updated. */
    method UpdateRecords(table: string, fields: Record, whereField: Option<string>, whereValue: Value,
                         closeAfter: bool, execute: Result<int, Fault>, closing: CloseAnswer)
      returns (r: Result<int, Fault>, sent: Option<Prepared>)
      modifies this
      ensures var text := UpdateText(table, Columns(fields), whereField);
        sent == if text.Some? && old(conn) != NoConnection
                then Some(Prepared(text.value,
                                   if fields == [] then [] else BindAll(UpdateChain, Values(fields) + [whereValue])))
                else None
      ensures conn == AfterClose(old(conn), closeAfter, closing)
      ensures r == Finish(
        if UpdateText(table, Columns(fields), whereField).None? then Failure(IndexOutOfBounds)
        else if old(conn) == NoConnection then Failure(NullPointer)
        else execute,
        CloseOutcome(old(conn), closeAfter, closing))
    {
      var primary: Result<int, Fault>;
      sent := None;
      var text := BuildUpdateText(table, Columns(fields), whereField);
      if text.None? {
        primary := Failure(IndexOutOfBounds);
      } else if conn == NoConnection {
        primary := Failure(NullPointer);
      } else {
        var binds := UpdateBinds(Values(fields), whereValue);
        sent := Some(Prepared(text.value, binds));
        primary := execute;
      }
      var cleanup := CloseConnectionIf(closeAfter, closing);
      r := Finish(primary, cleanup);
    }

    /** `deleteRecords`: DELETE WHERE one field, or of every row when the
        where field is null; returns the rows deleted. */
    method DeleteRecords(table: string, whereField: Option<string>, whereValue: Value,
                         closeAfter: bool, execute: Result<int, Fault>, closing: CloseAnswer)
      returns (r: Result<int, Fault>, sent: Option<Prepared>)
      modifies this
      ensures sent == if old(conn) != NoConnection
                      then Some(Prepared(DeleteText(table, whereField), DeleteBinds(whereField, whereValue)))
                      else None
      ensures conn == AfterClose(old(conn), closeAfter, closing)
      ensures r == Finish(if old(conn) == NoConnection then Failure(NullPointer) else execute,
                          CloseOutcome(old(conn), closeAfter, closing))
    {
      var primary: Result<int, Fault>;
      sent := None;
      if conn == NoConnection {
        primary := Failure(NullPointer);
      } else {
        sent := Some(Prepared(DeleteText(table, whereField), DeleteBinds(whereField, whereValue)));
        primary := execute;
      }
      var cleanup := CloseConnectionIf(closeAfter, closing);
      r := Finish(primary, cleanup);
    }

    /** `getRecordWhere`: runs the interpolated SELECT (`rows` is what the
        driver returns for it) and gives the first row, or null when there
        is none. */
    method GetRecordWhere(table: string, field: Option<string>, value: Value, closeAfter: bool,
                          rows: Result<seq<Record>, Fault>, closing: CloseAnswer)
      returns (r: Result<Option<Record>, Fault>, query: Option<string>)
      modifies this
      ensures query == if old(conn) != NoConnection then Some(WhereText(table, field, value)) else None
      ensures conn == AfterClose(old(conn), closeAfter, closing)
      ensures r == Finish(
        if old(conn) == NoConnection then Failure(NullPointer)
        else if rows.Failure? then Failure(rows.error)
        else Success(FirstRow(rows.value)),
        CloseOutcome(old(conn), closeAfter, closing))
    {
      var primary: Result<Option<Record>, Fault>;
      query := None;
      if conn == NoConnection {
        primary := Failure(NullPointer);
      } else {
        query := Some(WhereText(table, field, value));
        primary := if rows.Failure? then Failure(rows.error) else Success(FirstRow(rows.value));
      }
      var cleanup := CloseConnectionIf(closeAfter, closing);
      r := Finish(primary, cleanup);
    }

    /** `getRecordsWhere`: the same SELECT, every row. */
    method GetRecordsWhere(table: string, field: Option<string>, value: Value, closeAfter: bool,
                           rows: Result<seq<Record>, Fault>, closing: CloseAnswer)
      returns (r: Result<seq<Record>, Fault>, query: Option<string>)
      modifies this
      ensures query == if old(conn) != NoConnection then Some(WhereText(table, field, value)) else None
      ensures conn == AfterClose(old(conn), closeAfter, closing)
      ensures r == Finish(if old(conn) == NoConnection then Failure(NullPointer) else rows,
                          CloseOutcome(old(conn), closeAfter, closing))
    {
      var primary: Result<seq<Record>, Fault>;
      query := None;
      if conn == NoConnection {
        primary := Failure(NullPointer);
      } else {
        query := Some(WhereText(table, field, value));
        primary := rows;
      }
      var cleanup := CloseConnectionIf(closeAfter, closing);
      r := Finish(primary, cleanup);
    }

    /** `findRecordsFromSQL`: runs arbitrary SQL and returns its rows. */
    method FindRecordsFromSql(sql: string, closeAfter: bool,
                              rows: Result<seq<Record>, Fault>, closing: CloseAnswer)
      returns (r: Result<seq<Record>, Fault>)
      modifies this
      ensures conn == AfterClose(old(conn), closeAfter, closing)
      ensures r == Finish(if old(conn) == NoConnection then Failure(NullPointer) else rows,
                          CloseOutcome(old(conn), closeAfter, closing))
    {
      var primary := if conn == NoConnection then Failure(NullPointer) else rows;
      var cleanup := CloseConnectionIf(closeAfter, closing);
      r := Finish(primary, cleanup);
    }

    /** `updateRecordsFromSQL`: runs arbitrary SQL as an update. Its
        `finally` closes the connection itself, guarded by `conn != null`,
        so a missing connection is not closed a second time. */
    method UpdateRecordsFromSql(sql: string, closeAfter: bool,
                                execute: Result<int, Fault>, closing: CloseAnswer)
      returns (r: Outcome<Fault>)
      modifies this
      ensures conn == AfterClose(old(conn), closeAfter, closing)
      ensures var cleanup := if old(conn) == NoConnection then Pass else CloseOutcome(old(conn), closeAfter, closing);
        r == if cleanup.Fail? then cleanup
             else if old(conn) == NoConnection then Fail(NullPointer)
             else if execute.Failure? then Fail(execute.error)
             else Pass
    {
      var primary: Outcome<Fault> :=
        if conn == NoConnection then Fail(NullPointer)
        else if execute.Failure? then Fail(execute.error)
        else Pass;
      var cleanup: Outcome<Fault> := Pass;
      if closeAfter && conn != NoConnection {
        cleanup := CloseConnection(closing);
      }
      r := if cleanup.Fail? then cleanup else primary;
    }
  }
}
