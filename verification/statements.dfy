/** The SQL text the accessor sends: the three prepared-statement builders,
    which append to a `StringBuffer` and then cut the trailing ", " off with
    `substring(0, lastIndexOf(", "))`, and the interpolated SELECT of the
    two "where" lookups. */
module Statements {
  import opened Base
  import opened Data

  // ---------------------------------------------------------------------
  // java.lang.String helpers

  predicate OccursAt(s: string, pat: string, j: int)
  {
    0 <= j && j + |pat| <= |s| && s[j..j + |pat|] == pat
  }

  function LastFrom(s: string, pat: string, j: nat): (k: int)
    requires j + |pat| <= |s|
    ensures k == -1 || (k <= j && OccursAt(s, pat, k))
    ensures forall i :: k < i <= j ==> !OccursAt(s, pat, i)
    decreases j
  {
    if OccursAt(s, pat, j) then j
    else if j == 0 then -1
    else LastFrom(s, pat, j - 1)
  }

  /** `String.lastIndexOf(pat)`: the last position where `pat` starts, or -1. */
  function LastIndexOf(s: string, pat: string): (k: int)
    ensures k == -1 || OccursAt(s, pat, k)
    ensures forall j :: k < j ==> !OccursAt(s, pat, j)
  {
    if |pat| > |s| then -1 else LastFrom(s, pat, |s| - |pat|)
  }

  /** `s.substring(0, k)`, which throws `StringIndexOutOfBoundsException`
      (None here) for a negative `k`. */
  function Before(s: string, k: int): (r: Option<string>)
    requires k <= |s|
    ensures k < 0 <==> r.None?
    ensures r.Some? ==> r.value + s[k..] == s
  {
    if k < 0 then None else Some(s[..k])
  }

  // ---------------------------------------------------------------------
  // Lists of strings

  /** Every item followed by `term`: what a loop that appends an item and
      then `term` leaves in the buffer. */
  function Terminated(items: seq<string>, term: string): string
  {
    if items == [] then ""
    else Terminated(items[..|items| - 1], term) + items[|items| - 1] + term
  }

  /** The items with `sep` between neighbours. */
  function Joined(items: seq<string>, sep: string): string
  {
    if items == [] then ""
    else if |items| == 1 then items[0]
    else Joined(items[..|items| - 1], sep) + sep + items[|items| - 1]
  }

  function Copies(x: string, n: nat): (r: seq<string>)
    ensures |r| == n && forall i :: 0 <= i < n ==> r[i] == x
  {
    seq(n, _ => x)
  }

  /** `c = ?` for every column `c`. */
  function Assignments(cols: seq<string>): (r: seq<string>)
    ensures |r| == |cols| && forall i :: 0 <= i < |cols| ==> r[i] == cols[i] + " = ?"
  {
    seq(|cols|, i requires 0 <= i < |cols| => cols[i] + " = ?")
  }

  /** Cutting the last separator off a terminated list leaves the joined list. */
  lemma {:induction false} TerminatedIsJoinedThenTerm(items: seq<string>, sep: string)
    requires |items| > 0
    ensures Terminated(items, sep) == Joined(items, sep) + sep
  {
    if |items| > 1 {
      TerminatedIsJoinedThenTerm(items[..|items| - 1], sep);
    } else {
      assert items[..0] == [];
    }
  }

  /** A buffer that ends with the separator has its last one at the end. */
  lemma LastSeparatorAtEnd(prefix: string, sep: string)
    requires |sep| > 0
    ensures LastIndexOf(prefix + sep, sep) == |prefix|
  {
    assert (prefix + sep)[|prefix|..|prefix| + |sep|] == sep;
    assert OccursAt(prefix + sep, sep, |prefix|);
  }

  /** `substring(0, lastIndexOf(sep))` of a buffer ending in `sep` drops
      exactly that final separator. */
  lemma CutAtLastSeparator(prefix: string, sep: string)
    requires |sep| > 0
    ensures Before(prefix + sep, LastIndexOf(prefix + sep, sep)) == Some(prefix)
  {
    LastSeparatorAtEnd(prefix, sep);
    assert (prefix + sep)[..|prefix|] == prefix;
  }

  /** Cutting a non-empty terminated list at its last separator leaves the
      joined list. */
  lemma CutTerminated(head: string, items: seq<string>, sep: string)
    requires |items| > 0 && |sep| > 0
    ensures Before(head + Terminated(items, sep), LastIndexOf(head + Terminated(items, sep), sep))
         == Some(head + Joined(items, sep))
  {
    TerminatedIsJoinedThenTerm(items, sep);
    assert head + Terminated(items, sep) == (head + Joined(items, sep)) + sep;
    CutAtLastSeparator(head + Joined(items, sep), sep);
  }

  // ---------------------------------------------------------------------
  // Statement builders, as the Java code computes them

  const InsertHead := "INSERT INTO "
  const UpdateHead := "UPDATE "
  const DeleteHead := "DELETE FROM "

  /** `buildInsertStatement`: the text handed to `prepareStatement`, or None
      where one of the two `substring(0, lastIndexOf(", "))` calls throws. */
  function InsertText(table: string, cols: seq<string>): (r: Option<string>)
  {
    var columnsPart := InsertHead + table + " (" + Terminated(cols, ", ");
    match Before(columnsPart, LastIndexOf(columnsPart, ", "))
    case None => None
    case Some(cut) => ValuesText(cut + ") VALUES (" + Terminated(Copies("?", |cols|), ", "))
  }

  /** The second half of `buildInsertStatement`: the buffer of "?, " after
      the column list, cut at its last ", " and closed. */
  function ValuesText(valuesPart: string): (r: Option<string>)
    ensures r.None? <==> forall j :: !OccursAt(valuesPart, ", ", j)
    ensures r.Some? ==> |r.value| > 0 && r.value[|r.value| - 1] == ')'
                        && r.value[..|r.value| - 1] + ", " <= valuesPart
  {
    match Before(valuesPart, LastIndexOf(valuesPart, ", "))
    case None => None
    case Some(cut) => Some(cut + ")")
  }

  /** `buildUpdateStatement`; a null `whereField` is appended as "null". */
  function UpdateText(table: string, cols: seq<string>, whereField: Option<string>): (r: Option<string>)
    ensures r.Some? ==> |r.value| >= 4 && r.value[|r.value| - 4..] == " = ?"
  {
    var setPart := UpdateHead + table + " SET " + Terminated(Assignments(cols), ", ");
    match Before(setPart, LastIndexOf(setPart, ", "))
    case None => None
    case Some(cut) => Some(cut + " WHERE " + JavaText(whereField) + " = ?")
  }

  /** `buildDeleteStatement`: with a null `whereField` there is no WHERE
      clause, so the statement deletes every row of the table. */
  function DeleteText(table: string, whereField: Option<string>): (r: string)
    ensures whereField.None? ==> r == DeleteHead + table
    ensures whereField.Some? ==> r == DeleteHead + table + " WHERE " + whereField.value + " = ?"
  {
    if whereField.Some? then DeleteHead + table + " WHERE " + whereField.value + " = ?"
    else DeleteHead + table
  }

  /** Appends every item followed by `term` to the buffer, one item per
      iteration, as the builders' `while`/`for` loops do. */
  method AppendTerminated(head: string, items: seq<string>, term: string) returns (buf: string)
    ensures buf == head + Terminated(items, term)
  {
    buf := head;
    var i := 0;
    while i < |items|
      invariant 0 <= i <= |items|
      invariant buf == head + Terminated(items[..i], term)
    {
      TerminatedStep(items, i, term);
      buf := buf + items[i] + term;
      i := i + 1;
    }
    assert items[..|items|] == items;
  }

  /** The builder for INSERT: the column loop, the first cut, the
      placeholder loop and the second cut. */
  method BuildInsertText(table: string, cols: seq<string>) returns (sql: Option<string>)
    ensures sql == InsertText(table, cols)
  {
    var buf := AppendTerminated(InsertHead + table + " (", cols, ", ");
    var k := LastIndexOf(buf, ", ");
    if k < 0 {
      return None;
    }
    InsertTextAfterCut(table, cols, buf[..k]);
    buf := AppendTerminated(buf[..k] + ") VALUES (", Copies("?", |cols|), ", ");
    sql := ValuesText(buf);
  }

  /** One more item appended to a terminated prefix of a list. */
  lemma TerminatedStep(items: seq<string>, i: nat, term: string)
    requires i < |items|
    ensures Terminated(items[..i + 1], term) == Terminated(items[..i], term) + items[i] + term
  {
    assert items[..i + 1][..i] == items[..i];
  }

  /** Once the column list is cut, the insert text is what the second cut
      makes of the placeholder list. */
  lemma InsertTextAfterCut(table: string, cols: seq<string>, cut: string)
    requires var columnsPart := InsertHead + table + " (" + Terminated(cols, ", ");
      Before(columnsPart, LastIndexOf(columnsPart, ", ")) == Some(cut)
    ensures InsertText(table, cols) == ValuesText(cut + ") VALUES (" + Terminated(Copies("?", |cols|), ", "))
  {
  }

  /** The builder for UPDATE: the assignment loop, the cut and the WHERE
      suffix. */
  method BuildUpdateText(table: string, cols: seq<string>, whereField: Option<string>) returns (sql: Option<string>)
    ensures sql == UpdateText(table, cols, whereField)
  {
    var buf := AppendTerminated(UpdateHead + table + " SET ", Assignments(cols), ", ");
    var k := LastIndexOf(buf, ", ");
    if k < 0 {
      return None;
    }
    sql := Some(buf[..k] + " WHERE " + JavaText(whereField) + " = ?");
  }

  // ---------------------------------------------------------------------
  // What the builders produce

  /** INSERT INTO t (c1, ..., cn) VALUES (?, ..., ?) for a non-empty column list. */
  lemma InsertTextShape(table: string, cols: seq<string>)
    requires |cols| > 0
    ensures InsertText(table, cols)
         == Some(InsertHead + table + " (" + Joined(cols, ", ") + ") VALUES ("
                 + Joined(Copies("?", |cols|), ", ") + ")")
  {
    var cut := InsertHead + table + " (" + Joined(cols, ", ");
    CutTerminated(InsertHead + table + " (", cols, ", ");
    CutTerminated(cut + ") VALUES (", Copies("?", |cols|), ", ");
  }

  /** With no columns and no comma in the table name, the first
      `substring(0, -1)` throws. */
  lemma InsertTextNoColumns(table: string)
    requires ',' !in table
    ensures InsertText(table, []) == None
  {
    var s := InsertHead + table + " (";
    assert InsertHead + table + " (" + Terminated([], ", ") == s;
    assert ',' !in s;
    CommaFreeHasNoSeparator(s);
  }

  /** UPDATE t SET c1 = ?, ..., cn = ? WHERE w = ? for a non-empty column list. */
  lemma UpdateTextShape(table: string, cols: seq<string>, whereField: Option<string>)
    requires |cols| > 0
    ensures UpdateText(table, cols, whereField)
         == Some(UpdateHead + table + " SET " + Joined(Assignments(cols), ", ")
                 + " WHERE " + JavaText(whereField) + " = ?")
  {
    CutTerminated(UpdateHead + table + " SET ", Assignments(cols), ", ");
  }

  /** With no columns and no comma in the table name, the update text
      cannot be built. */
  lemma UpdateTextNoColumns(table: string, whereField: Option<string>)
    requires ',' !in table
    ensures UpdateText(table, [], whereField) == None
  {
    var s := UpdateHead + table + " SET ";
    assert UpdateHead + table + " SET " + Terminated(Assignments([]), ", ") == s;
    assert ',' !in s;
    CommaFreeHasNoSeparator(s);
  }

  /** A string without a comma has no ", " in it. */
  lemma CommaFreeHasNoSeparator(s: string)
    requires ',' !in s
    ensures LastIndexOf(s, ", ") == -1
  {
    forall j | 0 <= j && j + 2 <= |s|
      ensures !OccursAt(s, ", ", j)
    {
      assert s[j] in s;
      assert s[j..j + 2][0] == s[j];
    }
  }

  /** When only the ", " before `rest` separates, the cut keeps what precedes it. */
  lemma CutAtSeparatorBefore(prefix: string, rest: string)
    requires ',' !in rest
    ensures Before(prefix + ", " + rest, LastIndexOf(prefix + ", " + rest, ", ")) == Some(prefix)
  {
    var s := prefix + ", " + rest;
    var p := |prefix|;
    assert s[p..p + 2] == ", ";
    forall j | p < j && j + 2 <= |s|
      ensures !OccursAt(s, ", ", j)
    {
      if j == p + 1 {
        assert s[j] == ' ';
      } else {
        assert s[j] == rest[j - p - 2];
        assert rest[j - p - 2] in rest;
      }
      assert s[j..j + 2][0] == s[j];
    }
    var k := LastIndexOf(s, ", ");
    assert k == p by {
      assert OccursAt(s, ", ", p);
    }
    assert s[..p] == prefix;
  }

  /** A table name holding one ", " (and no other comma) with no columns:
      the first cut lands inside the name, which leaves no ", " for the
      second cut, so the insert builder still throws. */
  lemma InsertTextOneSeparatorTable(a: string, b: string)
    requires ',' !in a && ',' !in b
    ensures InsertText(a + ", " + b, []) == None
  {
    assert InsertHead + (a + ", " + b) + " (" + Terminated([], ", ")
        == (InsertHead + a) + ", " + (b + " (");
    CutAtSeparatorBefore(InsertHead + a, b + " (");
    var valuesPart := InsertHead + a + ") VALUES (" + Terminated(Copies("?", 0), ", ");
    assert valuesPart == InsertHead + a + ") VALUES (";
    CommaFreeHasNoSeparator(valuesPart);
  }

  /** A table name holding two ", " with no columns: each cut removes one
      of them, and the insert builder yields a text. */
  lemma InsertTextTwoSeparatorTable(a: string, b: string, c: string)
    requires ',' !in b && ',' !in c
    ensures InsertText(a + ", " + b + ", " + c, []) == Some(InsertHead + a + ")")
  {
    assert InsertHead + (a + ", " + b + ", " + c) + " (" + Terminated([], ", ")
        == (InsertHead + a + ", " + b) + ", " + (c + " (");
    CutAtSeparatorBefore(InsertHead + a + ", " + b, c + " (");
    var valuesPart := InsertHead + a + ", " + b + ") VALUES (" + Terminated(Copies("?", 0), ", ");
    assert valuesPart == (InsertHead + a) + ", " + (b + ") VALUES (");
    CutAtSeparatorBefore(InsertHead + a, b + ") VALUES (");
  }

  /** A table name holding one ", " and ending in a comma, with no columns:
      the final comma and the space of " (" form the second separator, so
      the insert builder yields a text. */
  lemma InsertTextTrailingCommaTable(a: string, b: string)
    requires ',' !in b
    ensures InsertText(a + ", " + b + ",", []) == Some(InsertHead + a + ")")
  {
    assert InsertHead + (a + ", " + b + ",") + " (" + Terminated([], ", ")
        == (InsertHead + a + ", " + b) + ", " + "(";
    CutAtSeparatorBefore(InsertHead + a + ", " + b, "(");
    var valuesPart := InsertHead + a + ", " + b + ") VALUES (" + Terminated(Copies("?", 0), ", ");
    assert valuesPart == (InsertHead + a) + ", " + (b + ") VALUES (");
    CutAtSeparatorBefore(InsertHead + a, b + ") VALUES (");
  }

  /** A table name ending in a comma, with no columns: the comma and the
      space of " SET " form a separator, so the update builder yields a
      text. */
  lemma UpdateTextTrailingCommaTable(a: string, whereField: Option<string>)
    ensures UpdateText(a + ",", [], whereField)
         == Some(UpdateHead + a + " WHERE " + JavaText(whereField) + " = ?")
  {
    assert UpdateHead + (a + ",") + " SET " + Terminated(Assignments([]), ", ")
        == (UpdateHead + a) + ", " + "SET ";
    CutAtSeparatorBefore(UpdateHead + a, "SET ");
  }

  /** A table name holding ", " with no columns: the update builder cuts at
      the name's last ", " and yields a text. */
  lemma UpdateTextSeparatorTable(a: string, b: string, whereField: Option<string>)
    requires ',' !in b
    ensures UpdateText(a + ", " + b, [], whereField)
         == Some(UpdateHead + a + " WHERE " + JavaText(whereField) + " = ?")
  {
    assert UpdateHead + (a + ", " + b) + " SET " + Terminated(Assignments([]), ", ")
        == (UpdateHead + a) + ", " + (b + " SET ");
    CutAtSeparatorBefore(UpdateHead + a, b + " SET ");
  }

  // ---------------------------------------------------------------------
  // Placeholder counts

  /** The number of '?' characters in `s`. */
  function Marks(s: string): nat
  {
    if s == [] then 0 else (if s[0] == '?' then 1 else 0) + Marks(s[1..])
  }

  lemma {:induction false} MarksConcat(a: string, b: string)
    ensures Marks(a + b) == Marks(a) + Marks(b)
  {
    if a == [] {
      assert a + b == b;
    } else {
      assert (a + b)[1..] == a[1..] + b;
      MarksConcat(a[1..], b);
    }
  }

  lemma {:induction false} MarksAbsent(s: string)
    requires '?' !in s
    ensures Marks(s) == 0
  {
    if s != [] {
      assert forall ch :: ch in s[1..] ==> ch in s;
      MarksAbsent(s[1..]);
    }
  }

  /** Joining items of one mark each with a mark-free separator gives one
      mark per item; items without marks give none. */
  lemma {:induction false} MarksJoined(items: seq<string>, sep: string, m: nat)
    requires m <= 1 && Marks(sep) == 0
    requires forall x :: x in items ==> Marks(x) == m
    ensures Marks(Joined(items, sep)) == m * |items|
  {
    if |items| > 1 {
      var front := items[..|items| - 1];
      assert forall x :: x in front ==> x in items;
      MarksJoined(front, sep, m);
      MarksConcat(Joined(front, sep) + sep, items[|items| - 1]);
      MarksConcat(Joined(front, sep), sep);
    }
  }

  lemma MarkOfPlaceholder()
    ensures Marks(" = ?") == 1
  {
    MarksAbsent(" = ");
    MarksConcat(" = ", "?");
    assert " = " + "?" == " = ?";
  }

  lemma MarksOfAssignment(c: string)
    requires '?' !in c
    ensures Marks(c + " = ?") == 1
  {
    MarksAbsent(c);
    MarkOfPlaceholder();
    MarksConcat(c, " = ?");
  }

  /** The '?' count of the insert shape, part by part. */
  lemma MarksOfInsertShape(table: string, names: string, marks: string)
    requires '?' !in table && Marks(names) == 0
    ensures Marks(InsertHead + table + " (" + names + ") VALUES (" + marks + ")") == Marks(marks)
  {
    var s3 := InsertHead + table + " (" + names;
    MarksOfHead(table, names);
    assert Marks(s3) == 0;
    var s4 := s3 + ") VALUES (";
    MarksAbsent(") VALUES (");
    MarksConcat(s3, ") VALUES (");
    assert Marks(s4) == 0;
    var s5 := s4 + marks;
    MarksConcat(s4, marks);
    MarksAbsent(")");
    MarksConcat(s5, ")");
  }

  /** The part of the insert text before the placeholders has no '?'. */
  lemma MarksOfHead(table: string, names: string)
    requires '?' !in table && Marks(names) == 0
    ensures Marks(InsertHead + table + " (" + names) == 0
  {
    MarksAbsent(table);
    MarksAbsent(InsertHead);
    MarksAbsent(" (");
    var s1 := InsertHead + table;
    MarksConcat(InsertHead, table);
    var s2 := s1 + " (";
    MarksConcat(s1, " (");
    MarksConcat(s2, names);
  }

  /** The INSERT text has one placeholder per column (when no name contains
      a '?' of its own). */
  lemma InsertPlaceholders(table: string, cols: seq<string>)
    requires |cols| > 0
    requires '?' !in table && forall c :: c in cols ==> '?' !in c
    ensures InsertText(table, cols).Some?
    ensures Marks(InsertText(table, cols).value) == |cols|
  {
    InsertTextShape(table, cols);
    forall c | c in cols ensures Marks(c) == 0 { MarksAbsent(c); }
    MarksJoined(cols, ", ", 0);
    MarksJoined(Copies("?", |cols|), ", ", 1);
    MarksOfInsertShape(table, Joined(cols, ", "), Joined(Copies("?", |cols|), ", "));
  }

  /** The UPDATE text has one placeholder per column plus the WHERE one. */
  lemma UpdatePlaceholders(table: string, cols: seq<string>, whereField: Option<string>)
    requires |cols| > 0
    requires '?' !in table && '?' !in JavaText(whereField)
    requires forall c :: c in cols ==> '?' !in c
    ensures UpdateText(table, cols, whereField).Some?
    ensures Marks(UpdateText(table, cols, whereField).value) == |cols| + 1
  {
    UpdateTextShape(table, cols, whereField);
    var assigns := Assignments(cols);
    forall x | x in assigns ensures Marks(x) == 1 {
      var i :| 0 <= i < |cols| && assigns[i] == x;
      MarksOfAssignment(cols[i]);
    }
    MarksJoined(assigns, ", ", 1);
    MarksOfUpdateShape(table, Joined(assigns, ", "), JavaText(whereField));
  }

  /** The '?' count of the update shape, part by part. */
  lemma MarksOfUpdateShape(table: string, sets: string, where: string)
    requires '?' !in table && '?' !in where
    ensures Marks(UpdateHead + table + " SET " + sets + " WHERE " + where + " = ?") == Marks(sets) + 1
  {
    var a := UpdateHead + table + " SET ";
    MarksAbsent(table);
    MarksAbsent(UpdateHead);
    MarksAbsent(" SET ");
    MarksConcat(UpdateHead, table);
    MarksConcat(UpdateHead + table, " SET ");
    assert Marks(a) == 0;
    var b := a + sets + " WHERE ";
    MarksAbsent(" WHERE ");
    MarksConcat(a, sets);
    MarksConcat(a + sets, " WHERE ");
    assert Marks(b) == Marks(sets);
    MarksAbsent(where);
    MarkOfPlaceholder();
    MarksConcat(b, where);
    MarksConcat(b + where, " = ?");
  }

  /** The fixed parts of the DELETE text hold no placeholder. */
  lemma DeleteKeywordsHaveNoMarks()
    ensures Marks(DeleteHead) == 0 && Marks(" WHERE ") == 0
  {
    assert '?' !in DeleteHead && '?' !in " WHERE ";
    MarksAbsent(DeleteHead);
    MarksAbsent(" WHERE ");
  }

  /** The DELETE text has one placeholder with a where field and none
      without one. */
  lemma DeletePlaceholders(table: string, whereField: Option<string>)
    requires '?' !in table && (whereField.Some? ==> '?' !in whereField.value)
    ensures Marks(DeleteText(table, whereField)) == if whereField.Some? then 1 else 0
  {
    var head := DeleteHead + table;
    DeleteKeywordsHaveNoMarks();
    MarksAbsent(table);
    MarksConcat(DeleteHead, table);
    if whereField.Some? {
      var w := whereField.value;
      var clause := head + " WHERE ";
      MarksConcat(head, " WHERE ");
      MarksAbsent(w);
      MarksConcat(clause, w);
      MarkOfPlaceholder();
      MarksConcat(clause + w, " = ?");
      assert DeleteText(table, whereField) == clause + w + " = ?";
    } else {
      assert DeleteText(table, whereField) == head;
    }
  }

  // ---------------------------------------------------------------------
  // getRecordWhere / getRecordsWhere

  /** The SELECT of the two "where" lookups. The value is pasted into the
      text: quoted when it is a String, as `String.valueOf` otherwise, and
      never bound as a parameter. */
  function WhereText(table: string, field: Option<string>, value: Value): (q: string)
    ensures "SELECT * FROM " + table + " WHERE " + JavaText(field) + "=" <= q
  {
    var condition := if value.Str? then "= '" + value.s + "'" else "=" + Render(value);
    "SELECT * FROM " + table + " WHERE " + JavaText(field) + condition
  }

  /** A String value is written between single quotes, after "= ". */
  lemma WhereTextQuoted(table: string, field: Option<string>, s: string)
    ensures WhereText(table, field, Str(s))
         == "SELECT * FROM " + table + " WHERE " + JavaText(field) + "= '" + s + "'"
  {
  }

  /** Any other value, null included, is written unquoted right after "=". */
  lemma WhereTextUnquoted(table: string, field: Option<string>, value: Value)
    requires !value.Str?
    ensures WhereText(table, field, value)
         == "SELECT * FROM " + table + " WHERE " + JavaText(field) + "=" + Render(value)
    ensures value == Null
        ==> WhereText(table, field, value) == "SELECT * FROM " + table + " WHERE " + JavaText(field) + "=null"
  {
  }

  /** A String value is spliced in verbatim, so it can close the quote and
      add any condition of its own. */
  lemma WhereTextInjection(table: string, field: string, condition: string)
    ensures WhereText(table, Some(field), Str("' OR " + condition + " OR ''='"))
         == "SELECT * FROM " + table + " WHERE " + field + "= '' OR " + condition + " OR ''=''"
  {
  }

  /** An Integer or Long contributes only digits and a sign: it cannot
      change the shape of the query. */
  lemma WhereTextNumeric(table: string, field: Option<string>, value: Value)
    requires value.Int32? || value.Int64?
    ensures var head := "SELECT * FROM " + table + " WHERE " + JavaText(field) + "=";
      && head <= WhereText(table, field, value)
      && forall ch :: ch in WhereText(table, field, value)[|head|..] ==> ch == '-' || '0' <= ch <= '9'
  {
    var head := "SELECT * FROM " + table + " WHERE " + JavaText(field) + "=";
    WhereTextUnquoted(table, field, value);
    assert WhereText(table, field, value)[|head|..] == Render(value);
  }
}
