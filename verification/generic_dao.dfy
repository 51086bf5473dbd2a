/** `GenericDAO<T>`: argument checks, connection-per-call use of an
    accessor, and conversion between entities and records through two
    hooks that each concrete DAO supplies. */
module Dao {
  import opened Base
  import opened Faults
  import opened Data
  import Statements
  import Binding

  /** A call the DAO makes on the `DBAccessor` interface. */
  datatype Call =
    | OpenConnection
    | InsertRecord(table: string, fields: Record, closeAfter: bool)
    | UpdateRecords(table: string, fields: Record, whereField: Option<string>, whereValue: Value, closeAfter: bool)
    | DeleteRecords(table: string, whereField: Option<string>, whereValue: Value, closeAfter: bool)
    | GetRecordWhere(table: string, field: string, value: Value, closeAfter: bool)
    | GetRecordsWhere(table: string, field: string, value: Value, closeAfter: bool)
    | FindRecordsFromSql(sql: string, closeAfter: bool)
    | UpdateRecordsFromSql(sql: string, closeAfter: bool)

  /** How the accessor answers a call: it throws, or it returns. `record` is
      what `getRecordWhere` returns (None for null), `rows` what the
      list-returning calls return; the DAO ignores every other result. */
  datatype Reply = Threw(fault: Fault) | Returned(record: Option<Record>, rows: seq<Record>)

  /** The accessor as the DAO sees it: an implementation of `DBAccessor`
      whose behaviour is given by `answer` (a function of the calls made so
      far and the new call) and which records every call. */
  class DbAccessor {
    var log: seq<Call>
    const answer: (seq<Call>, Call) -> Reply

    constructor (answer: (seq<Call>, Call) -> Reply)
      ensures log == [] && this.answer == answer
    {
      log := [];
      this.answer := answer;
    }

    method Perform(c: Call) returns (reply: Reply)
      modifies this
      ensures log == old(log) + [c]
      ensures reply == answer(old(log), c)
    {
      reply := answer(log, c);
      log := log + [c];
    }
  }

  /** The calls one DAO operation makes, and the reply that settles it. */
  datatype Exchange = Exchange(calls: seq<Call>, reply: Reply)

  /** `db.openConnection()` and, unless it throws, the operation's call. */
  function OpenThen(answer: (seq<Call>, Call) -> Reply, log: seq<Call>, call: Call): (ex: Exchange)
    ensures ex.calls == [OpenConnection] || ex.calls == [OpenConnection, call]
    ensures |ex.calls| == 1 <==> answer(log, OpenConnection).Threw?
  {
    var first := answer(log, OpenConnection);
    if first.Threw? then Exchange([OpenConnection], first)
    else Exchange([OpenConnection, call], answer(log + [OpenConnection], call))
  }

  /** The statement `save` issues for a record already stripped of nulls:
      an insert without the primary key when the key is absent or null,
      otherwise an update keyed on it. */
  function SaveCall(table: string, fields: Record, primaryKey: string): (c: Call)
    ensures c.InsertRecord? <==> !HasKey(fields, primaryKey) || Get(fields, primaryKey) == Null
    ensures c.InsertRecord? || c.UpdateRecords?
    ensures c.table == table && c.closeAfter
    ensures c.InsertRecord? ==> !HasKey(c.fields, primaryKey)
    ensures c.UpdateRecords? ==> c.fields == fields && c.whereField == Some(primaryKey)
    ensures c.UpdateRecords? ==> c.whereValue != Null && (primaryKey, c.whereValue) in fields
  {
    if !HasKey(fields, primaryKey) || Get(fields, primaryKey) == Null
    then InsertRecord(table, RemoveKey(fields, primaryKey), true)
    else UpdateRecords(table, fields, Some(primaryKey), Get(fields, primaryKey), true)
  }

  /** The stripping loop of `save`: walks the keys and removes, in place,
      every entry whose value is null. */
  method RemoveNullFields(fields: Record) returns (kept: Record)
    ensures kept == NonNullFields(fields)
  {
    var current := fields;
    var i := 0;
    ghost var j := 0;
    while i < |current|
      invariant 0 <= j <= |fields|
      invariant i == |NonNullFields(fields[..j])|
      invariant current == NonNullFields(fields[..j]) + fields[j..]
      decreases |current| - i
    {
      StripStep(fields, j, current, i);
      if current[i].1 == Null {
        current := current[..i] + current[i + 1..];
      } else {
        i := i + 1;
      }
      j := j + 1;
    }
    assert fields[..j] == fields;
    kept := current;
  }

  /** One step of the stripping loop: the entry under the cursor is the next
      input entry; removing it when null, or stepping over it otherwise,
      keeps "stripped prefix, then untouched rest". */
  lemma StripStep(fields: Record, j: nat, current: Record, i: nat)
    requires i < |current| && j <= |fields|
    requires i == |NonNullFields(fields[..j])|
    requires current == NonNullFields(fields[..j]) + fields[j..]
    ensures j < |fields| && current[i] == fields[j]
    ensures current[i].1 == Null ==>
      && UniqueKeys(current[..i] + current[i + 1..])
      && i == |NonNullFields(fields[..j + 1])|
      && current[..i] + current[i + 1..] == NonNullFields(fields[..j + 1]) + fields[j + 1..]
    ensures current[i].1 != Null ==>
      && i + 1 == |NonNullFields(fields[..j + 1])|
      && current == NonNullFields(fields[..j + 1]) + fields[j + 1..]
  {
    var done := NonNullFields(fields[..j]);
    assert |current| == i + |fields[j..]|;
    assert j < |fields|;
    NonNullFieldsStep(fields, j);
    assert fields[j..] == [fields[j]] + fields[j + 1..];
    if current[i].1 == Null {
      DropKeepsUnique(current, i);
      assert current[..i] + current[i + 1..] == done + fields[j + 1..];
    } else {
      assert current == (done + [fields[j]]) + fields[j + 1..];
    }
  }

  /** One more entry of the input adds itself to the stripped record unless
      its value is null. */
  lemma NonNullFieldsStep(fields: Record, j: nat)
    requires j < |fields|
    ensures NonNullFields(fields[..j + 1])
         == NonNullFields(fields[..j]) + (if fields[j].1 == Null then [] else [fields[j]])
  {
    assert fields[..j + 1][..j] == fields[..j];
  }

  /** A payload drawn from the non-null entries of `raw` has no null value,
      and no '?' in its column names when `raw` has none. */
  lemma PayloadClean(raw: Record, payload: Record)
    requires forall p :: p in payload ==> p in raw && p.1 != Null
    requires forall p :: p in raw ==> '?' !in p.0
    ensures Null !in Values(payload)
    ensures forall x :: x in Columns(payload) ==> '?' !in x
  {
    forall i | 0 <= i < |payload| ensures Values(payload)[i] != Null && '?' !in Columns(payload)[i] {
      assert payload[i] in payload;
    }
  }

  /** `save` inserts exactly when the entity's record has no primary key or
      a null one; the insert carries every non-null entry except the key,
      the update every non-null entry, the key included, keyed on its value. */
  lemma SaveDecision(raw: Record, table: string, primaryKey: string)
    ensures var c := SaveCall(table, NonNullFields(raw), primaryKey);
      && (c.InsertRecord? <==> !HasKey(raw, primaryKey) || Get(raw, primaryKey) == Null)
      && (c.InsertRecord? || c.UpdateRecords?)
      && c.table == table && c.closeAfter
      && (c.InsertRecord? ==> forall p :: p in c.fields <==> p in raw && p.1 != Null && p.0 != primaryKey)
      && (c.UpdateRecords? ==>
            && c.whereField == Some(primaryKey)
            && c.whereValue == Get(raw, primaryKey) != Null
            && (primaryKey, c.whereValue) in c.fields
            && forall p :: p in c.fields <==> p in raw && p.1 != Null)
  {
    var kept := NonNullFields(raw);
    if HasKey(raw, primaryKey) && Get(raw, primaryKey) != Null {
      var v := Get(raw, primaryKey);
      assert (primaryKey, v) in kept;
      GetFindsEntry(kept, primaryKey, v);
    } else if HasKey(kept, primaryKey) {
      var w := Get(kept, primaryKey);
      assert (primaryKey, w) in raw;
      GetFindsEntry(raw, primaryKey, w);
    }
  }

  /** The fields `save` hands to `insertRecord` hold no null value, so every
      placeholder of the INSERT text gets exactly one bind. */
  lemma SaveInsertBindsEveryPlaceholder(raw: Record, table: string, primaryKey: string)
    requires '?' !in table && forall p :: p in raw ==> '?' !in p.0
    requires SaveCall(table, NonNullFields(raw), primaryKey).InsertRecord?
    requires SaveCall(table, NonNullFields(raw), primaryKey).fields != []
    ensures var payload := SaveCall(table, NonNullFields(raw), primaryKey).fields;
      && Statements.InsertText(table, Columns(payload)).Some?
      && Statements.Marks(Statements.InsertText(table, Columns(payload)).value)
         == |Binding.BindAll(Binding.InsertChain, Values(payload))|
         == |payload|
  {
    SaveDecision(raw, table, primaryKey);
    var payload := SaveCall(table, NonNullFields(raw), primaryKey).fields;
    PayloadClean(raw, payload);
    Statements.InsertPlaceholders(table, Columns(payload));
    Binding.BindsCoverAllValues(Binding.InsertChain, Values(payload));
  }

  /** The update `save` issues binds every SET placeholder and then the
      key's value into the WHERE placeholder, the last one. */
  lemma SaveUpdateBindsEveryPlaceholder(raw: Record, table: string, primaryKey: string)
    requires '?' !in table && '?' !in primaryKey && forall p :: p in raw ==> '?' !in p.0
    requires HasKey(raw, primaryKey) && Get(raw, primaryKey) != Null
    ensures var c := SaveCall(table, NonNullFields(raw), primaryKey);
      var binds := Binding.BindAll(Binding.UpdateChain, Values(c.fields) + [c.whereValue]);
      && c.fields != []
      && Statements.UpdateText(table, Columns(c.fields), c.whereField).Some?
      && Statements.Marks(Statements.UpdateText(table, Columns(c.fields), c.whereField).value)
         == |binds| == |c.fields| + 1
      && binds[|binds| - 1].index == |binds|
      && binds[|binds| - 1].value == c.whereValue
  {
    SaveDecision(raw, table, primaryKey);
    var c := SaveCall(table, NonNullFields(raw), primaryKey);
    var payload := c.fields;
    var vals := Values(payload);
    assert (primaryKey, c.whereValue) in payload;
    PayloadClean(raw, payload);
    Statements.UpdatePlaceholders(table, Columns(payload), c.whereField);
    Binding.UpdateBindsWhereLast(vals, c.whereValue);
    Binding.BindsCoverAllValues(Binding.UpdateChain, vals);
  }

  /** `save`'s guard passes: table and key name are non-null and non-empty,
      and there is an entity. */
  predicate SaveArgsOk<E>(table: Option<string>, entity: Option<E>, primaryKey: Option<string>): (ok: bool)
    ensures ok <==> table.Some? && |table.value| > 0 && entity.Some?
                    && primaryKey.Some? && |primaryKey.value| > 0
  {
    Present(table) && entity.Some? && Present(primaryKey)
  }

  /** The guard of `findWhere` and `findAllWhere` passes: table and field
      name are non-null and non-empty, and the value is not null. */
  predicate LookupArgsOk(table: Option<string>, field: Option<string>, value: Value): (ok: bool)
    ensures ok <==> table.Some? && |table.value| > 0 && field.Some? && |field.value| > 0
                    && value != Null
  {
    Present(table) && Present(field) && value != Null
  }

  class GenericDao<E> {
    var db: DbAccessor?
    /** The two hooks of a concrete DAO: `entityFromMap`, `mapFromEntity`. */
    const entityFromMap: Record -> E
    const mapFromEntity: E -> Record

    constructor (entityFromMap: Record -> E, mapFromEntity: E -> Record)
      ensures db == null
      ensures this.entityFromMap == entityFromMap && this.mapFromEntity == mapFromEntity
    {
      db := null;
      this.entityFromMap := entityFromMap;
      this.mapFromEntity := mapFromEntity;
    }

    /** `GenericDAO(db)`: stores the accessor unchecked, null included. */
    constructor WithAccessor(db: DbAccessor?, entityFromMap: Record -> E, mapFromEntity: E -> Record)
      ensures this.db == db
      ensures this.entityFromMap == entityFromMap && this.mapFromEntity == mapFromEntity
    {
      this.db := db;
      this.entityFromMap := entityFromMap;
      this.mapFromEntity := mapFromEntity;
    }

    /** `setDb`: rejects null, otherwise stores the accessor. */
    method SetDb(newDb: DbAccessor?) returns (r: Outcome<Fault>)
      modifies this
      ensures newDb == null ==> r == Fail(IllegalArgument(None)) && db == old(db)
      ensures newDb != null ==> r == Pass && db == newDb
    {
      if newDb == null {
        return Fail(IllegalArgument(None));
      }
      db := newDb;
      r := Pass;
    }

    /** The entities for a list of records: the first record's entity,
        then those of the rest. */
    function EntitiesOf(data: seq<Record>): (es: seq<E>)
      ensures |es| == |data|
      ensures forall i :: 0 <= i < |data| ==> es[i] == entityFromMap(data[i])
    {
      if data == [] then [] else [entityFromMap(data[0])] + EntitiesOf(data[1..])
    }

    /** `entitiesFromMap`. */
    method EntitiesFromMap(dataList: seq<Record>) returns (entities: seq<E>)
      ensures |entities| == |dataList|
      ensures forall i :: 0 <= i < |dataList| ==> entities[i] == entityFromMap(dataList[i])
    {
      entities := [];
      for i := 0 to |dataList|
        invariant |entities| == i
        invariant forall k :: 0 <= k < i ==> entities[k] == entityFromMap(dataList[k])
      {
        entities := entities + [entityFromMap(dataList[i])];
      }
    }

    /** `mapsFromEntities`. */
    method MapsFromEntities(entities: seq<E>) returns (maps: seq<Record>)
      ensures |maps| == |entities|
      ensures forall i :: 0 <= i < |entities| ==> maps[i] == mapFromEntity(entities[i])
    {
      maps := [];
      for i := 0 to |entities|
        invariant |maps| == i
        invariant forall k :: 0 <= k < i ==> maps[k] == mapFromEntity(entities[k])
      {
        maps := maps + [mapFromEntity(entities[i])];
      }
    }

    /** `save`: guards, strips null entries, opens a connection and inserts
        or updates; every failure inside the `try` becomes a
        DbAccessException. */
    method Save(table: Option<string>, entity: Option<E>, primaryKey: Option<string>)
      returns (r: Outcome<Fault>)
      modifies db
      ensures !SaveArgsOk(table, entity, primaryKey)
        ==> r == Fail(IllegalArgument(None)) && (db != null ==> db.log == old(db.log))
      ensures SaveArgsOk(table, entity, primaryKey) && db == null
        ==> r == Fail(Caught(NullPointer, true))
      ensures SaveArgsOk(table, entity, primaryKey) && db != null ==>
        var call := SaveCall(table.value, NonNullFields(mapFromEntity(entity.value)), primaryKey.value);
        var ex := OpenThen(db.answer, old(db.log), call);
        && db.log == old(db.log) + ex.calls
        && r == if ex.reply.Threw? then Fail(Caught(ex.reply.fault, true)) else Pass
    {
      if table.None? || table.value == "" || entity.None? || primaryKey.None? || primaryKey.value == "" {
        return Fail(IllegalArgument(None));
      }
      var fields := mapFromEntity(entity.value);
      fields := RemoveNullFields(fields);
      if db == null {
        return Fail(Caught(NullPointer, true));
      }
      var reply := db.Perform(OpenConnection);
      if reply.Threw? {
        return Fail(Caught(reply.fault, true));
      }
      var key := primaryKey.value;
      if !HasKey(fields, key) || Get(fields, key) == Null {
        fields := RemoveKey(fields, key);
        reply := db.Perform(InsertRecord(table.value, fields, true));
      } else {
        reply := db.Perform(UpdateRecords(table.value, fields, primaryKey, Get(fields, key), true));
      }
      r := if reply.Threw? then Fail(Caught(reply.fault, true)) else Pass;
    }

    /** `delete`: only the table name is checked, so a null field name
        reaches `deleteRecords` and deletes every row. */
    method Delete(table: Option<string>, fieldName: Option<string>, fieldValue: Value)
      returns (r: Outcome<Fault>)
      modifies db
      ensures !Present(table) ==> r == Fail(IllegalArgument(None)) && (db != null ==> db.log == old(db.log))
      ensures Present(table) && db == null ==> r == Fail(Caught(NullPointer, true))
      ensures Present(table) && db != null ==>
        var ex := OpenThen(db.answer, old(db.log), DeleteRecords(table.value, fieldName, fieldValue, true));
        && db.log == old(db.log) + ex.calls
        && r == if ex.reply.Threw? then Fail(Caught(ex.reply.fault, true)) else Pass
    {
      if table.None? || table.value == "" {
        return Fail(IllegalArgument(None));
      }
      if db == null {
        return Fail(Caught(NullPointer, true));
      }
      var reply := db.Perform(OpenConnection);
      if reply.Threw? {
        return Fail(Caught(reply.fault, true));
      }
      reply := db.Perform(DeleteRecords(table.value, fieldName, fieldValue, true));
      r := if reply.Threw? then Fail(Caught(reply.fault, true)) else Pass;
    }

    /** `findWhere`: null when the accessor found no row, otherwise the
        entity of the row. Only SQL and driver-loading failures are wrapped. */
    method FindWhere(table: Option<string>, fieldName: Option<string>, fieldValue: Value)
      returns (r: Result<Option<E>, Fault>)
      modifies db
      ensures !LookupArgsOk(table, fieldName, fieldValue)
        ==> r == Failure(IllegalArgument(None)) && (db != null ==> db.log == old(db.log))
      ensures LookupArgsOk(table, fieldName, fieldValue) && db == null
        ==> r == Failure(Caught(NullPointer, false))
      ensures LookupArgsOk(table, fieldName, fieldValue) && db != null ==>
        var ex := OpenThen(db.answer, old(db.log), GetRecordWhere(table.value, fieldName.value, fieldValue, true));
        && db.log == old(db.log) + ex.calls
        && r == match ex.reply
                case Threw(f) => Failure(Caught(f, false))
                case Returned(None, _) => Success(None)
                case Returned(Some(record), _) => Success(Some(entityFromMap(record)))
    {
      if table.None? || table.value == "" || fieldName.None? || fieldName.value == "" || fieldValue == Null {
        return Failure(IllegalArgument(None));
      }
      if db == null {
        return Failure(Caught(NullPointer, false));
      }
      var reply := db.Perform(OpenConnection);
      if reply.Threw? {
        return Failure(Caught(reply.fault, false));
      }
      reply := db.Perform(GetRecordWhere(table.value, fieldName.value, fieldValue, true));
      if reply.Threw? {
        return Failure(Caught(reply.fault, false));
      }
      var record := reply.record;
      if record.None? {
        return Success(None);
      }
      r := Success(Some(entityFromMap(record.value)));
    }

    /** `findAllWhere`: the entity of every matching row, in order. */
    method FindAllWhere(table: Option<string>, fieldName: Option<string>, fieldValue: Value)
      returns (r: Result<seq<E>, Fault>)
      modifies db
      ensures !LookupArgsOk(table, fieldName, fieldValue)
        ==> r == Failure(IllegalArgument(None)) && (db != null ==> db.log == old(db.log))
      ensures LookupArgsOk(table, fieldName, fieldValue) && db == null
        ==> r == Failure(Caught(NullPointer, false))
      ensures LookupArgsOk(table, fieldName, fieldValue) && db != null ==>
        var ex := OpenThen(db.answer, old(db.log), GetRecordsWhere(table.value, fieldName.value, fieldValue, true));
        && db.log == old(db.log) + ex.calls
        && r == if ex.reply.Threw? then Failure(Caught(ex.reply.fault, false))
                else Success(EntitiesOf(ex.reply.rows))
    {
      if table.None? || table.value == "" || fieldName.None? || fieldName.value == "" || fieldValue == Null {
        return Failure(IllegalArgument(None));
      }
      if db == null {
        return Failure(Caught(NullPointer, false));
      }
      var reply := db.Perform(OpenConnection);
      if reply.Threw? {
        return Failure(Caught(reply.fault, false));
      }
      reply := db.Perform(GetRecordsWhere(table.value, fieldName.value, fieldValue, true));
      if reply.Threw? {
        return Failure(Caught(reply.fault, false));
      }
      var entities := EntitiesFromMap(reply.rows);
      assert entities == EntitiesOf(reply.rows);
      r := Success(entities);
    }

    /** `getRecordsFromSQL`: runs a query and converts every row. */
    method GetRecordsFromSql(sql: Option<string>) returns (r: Result<seq<E>, Fault>)
      modifies db
      ensures !Present(sql) ==> r == Failure(IllegalArgument(None)) && (db != null ==> db.log == old(db.log))
      ensures Present(sql) && db == null ==> r == Failure(Caught(NullPointer, true))
      ensures Present(sql) && db != null ==>
        var ex := OpenThen(db.answer, old(db.log), FindRecordsFromSql(sql.value, true));
        && db.log == old(db.log) + ex.calls
        && r == if ex.reply.Threw? then Failure(Caught(ex.reply.fault, true))
                else Success(EntitiesOf(ex.reply.rows))
    {
      if sql.None? || sql.value == "" {
        return Failure(IllegalArgument(None));
      }
      if db == null {
        return Failure(Caught(NullPointer, true));
      }
      var reply := db.Perform(OpenConnection);
      if reply.Threw? {
        return Failure(Caught(reply.fault, true));
      }
      reply := db.Perform(FindRecordsFromSql(sql.value, true));
      if reply.Threw? {
        return Failure(Caught(reply.fault, true));
      }
      var entities := EntitiesFromMap(reply.rows);
      assert entities == EntitiesOf(reply.rows);
      r := Success(entities);
    }

    /** `modifyRecordsFromSQL`: runs an insert, update or delete given as text. */
    method ModifyRecordsFromSql(sql: Option<string>) returns (r: Outcome<Fault>)
      modifies db
      ensures !Present(sql) ==> r == Fail(IllegalArgument(None)) && (db != null ==> db.log == old(db.log))
      ensures Present(sql) && db == null ==> r == Fail(Caught(NullPointer, false))
      ensures Present(sql) && db != null ==>
        var ex := OpenThen(db.answer, old(db.log), UpdateRecordsFromSql(sql.value, true));
        && db.log == old(db.log) + ex.calls
        && r == if ex.reply.Threw? then Fail(Caught(ex.reply.fault, false)) else Pass
    {
      if sql.None? || sql.value == "" {
        return Fail(IllegalArgument(None));
      }
      if db == null {
        return Fail(Caught(NullPointer, false));
      }
      var reply := db.Perform(OpenConnection);
      if reply.Threw? {
        return Fail(Caught(reply.fault, false));
      }
      reply := db.Perform(UpdateRecordsFromSql(sql.value, true));
      r := if reply.Threw? then Fail(Caught(reply.fault, false)) else Pass;
    }
  }
}
