/** The dynamically typed column values the accessor binds, and records:
    the `Map<String, Object>` a row or an entity is turned into. */
module Data {
  import opened Base

  type int32 = x: int | -0x8000_0000 <= x < 0x8000_0000
  type int64 = x: int | -0x8000_0000_0000_0000 <= x < 0x8000_0000_0000_0000

  /** The runtime classes the accessor tells apart. Doubles, dates,
      timestamps and other objects are opaque here: all the model needs of
      them is their `toString()` text. */
  datatype Value =
    | Str(s: string)              // java.lang.String
    | Int32(i: int32)             // java.lang.Integer
    | Int64(l: int64)             // java.lang.Long
    | Dbl(repr: string)           // java.lang.Double
    | SqlDate(repr: string)       // java.sql.Date
    | Timestamp(repr: string)     // java.sql.Timestamp
    | Bool(b: bool)               // java.lang.Boolean
    | Other(repr: string)         // any other class
    | Null                        // a null reference

  /** The decimal digits of a non-negative number. */
  function Digits(n: nat): (r: string)
    ensures |r| > 0
    ensures forall ch :: ch in r ==> '0' <= ch <= '9'
  {
    var last := ('0' as int + n % 10) as char;
    if n < 10 then [last] else Digits(n / 10) + [last]
  }

  /** `Integer.toString` / `Long.toString`. */
  function DecimalText(n: int): (r: string)
    ensures forall ch :: ch in r ==> ch == '-' || '0' <= ch <= '9'
  {
    if n < 0 then "-" + Digits(-n) else Digits(n)
  }

  /** `String.valueOf(v)`: what string concatenation makes of a value. */
  function Render(v: Value): (r: string)
    ensures v == Null ==> r == "null"
    ensures v.Str? ==> r == v.s
    ensures v.Int32? || v.Int64? ==> forall ch :: ch in r ==> ch == '-' || '0' <= ch <= '9'
  {
    match v
    case Str(s) => s
    case Int32(i) => DecimalText(i)
    case Int64(l) => DecimalText(l)
    case Dbl(repr) => repr
    case SqlDate(repr) => repr
    case Timestamp(repr) => repr
    case Bool(b) => if b then "true" else "false"
    case Other(repr) => repr
    case Null => "null"
  }

  /** A `Map<String, Object>` listed in its iteration order. `keySet()` and
      `values()` of one map iterate in the same order, which is what lets
      the accessor pair the i-th column with the i-th value. */
  type Record = r: seq<(string, Value)> | UniqueKeys(r)

  ghost predicate UniqueKeys(r: seq<(string, Value)>)
  {
    forall i, j :: 0 <= i < j < |r| ==> r[i].0 != r[j].0
  }

  /** `new ArrayList(fields.keySet())`. */
  function Columns(r: seq<(string, Value)>): (cols: seq<string>)
    ensures |cols| == |r|
    ensures forall i :: 0 <= i < |r| ==> cols[i] == r[i].0
  {
    seq(|r|, i requires 0 <= i < |r| => r[i].0)
  }

  /** `fields.values()` in iteration order. */
  function Values(r: seq<(string, Value)>): (vals: seq<Value>)
    ensures |vals| == |r|
    ensures forall i :: 0 <= i < |r| ==> vals[i] == r[i].1
  {
    seq(|r|, i requires 0 <= i < |r| => r[i].1)
  }

  /** `containsKey`. */
  predicate HasKey(r: seq<(string, Value)>, k: string)
    ensures HasKey(r, k) <==> k in Columns(r)
  {
    exists i :: 0 <= i < |r| && r[i].0 == k
  }

  /** `Map.get`: the value under `k`, or null when `k` is absent. */
  function Get(r: seq<(string, Value)>, k: string): (v: Value)
    ensures !HasKey(r, k) ==> v == Null
    ensures HasKey(r, k) ==> (k, v) in r
  {
    if r == [] then Null
    else if r[0].0 == k then r[0].1
    else
      assert forall i :: 0 < i < |r| ==> r[i] == r[1..][i - 1];
      Get(r[1..], k)
  }

  /** In a record each key has one value, so `get` finds the entry. */
  lemma GetFindsEntry(r: Record, k: string, v: Value)
    requires (k, v) in r
    ensures Get(r, k) == v
  {
    var i :| 0 <= i < |r| && r[i] == (k, v);
    var w := Get(r, k);
    var j :| 0 <= j < |r| && r[j] == (k, w);
    assert i == j;
  }

  /** Dropping one entry keeps the keys unique. */
  lemma DropKeepsUnique(r: Record, i: nat)
    requires i < |r|
    ensures UniqueKeys(r[..i] + r[i + 1..])
  {
    var t := r[..i] + r[i + 1..];
    forall a, b | 0 <= a < b < |t| ensures t[a].0 != t[b].0 {
      var a' := if a < i then a else a + 1;
      var b' := if b < i then b else b + 1;
      assert t[a] == r[a'] && t[b] == r[b'];
    }
  }

  /** The values that are not null, in order. */
  function NonNulls(vals: seq<Value>): (r: seq<Value>)
    ensures Null !in r
    ensures forall v :: v in r ==> v in vals
    ensures forall v :: v in vals && v != Null ==> v in r
    ensures Null !in vals ==> r == vals
  {
    if vals == [] then []
    else
      var last := vals[|vals| - 1];
      assert vals == vals[..|vals| - 1] + [last];
      NonNulls(vals[..|vals| - 1]) + (if last == Null then [] else [last])
  }

  /** The record with every null-valued entry removed, order kept. */
  function NonNullFields(r: Record): (kept: Record)
    ensures forall p :: p in kept <==> p in r && p.1 != Null
    ensures Null !in Values(kept)
  {
    if r == [] then []
    else
      var last := r[|r| - 1];
      var front := NonNullFields(r[..|r| - 1]);
      assert r == r[..|r| - 1] + [last];
      assert forall p :: p in front ==> p.0 != last.0;
      if last.1 == Null then front else front + [last]
  }

  /** `Map.remove(k)`: the record without the entry under `k`, order kept. */
  function RemoveKey(r: Record, k: string): (rest: Record)
    ensures forall p :: p in rest <==> p in r && p.0 != k
    ensures !HasKey(rest, k)
  {
    if r == [] then []
    else
      var last := r[|r| - 1];
      var front := RemoveKey(r[..|r| - 1], k);
      assert r == r[..|r| - 1] + [last];
      assert forall p :: p in front ==> p.0 != last.0;
      if last.0 == k then front else front + [last]
  }
}
