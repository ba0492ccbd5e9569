/**
  The Python values the serializers take and return.

  A `Value` is an input object of one of the shapes the default serializers
  handle. The JSON-ready output is the part of `Value` that `IsJson` accepts:
  `None`, booleans, integers, strings, lists and string-keyed dicts. Output and
  input share one type because the primitive serializer returns its argument
  itself and the enum serializer returns a member's `.value` as it is.

  A Python dict keeps insertion order, so a dict is a sequence of key/value
  pairs; `Put` is Python's `d[k] = v`, which overwrites an existing key where
  it stands and appends a new one at the end.
 */
module Values {
  import opened Wrappers

  /** The Python container a sequence value came from (a set or generator is `IterableKind`). */
  datatype SeqKind = ListKind | TupleKind | IterableKind

  /** A `tzinfo`; `tzname` is what `tzinfo.tzname(None)` returns (`None` included). */
  datatype TzInfo = TzInfo(tzname: Option<string>)

  type Year = y: int | 1 <= y <= 9999 witness 1
  type Month = m: int | 1 <= m <= 12 witness 1
  type Day = d: int | 1 <= d <= 31 witness 1
  type Hour = h: int | 0 <= h < 24
  type Minute = m: int | 0 <= m < 60
  type Second = s: int | 0 <= s < 60
  type Microsecond = u: int | 0 <= u < 1000000

  /** The fields of a `datetime.datetime` the serializer reads. */
  datatype DateTimeRec = DateTimeRec(
    year: Year, month: Month, day: Day,
    hour: Hour, minute: Minute, second: Second,
    microsecond: Microsecond,
    tzinfo: Option<TzInfo>)

  datatype Value =
    | Null
    | Bool(b: bool)
    | Int(i: int)
    | Str(s: string)
    | Seq(kind: SeqKind, items: seq<Value>)
    | Dict(entries: seq<(string, Value)>)
    /** An enum member: its `.name` and its `.value`. */
    | Enum(name: string, member: Value)
    | DateTime(dt: DateTimeRec)
    /** Any other object, through its attribute dict `__dict__`. */
    | Object(fields: seq<(string, Value)>)

  type Entries = seq<(string, Value)>

  predicate IsScalar(v: Value)
  {
    v.Null? || v.Bool? || v.Int? || v.Str?
  }

  /** The keys of a dict. */
  function Keys(d: Entries): set<string>
  {
    set i | 0 <= i < |d| :: d[i].0
  }

  /** No key occurs twice, as in every Python dict. */
  predicate DistinctKeys(d: Entries)
  {
    forall i, j :: 0 <= i < j < |d| ==> d[i].0 != d[j].0
  }

  /** Python's `d.get(k)`: the value stored under `k`, if any. */
  function Lookup(d: Entries, k: string): (r: Option<Value>)
    ensures r.Some? <==> k in Keys(d)
  {
    if |d| == 0 then None
    else if d[0].0 == k then Some(d[0].1)
    else
      var r := Lookup(d[1..], k);
      assert Keys(d) == {d[0].0} + Keys(d[1..]) by { KeysCons(d); }
      r
  }

  lemma KeysCons(d: Entries)
    requires |d| > 0
    ensures Keys(d) == {d[0].0} + Keys(d[1..])
  {
    forall k | k in Keys(d) ensures k in {d[0].0} + Keys(d[1..]) {
      var i :| 0 <= i < |d| && d[i].0 == k;
      if i > 0 { assert d[1..][i - 1].0 == k; }
    }
    forall k | k in Keys(d[1..]) ensures k in Keys(d) {
      var i :| 0 <= i < |d[1..]| && d[1..][i].0 == k;
      assert d[i + 1].0 == k;
    }
  }

  /** Python's `d[k] = v`. */
  function Put(d: Entries, k: string, v: Value): Entries
  {
    if |d| == 0 then [(k, v)]
    else if d[0].0 == k then [(k, v)] + d[1..]
    else [d[0]] + Put(d[1..], k, v)
  }

  /** After `d[k] = v` the key set has grown by `k` only. */
  lemma {:induction false} PutKeys(d: Entries, k: string, v: Value)
    ensures Keys(Put(d, k, v)) == Keys(d) + {k}
  {
    var r := Put(d, k, v);
    if |d| == 0 {
      assert r[0].0 == k;
    } else if d[0].0 == k {
      KeysCons(d);
      KeysCons(r);
      assert r[1..] == d[1..];
    } else {
      PutKeys(d[1..], k, v);
      KeysCons(d);
      KeysCons(r);
      assert r[1..] == Put(d[1..], k, v);
    }
  }

  /** After `d[k] = v`, `k` maps to `v` and every other key keeps its value. */
  lemma {:induction false} PutLookup(d: Entries, k: string, v: Value, k': string)
    ensures Lookup(Put(d, k, v), k') == if k' == k then Some(v) else Lookup(d, k')
  {
    var r := Put(d, k, v);
    if |d| > 0 && d[0].0 != k {
      PutLookup(d[1..], k, v, k');
      assert r[1..] == Put(d[1..], k, v);
    } else if |d| > 0 {
      assert r[1..] == d[1..];
    }
  }

  /**
    `d[k] = v` keeps a dict a dict (no key twice), adds at most one entry,
    stores only `(k, v)` besides the old entries, and puts a new key at the end.
   */
  lemma PutShape(d: Entries, k: string, v: Value)
    ensures DistinctKeys(d) ==> DistinctKeys(Put(d, k, v))
    ensures |Put(d, k, v)| <= |d| + 1
    ensures k !in Keys(d) ==> Put(d, k, v) == d + [(k, v)]
    ensures forall p | p in Put(d, k, v) :: p == (k, v) || p in d
    ensures DistinctKeys(d) && k in Keys(d) ==>
      && |Put(d, k, v)| == |d|
      && forall i | 0 <= i < |d| :: Put(d, k, v)[i] == (if d[i].0 == k then (k, v) else d[i])
  {
    if DistinctKeys(d) {
      PutDistinct(d, k, v);
      if k in Keys(d) {
        PutOverwritesInPlace(d, k, v);
      }
    }
    PutEntries(d, k, v);
    if k !in Keys(d) {
      PutNewKey(d, k, v);
    }
  }

  /** For a key already there, `d[k] = v` replaces that one entry where it stands and leaves the rest in order. */
  lemma {:induction false} PutOverwritesInPlace(d: Entries, k: string, v: Value)
    requires DistinctKeys(d)
    requires k in Keys(d)
    ensures |Put(d, k, v)| == |d|
    ensures forall i | 0 <= i < |d| :: Put(d, k, v)[i] == (if d[i].0 == k then (k, v) else d[i])
  {
    var r := Put(d, k, v);
    KeysCons(d);
    if d[0].0 == k {
      assert r[1..] == d[1..];
      forall i | 0 < i < |d| ensures d[i].0 != k {
        assert d[0].0 != d[i].0;
      }
    } else {
      assert DistinctKeys(d[1..]) by {
        forall i, j | 0 <= i < j < |d[1..]| ensures d[1..][i].0 != d[1..][j].0 {
          assert d[1..][i] == d[i + 1] && d[1..][j] == d[j + 1];
        }
      }
      PutOverwritesInPlace(d[1..], k, v);
      var rest := Put(d[1..], k, v);
      assert r == [d[0]] + rest;
      forall i | 0 < i < |d| ensures r[i] == (if d[i].0 == k then (k, v) else d[i]) {
        assert r[i] == rest[i - 1] && d[1..][i - 1] == d[i];
      }
    }
  }

  lemma {:induction false} PutEntries(d: Entries, k: string, v: Value)
    ensures |Put(d, k, v)| <= |d| + 1
    ensures forall p | p in Put(d, k, v) :: p == (k, v) || p in d
  {
    var r := Put(d, k, v);
    if |d| == 0 {
    } else if d[0].0 == k {
      assert r[1..] == d[1..];
      forall p | p in r ensures p == (k, v) || p in d {
        var i :| 0 <= i < |r| && r[i] == p;
        if i > 0 { assert r[i] == d[i]; }
      }
    } else {
      var rest := Put(d[1..], k, v);
      PutEntries(d[1..], k, v);
      assert r == [d[0]] + rest;
      forall p | p in r ensures p == (k, v) || p in d {
        if p != d[0] {
          assert p in rest;
        }
      }
    }
  }

  lemma {:induction false} PutNewKey(d: Entries, k: string, v: Value)
    requires k !in Keys(d)
    ensures Put(d, k, v) == d + [(k, v)]
  {
    if |d| > 0 {
      KeysCons(d);
      PutNewKey(d[1..], k, v);
      assert d == [d[0]] + d[1..];
    }
  }

  lemma {:induction false} PutDistinct(d: Entries, k: string, v: Value)
    requires DistinctKeys(d)
    ensures DistinctKeys(Put(d, k, v))
  {
    var r := Put(d, k, v);
    if |d| == 0 {
    } else if d[0].0 == k {
      assert r[1..] == d[1..];
      forall i, j | 0 <= i < j < |r| ensures r[i].0 != r[j].0 {
        assert r[j] == d[j];
        if i > 0 { assert r[i] == d[i]; }
      }
    } else {
      var rest := Put(d[1..], k, v);
      assert DistinctKeys(d[1..]) by {
        forall i, j | 0 <= i < j < |d[1..]| ensures d[1..][i].0 != d[1..][j].0 {
          assert d[1..][i] == d[i + 1] && d[1..][j] == d[j + 1];
        }
      }
      PutDistinct(d[1..], k, v);
      PutKeys(d[1..], k, v);
      assert r == [d[0]] + rest;
      forall i, j | 0 <= i < j < |r| ensures r[i].0 != r[j].0 {
        if i == 0 {
          assert r[j] == rest[j - 1];
          assert r[j].0 in Keys(rest);
          assert r[j].0 != d[0].0 by {
            if r[j].0 != k {
              var m :| 0 <= m < |d[1..]| && d[1..][m].0 == r[j].0;
              assert d[m + 1].0 == r[j].0;
            }
          }
        } else {
          assert r[i] == rest[i - 1] && r[j] == rest[j - 1];
        }
      }
    }
  }

  /** The JSON-ready values: what a dump produces when nothing comes back unconverted. */
  predicate IsJson(v: Value)
  {
    match v
    case Null => true
    case Bool(_) => true
    case Int(_) => true
    case Str(_) => true
    case Seq(kind, items) => kind == ListKind && forall i | 0 <= i < |items| :: IsJson(items[i])
    case Dict(entries) => DistinctKeys(entries) && forall i | 0 <= i < |entries| :: IsJson(entries[i].1)
    case Enum(_, _) => false
    case DateTime(_) => false
    case Object(_) => false
  }

  /** Every enum member inside `v` has a scalar `.value`. */
  predicate ScalarEnums(v: Value)
  {
    match v
    case Seq(_, items) => forall i | 0 <= i < |items| :: ScalarEnums(items[i])
    case Dict(entries) => forall i | 0 <= i < |entries| :: ScalarEnums(entries[i].1)
    case Object(fields) => forall i | 0 <= i < |fields| :: ScalarEnums(fields[i].1)
    case Enum(_, member) => IsScalar(member)
    case _ => true
  }

  /** No dict inside `v`, at any depth, holds a `None` value. */
  predicate NoNullInDicts(v: Value)
  {
    match v
    case Seq(_, items) => forall i | 0 <= i < |items| :: NoNullInDicts(items[i])
    case Dict(entries) =>
      forall i | 0 <= i < |entries| :: entries[i].1 != Null && NoNullInDicts(entries[i].1)
    case Object(fields) =>
      forall i | 0 <= i < |fields| :: fields[i].1 != Null && NoNullInDicts(fields[i].1)
    case Enum(_, member) => NoNullInDicts(member)
    case _ => true
  }
}
