/**
  The default serializer set and the recursive dispatcher that picks one of
  them by the shape of the value. Every serializer that goes into nested values
  calls `Dump` on them with the options it was given.

  `Dump` returns `Err` where the Python code raises; only the datetime
  serializer raises, and an exception from a nested value ends the whole dump.
 */
module Serializers {
  import opened Wrappers
  import opened Values
  import opened Errors
  import opened DateTimes

  /**
    The keyword arguments of a dump: `strip_nulls` (default `False`),
    `key_transformer` (default `None`), `use_enum_name` (default `True`) and
    whatever other keyword arguments the caller passes, which the serializers
    hand on untouched.
   */
  datatype Options = Options(
    stripNulls: bool,
    keyTransformer: Option<string -> string>,
    useEnumName: bool,
    extra: map<string, Value>)

  function DefaultOptions(): Options
  {
    Options(false, None, true, map[])
  }

  /**
    The dispatcher: a value goes to the serializer for its shape. A scalar
    is a primitive; a list, tuple or other iterable goes to its sequence
    serializer; an object that is none of these goes to the object serializer.
   */
  function Dump(v: Value, opts: Options): Result<Value, Error>
    decreases v, 2
  {
    match v
    case Null => Ok(PrimitiveSerialize(v))
    case Bool(_) => Ok(PrimitiveSerialize(v))
    case Int(_) => Ok(PrimitiveSerialize(v))
    case Str(_) => Ok(PrimitiveSerialize(v))
    case Seq(kind, items) =>
      (match kind
       case ListKind => ListSerialize(items, opts)
       case TupleKind => TupleSerialize(items, opts)
       case IterableKind => IterableSerialize(items, opts))
    case Dict(entries) => DictSerialize(entries, opts)
    case Enum(name, member) => Ok(EnumSerialize(name, member, opts))
    case DateTime(dt) => DatetimeSerialize(dt)
    case Object(fields) => ObjectSerialize(fields, opts)
  }

  /** The dumps of `items`, in order, or the exception of the first one that raises. */
  function DumpEach(items: seq<Value>, opts: Options): (r: Result<seq<Value>, Error>)
    ensures r.Ok? <==> forall i | 0 <= i < |items| :: Dump(items[i], opts).Ok?
    ensures r.Ok? ==> |r.value| == |items|
    ensures r.Ok? ==> forall i | 0 <= i < |items| :: Dump(items[i], opts) == Ok(r.value[i])
    ensures r.Err? ==> exists i | 0 <= i < |items| ::
      Dump(items[i], opts) == Err(r.error) && forall j | 0 <= j < i :: Dump(items[j], opts).Ok?
    decreases items, 0
  {
    if |items| == 0 then Ok([])
    else
      match Dump(items[0], opts)
      case Err(e) => Err(e)
      case Ok(head) =>
        var rest := DumpEach(items[1..], opts);
        assert forall i | 1 <= i < |items| :: items[i] == items[1..][i - 1];
        match rest
        case Err(e) =>
          ghost var k :| 0 <= k < |items[1..]| && Dump(items[1..][k], opts) == Err(e)
            && forall j | 0 <= j < k :: Dump(items[1..][j], opts).Ok?;
          assert Dump(items[k + 1], opts) == Err(e);
          Err(e)
        case Ok(tail) => Ok([head] + tail)
  }

  /** `default_iterable_serializer`: a list of the dumped elements. */
  function IterableSerialize(items: seq<Value>, opts: Options): Result<Value, Error>
    decreases items, 1
  {
    match DumpEach(items, opts)
    case Err(e) => Err(e)
    case Ok(dumped) => Ok(Seq(ListKind, dumped))
  }

  /** `default_list_serializer`, which hands the list to the iterable serializer. */
  function ListSerialize(items: seq<Value>, opts: Options): Result<Value, Error>
    decreases items, 2
  {
    IterableSerialize(items, opts)
  }

  /** `default_tuple_serializer`, which hands the tuple to the iterable serializer. */
  function TupleSerialize(items: seq<Value>, opts: Options): Result<Value, Error>
    decreases items, 2
  {
    IterableSerialize(items, opts)
  }

  /** The key under which an entry is stored: the transformer's image when one is set. */
  function RenameKey(key: string, opts: Options): string
  {
    match opts.keyTransformer
    case None => key
    case Some(f) => f(key)
  }

  /** One pass of the loop body of `default_dict_serializer`, after `dumped` was computed. */
  function DictStep(acc: Entries, key: string, dumped: Value, opts: Options): Entries
  {
    if opts.stripNulls && dumped == Null then acc
    else Put(acc, RenameKey(key, opts), dumped)
  }

  /** The dict `default_dict_serializer` has built after going through `entries` in order. */
  function DictFold(entries: Entries, opts: Options): Result<Entries, Error>
    decreases entries, 0
  {
    if |entries| == 0 then Ok([])
    else
      var last := entries[|entries| - 1];
      assert last in entries;
      assert last.1 < last;
      match DictFold(entries[..|entries| - 1], opts)
      case Err(e) => Err(e)
      case Ok(acc) =>
        match Dump(last.1, opts)
        case Err(e) => Err(e)
        case Ok(dumped) => Ok(DictStep(acc, last.0, dumped, opts))
  }

  /** `default_dict_serializer`, as the function the rest of the model uses. */
  function DictSerialize(entries: Entries, opts: Options): Result<Value, Error>
    decreases entries, 1
  {
    match DictFold(entries, opts)
    case Err(e) => Err(e)
    case Ok(result) => Ok(Dict(result))
  }

  /** `default_object_serializer`: the dict serializer on the object's `__dict__`. */
  function ObjectSerialize(fields: Entries, opts: Options): Result<Value, Error>
    decreases fields, 2
  {
    DictSerialize(fields, opts)
  }

  /** `default_enum_serializer`: the member's `.name`, or its `.value` when `use_enum_name` is false. */
  function EnumSerialize(name: string, member: Value, opts: Options): Value
  {
    if opts.useEnumName then Str(name) else member
  }

  /** `default_primitive_serializer`. */
  function PrimitiveSerialize(v: Value): Value
  {
    v
  }

  /** Once the dict built from a prefix is an exception, so is the dict built from the whole. */
  lemma {:induction false} DictFoldErrSticks(entries: Entries, n: nat, opts: Options)
    requires n <= |entries|
    requires DictFold(entries[..n], opts).Err?
    ensures DictFold(entries, opts) == DictFold(entries[..n], opts)
    decreases |entries| - n
  {
    if n < |entries| {
      assert entries[..n + 1][..n] == entries[..n];
      DictFoldErrSticks(entries, n + 1, opts);
    } else {
      assert entries[..n] == entries;
    }
  }

  /**
    `default_dict_serializer` (lines 62-70) as the loop it is: it builds
    `result` entry by entry, drops a `None` dump when `strip_nulls` is set,
    renames a kept key with the transformer and stores it with `result[key] = ...`.
   */
  method DefaultDictSerializer(obj: Entries, opts: Options) returns (r: Result<Value, Error>)
    ensures r == DictSerialize(obj, opts)
  {
    var result: Entries := [];
    var i := 0;
    while i < |obj|
      invariant 0 <= i <= |obj|
      invariant DictFold(obj[..i], opts) == Ok(result)
    {
      var key := obj[i].0;
      var dumped := Dump(obj[i].1, opts);
      assert obj[..i + 1][..i] == obj[..i];
      if dumped.Err? {
        DictFoldErrSticks(obj, i + 1, opts);
        return Err(dumped.error);
      }
      if !(opts.stripNulls && dumped.value == Null) {
        if opts.keyTransformer.Some? {
          key := opts.keyTransformer.value(key);
        }
        result := Put(result, key, dumped.value);
      }
      i := i + 1;
    }
    assert obj[..i] == obj;
    r := Ok(Dict(result));
  }
}
