/**
  What the dispatcher and the default serializers promise together, at every
  depth of a value. These hold only because every serializer hands its options
  on unchanged to the dumps of nested values: `strip_nulls` removes `None` from
  dicts at every level and from no list, the key transformer renames the keys
  of every level once, and `use_enum_name` decides every enum inside.
 */
module SerializerProperties {
  import opened Wrappers
  import opened Values
  import opened Errors
  import opened DateTimes
  import opened Serializers
  import opened DictProperties

  /** The keys of every dict and object inside `v`, at any depth. */
  function DeepKeys(v: Value): set<string>
  {
    match v
    case Seq(_, items) => set x, k | x in items && k in DeepKeys(x) :: k
    case Dict(entries) => Keys(entries) + set p, k | p in entries && k in DeepKeys(p.1) :: k
    case Object(fields) => Keys(fields) + set p, k | p in fields && k in DeepKeys(p.1) :: k
    case Enum(_, member) => DeepKeys(member)
    case _ => {}
  }

  /** The keys `ks` as the dict serializer stores them. */
  function Renamed(ks: set<string>, opts: Options): set<string>
  {
    set k | k in ks :: RenameKey(k, opts)
  }

  /** Every datetime inside `v` that the dump reaches has a zone the serializer can name. */
  predicate DatesOk(v: Value)
  {
    match v
    case Seq(_, items) => forall i | 0 <= i < |items| :: DatesOk(items[i])
    case Dict(entries) => forall i | 0 <= i < |entries| :: DatesOk(entries[i].1)
    case Object(fields) => forall i | 0 <= i < |fields| :: DatesOk(fields[i].1)
    case DateTime(dt) => Offset(dt.tzinfo).Ok?
    case _ => true
  }

  /** A scalar is dumped as itself. */
  lemma PrimitiveIsIdentity(v: Value, opts: Options)
    requires IsScalar(v)
    ensures Dump(v, opts) == Ok(v)
  {
  }

  /**
    A list, a tuple or any other iterable dumps to a list of the same length
    whose element `i` is the dump of element `i`; nothing is dropped, not even
    with `strip_nulls`, and the dump fails exactly when an element's does.
   */
  lemma DumpSequence(kind: SeqKind, items: seq<Value>, opts: Options)
    ensures Dump(Seq(kind, items), opts).Ok? <==> forall i | 0 <= i < |items| :: Dump(items[i], opts).Ok?
    ensures Dump(Seq(kind, items), opts).Ok? ==>
      var r := Dump(Seq(kind, items), opts).value;
      && r.Seq? && r.kind == ListKind && |r.items| == |items|
      && forall i | 0 <= i < |items| :: Dump(items[i], opts) == Ok(r.items[i])
  {
    DumpSeqIsIterable(kind, items, opts);
  }

  /** Every kind of sequence reaches the iterable serializer. */
  lemma DumpSeqIsIterable(kind: SeqKind, items: seq<Value>, opts: Options)
    ensures Dump(Seq(kind, items), opts) == IterableSerialize(items, opts)
  {
    match kind
    case ListKind =>
    case TupleKind =>
    case IterableKind =>
  }

  /** The list and tuple serializers give exactly what the iterable serializer gives. */
  lemma SequenceKindsAgree(items: seq<Value>, opts: Options)
    ensures Dump(Seq(ListKind, items), opts) == Dump(Seq(IterableKind, items), opts)
    ensures Dump(Seq(TupleKind, items), opts) == Dump(Seq(IterableKind, items), opts)
  {
  }

  /** An object dumps as the dict of its attributes, with the same options. */
  lemma ObjectIsItsDict(fields: Entries, opts: Options)
    ensures Dump(Object(fields), opts) == Dump(Dict(fields), opts)
  {
  }

  /** An enum member dumps to its name, or to its raw value when `use_enum_name` is false. */
  lemma EnumDump(name: string, member: Value, opts: Options)
    ensures opts.useEnumName ==> Dump(Enum(name, member), opts) == Ok(Str(name))
    ensures !opts.useEnumName ==> Dump(Enum(name, member), opts) == Ok(member)
    ensures Dump(Enum(name, member), DefaultOptions()) == Ok(Str(name))
  {
  }

  /** The dump fails exactly when some datetime it reaches has a zone that cannot be named. */
  lemma {:induction false} DumpOkIff(v: Value, opts: Options)
    ensures Dump(v, opts).Ok? <==> DatesOk(v)
    decreases v, 1
  {
    match v
    case Seq(kind, items) =>
      DumpSeqIsIterable(kind, items, opts);
      forall i | 0 <= i < |items| ensures Dump(items[i], opts).Ok? <==> DatesOk(items[i]) {
        DumpOkIff(items[i], opts);
      }
    case Dict(entries) => EntriesOkIff(entries, opts);
    case Object(fields) => ObjectIsItsDict(fields, opts); EntriesOkIff(fields, opts);
    case DateTime(dt) => DatetimeLayout(dt);
    case _ =>
  }

  lemma {:induction false} EntriesOkIff(entries: Entries, opts: Options)
    ensures DictFold(entries, opts).Ok? <==> forall i | 0 <= i < |entries| :: DatesOk(entries[i].1)
    decreases entries, 0
  {
    DictFoldOkIff(entries, opts);
    forall i | 0 <= i < |entries| ensures Dump(entries[i].1, opts).Ok? <==> DatesOk(entries[i].1) {
      assert entries[i].1 < entries[i];
      DumpOkIff(entries[i].1, opts);
    }
  }

  /** With `strip_nulls`, no dict anywhere in the result holds `None`. */
  lemma {:induction false} DumpStripsNullsDeep(v: Value, opts: Options)
    requires opts.stripNulls
    requires opts.useEnumName || ScalarEnums(v)
    requires Dump(v, opts).Ok?
    ensures NoNullInDicts(Dump(v, opts).value)
    decreases v, 1
  {
    match v
    case Seq(kind, items) =>
      DumpSeqIsIterable(kind, items, opts);
      forall i | 0 <= i < |items| ensures Dump(items[i], opts).Ok? && NoNullInDicts(Dump(items[i], opts).value) {
        DumpStripsNullsDeep(items[i], opts);
      }
    case Dict(entries) => EntriesStripNullsDeep(entries, opts);
    case Object(fields) => ObjectIsItsDict(fields, opts); EntriesStripNullsDeep(fields, opts);
    case _ =>
  }

  lemma {:induction false} EntriesStripNullsDeep(entries: Entries, opts: Options)
    requires opts.stripNulls
    requires opts.useEnumName || forall i | 0 <= i < |entries| :: ScalarEnums(entries[i].1)
    requires DictFold(entries, opts).Ok?
    ensures NoNullInDicts(Dict(DictFold(entries, opts).value))
    decreases entries, 0
  {
    DictFoldOkIff(entries, opts);
    forall i | 0 <= i < |entries| ensures NoNullInDicts(Dump(entries[i].1, opts).value) {
      assert entries[i].1 < entries[i];
      DumpStripsNullsDeep(entries[i].1, opts);
    }
    DictFoldValues(entries, opts);
    DictFoldNoNulls(entries, opts);
    var r := DictFold(entries, opts).value;
    assert forall i | 0 <= i < |r| :: r[i] in r;
  }

  /** The result is JSON-ready whenever no enum hands back a raw value that is not. */
  lemma {:induction false} DumpIsJson(v: Value, opts: Options)
    requires opts.useEnumName || ScalarEnums(v)
    requires Dump(v, opts).Ok?
    ensures IsJson(Dump(v, opts).value)
    decreases v, 1
  {
    match v
    case Seq(kind, items) =>
      DumpSeqIsIterable(kind, items, opts);
      forall i | 0 <= i < |items| ensures Dump(items[i], opts).Ok? && IsJson(Dump(items[i], opts).value) {
        DumpIsJson(items[i], opts);
      }
    case Dict(entries) => EntriesAreJson(entries, opts);
    case Object(fields) => ObjectIsItsDict(fields, opts); EntriesAreJson(fields, opts);
    case _ =>
  }

  lemma {:induction false} EntriesAreJson(entries: Entries, opts: Options)
    requires opts.useEnumName || forall i | 0 <= i < |entries| :: ScalarEnums(entries[i].1)
    requires DictFold(entries, opts).Ok?
    ensures IsJson(Dict(DictFold(entries, opts).value))
    decreases entries, 0
  {
    DictFoldOkIff(entries, opts);
    forall i | 0 <= i < |entries| ensures IsJson(Dump(entries[i].1, opts).value) {
      assert entries[i].1 < entries[i];
      DumpIsJson(entries[i].1, opts);
    }
    DictFoldValues(entries, opts);
    DictFoldShape(entries, opts);
    var r := DictFold(entries, opts).value;
    assert forall i | 0 <= i < |r| :: r[i] in r;
  }

  /**
    Every key anywhere in the result is an input key from some level, renamed
    by the transformer once (as it is, without a transformer).
   */
  lemma {:induction false} DumpRenamesKeysDeep(v: Value, opts: Options)
    requires opts.useEnumName || ScalarEnums(v)
    requires Dump(v, opts).Ok?
    ensures DeepKeys(Dump(v, opts).value) <= Renamed(DeepKeys(v), opts)
    decreases v, 1
  {
    match v
    case Seq(kind, items) =>
      DumpSeqIsIterable(kind, items, opts);
      var ys := Dump(v, opts).value.items;
      forall i | 0 <= i < |items|
        ensures Dump(items[i], opts).Ok? && DeepKeys(Dump(items[i], opts).value) <= Renamed(DeepKeys(items[i]), opts)
      {
        DumpRenamesKeysDeep(items[i], opts);
      }
      forall k | k in DeepKeys(Seq(ListKind, ys)) ensures k in Renamed(DeepKeys(v), opts) {
        var y :| y in ys && k in DeepKeys(y);
        var i :| 0 <= i < |ys| && ys[i] == y;
        var k0 :| k0 in DeepKeys(items[i]) && RenameKey(k0, opts) == k;
        assert items[i] in items;
      }
    case Dict(entries) => EntriesRenameKeysDeep(entries, opts);
    case Object(fields) => ObjectIsItsDict(fields, opts); EntriesRenameKeysDeep(fields, opts);
    case _ =>
  }

  lemma {:induction false} EntriesRenameKeysDeep(entries: Entries, opts: Options)
    requires opts.useEnumName || forall i | 0 <= i < |entries| :: ScalarEnums(entries[i].1)
    requires DictFold(entries, opts).Ok?
    ensures DeepKeys(Dict(DictFold(entries, opts).value)) <= Renamed(DeepKeys(Dict(entries)), opts)
    ensures DeepKeys(Dict(DictFold(entries, opts).value)) <= Renamed(DeepKeys(Object(entries)), opts)
    decreases entries, 0
  {
    DictFoldOkIff(entries, opts);
    forall i | 0 <= i < |entries|
      ensures DeepKeys(Dump(entries[i].1, opts).value) <= Renamed(DeepKeys(entries[i].1), opts)
    {
      assert entries[i].1 < entries[i];
      DumpRenamesKeysDeep(entries[i].1, opts);
    }
    DictFoldValues(entries, opts);
    DictFoldKeys(entries, opts);
    var r := DictFold(entries, opts).value;
    assert DeepKeys(Dict(entries)) == DeepKeys(Object(entries));
    forall k | k in DeepKeys(Dict(r)) ensures k in Renamed(DeepKeys(Dict(entries)), opts) {
      if k in Keys(r) {
        var i :| 0 <= i < |entries| && Survives(entries[i], opts) && RenameKey(entries[i].0, opts) == k;
        assert entries[i].0 in Keys(entries);
      } else {
        var p, k' :| p in r && k' in DeepKeys(p.1) && k' == k;
        var i :| 0 <= i < |entries| && Survives(entries[i], opts) && Dump(entries[i].1, opts) == Ok(p.1);
        var k0 :| k0 in DeepKeys(entries[i].1) && RenameKey(k0, opts) == k;
        assert entries[i] in entries;
      }
    }
  }

  /** A JSON-ready value dumps to itself when there is no transformer and nothing to strip. */
  lemma {:induction false} DumpJsonIsIdentity(v: Value, opts: Options)
    requires IsJson(v)
    requires opts.keyTransformer.None?
    requires opts.stripNulls ==> NoNullInDicts(v)
    ensures Dump(v, opts) == Ok(v)
    decreases v, 1
  {
    match v
    case Seq(kind, items) =>
      DumpSeqIsIterable(kind, items, opts);
      forall i | 0 <= i < |items| ensures Dump(items[i], opts) == Ok(items[i]) {
        DumpJsonIsIdentity(items[i], opts);
      }
      var ys := DumpEach(items, opts).value;
      assert ys == items;
    case Dict(entries) =>
      forall i | 0 <= i < |entries| ensures Dump(entries[i].1, opts) == Ok(entries[i].1) {
        assert entries[i].1 < entries[i];
        DumpJsonIsIdentity(entries[i].1, opts);
      }
      DictFoldOfDumped(entries, opts);
    case _ =>
  }

  /** A dict whose values dump to themselves, with distinct keys and nothing to strip or rename, is rebuilt as it was. */
  lemma {:induction false} DictFoldOfDumped(entries: Entries, opts: Options)
    requires DistinctKeys(entries)
    requires opts.keyTransformer.None?
    requires forall i | 0 <= i < |entries| :: Dump(entries[i].1, opts) == Ok(entries[i].1)
    requires opts.stripNulls ==> forall i | 0 <= i < |entries| :: entries[i].1 != Null
    ensures DictFold(entries, opts) == Ok(entries)
  {
    if |entries| > 0 {
      var n := |entries|;
      var prefix := entries[..n - 1];
      assert forall i | 0 <= i < |prefix| :: prefix[i] == entries[i];
      DictFoldOfDumped(prefix, opts);
      var last := entries[n - 1];
      assert last.0 !in Keys(prefix);
      PutShape(prefix, last.0, last.1);
      assert prefix + [last] == entries;
    }
  }

  /** Without a key transformer, dumping a dump changes nothing more. */
  lemma DumpIsIdempotent(v: Value, opts: Options)
    requires opts.keyTransformer.None?
    requires opts.useEnumName || ScalarEnums(v)
    requires Dump(v, opts).Ok?
    ensures Dump(Dump(v, opts).value, opts) == Dump(v, opts)
  {
    DumpIsJson(v, opts);
    if opts.stripNulls {
      DumpStripsNullsDeep(v, opts);
    }
    DumpJsonIsIdentity(Dump(v, opts).value, opts);
  }

  /** The extra keyword arguments pass through every level and never change the result. */
  lemma {:induction false} ExtraOptionsAreInert(v: Value, opts: Options, extra: map<string, Value>)
    ensures Dump(v, opts.(extra := extra)) == Dump(v, opts)
    decreases v, 1
  {
    var other := opts.(extra := extra);
    match v
    case Seq(kind, items) =>
      DumpSeqIsIterable(kind, items, opts);
      DumpSeqIsIterable(kind, items, other);
      forall i | 0 <= i < |items| ensures Dump(items[i], other) == Dump(items[i], opts) {
        ExtraOptionsAreInert(items[i], opts, extra);
      }
      DumpEachAgrees(items, opts, other);
    case Dict(entries) => EntriesIgnoreExtra(entries, opts, extra);
    case Object(fields) =>
      ObjectIsItsDict(fields, opts);
      ObjectIsItsDict(fields, other);
      EntriesIgnoreExtra(fields, opts, extra);
    case _ =>
  }

  lemma {:induction false} EntriesIgnoreExtra(entries: Entries, opts: Options, extra: map<string, Value>)
    ensures DictFold(entries, opts.(extra := extra)) == DictFold(entries, opts)
    decreases entries, 0
  {
    if |entries| > 0 {
      var last := entries[|entries| - 1];
      assert last in entries;
      assert last.1 < last;
      EntriesIgnoreExtra(entries[..|entries| - 1], opts, extra);
      ExtraOptionsAreInert(last.1, opts, extra);
    }
  }

  lemma {:induction false} DumpEachAgrees(items: seq<Value>, a: Options, b: Options)
    requires forall i | 0 <= i < |items| :: Dump(items[i], a) == Dump(items[i], b)
    ensures DumpEach(items, a) == DumpEach(items, b)
  {
    if |items| > 0 {
      assert forall i | 0 <= i < |items[1..]| :: items[1..][i] == items[i + 1];
      DumpEachAgrees(items[1..], a, b);
    }
  }
}
