/**
  What the dict serializer promises about the dict it builds at one level:
  it is a dict (no key twice) no longer than its input; its keys are exactly
  the renamed keys of the entries that survive null-stripping; each key holds
  the dump of the last surviving entry renamed to it (a later key overwrites an
  earlier one); with `strip_nulls` no value is `None`; and it raises exactly
  when some value's dump raises, the first such one in iteration order.
 */
module DictProperties {
  import opened Wrappers
  import opened Values
  import opened Errors
  import opened Serializers

  /** An entry is kept unless `strip_nulls` is set and its value dumps to `None`. */
  predicate Survives(e: (string, Value), opts: Options)
  {
    !(opts.stripNulls && Dump(e.1, opts) == Ok(Null))
  }

  /** The renamed keys of the entries that survive. */
  function SurvivingKeys(entries: Entries, opts: Options): set<string>
  {
    set i | 0 <= i < |entries| && Survives(entries[i], opts) :: RenameKey(entries[i].0, opts)
  }

  /** The dump of the last entry, in iteration order, that survives and is renamed to `key`. */
  function LastWritten(entries: Entries, key: string, opts: Options): Option<Value>
  {
    if |entries| == 0 then None
    else
      var last := entries[|entries| - 1];
      var dumped := Dump(last.1, opts);
      if dumped.Ok? && Survives(last, opts) && RenameKey(last.0, opts) == key then Some(dumped.value)
      else LastWritten(entries[..|entries| - 1], key, opts)
  }

  lemma SurvivingKeysSnoc(entries: Entries, opts: Options)
    requires |entries| > 0
    ensures var last := entries[|entries| - 1];
      SurvivingKeys(entries, opts)
      == SurvivingKeys(entries[..|entries| - 1], opts)
         + (if Survives(last, opts) then {RenameKey(last.0, opts)} else {})
  {
    var prefix := entries[..|entries| - 1];
    assert forall i | 0 <= i < |prefix| :: prefix[i] == entries[i];
  }

  /** Building the dict fails exactly when some value's dump fails. */
  lemma {:induction false} DictFoldOkIff(entries: Entries, opts: Options)
    ensures DictFold(entries, opts).Ok? <==> forall i | 0 <= i < |entries| :: Dump(entries[i].1, opts).Ok?
  {
    if |entries| > 0 {
      var prefix := entries[..|entries| - 1];
      DictFoldOkIff(prefix, opts);
      assert forall i | 0 <= i < |prefix| :: prefix[i] == entries[i];
    }
  }

  /** When building the dict fails, the exception is that of the first value whose dump fails. */
  lemma {:induction false} DictFoldFirstError(entries: Entries, opts: Options)
    requires DictFold(entries, opts).Err?
    ensures exists i | 0 <= i < |entries| ::
      && Dump(entries[i].1, opts) == Err(DictFold(entries, opts).error)
      && forall j | 0 <= j < i :: Dump(entries[j].1, opts).Ok?
  {
    var n := |entries|;
    var prefix := entries[..n - 1];
    assert forall i | 0 <= i < |prefix| :: prefix[i] == entries[i];
    if DictFold(prefix, opts).Err? {
      DictFoldFirstError(prefix, opts);
    } else {
      DictFoldOkIff(prefix, opts);
      assert Dump(entries[n - 1].1, opts) == Err(DictFold(entries, opts).error);
    }
  }

  /** The result is a dict, no longer than the input. */
  lemma {:induction false} DictFoldShape(entries: Entries, opts: Options)
    requires DictFold(entries, opts).Ok?
    ensures DistinctKeys(DictFold(entries, opts).value)
    ensures |DictFold(entries, opts).value| <= |entries|
  {
    if |entries| > 0 {
      var prefix := entries[..|entries| - 1];
      DictFoldShape(prefix, opts);
      var acc := DictFold(prefix, opts).value;
      var last := entries[|entries| - 1];
      PutShape(acc, RenameKey(last.0, opts), Dump(last.1, opts).value);
    }
  }

  /** The result's keys are exactly the renamed keys of the surviving entries. */
  lemma {:induction false} DictFoldKeys(entries: Entries, opts: Options)
    requires DictFold(entries, opts).Ok?
    ensures Keys(DictFold(entries, opts).value) == SurvivingKeys(entries, opts)
  {
    if |entries| == 0 {
    } else {
      var prefix := entries[..|entries| - 1];
      DictFoldKeys(prefix, opts);
      SurvivingKeysSnoc(entries, opts);
      var acc := DictFold(prefix, opts).value;
      var last := entries[|entries| - 1];
      PutKeys(acc, RenameKey(last.0, opts), Dump(last.1, opts).value);
    }
  }

  /** Every key holds the dump of the last surviving entry renamed to it: later keys overwrite earlier ones. */
  lemma {:induction false} DictFoldLookup(entries: Entries, opts: Options, key: string)
    requires DictFold(entries, opts).Ok?
    ensures Lookup(DictFold(entries, opts).value, key) == LastWritten(entries, key, opts)
  {
    if |entries| > 0 {
      var prefix := entries[..|entries| - 1];
      DictFoldLookup(prefix, opts, key);
      var acc := DictFold(prefix, opts).value;
      var last := entries[|entries| - 1];
      PutLookup(acc, RenameKey(last.0, opts), Dump(last.1, opts).value, key);
    }
  }

  /** Every stored value is the dump of some surviving entry's value. */
  lemma {:induction false} DictFoldValues(entries: Entries, opts: Options)
    requires DictFold(entries, opts).Ok?
    ensures forall p | p in DictFold(entries, opts).value :: exists i | 0 <= i < |entries| ::
      Survives(entries[i], opts) && Dump(entries[i].1, opts) == Ok(p.1)
  {
    if |entries| > 0 {
      var n := |entries|;
      var prefix := entries[..n - 1];
      DictFoldValues(prefix, opts);
      var acc := DictFold(prefix, opts).value;
      var last := entries[n - 1];
      PutShape(acc, RenameKey(last.0, opts), Dump(last.1, opts).value);
      assert forall i | 0 <= i < |prefix| :: prefix[i] == entries[i];
    }
  }

  /** With `strip_nulls`, no value of the result is `None`. */
  lemma DictFoldNoNulls(entries: Entries, opts: Options)
    requires DictFold(entries, opts).Ok?
    requires opts.stripNulls
    ensures forall p | p in DictFold(entries, opts).value :: p.1 != Null
  {
    DictFoldValues(entries, opts);
  }

  /** Without `strip_nulls`, every input key appears in the result, renamed if a transformer is set. */
  lemma AllKeysKeptWithoutStrip(entries: Entries, opts: Options)
    requires DictFold(entries, opts).Ok?
    requires !opts.stripNulls
    ensures Keys(DictFold(entries, opts).value) == set k | k in Keys(entries) :: RenameKey(k, opts)
  {
    DictFoldKeys(entries, opts);
  }

  /** Without a transformer the result's keys are input keys, all of them when nothing is stripped. */
  lemma KeysUnrenamedWithoutTransformer(entries: Entries, opts: Options)
    requires DictFold(entries, opts).Ok?
    requires opts.keyTransformer.None?
    ensures Keys(DictFold(entries, opts).value) <= Keys(entries)
    ensures !opts.stripNulls ==> Keys(DictFold(entries, opts).value) == Keys(entries)
  {
    DictFoldKeys(entries, opts);
  }

  /** The reference for overwriting: the last surviving entry renamed to `key` is the one written. */
  lemma {:induction false} LastWrittenIsLast(entries: Entries, key: string, opts: Options, j: nat)
    requires j < |entries|
    requires Dump(entries[j].1, opts).Ok? && Survives(entries[j], opts)
    requires RenameKey(entries[j].0, opts) == key
    requires forall m | j < m < |entries| :: !(Survives(entries[m], opts) && RenameKey(entries[m].0, opts) == key)
    ensures LastWritten(entries, key, opts) == Some(Dump(entries[j].1, opts).value)
  {
    var n := |entries|;
    if j < n - 1 {
      var prefix := entries[..n - 1];
      assert prefix[j] == entries[j];
      assert forall m | j < m < |prefix| :: prefix[m] == entries[m];
      LastWrittenIsLast(prefix, key, opts, j);
    }
  }

  /**
    When the transformer sends two keys to the same string, the later entry's
    value is the one stored, whatever was stored before.
   */
  lemma LaterKeyOverwrites(entries: Entries, opts: Options, i: nat, j: nat)
    requires DictFold(entries, opts).Ok?
    requires i < j < |entries|
    requires Survives(entries[i], opts) && Survives(entries[j], opts)
    requires RenameKey(entries[i].0, opts) == RenameKey(entries[j].0, opts)
    requires forall m | j < m < |entries| ::
      !(Survives(entries[m], opts) && RenameKey(entries[m].0, opts) == RenameKey(entries[j].0, opts))
    ensures Dump(entries[j].1, opts).Ok?
    ensures Lookup(DictFold(entries, opts).value, RenameKey(entries[i].0, opts))
      == Some(Dump(entries[j].1, opts).value)
  {
    DictFoldOkIff(entries, opts);
    DictFoldLookup(entries, opts, RenameKey(entries[j].0, opts));
    LastWrittenIsLast(entries, RenameKey(entries[j].0, opts), opts, j);
  }

  /** No two entries get the same stored key (as when the keys are distinct and no transformer merges them). */
  predicate RenamedKeysDistinct(entries: Entries, opts: Options)
  {
    forall i, j :: 0 <= i < j < |entries| ==> RenameKey(entries[i].0, opts) != RenameKey(entries[j].0, opts)
  }

  /**
    Without `strip_nulls`, and when no two keys are renamed alike, the result
    keeps the input's entries in their order: entry `i` is the renamed key `i`
    with the dump of value `i`.
   */
  lemma {:induction false} DictFoldKeepsOrder(entries: Entries, opts: Options)
    requires DictFold(entries, opts).Ok?
    requires !opts.stripNulls
    requires RenamedKeysDistinct(entries, opts)
    ensures |DictFold(entries, opts).value| == |entries|
    ensures forall i | 0 <= i < |entries| ::
      && Dump(entries[i].1, opts).Ok?
      && DictFold(entries, opts).value[i] == (RenameKey(entries[i].0, opts), Dump(entries[i].1, opts).value)
  {
    if |entries| > 0 {
      var n := |entries|;
      var prefix := entries[..n - 1];
      assert forall i | 0 <= i < |prefix| :: prefix[i] == entries[i];
      DictFoldKeepsOrder(prefix, opts);
      var acc := DictFold(prefix, opts).value;
      var last := entries[n - 1];
      var k := RenameKey(last.0, opts);
      forall m | 0 <= m < |acc| ensures acc[m].0 != k {
        assert acc[m].0 == RenameKey(entries[m].0, opts);
      }
      DictFoldOkIff(entries, opts);
      PutShape(acc, k, Dump(last.1, opts).value);
    }
  }
}
