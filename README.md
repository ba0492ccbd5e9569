# jsons: the default serializers and the class-name helpers, in Dafny

This project models two parts of `jsons`, a Python library that turns objects
into JSON-ready data and back.

- **The default serializer set** (`jsons/serializers.py`). Lists, tuples and
  other iterables become lists of dumped elements. Dicts are rebuilt entry by
  entry, with `strip_nulls` dropping entries whose value dumps to `None` and
  `key_transformer` renaming the keys that stay. Enum members become their
  name, or their value when `use_enum_name` is false. Datetimes become
  RFC 3339 text. Primitives are returned as they are. Any other object is
  dumped as the dict of its attributes.
- **The name and precedence helpers** (`jsons/_common_impl.py`). These give the
  name under which a class is written, find the class a written name stands
  for, read the class name out of a verbose dump's `-meta` entry, and choose
  between the classes a deserialization is told about.

The dispatcher `dump_impl` is not among the modelled files. It is modelled as
`Serializers.Dump`, a recursive function that sends each shape of value to its
default serializer and hands the options on unchanged. Its options are
`strip_nulls`, `key_transformer`, `use_enum_name` and any other keyword
arguments (`Options.extra`). Python exceptions are `Err` values of
`Errors.Error`.

Layout:

- `wrappers.dfy`: `Option` and `Result`.
- `strings.dfy`: Python's `str.split` and `str.join`, with the split/join round trip.
- `values.dfy`: the `Value` datatype for inputs and outputs. A dict is a
  sequence of pairs that keeps insertion order; `Put` is `d[k] = v`.
- `errors.dfy`: the exceptions the code raises.
- `datetimes.dfy`: the datetime serializer.
- `serializers.dfy`: the dispatcher, the serializer set, and the dict
  serializer's loop as a method.
- `dict_properties.dfy`: what the dict serializer promises at one level.
- `serializer_properties.dfy`: what the serializers promise together, at every depth.
- `scenarios.dfy`: worked examples on concrete values.
- `common_impl.dfy`: the helpers of `_common_impl.py`.

Where the code and its prose documentation disagree, the model follows the code:

- With `use_enum_name=False` the enum serializer returns the member's `.value`
  as it is, not as a string.
- The datetime suffix is not computed from the zone's UTC offset. It is the
  text between the first `UTC` in the zone's name and the next `UTC`, or the
  end of the name (`tzname.split('UTC')[1]`).
  A zone whose name has no `UTC` in it, such as `CET`, raises `IndexError`.

## Model

| member | source | states |
|---|---|---|
| Serializers.Dump | jsons/serializers.py:15-136 | the dispatcher; no contract of its own; specified by DumpSequence, EnumDump, PrimitiveIsIdentity, ObjectIsItsDict, DumpOkIff, DumpIsJson, DumpStripsNullsDeep, DumpRenamesKeysDeep, DumpJsonIsIdentity, DumpIsIdempotent, ExtraOptionsAreInert |
| Serializers.IterableSerialize | jsons/serializers.py:15-23 | no contract of its own; specified by DumpSequence and DumpEach |
| Serializers.ListSerialize | jsons/serializers.py:26-34 | no contract of its own; specified by SequenceKindsAgree |
| Serializers.TupleSerialize | jsons/serializers.py:37-45 | no contract of its own; specified by SequenceKindsAgree |
| Serializers.DictFold | jsons/serializers.py:62-70 | no contract of its own; specified by DefaultDictSerializer, DictFoldErrSticks and the DictProperties lemmas |
| Serializers.DictSerialize | jsons/serializers.py:48-70 | no contract of its own; specified by DefaultDictSerializer, DictFoldOkIff, DictFoldShape and DictFoldKeys |
| Serializers.ObjectSerialize | jsons/serializers.py:118-136 | no contract of its own; specified by ObjectIsItsDict |
| Serializers.EnumSerialize | jsons/serializers.py:73-85 | no contract of its own; specified by EnumDump and EnumScenario |
| Serializers.PrimitiveSerialize | jsons/serializers.py:108-115 | no contract of its own; specified by PrimitiveIsIdentity |
| Serializers.DumpEach | jsons/serializers.py:23 | the elements' dumps in order, same length, element i is the dump of element i; fails exactly when some element's dump fails, with the first failing element's error |
| SerializerProperties.DumpSequence | jsons/serializers.py:23 | a list, tuple or iterable dumps to a list of the same length whose element i is the dump of element i; no element is dropped, even with `strip_nulls` |
| SerializerProperties.SequenceKindsAgree | jsons/serializers.py:34-45 | the list and tuple serializers give exactly the iterable serializer's result |
| Serializers.DefaultDictSerializer | jsons/serializers.py:62-70 | the loop that builds `result` entry by entry yields exactly the dict `DictSerialize` describes, and raises the first error a value's dump raises |
| Serializers.DictFoldErrSticks | jsons/serializers.py:63-65 | once a value's dump has raised, the dict serializer's outcome is that error |
| Values.PutKeys | jsons/serializers.py:69 | `result[key] = v` adds exactly `key` to the dict's keys |
| Values.PutLookup | jsons/serializers.py:69 | after `result[key] = v`, `key` holds `v` and every other key holds what it held |
| Values.Put | jsons/serializers.py:69 | `d[k] = v`; no contract of its own; specified by PutKeys, PutLookup, PutShape and PutOverwritesInPlace |
| Values.PutShape | jsons/serializers.py:69 | `result[key] = v` keeps the keys distinct, grows the dict by at most one entry, stores only `(key, v)` and pairs already there, overwrites an existing key in place (same length, only that entry changed) and appends a new key at the end |
| Values.PutOverwritesInPlace | jsons/serializers.py:69 | on a dict with distinct keys that has `key`, `result[key] = v` keeps the length and replaces only that entry, where it stands |
| DictProperties.DictFoldOkIff | jsons/serializers.py:63-65 | building the dict fails exactly when some value's dump fails |
| DictProperties.DictFoldFirstError | jsons/serializers.py:63-65 | the error raised is that of the first value, in iteration order, whose dump fails |
| DictProperties.DictFoldShape | jsons/serializers.py:62-70 | the result has no key twice and never more entries than the input |
| DictProperties.DictFoldKeys | jsons/serializers.py:66-69 | the result's keys are exactly the renamed keys of the entries that survive null-stripping |
| DictProperties.DictFoldLookup | jsons/serializers.py:66-69 | each key holds the dump of the last surviving entry renamed to it |
| DictProperties.DictFoldValues | jsons/serializers.py:64-69 | every stored value is the dump of a surviving entry's value |
| DictProperties.DictFoldNoNulls | jsons/serializers.py:66 | with `strip_nulls`, no value of the result is `None` |
| DictProperties.AllKeysKeptWithoutStrip | jsons/serializers.py:66-69 | without `strip_nulls`, every input key appears in the result after renaming |
| DictProperties.KeysUnrenamedWithoutTransformer | jsons/serializers.py:67-69 | without a transformer, the result's keys are input keys, and all of them when nothing is stripped |
| DictProperties.LastWrittenIsLast | jsons/serializers.py:63-69 | the reference for overwriting: the last surviving entry renamed to a key is the one that key holds |
| DictProperties.LaterKeyOverwrites | jsons/serializers.py:68-69 | when the transformer maps two keys to the same string, the later entry's value is stored |
| DictProperties.DictFoldKeepsOrder | jsons/serializers.py:62-70 | without stripping and with no renaming collision, the result has the input's length and entry i is renamed key i with the dump of value i |
| SerializerProperties.EnumDump | jsons/serializers.py:73-85 | an enum member dumps to its name when `use_enum_name` is true (the default), to its value otherwise |
| DateTimes.Offset | jsons/serializers.py:97-102 | no contract of its own; specified by OffsetZ, OffsetOfZoneName and OffsetOfUtcPrefixedName |
| DateTimes.DatetimeSerialize | jsons/serializers.py:88-105 | no contract of its own; specified by DatetimeLayout, FixedOffsetLayout and BaseReadsBack |
| DateTimes.Pad | jsons/serializers.py:105 | a zero-padded field has exactly the width and only digits |
| DateTimes.PadRoundTrip | jsons/serializers.py:105 | reading a padded field back gives the number |
| DateTimes.OffsetZ | jsons/serializers.py:97-101 | a naive value or a zone named `UTC` gives `Z`; a zone without a name raises `AttributeError` |
| DateTimes.OffsetOfZoneName | jsons/serializers.py:101-102 | for any other zone name, the suffix exists exactly when the name contains `UTC`, else `IndexError`; it is the text after the first `UTC` up to the next `UTC` or the end |
| DateTimes.OffsetOfUtcPrefixedName | jsons/serializers.py:101-102 | a zone named `UTC` followed by an offset text gives that text |
| DateTimes.FixedOffsetLayout | jsons/serializers.py:97-105 | such a zone makes the datetime text end with that offset text instead of `Z` |
| DateTimes.BaseReadsBack | jsons/serializers.py:99 | the base text has 19 characters with the six fields at fixed positions between `-`, `T` and `:` |
| DateTimes.DatetimeLayout | jsons/serializers.py:97-105 | the text is base, fraction, suffix; the `.ffffff` fraction is there exactly when the microsecond is non-zero and reads back to it; it fails only when the suffix does |
| SerializerProperties.PrimitiveIsIdentity | jsons/serializers.py:115 | a primitive dumps to itself |
| SerializerProperties.ObjectIsItsDict | jsons/serializers.py:134-136 | an object dumps exactly as the dict of its attributes with the same options |
| SerializerProperties.DumpOkIff | jsons/serializers.py:97-102 | a dump fails exactly when some datetime it reaches has a zone the serializer cannot name |
| SerializerProperties.DumpStripsNullsDeep | jsons/serializers.py:64-66 | with `strip_nulls`, no dict at any depth of the result holds `None` |
| SerializerProperties.DumpIsJson | jsons/serializers.py:23-136 | the result is JSON-ready: lists, dicts with distinct keys, scalars |
| SerializerProperties.DumpRenamesKeysDeep | jsons/serializers.py:64-68 | every key at every depth of the result is some input key renamed by the transformer once |
| SerializerProperties.DumpJsonIsIdentity | jsons/serializers.py:23-115 | a JSON-ready value dumps to itself when there is no transformer and nothing to strip |
| SerializerProperties.DictFoldOfDumped | jsons/serializers.py:62-70 | a dict whose values dump to themselves is rebuilt as it was when nothing is stripped or renamed |
| SerializerProperties.DumpIsIdempotent | jsons/serializers.py:23-136 | without a transformer, and with `use_enum_name` or enum members whose value is a scalar, dumping a dump gives the same result |
| SerializerProperties.ExtraOptionsAreInert | jsons/serializers.py:64-65 | the other keyword arguments are handed down unchanged and never change the result |
| Scenarios.StripNullsScenario | jsons/serializers.py:62-70 | `{'a': 1, 'b': None}` with `strip_nulls` dumps to `{'a': 1}` |
| Scenarios.ListScenario | jsons/serializers.py:23-45 | `[1, 2, 3]` dumps to itself; a `None` element of a tuple is kept under `strip_nulls` |
| Scenarios.EnumScenario | jsons/serializers.py:84-85 | `Color.RED` dumps to `'RED'`, or to its value with `use_enum_name=False` |
| Scenarios.SnakeCaseScenario | jsons/serializers.py:67-69 | `{'firstName': 'x'}` with a snake-case transformer dumps to `{'first_name': 'x'}` |
| Scenarios.UtcScenario | jsons/serializers.py:97-105 | a UTC datetime without microseconds is `2020-01-02T03:04:05Z` |
| Scenarios.NamedZoneScenario | jsons/serializers.py:101-102 | a zone named `CET` raises `IndexError` |
| CommonImpl.FirstPresent | jsons/_common_impl.py:97-100 | no contract of its own; specified by FirstPresentIsFirst and DeterminePrecedence |
| CommonImpl.DeterminePrecedence | jsons/_common_impl.py:92-100 | the loop with its early return yields the first truthy element of the order, or `None` |
| CommonImpl.FirstPresentIsFirst | jsons/_common_impl.py:98-100 | the result is an element with only `None` before it, and `None` exactly when all are `None` |
| CommonImpl.PrecedenceTable | jsons/_common_impl.py:92-96 | the class, then the meta class, then the type's class; the meta class first when the class was inferred |
| CommonImpl.GetClassName | jsons/_common_impl.py:37-63 | no contract of its own; specified by SpecialNameFirst, AnnouncedNameUnchanged, TransformerAppliedLast, QualifiedName |
| CommonImpl.SpecialCase | jsons/_common_impl.py:66-69 | no contract of its own; specified by SpecialNameFirst |
| CommonImpl.GetModule | jsons/_common_impl.py:139-143 | no contract of its own; specified by QualifiedName |
| CommonImpl.SpecialNameFirst | jsons/_common_impl.py:51-53 | a `NewType`'s non-empty `__name__` is returned before anything else, neither qualified nor transformed |
| CommonImpl.AnnouncedNameUnchanged | jsons/_common_impl.py:54-55 | an announced class's registered name is returned as registered |
| CommonImpl.TransformerAppliedLast | jsons/_common_impl.py:57-62 | the transformer is applied once, to the name computed without it |
| CommonImpl.QualifiedName | jsons/_common_impl.py:56-61 | qualifying prefixes `module.` exactly when the module is neither empty nor `builtins`; only `None`, which has no module, fails |
| CommonImpl.ReprTrim | jsons/_common_impl.py:132-135 | no contract of its own; specified by ReprTrimShape and ReprTrimOfClass |
| CommonImpl.SimpleName | jsons/_common_impl.py:125-136 | no contract of its own; specified by SimpleNamePreference |
| CommonImpl.ReprTrimShape | jsons/_common_impl.py:132-135 | the trimmed `repr` has no `[`, `.` or `'>`, and is a prefix of the last `.`-segment of the text before the first `[` |
| CommonImpl.ReprTrimOfClass | jsons/_common_impl.py:132-135 | the `repr` `<class 'm.Name'>` trims to `Name` |
| CommonImpl.SimpleNamePreference | jsons/_common_impl.py:125-136 | `__name__` first, then `_name`, then the trimmed `repr`, which has no dot |
| CommonImpl.SplitClassString | jsons/_common_impl.py:77-79 | no contract of its own; specified by SplitClassStringRebuilds and SplitQualifiedName |
| CommonImpl.SplitClassStringRebuilds | jsons/_common_impl.py:77-79 | the class part has no dot; module, dot and class part rebuild a dotted name; a dotless name has an empty module part |
| CommonImpl.SplitQualifiedName | jsons/_common_impl.py:61-79 | splitting `module.name` gives back the module and the name |
| Strings.Split | jsons/_common_impl.py:77 | `str.split`: at least one piece; specified further by JoinSplit, SplitSingleIff, SplitPiecesAvoidSep |
| Strings.Join | jsons/_common_impl.py:78 | `str.join`; no contract of its own; specified by JoinSplit |
| Strings.JoinSplit | jsons/_common_impl.py:77-78 | joining the pieces of a split with the separator gives back the string |
| Strings.SplitSingleIff | jsons/_common_impl.py:77 | a split gives one piece exactly when the separator does not occur, and that piece is the string |
| CommonImpl.LookupAnnouncedClass | jsons/_common_impl.py:113-122 | no contract of its own; specified by LookupAnnouncedIff |
| CommonImpl.GetClsFromStr | jsons/_common_impl.py:72-84 | no contract of its own; specified by ClsFromStrSources, QualifiedNameResolves, AnnouncedNameResolves |
| CommonImpl.LookupAnnouncedIff | jsons/_common_impl.py:117-122 | the lookup succeeds exactly for a name announced with a truthy class, else raises `UnknownClassError` for that name and source |
| CommonImpl.ClsFromStrSources | jsons/_common_impl.py:72-84 | a class found comes from `builtins`, the named module or the announced classes; the only errors are `TypeError` for a relative name and `UnknownClassError` for the name |
| CommonImpl.QualifiedNameResolves | jsons/_common_impl.py:58-84 | the fully qualified name written for a class of an importable module resolves back to that class |
| CommonImpl.AnnouncedNameResolves | jsons/_common_impl.py:54-84 | a class announced under a dotless name resolves back from the name written for it |
| CommonImpl.ClsAndMetaWithoutMeta | jsons/_common_impl.py:106-110 | `(None, None)` for anything but a dict with `-meta`; otherwise the meta entry is returned with the class |
| CommonImpl.GetClsAndMeta | jsons/_common_impl.py:103-110 | no contract of its own; specified by ClsAndMetaWithoutMeta, ClsAndMetaReadsClassName, ClsAndMetaMalformed |
| CommonImpl.ClsAndMetaReadsClassName | jsons/_common_impl.py:106-109 | with a string at `['-meta']['classes']['/']`, the class returned is the one that string resolves to, with the meta entry; a failure to resolve it is the error |
| CommonImpl.ClsAndMetaMalformed | jsons/_common_impl.py:106-109 | a `-meta` entry that is no dict raises `TypeError`, one without `classes` raises `KeyError`, a class name that is no string raises `TypeError` |

## Left out

- The registry of serializers and the resolution order of `dump_impl` are not part of this model. `Dump` dispatches on the value's shape alone.
- `StateHolder._warn` and the `warnings` module only have a side effect.
- `import_module` and `getattr(builtins, ...)` are given as an `Interpreter` value: a map of the `builtins` attributes and a map of each importable module's attributes. The announced-classes table is an `Announced` value, one map per direction.
- Reflection (`__qualname__`, `__name__`, `_name`, `repr`, `__module__`, `__dict__`) is explicit data on `ClassDesc` and on `Value.Object`.
- `strftime` is modelled only for the fields the pattern names, as zero-padded decimals. Its handling of `%` signs inside the offset text, and platform differences for years below 1000, are not modelled.
- `tzinfo.tzname(None)` is an input (`TzInfo.tzname`). A `tzinfo` object is taken as truthy.
- The casing functions `snakecase`, `camelcase`, `pascalcase` and `lispcase` are not part of this model. A key transformer is any `string -> string`.
- Floats are not modelled, because they are floating point.
- Dict keys are strings only.
- Sets and generators are `IterableKind` sequences in a fixed order.
- Cyclic object graphs are not modelled. `Value` is a finite tree, so every dump ends.
- Deserialization is not part of this model.
- SerializerProperties.DumpIsJson: assumes `use_enum_name`, or enum members whose value is a scalar, because an enum's `.value` is returned undumped and could be anything.
- SerializerProperties.DumpStripsNullsDeep: assumes the same of enum members, for the same reason.
- SerializerProperties.DumpRenamesKeysDeep: assumes the same of enum members, for the same reason.
- CommonImpl.SpecialCase: a `NewType` whose `__name__` is missing is modelled as raising `AttributeError`.
- SerializerProperties.DumpIsIdempotent: assumes the same of enum members, for the same reason.
- DateTimes.Base: `RFC3339_DATETIME_PATTERN` is not defined in the modelled files; it is taken to be `%Y-%m-%dT%H:%M:%S`.
