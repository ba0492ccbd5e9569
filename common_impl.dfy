/**
  The name and precedence helpers shared by the serializers and the
  deserializers: the name under which a class is written, the class a written
  name stands for, and the choice between the classes a deserialization may be
  told about.

  Reflection is replaced by explicit data. A class is a `ClassDesc` that
  carries what the helpers read from it (`__qualname__`, `__name__`, `_name`,
  its `repr` and `__module__`); `builtins` and the importable modules are an
  `Interpreter` value; the announced-classes dictionary of `StateHolder`, which
  maps classes to names and names to classes, is an `Announced` value.
 */
module CommonImpl {
  import opened Wrappers
  import opened Strings
  import opened Values
  import opened Errors

  /** The `__qualname__` that `typing.NewType` gives the callables it makes. */
  const NEWTYPE_QUALNAME := "NewType.<locals>.new_type"
  /** The module of the built-in types, `str.__class__.__module__`. */
  const BUILTINS := "builtins"
  /** The key under which a verbose dump keeps its meta information. */
  const META_ATTR := "-meta"
  /** The name `_get_simple_name` gives `None`, after replacing it by its type. */
  const NONE_TYPE_NAME := "NoneType"
  const REPR_END := "'>"

  /**
    What the helpers read from a class. For `_name`, for `__qualname__` and,
    outside `_get_special_cases`, for `__name__`, an absent attribute and one
    that is `None` are both `None` here, as the helpers read them with a
    default or test them for truth alike. `_get_special_cases` reads
    `__name__` without a default, so there `None` stands for an absent
    attribute, which raises. `ident` tells apart classes whose attributes read
    alike.
   */
  datatype ClassDesc = ClassDesc(
    ident: nat,
    qualname: Option<string>,
    name: Option<string>,
    altName: Option<string>,
    reprText: string,
    moduleName: Option<string>)

  /** A class, or `None`, the one falsy value the helpers meet here. */
  datatype ClassRef = NoneClass | Class(desc: ClassDesc)

  /** The attributes of `builtins`, and each importable module's attributes. */
  datatype Interpreter = Interpreter(
    builtins: map<string, ClassRef>,
    modules: map<string, map<string, ClassRef>>)

  /** `StateHolder._announced_classes`, keyed by class on one side and by name on the other. */
  datatype Announced = Announced(
    names: map<ClassRef, string>,
    classes: map<string, ClassRef>)

  // ---------------------------------------------------------------------------
  // Class names
  // ---------------------------------------------------------------------------

  /** `_get_special_cases`: a `NewType` is named by its `__name__`; any other class has no special name. */
  function SpecialCase(cls: ClassRef): Result<Option<string>, Error>
  {
    match cls
    case NoneClass => Ok(None)
    case Class(d) =>
      if d.qualname == Some(NEWTYPE_QUALNAME) then
        (match d.name
         case None => Err(AttributeError("__name__"))
         case Some(n) => Ok(Some(n)))
      else Ok(None)
  }

  /** The special name's test `if cls_name:`, that there is one and it is not empty. */
  predicate HasSpecialName(cls: ClassRef)
  {
    SpecialCase(cls).Ok? && SpecialCase(cls).value.Some? && SpecialCase(cls).value.value != ""
  }

  /** `repr(cls).split('[')[0].split('.')[-1].split("'>")[0]`. */
  function ReprTrim(t: string): string
  {
    var generic := Split(t, "[")[0];
    var segments := Split(generic, ".");
    Split(segments[|segments| - 1], REPR_END)[0]
  }

  /** `_get_simple_name`: `__name__`, else `_name`, else the trimmed `repr`. */
  function SimpleName(cls: ClassRef): string
  {
    match cls
    case NoneClass => NONE_TYPE_NAME
    case Class(d) =>
      if d.name.Some? && d.name.value != "" then d.name.value
      else if d.altName.Some? && d.altName.value != "" then d.altName.value
      else ReprTrim(d.reprText)
  }

  /** `_get_module`: the module, unless it is empty or the built-in one; `None` has no `__module__`. */
  function GetModule(cls: ClassRef): Result<Option<string>, Error>
  {
    match cls
    case NoneClass => Err(AttributeError("__module__"))
    case Class(d) =>
      if d.moduleName.Some? && d.moduleName.value != "" && d.moduleName.value != BUILTINS then Ok(d.moduleName)
      else Ok(None)
  }

  /** The transformer, or the identity when there is none (`transformer or (lambda x: x)`). */
  function Transform(transformer: Option<string -> string>, s: string): string
  {
    match transformer
    case None => s
    case Some(f) => f(s)
  }

  /** `get_class_name`. */
  function GetClassName(
    cls: ClassRef,
    transformer: Option<string -> string>,
    fullyQualified: bool,
    announced: Announced): Result<string, Error>
  {
    match SpecialCase(cls)
    case Err(e) => Err(e)
    case Ok(special) =>
      if special.Some? && special.value != "" then Ok(special.value)
      else if cls in announced.names then Ok(announced.names[cls])
      else
        var simple := SimpleName(cls);
        if fullyQualified then
          match GetModule(cls)
          case Err(e) => Err(e)
          case Ok(mod) =>
            var qualified := if mod.Some? then mod.value + "." + simple else simple;
            Ok(Transform(transformer, qualified))
        else Ok(Transform(transformer, simple))
  }

  // ---------------------------------------------------------------------------
  // Classes from names
  // ---------------------------------------------------------------------------

  /** The dotted-name split of `get_cls_from_str`: every segment but the last, joined, and the last. */
  function SplitClassString(s: string): (string, string)
  {
    var segments := Split(s, ".");
    (Join(".", segments[..|segments| - 1]), segments[|segments| - 1])
  }

  /** The message of the `UnknownClassError` raised for `clsStr`. */
  function UnknownClassMessage(clsStr: string): string
  {
    "Could not find a suitable type for \"" + clsStr
    + "\". Make sure it can be imported or that is has been announced."
  }

  /** `_lookup_announced_class`: the announced class for the name, if there is a truthy one. */
  function LookupAnnouncedClass(clsStr: string, source: Value, announced: Announced): Result<ClassRef, Error>
  {
    if clsStr in announced.classes && announced.classes[clsStr].Class? then Ok(announced.classes[clsStr])
    else Err(UnknownClassError(UnknownClassMessage(clsStr), source, clsStr))
  }

  /**
    `get_cls_from_str`. A truthy attribute of `builtins` wins. Otherwise the
    module part is imported: a relative name raises `TypeError`, which is not
    caught; an empty name (`ValueError`), a module that is not there
    (`ImportError`) or a module without the attribute (`AttributeError`) fall
    back to the announced classes.
   */
  function GetClsFromStr(clsStr: string, source: Value, interp: Interpreter, announced: Announced): Result<ClassRef, Error>
  {
    if clsStr in interp.builtins && interp.builtins[clsStr].Class? then Ok(interp.builtins[clsStr])
    else
      var (moduleName, clsName) := SplitClassString(clsStr);
      if |moduleName| > 0 && moduleName[0] == '.' then Err(TypeError)
      else if moduleName == "" || moduleName !in interp.modules || clsName !in interp.modules[moduleName] then
        LookupAnnouncedClass(clsStr, source, announced)
      else Ok(interp.modules[moduleName][clsName])
  }

  /** `v[key]` on a value read from JSON: a missing key raises `KeyError`, a non-dict `TypeError`. */
  function Subscript(v: Value, key: string): Result<Value, Error>
  {
    if v.Dict? then
      match Lookup(v.entries, key)
      case None => Err(KeyError(key))
      case Some(x) => Ok(x)
    else Err(TypeError)
  }

  /**
    `get_cls_and_meta`: for a dict with a `-meta` entry, the class named at
    `['-meta']['classes']['/']` and the meta entry; `(None, None)` for anything
    else. A class name that is not a string makes the `builtins` lookup raise
    `TypeError`.
   */
  function GetClsAndMeta(jsonObj: Value, interp: Interpreter, announced: Announced): Result<(ClassRef, Option<Value>), Error>
  {
    match jsonObj
    case Dict(entries) =>
      (match Lookup(entries, META_ATTR)
       case None => Ok((NoneClass, None))
       case Some(meta) =>
         match Subscript(meta, "classes")
         case Err(e) => Err(e)
         case Ok(classes) =>
           match Subscript(classes, "/")
           case Err(e) => Err(e)
           case Ok(clsStr) =>
             if !clsStr.Str? then Err(TypeError)
             else
               match GetClsFromStr(clsStr.s, jsonObj, interp, announced)
               case Err(e) => Err(e)
               case Ok(cls) => Ok((cls, Some(meta))))
    case _ => Ok((NoneClass, None))
  }

  // ---------------------------------------------------------------------------
  // Precedence
  // ---------------------------------------------------------------------------

  /** The order in which `determine_precedence` looks at its three candidates. */
  function PrecedenceOrder(cls: ClassRef, clsFromMeta: ClassRef, clsFromType: ClassRef, inferredCls: bool): seq<ClassRef>
  {
    if inferredCls then [clsFromMeta, cls, clsFromType] else [cls, clsFromMeta, clsFromType]
  }

  /** The first truthy element, or `None` when there is none. */
  function FirstPresent(order: seq<ClassRef>): ClassRef
  {
    if |order| == 0 then NoneClass
    else if order[0].Class? then order[0]
    else FirstPresent(order[1..])
  }

  /** `determine_precedence`, as the loop with an early return that it is. */
  method DeterminePrecedence(cls: ClassRef, clsFromMeta: ClassRef, clsFromType: ClassRef, inferredCls: bool)
    returns (r: ClassRef)
    ensures r == FirstPresent(PrecedenceOrder(cls, clsFromMeta, clsFromType, inferredCls))
  {
    var order := [cls, clsFromMeta, clsFromType];
    if inferredCls {
      order := [clsFromMeta, cls, clsFromType];
    }
    var i := 0;
    while i < |order|
      invariant 0 <= i <= |order|
      invariant FirstPresent(order[i..]) == FirstPresent(order)
    {
      assert order[i..][1..] == order[i + 1..];
      if order[i].Class? {
        return order[i];
      }
      i := i + 1;
    }
    r := NoneClass;
  }

  // ---------------------------------------------------------------------------
  // Properties
  // ---------------------------------------------------------------------------

  /** The first truthy element it is: every element before it is `None`, and it is `None` only when all are. */
  lemma {:induction false} FirstPresentIsFirst(order: seq<ClassRef>)
    ensures FirstPresent(order).NoneClass? <==> forall i | 0 <= i < |order| :: order[i].NoneClass?
    ensures FirstPresent(order).Class? ==>
      exists i | 0 <= i < |order| :: order[i] == FirstPresent(order) && forall j | 0 <= j < i :: order[j].NoneClass?
  {
    if |order| > 0 && order[0].NoneClass? {
      FirstPresentIsFirst(order[1..]);
      assert forall i | 1 <= i < |order| :: order[i] == order[1..][i - 1];
      if FirstPresent(order).Class? {
        var k :| 0 <= k < |order[1..]| && order[1..][k] == FirstPresent(order)
          && forall j | 0 <= j < k :: order[1..][j].NoneClass?;
        assert order[k + 1] == FirstPresent(order);
      }
    }
  }

  /**
    The precedence table: the explicit class, then the one from the meta data,
    then the one from the type; the meta class first when the class was only
    inferred; `None` when all three are absent.
   */
  lemma PrecedenceTable(cls: ClassRef, clsFromMeta: ClassRef, clsFromType: ClassRef, inferredCls: bool)
    ensures var r := FirstPresent(PrecedenceOrder(cls, clsFromMeta, clsFromType, inferredCls));
      && (!inferredCls ==>
        r == (if cls.Class? then cls else if clsFromMeta.Class? then clsFromMeta else clsFromType))
      && (inferredCls ==>
        r == (if clsFromMeta.Class? then clsFromMeta else if cls.Class? then cls else clsFromType))
      && (r.NoneClass? <==> cls.NoneClass? && clsFromMeta.NoneClass? && clsFromType.NoneClass?)
  {
    FirstOfThree(cls, clsFromMeta, clsFromType);
    FirstOfThree(clsFromMeta, cls, clsFromType);
  }

  lemma FirstOfThree(a: ClassRef, b: ClassRef, c: ClassRef)
    ensures FirstPresent([a, b, c]) == if a.Class? then a else if b.Class? then b else c
  {
    assert [c][1..] == [];
    assert FirstPresent([c]) == c;
    assert [b, c][1..] == [c];
    assert FirstPresent([b, c]) == if b.Class? then b else c;
    assert [a, b, c][1..] == [b, c];
  }

  /** A special name is returned first, neither qualified nor transformed, whatever the other arguments. */
  lemma SpecialNameFirst(cls: ClassRef, transformer: Option<string -> string>, fullyQualified: bool, announced: Announced)
    requires HasSpecialName(cls)
    ensures GetClassName(cls, transformer, fullyQualified, announced) == Ok(SpecialCase(cls).value.value)
    ensures cls.Class? && GetClassName(cls, transformer, fullyQualified, announced) == Ok(cls.desc.name.value)
  {
  }

  /** Without a special name, an announced class's registered name is returned as registered. */
  lemma AnnouncedNameUnchanged(cls: ClassRef, transformer: Option<string -> string>, fullyQualified: bool, announced: Announced)
    requires SpecialCase(cls).Ok? && !HasSpecialName(cls)
    requires cls in announced.names
    ensures GetClassName(cls, transformer, fullyQualified, announced) == Ok(announced.names[cls])
  {
  }

  /** The transformer is applied once, last, to the name the function gives without one. */
  lemma TransformerAppliedLast(cls: ClassRef, f: string -> string, fullyQualified: bool, announced: Announced)
    requires SpecialCase(cls).Ok? && !HasSpecialName(cls)
    requires cls !in announced.names
    ensures GetClassName(cls, Some(f), fullyQualified, announced).Ok?
        <==> GetClassName(cls, None, fullyQualified, announced).Ok?
    ensures GetClassName(cls, None, fullyQualified, announced).Ok? ==>
      GetClassName(cls, Some(f), fullyQualified, announced) == Ok(f(GetClassName(cls, None, fullyQualified, announced).value))
  {
  }

  /**
    Qualifying prefixes the simple name with `module.` exactly when the
    module is neither empty nor `builtins`; it fails only for `None`, which
    has no module.
   */
  lemma QualifiedName(cls: ClassRef, announced: Announced)
    requires SpecialCase(cls).Ok? && !HasSpecialName(cls)
    requires cls !in announced.names
    ensures GetClassName(cls, None, false, announced) == Ok(SimpleName(cls))
    ensures GetClassName(cls, None, true, announced).Err? <==> cls.NoneClass?
    ensures cls.Class? ==>
      var m := cls.desc.moduleName;
      if m.Some? && m.value != "" && m.value != BUILTINS then
        GetClassName(cls, None, true, announced) == Ok(m.value + "." + SimpleName(cls))
      else
        GetClassName(cls, None, true, announced) == Ok(SimpleName(cls))
  {
  }

  lemma ContainsChar(s: string, c: char)
    ensures Contains(s, [c]) <==> c in s
  {
    if c in s {
      var i :| 0 <= i < |s| && s[i] == c;
      assert s[i..i + 1] == [c];
      assert OccursAt(s, [c], i);
    }
    if Contains(s, [c]) {
      var i: nat :| i <= |s| && OccursAt(s, [c], i);
      assert s[i] == s[i..i + 1][0];
    }
  }

  lemma SliceOccurrence(s: string, sep: string, lo: nat, hi: nat, i: nat)
    requires lo <= hi <= |s|
    ensures OccursAt(s[lo..hi], sep, i) ==> OccursAt(s, sep, lo + i)
  {
    if OccursAt(s[lo..hi], sep, i) {
      var t := s[lo..hi];
      forall k | 0 <= k < |sep| ensures s[lo + i..lo + i + |sep|][k] == sep[k] {
        assert t[i..i + |sep|][k] == sep[k];
        assert t[i + k] == s[lo + i + k];
      }
      assert s[lo + i..lo + i + |sep|] == sep;
    }
  }

  /** A piece of a string without `sep` has no `sep` either. */
  lemma NoSepInSlice(s: string, sep: string, lo: nat, hi: nat)
    requires lo <= hi <= |s|
    requires !Contains(s, sep)
    ensures !Contains(s[lo..hi], sep)
  {
    forall i: nat | i <= hi - lo ensures OccursAt(s[lo..hi], sep, i) ==> OccursAt(s, sep, lo + i) {
      SliceOccurrence(s, sep, lo, hi, i);
    }
  }

  /**
    The `repr` fallback of the simple name has no `[` and no `.`, and it is a
    prefix of the last `.`-segment of the text before the first `[`.
   */
  lemma ReprTrimShape(t: string)
    ensures var r := ReprTrim(t);
      var segments := Split(Split(t, "[")[0], ".");
      && !Contains(r, "[") && !Contains(r, ".") && !Contains(r, REPR_END)
      && r <= segments[|segments| - 1]
  {
    var generic := Split(t, "[")[0];
    var segments := Split(generic, ".");
    var last := segments[|segments| - 1];
    var r := Split(last, REPR_END)[0];
    SplitPiecesAvoidSep(t, "[");
    SplitPiecesAvoidSep(generic, ".");
    SplitPiecesAvoidSep(last, REPR_END);
    SplitLastIsSuffix(generic, ".");
    SplitFirstIsPrefix(last, REPR_END);
    NoSepInSlice(generic, "[", |generic| - |last|, |generic|);
    assert generic[|generic| - |last|..|generic|] == last;
    NoSepInSlice(last, "[", 0, |r|);
    NoSepInSlice(last, ".", 0, |r|);
    assert last[0..|r|] == r;
  }

  /** For the `repr` of a plain class, `<class 'module.Name'>`, the trimmed text is the class name. */
  lemma ReprTrimOfClass(m: string, n: string)
    requires '[' !in m && '[' !in n && '.' !in n
    requires !Contains(n, REPR_END)
    ensures ReprTrim("<class '" + m + "." + n + REPR_END) == n
  {
    var a := "<class '" + m;
    var b := n + REPR_END;
    assert "<class '" + m + "." + n + REPR_END == a + "." + b;
    WithoutBracket(a + "." + b);
    LastSegment(a, b);
    CutAtReprEnd(n);
  }

  /** A text without `[` is its own first `[`-piece. */
  lemma WithoutBracket(t: string)
    requires '[' !in t
    ensures Split(t, "[")[0] == t
  {
    ContainsChar(t, '[');
    SplitSingleIff(t, "[");
  }

  /** The last `.`-segment of `a + "." + b` is `b`, when `b` has no dot. */
  lemma LastSegment(a: string, b: string)
    requires '.' !in b
    ensures var segments := Split(a + "." + b, "."); segments[|segments| - 1] == b
  {
    assert a + "." + b == a + ['.'] + b;
    SplitAround(a, '.', b);
    ContainsChar(b, '.');
    SplitSingleIff(b, ".");
  }

  /** The text before the first `'>` of `n + "'>"` is `n`, when `n` has no `'>` of its own. */
  lemma CutAtReprEnd(n: string)
    requires !Contains(n, REPR_END)
    ensures Split(n + REPR_END, REPR_END)[0] == n
  {
    var b := n + REPR_END;
    assert OccursAt(b, REPR_END, |n|) by { assert b[|n|..|n| + 2] == REPR_END; }
    forall j: nat | j < |n| ensures !OccursAt(b, REPR_END, j) {
      if j + 2 <= |n| {
        assert b[j..j + 2] == n[j..j + 2];
        assert !OccursAt(n, REPR_END, j);
      } else {
        assert b[j + 1] == '\'';
      }
    }
    FindIsLeast(b, REPR_END, |n|);
    assert b[..|n|] == n;
  }

  /** The simple name prefers `__name__`, then `_name`, and trims the `repr` only when both are missing or empty. */
  lemma SimpleNamePreference(d: ClassDesc)
    ensures d.name.Some? && d.name.value != "" ==> SimpleName(Class(d)) == d.name.value
    ensures (d.name.None? || d.name.value == "") && d.altName.Some? && d.altName.value != "" ==>
      SimpleName(Class(d)) == d.altName.value
    ensures (d.name.None? || d.name.value == "") && (d.altName.None? || d.altName.value == "") ==>
      SimpleName(Class(d)) == ReprTrim(d.reprText) && !Contains(SimpleName(Class(d)), ".")
  {
    ReprTrimShape(d.reprText);
  }

  /** A dotted name is the module part, a dot and the class part; the class part has no dot. */
  lemma SplitClassStringRebuilds(s: string)
    ensures var (m, n) := SplitClassString(s);
      && !Contains(n, ".")
      && (Contains(s, ".") ==> m + "." + n == s)
      && (!Contains(s, ".") ==> m == "" && n == s)
  {
    var segments := Split(s, ".");
    SplitPiecesAvoidSep(s, ".");
    SplitSingleIff(s, ".");
    if Contains(s, ".") {
      var init := segments[..|segments| - 1];
      assert init + [segments[|segments| - 1]] == segments;
      JoinSnoc(".", init, segments[|segments| - 1]);
      JoinSplit(s, ".");
    }
  }

  /** Splitting `m + "." + n`, the format of a qualified name, gives back `m` and `n`. */
  lemma SplitQualifiedName(m: string, n: string)
    requires '.' !in n
    ensures SplitClassString(m + "." + n) == (m, n)
  {
    assert m + "." + n == m + ['.'] + n;
    SplitAround(m, '.', n);
    ContainsChar(n, '.');
    SplitSingleIff(n, ".");
    var segments := Split(m + "." + n, ".");
    assert segments[..|segments| - 1] == Split(m, ".");
    JoinSplit(m, ".");
  }

  /** The lookup succeeds exactly for a name announced with a truthy class, and otherwise names the missing name. */
  lemma LookupAnnouncedIff(clsStr: string, source: Value, announced: Announced)
    ensures LookupAnnouncedClass(clsStr, source, announced).Ok? <==>
      clsStr in announced.classes && announced.classes[clsStr].Class?
    ensures LookupAnnouncedClass(clsStr, source, announced).Ok? ==>
      LookupAnnouncedClass(clsStr, source, announced).value == announced.classes[clsStr]
    ensures LookupAnnouncedClass(clsStr, source, announced).Err? ==>
      var e := LookupAnnouncedClass(clsStr, source, announced).error;
      e.UnknownClassError? && e.target == clsStr && e.source == source
  {
  }

  /**
    Every class `get_cls_from_str` returns comes from `builtins`, from the
    module the name points into, or from the announced classes; it raises only
    `TypeError` for a relative name or `UnknownClassError` for the name itself.
   */
  lemma ClsFromStrSources(clsStr: string, source: Value, interp: Interpreter, announced: Announced)
    ensures var r := GetClsFromStr(clsStr, source, interp, announced);
      var (m, n) := SplitClassString(clsStr);
      && (r.Ok? ==>
        || (clsStr in interp.builtins && r.value == interp.builtins[clsStr])
        || (m in interp.modules && n in interp.modules[m] && r.value == interp.modules[m][n])
        || (clsStr in announced.classes && r.value == announced.classes[clsStr]))
      && (r.Err? ==>
        || (r.error == TypeError && |m| > 0 && m[0] == '.')
        || (r.error.UnknownClassError? && r.error.target == clsStr))
  {
  }

  /**
    The round trip of a fully qualified name: the name `get_class_name` writes
    for a class of an importable module leads `get_cls_from_str` back to that
    class.
   */
  lemma QualifiedNameResolves(cls: ClassRef, source: Value, interp: Interpreter, announced: Announced)
    requires SpecialCase(cls).Ok? && !HasSpecialName(cls)
    requires cls !in announced.names
    requires cls.Class? && cls.desc.moduleName.Some?
    requires var m := cls.desc.moduleName.value;
      && m != "" && m != BUILTINS && m[0] != '.'
      && m in interp.modules && SimpleName(cls) in interp.modules[m]
      && interp.modules[m][SimpleName(cls)] == cls
    requires '.' !in SimpleName(cls)
    requires cls.desc.moduleName.value + "." + SimpleName(cls) !in interp.builtins
    ensures GetClassName(cls, None, true, announced).Ok?
    ensures GetClsFromStr(GetClassName(cls, None, true, announced).value, source, interp, announced) == Ok(cls)
  {
    SplitQualifiedName(cls.desc.moduleName.value, SimpleName(cls));
  }

  /**
    The round trip of an announced name: a class announced under a dotless
    name that is no built-in is found again from the name `get_class_name`
    writes for it.
   */
  lemma AnnouncedNameResolves(cls: ClassRef, source: Value, interp: Interpreter, announced: Announced)
    requires SpecialCase(cls).Ok? && !HasSpecialName(cls)
    requires cls.Class? && cls in announced.names
    requires var s := announced.names[cls];
      && s in announced.classes && announced.classes[s] == cls
      && '.' !in s && s !in interp.builtins
    ensures GetClsFromStr(GetClassName(cls, None, false, announced).value, source, interp, announced) == Ok(cls)
  {
    var s := announced.names[cls];
    ContainsChar(s, '.');
    SplitClassStringRebuilds(s);
  }

  /** `(None, None)` exactly for what is not a dict with a `-meta` entry; otherwise the meta entry comes back with the class. */
  lemma ClsAndMetaWithoutMeta(jsonObj: Value, interp: Interpreter, announced: Announced)
    ensures !(jsonObj.Dict? && META_ATTR in Keys(jsonObj.entries)) ==>
      GetClsAndMeta(jsonObj, interp, announced) == Ok((NoneClass, None))
    ensures jsonObj.Dict? && META_ATTR in Keys(jsonObj.entries) && GetClsAndMeta(jsonObj, interp, announced).Ok? ==>
      GetClsAndMeta(jsonObj, interp, announced).value.1 == Lookup(jsonObj.entries, META_ATTR)
      && GetClsAndMeta(jsonObj, interp, announced).value.1.Some?
  {
  }

  /** With a `-meta` entry whose `['classes']['/']` is a string, the class is the one that string names, and an error in finding it is the result. */
  lemma ClsAndMetaReadsClassName(jsonObj: Value, clsStr: string, interp: Interpreter, announced: Announced)
    requires jsonObj.Dict? && Lookup(jsonObj.entries, META_ATTR).Some?
    requires Subscript(Lookup(jsonObj.entries, META_ATTR).value, "classes").Ok?
    requires Subscript(Subscript(Lookup(jsonObj.entries, META_ATTR).value, "classes").value, "/") == Ok(Str(clsStr))
    ensures GetClsAndMeta(jsonObj, interp, announced).Ok? <==> GetClsFromStr(clsStr, jsonObj, interp, announced).Ok?
    ensures GetClsAndMeta(jsonObj, interp, announced).Ok? ==>
      GetClsAndMeta(jsonObj, interp, announced).value
      == (GetClsFromStr(clsStr, jsonObj, interp, announced).value, Lookup(jsonObj.entries, META_ATTR))
    ensures GetClsAndMeta(jsonObj, interp, announced).Err? ==>
      GetClsAndMeta(jsonObj, interp, announced).error == GetClsFromStr(clsStr, jsonObj, interp, announced).error
  {
  }

  /** A `-meta` entry that is no dict, or has no class name, or a class name that is no string, raises. */
  lemma ClsAndMetaMalformed(jsonObj: Value, interp: Interpreter, announced: Announced)
    requires jsonObj.Dict? && Lookup(jsonObj.entries, META_ATTR).Some?
    ensures var meta := Lookup(jsonObj.entries, META_ATTR).value;
      && (!meta.Dict? ==> GetClsAndMeta(jsonObj, interp, announced) == Err(TypeError))
      && (meta.Dict? && "classes" !in Keys(meta.entries) ==>
            GetClsAndMeta(jsonObj, interp, announced) == Err(KeyError("classes")))
      && (Subscript(meta, "classes").Ok? && Subscript(Subscript(meta, "classes").value, "/").Ok?
          && !Subscript(Subscript(meta, "classes").value, "/").value.Str? ==>
            GetClsAndMeta(jsonObj, interp, announced) == Err(TypeError))
  {
  }
}
