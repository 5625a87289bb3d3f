/**
 * Mod loading: a mod's name is the last segment of its directory path, its
 * script is `data.lua` in that directory, and the script registers
 * interfaces by calling data:extend with a table of definition records.
 * Each record must have a string `type`; a record of type "interface" must
 * also have a string `name` and registers one empty interface under
 * "<mod name>:<name>"; records of other types are skipped. A Lua error
 * aborts the rest of the call and keeps what was already registered.
 *
 * Strings that come from C are the characters before their NUL; strings
 * that come from Lua may hold NULs, and C code sees them only up to the first.
 */
module Mods {
  import opened Wrappers
  import opened CStrings
  import opened Interfaces

  /** PATH_MAX on Linux: the size of mod_load's path buffer. */
  const PathMax: nat := 4096

  /** What mod_load appends to the mod's directory. */
  const ScriptFile: string := "/data.lua"

  const InterfaceType: string := "interface"

  // ---------------------------------------------------------------------------
  // Names and paths

  /** strrchr(path, '/'): the position of the last '/', if there is one. */
  function LastSlash(path: string): (r: Option<nat>)
    ensures r.Some? ==> r.value < |path| && path[r.value] == '/'
    ensures forall j :: (if r.Some? then r.value + 1 else 0) <= j < |path| ==> path[j] != '/'
    decreases |path|
  {
    if path == [] then None
    else if path[|path| - 1] == '/' then Some(|path| - 1)
    else LastSlash(path[..|path| - 1])
  }

  /**
   * The mod name mod_init derives: the part of `path` after its last '/', or
   * all of it when it has none. It is the longest suffix free of '/'.
   */
  function BaseName(path: string): (name: string)
    ensures '/' !in name && |name| <= |path|
    ensures name == path[|path| - |name|..]
    ensures |name| < |path| ==> path[|path| - |name| - 1] == '/'
  {
    match LastSlash(path)
    case None => path
    case Some(i) => path[i + 1..]
  }

  /** The last '/' of `dir/segment` is the one before `segment`. */
  lemma {:induction false} LastSlashBefore(dir: string, segment: string)
    requires '/' !in segment
    ensures LastSlash(dir + "/" + segment) == Some(|dir|)
    decreases |segment|
  {
    var path := dir + "/" + segment;
    if segment != [] {
      var shorter := segment[..|segment| - 1];
      assert path[..|path| - 1] == dir + "/" + shorter;
      assert path[|path| - 1] == segment[|segment| - 1];
      LastSlashBefore(dir, shorter);
    }
  }

  /** The name of a mod whose directory is `dir/segment` is `segment`. */
  lemma BaseNameOfJoin(dir: string, segment: string)
    requires '/' !in segment
    ensures BaseName(dir + "/" + segment) == segment
  {
    LastSlashBefore(dir, segment);
    assert (dir + "/" + segment)[|dir| + 1..] == segment;
  }

  /** The path mod_load hands to the interpreter: "%s/data.lua" of the mod's directory. */
  function ScriptPath(filepath: string): (r: string)
    ensures |r| == |filepath| + |ScriptFile|
    ensures r[..|filepath|] == filepath && r[|filepath|..] == ScriptFile
  {
    filepath + ScriptFile
  }

  /** The script path is the file data.lua inside the mod's own directory. */
  lemma ScriptPathInModDirectory(filepath: string)
    ensures ScriptPath(filepath)[..|filepath|] == filepath
    ensures BaseName(ScriptPath(filepath)) == "data.lua"
  {
    assert ScriptPath(filepath) == filepath + "/" + "data.lua";
    BaseNameOfJoin(filepath, "data.lua");
  }

  /**
   * The registry key mod_register_interface builds with "%s:%s". It fills the
   * buffer it allocates exactly: its length plus the NUL is
   * strlen(mod name) + 1 + strlen(internal name) + 1.
   */
  function QualifiedName(modName: string, internal: string): (q: string)
    ensures |q| + 1 == |modName| + 1 + |UntilNul(internal, '\0')| + 1
  {
    modName + ":" + UntilNul(internal, '\0')
  }

  /** The position of the first ':' of `q`, if there is one. */
  function FirstColon(q: string): (r: Option<nat>)
    ensures r.Some? ==> r.value < |q| && q[r.value] == ':' && ':' !in q[..r.value]
    ensures r.None? ==> ':' !in q
  {
    if q == [] then None
    else if q[0] == ':' then Some(0)
    else
      var r := FirstColon(q[1..]);
      if r.Some? then
        assert q[..r.value + 1] == [q[0]] + q[1..][..r.value];
        Some(r.value + 1)
      else
        assert q == [q[0]] + q[1..];
        None
  }

  /** A registry key taken apart at its first ':' into mod name and internal name. */
  function SplitQualified(q: string): Option<(string, string)> {
    match FirstColon(q)
    case None => None
    case Some(i) => Some((q[..i], q[i + 1..]))
  }

  /** The first ':' after a prefix free of ':' is the one right after it. */
  lemma {:induction false} FirstColonAfter(prefix: string, rest: string)
    requires ':' !in prefix
    ensures FirstColon(prefix + ":" + rest) == Some(|prefix|)
  {
    if prefix != [] {
      assert (prefix + ":" + rest)[1..] == prefix[1..] + ":" + rest;
      FirstColonAfter(prefix[1..], rest);
    }
  }

  /** For a mod name without ':', the key gives back the mod name and the internal name. */
  lemma SplitJoin(modName: string, internal: string)
    requires ':' !in modName
    ensures SplitQualified(QualifiedName(modName, internal)) == Some((modName, UntilNul(internal, '\0')))
  {
    var q := QualifiedName(modName, internal);
    FirstColonAfter(modName, UntilNul(internal, '\0'));
    assert q[..|modName|] == modName;
    assert q[|modName| + 1..] == UntilNul(internal, '\0');
  }

  /** Mods whose names hold no ':' never share a registry key unless they are the same mod and name. */
  lemma QualifiedNamesDistinct(mod1: string, internal1: string, mod2: string, internal2: string)
    requires ':' !in mod1 && ':' !in mod2
    requires mod1 != mod2 || UntilNul(internal1, '\0') != UntilNul(internal2, '\0')
    ensures QualifiedName(mod1, internal1) != QualifiedName(mod2, internal2)
  {
    SplitJoin(mod1, internal1);
    SplitJoin(mod2, internal2);
  }

  /** A ':' in a mod directory's name lets two mods build the same key. */
  lemma QualifiedNamesCollide()
    ensures QualifiedName("a", "b:c") == QualifiedName("a:b", "c") == "a:b:c"
  {
    UntilNulOfPlain("b:c", '\0');
    UntilNulOfPlain("c", '\0');
  }

  /** Two mods each registering "menu" get two keys. */
  lemma AlphaBetaMenus()
    ensures QualifiedName("alpha", "menu") == "alpha:menu"
    ensures QualifiedName("beta", "menu") == "beta:menu"
  {
    UntilNulOfPlain("menu", '\0');
  }

  // ---------------------------------------------------------------------------
  // The mod record

  /** A mod: its directory, the name derived from it, and whether it is active. */
  class Mod {
    const filepath: string
    const name: string
    var active: bool

    /** mod_init. */
    constructor (filepath: string)
      requires '\0' !in filepath
      ensures this.filepath == filepath && name == BaseName(filepath) && !active
    {
      this.filepath := filepath;
      var slash := LastSlash(filepath);
      if slash.Some? {
        name := filepath[slash.value + 1..];
      } else {
        name := filepath;
      }
      active := false;
    }
  }

  // ---------------------------------------------------------------------------
  // Definition records and data:extend

  /** A Lua value held in a record field; a missing field is nil. */
  datatype Value = LuaString(s: string) | LuaNumber(text: string) | LuaOther

  /** An element of the table passed to data:extend: a table of fields, or some other Lua value. */
  datatype Definition = Table(fields: map<string, Value>) | NonTable

  /** The argument of data:extend: a table whose elements lua_next visits in this order, or any other value. */
  datatype ExtendArg = Definitions(records: seq<Definition>) | NotATable

  /** The Lua errors data:extend raises; `at` is the position of the offending record in traversal order. */
  datatype ExtendError = ArgumentNotTable | TypeNotString(at: nat) | NameNotString(at: nat)

  /** What a data:extend call registers before it returns or raises, and the error if it raised. */
  datatype ExtendOutcome = ExtendOutcome(names: seq<string>, error: Option<ExtendError>)

  /**
   * lua_getfield followed by luaL_checkstring: a string field as it is, a
   * number field as the string Lua converts it to, and an error (None) for
   * nil, any other value, or a record that is not a table.
   */
  function CheckString(d: Definition, key: string): (r: Option<string>)
    ensures r.Some? ==> d.Table? && key in d.fields && !d.fields[key].LuaOther?
  {
    match d
    case NonTable => None
    case Table(fields) =>
      if key !in fields then None
      else match fields[key]
        case LuaString(s) => Some(s)
        case LuaNumber(text) => Some(text)
        case LuaOther => None
  }

  /** strcmp(type, "interface") == 0: equal up to the first NUL. */
  predicate IsInterfaceType(t: string)
    ensures IsInterfaceType(t) ==> InterfaceType <= t && (|t| == |InterfaceType| || t[|InterfaceType|] == '\0')
  {
    UntilNul(t, '\0') == InterfaceType
  }

  /** What one loop iteration of data_extend does with record `d` at position `at`: the keys it registers and the error it raises. */
  function RecordStep(modName: string, d: Definition, at: nat): (r: ExtendOutcome)
    ensures |r.names| <= 1
    ensures r.error.Some? ==> r.names == [] && (r.error.value == TypeNotString(at) || r.error.value == NameNotString(at))
  {
    match CheckString(d, "type")
    case None => ExtendOutcome([], Some(TypeNotString(at)))
    case Some(t) =>
      if !IsInterfaceType(t) then ExtendOutcome([], None)
      else match CheckString(d, "name")
        case None => ExtendOutcome([], Some(NameNotString(at)))
        case Some(n) => ExtendOutcome([QualifiedName(modName, n)], None)
  }

  /** data_extend's walk over the records, stopping at the first error. */
  function Walk(modName: string, records: seq<Definition>): (r: ExtendOutcome)
    ensures |r.names| <= |records|
    ensures r.error.Some? ==> !r.error.value.ArgumentNotTable? && r.error.value.at < |records|
    decreases |records|
  {
    if records == [] then ExtendOutcome([], None)
    else
      var prior := Walk(modName, records[..|records| - 1]);
      if prior.error.Some? then prior
      else
        var step := RecordStep(modName, records[|records| - 1], |records| - 1);
        ExtendOutcome(prior.names + step.names, step.error)
  }

  /** data_extend: a non-table argument raises before anything is registered. */
  function Extend(modName: string, arg: ExtendArg): (r: ExtendOutcome)
    ensures r.error == Some(ArgumentNotTable) <==> arg.NotATable?
    ensures arg.NotATable? ==> r.names == []
  {
    match arg
    case NotATable => ExtendOutcome([], Some(ArgumentNotTable))
    case Definitions(records) => Walk(modName, records)
  }

  /** A record data_extend accepts: a string type, and a string name when the type is "interface". */
  predicate WellFormedRecord(d: Definition) {
    CheckString(d, "type").Some? &&
    (IsInterfaceType(CheckString(d, "type").value) ==> CheckString(d, "name").Some?)
  }

  /** The error data_extend raises on a record it does not accept. */
  function RecordError(d: Definition, at: nat): ExtendError {
    if CheckString(d, "type").None? then TypeNotString(at) else NameNotString(at)
  }

  /** The keys an accepted record registers: one for an interface record, none for any other type. */
  function RecordNames(modName: string, d: Definition): (r: seq<string>)
    requires WellFormedRecord(d)
    ensures |r| <= 1
  {
    if IsInterfaceType(CheckString(d, "type").value)
    then [QualifiedName(modName, CheckString(d, "name").value)]
    else []
  }

  /** The keys a run of accepted records registers, record by record. */
  function InterfaceNames(modName: string, records: seq<Definition>): seq<string>
    requires forall k :: 0 <= k < |records| ==> WellFormedRecord(records[k])
  {
    if records == [] then []
    else RecordNames(modName, records[0]) + InterfaceNames(modName, records[1..])
  }

  lemma {:induction false} InterfaceNamesSnoc(modName: string, records: seq<Definition>)
    requires records != []
    requires forall k :: 0 <= k < |records| ==> WellFormedRecord(records[k])
    ensures InterfaceNames(modName, records)
         == InterfaceNames(modName, records[..|records| - 1]) + RecordNames(modName, records[|records| - 1])
  {
    if |records| > 1 {
      assert records[1..][..|records[1..]| - 1] == records[..|records| - 1][1..];
      InterfaceNamesSnoc(modName, records[1..]);
    }
  }

  /** A record data_extend does not accept raises its error and registers nothing. */
  lemma RecordStepRejects(modName: string, d: Definition, at: nat)
    requires !WellFormedRecord(d)
    ensures RecordStep(modName, d, at) == ExtendOutcome([], Some(RecordError(d, at)))
  {
  }

  /** An accepted record registers its keys and raises nothing. */
  lemma RecordStepAccepts(modName: string, d: Definition, at: nat)
    requires WellFormedRecord(d)
    ensures RecordStep(modName, d, at) == ExtendOutcome(RecordNames(modName, d), None)
  {
  }

  /** The walk raises an error exactly when some record is not accepted. */
  lemma {:induction false} WalkSucceedsIffWellFormed(modName: string, records: seq<Definition>)
    ensures Walk(modName, records).error.None? <==> forall k :: 0 <= k < |records| ==> WellFormedRecord(records[k])
    decreases |records|
  {
    if records != [] {
      var prior := records[..|records| - 1];
      WalkSucceedsIffWellFormed(modName, prior);
      assert forall k :: 0 <= k < |prior| ==> prior[k] == records[k];
    }
  }

  /** When every record is accepted, the walk registers exactly the record-by-record keys, in order. */
  lemma {:induction false} WalkRegistersInterfaceRecords(modName: string, records: seq<Definition>)
    requires forall k :: 0 <= k < |records| ==> WellFormedRecord(records[k])
    ensures Walk(modName, records) == ExtendOutcome(InterfaceNames(modName, records), None)
    decreases |records|
  {
    if records != [] {
      var prior := records[..|records| - 1];
      assert forall k :: 0 <= k < |prior| ==> prior[k] == records[k];
      WalkRegistersInterfaceRecords(modName, prior);
      InterfaceNamesSnoc(modName, records);
      RecordStepAccepts(modName, records[|records| - 1], |records| - 1);
    }
  }

  /** One more record after a prefix the walk accepted. */
  lemma WalkStep(modName: string, records: seq<Definition>, k: nat)
    requires k < |records| && Walk(modName, records[..k]).error.None?
    ensures Walk(modName, records[..k + 1]).names == Walk(modName, records[..k]).names + RecordStep(modName, records[k], k).names
    ensures Walk(modName, records[..k + 1]).error == RecordStep(modName, records[k], k).error
  {
    assert records[..k + 1][..k] == records[..k];
  }

  /** Once the walk has raised on a prefix, the later records change nothing. */
  lemma {:induction false} WalkErrorPersists(modName: string, records: seq<Definition>, k: nat)
    requires k <= |records| && Walk(modName, records[..k]).error.Some?
    ensures Walk(modName, records) == Walk(modName, records[..k])
    decreases |records|
  {
    if k < |records| {
      var prior := records[..|records| - 1];
      assert prior[..k] == records[..k];
      WalkErrorPersists(modName, prior, k);
    } else {
      assert records[..k] == records;
    }
  }

  /**
   * The walk raises at the first record it does not accept, and keeps what
   * the records before it registered (there is no rollback).
   */
  lemma WalkStopsAtFirstMalformed(modName: string, records: seq<Definition>, k: nat)
    requires k < |records| && !WellFormedRecord(records[k])
    requires forall j :: 0 <= j < k ==> WellFormedRecord(records[j])
    ensures Walk(modName, records)
         == ExtendOutcome(InterfaceNames(modName, records[..k]), Some(RecordError(records[k], k)))
  {
    var before := records[..k];
    assert forall j :: 0 <= j < k ==> WellFormedRecord(before[j]);
    WalkRegistersInterfaceRecords(modName, before);
    WalkStep(modName, records, k);
    RecordStepRejects(modName, records[k], k);
    WalkErrorPersists(modName, records, k + 1);
  }

  /** The keys registered by a prefix of the records are a prefix of those the whole walk registers. */
  lemma {:induction false} WalkKeepsEarlierNames(modName: string, records: seq<Definition>, k: nat)
    requires k <= |records|
    ensures Walk(modName, records[..k]).names <= Walk(modName, records).names
    decreases |records|
  {
    if k < |records| {
      var prior := records[..|records| - 1];
      assert prior[..k] == records[..k];
      WalkKeepsEarlierNames(modName, prior, k);
    } else {
      assert records[..k] == records;
    }
  }

  /** Every key the walk registers starts with the mod name and ':'. */
  lemma {:induction false} WalkNamesAreQualified(modName: string, records: seq<Definition>)
    ensures forall i :: 0 <= i < |Walk(modName, records).names| ==>
              modName + ":" <= Walk(modName, records).names[i]
    decreases |records|
  {
    if records != [] {
      WalkNamesAreQualified(modName, records[..|records| - 1]);
    }
  }

  /** An interface record without a name raises and registers nothing. */
  lemma MissingNameRejected(modName: string)
    ensures Extend(modName, Definitions([Table(map["type" := LuaString("interface")])]))
         == ExtendOutcome([], Some(NameNotString(0)))
  {
    UntilNulOfPlain("interface", '\0');
    var d := Table(map["type" := LuaString("interface")]);
    assert CheckString(d, "type") == Some("interface");
    assert IsInterfaceType("interface");
    assert "name" !in d.fields;
    assert RecordStep(modName, d, 0) == ExtendOutcome([], Some(NameNotString(0)));
    assert [d][..0] == [];
  }

  /**
   * mod_register_interface for record `d`, with the Lua stack `top` slots
   * high: raises when `name` is not a string, and otherwise inserts one new
   * interface with no commands under the qualified name, leaving the stack
   * as it found it.
   */
  method RegisterInterface(mod: Mod, registry: InterfaceRegistry, d: Definition, at: nat, top: nat)
    returns (error: Option<ExtendError>, newTop: nat)
    requires registry.Valid()
    modifies registry
    ensures registry.Valid()
    ensures error.None? <==> CheckString(d, "name").Some?
    ensures error.Some? ==> error == Some(NameNotString(at)) && unchanged(registry)
    ensures error.None? ==>
              && newTop == top
              && |registry.inserted| == |old(registry.inserted)| + 1
              && registry.inserted[..|old(registry.inserted)|] == old(registry.inserted)
              && fresh(registry.inserted[|old(registry.inserted)|])
              && registry.inserted[|old(registry.inserted)|].commands == []
              && registry.inserted[|old(registry.inserted)|].name == QualifiedName(mod.name, CheckString(d, "name").value)
              && registry.keys == old(registry.keys) + [QualifiedName(mod.name, CheckString(d, "name").value)]
  {
    newTop := top + 1;
    var internal := CheckString(d, "name");
    if internal.None? {
      error := Some(NameNotString(at));
      return;
    }
    var name := QualifiedName(mod.name, internal.value);
    newTop := newTop - 1;
    var inf := new Interface(name, []);
    registry.Insert(inf);
    error := None;
  }

  /**
   * One iteration of data_extend's loop on record `d` at position `at`, with
   * the Lua stack `top` slots high after lua_next: reads `type`, registers
   * the record when it is an interface, and pops the type and the value.
   */
  method VisitRecord(mod: Mod, registry: InterfaceRegistry, d: Definition, at: nat, top: nat)
    returns (error: Option<ExtendError>, newTop: nat)
    requires top >= 2 && registry.Valid()
    modifies registry
    ensures registry.Valid()
    ensures error == RecordStep(mod.name, d, at).error
    ensures registry.keys == old(registry.keys) + RecordStep(mod.name, d, at).names
    ensures |old(registry.inserted)| <= |registry.inserted|
    ensures registry.inserted[..|old(registry.inserted)|] == old(registry.inserted)
    ensures forall j :: |old(registry.inserted)| <= j < |registry.inserted| ==>
              fresh(registry.inserted[j]) && registry.inserted[j].commands == []
    ensures error.None? ==> newTop + 1 == top
  {
    newTop := top + 1;  // lua_getfield(L, -1, "type")
    var t := CheckString(d, "type");
    if t.None? {
      error := Some(TypeNotString(at));
      return;
    }
    error := None;
    if IsInterfaceType(t.value) {
      error, newTop := RegisterInterface(mod, registry, d, at, newTop);
      if error.Some? {
        return;
      }
    }
    newTop := newTop - 1;  // lua_pop(L, 1): the type
    newTop := newTop - 1;  // lua_pop(L, 1): the value
  }

  /**
   * data_extend called with `arg` as its table argument (the Lua stack holds
   * `data` and `arg`). On success the stack is back to those two slots.
   */
  method DataExtend(mod: Mod, registry: InterfaceRegistry, arg: ExtendArg) returns (error: Option<ExtendError>, top: nat)
    requires registry.Valid()
    modifies registry
    ensures registry.Valid()
    ensures error == Extend(mod.name, arg).error
    ensures registry.keys == old(registry.keys) + Extend(mod.name, arg).names
    ensures old(registry.inserted) <= registry.inserted
    ensures error.None? ==> top == 2
  {
    top := 2;
    top := top + 1;  // lua_getfield(L, LUA_REGISTRYINDEX, "mod")
    top := top - 1;  // lua_pop(L, 1)
    if arg.NotATable? {
      error := Some(ArgumentNotTable);
      return;
    }
    var records := arg.records;
    top := top + 1;  // lua_pushnil(L): the first key
    var k := 0;
    error := None;
    while k < |records|
      invariant 0 <= k <= |records| && top == 3 && error.None?
      invariant Walk(mod.name, records[..k]).error.None?
      invariant registry.keys == old(registry.keys) + Walk(mod.name, records[..k]).names
      invariant old(registry.inserted) <= registry.inserted && registry.Valid()
    {
      // lua_next: the key is replaced by the key and the value
      error, top := VisitRecord(mod, registry, records[k], k, top + 1);
      WalkStep(mod.name, records, k);
      if error.Some? {
        WalkErrorPersists(mod.name, records, k + 1);
        return;
      }
      k := k + 1;
    }
    assert records[..k] == records;
    top := top - 1;  // lua_next returns 0 and pops the key
  }

  // ---------------------------------------------------------------------------
  // Running a mod's script

  /**
   * A mod's script as the interpreter runs it: whether it loads, the
   * data:extend calls it makes in order, and whether it raises an error of
   * its own after them.
   */
  datatype Script = Script(compiles: bool, calls: seq<ExtendArg>, raisesAfter: bool)

  datatype LoadError = ScriptError | ExtendFailed(error: ExtendError)

  /** What running a script registers, and the error that ended it, if any. */
  datatype LoadOutcome = LoadOutcome(names: seq<string>, error: Option<LoadError>)

  /** The script's data:extend calls in order; an error in one ends the script. */
  function RunCalls(modName: string, calls: seq<ExtendArg>): (r: LoadOutcome)
    ensures r.error.Some? ==> r.error.value.ExtendFailed?
    ensures r.error.None? ==> forall i :: 0 <= i < |calls| ==> Extend(modName, calls[i]).error.None?
    decreases |calls|
  {
    if calls == [] then LoadOutcome([], None)
    else
      var prior := RunCalls(modName, calls[..|calls| - 1]);
      if prior.error.Some? then prior
      else
        var o := Extend(modName, calls[|calls| - 1]);
        LoadOutcome(prior.names + o.names, if o.error.Some? then Some(ExtendFailed(o.error.value)) else None)
  }

  /** luaL_dofile on the mod's script. */
  function RunScript(modName: string, script: Script): (r: LoadOutcome)
    ensures r.error.None? ==> script.compiles && !script.raisesAfter
    ensures !script.compiles ==> r.names == []
  {
    if !script.compiles then LoadOutcome([], Some(ScriptError))
    else
      var o := RunCalls(modName, script.calls);
      if o.error.None? && script.raisesAfter then LoadOutcome(o.names, Some(ScriptError)) else o
  }

  /** One more data:extend call after a run of successful ones. */
  lemma RunCallsStep(modName: string, calls: seq<ExtendArg>, k: nat)
    requires k < |calls| && RunCalls(modName, calls[..k]).error.None?
    ensures RunCalls(modName, calls[..k + 1]).names == RunCalls(modName, calls[..k]).names + Extend(modName, calls[k]).names
    ensures RunCalls(modName, calls[..k + 1]).error.None? <==> Extend(modName, calls[k]).error.None?
  {
    assert calls[..k + 1][..k] == calls[..k];
  }

  /** Once a call has failed, the later calls of the script register nothing. */
  lemma {:induction false} RunCallsErrorPersists(modName: string, calls: seq<ExtendArg>, k: nat)
    requires k <= |calls| && RunCalls(modName, calls[..k]).error.Some?
    ensures RunCalls(modName, calls) == RunCalls(modName, calls[..k])
    decreases |calls|
  {
    if k < |calls| {
      var prior := calls[..|calls| - 1];
      assert prior[..k] == calls[..k];
      RunCallsErrorPersists(modName, prior, k);
    } else {
      assert calls[..k] == calls;
    }
  }

  /** A failed script keeps every key registered before the failure: registrations are never rolled back. */
  lemma {:induction false} RunCallsKeepEarlierNames(modName: string, calls: seq<ExtendArg>, k: nat)
    requires k <= |calls|
    ensures RunCalls(modName, calls[..k]).names <= RunCalls(modName, calls).names
    decreases |calls|
  {
    if k < |calls| {
      var prior := calls[..|calls| - 1];
      assert prior[..k] == calls[..k];
      RunCallsKeepEarlierNames(modName, prior, k);
    } else {
      assert calls[..k] == calls;
    }
  }

  /** A script that does not load registers nothing. */
  lemma ScriptErrorRegistersNothing(modName: string, script: Script)
    requires !script.compiles
    ensures RunScript(modName, script) == LoadOutcome([], Some(ScriptError))
  {
  }

  /**
   * mod_load: builds the script path, runs the script with data:extend
   * bound to this mod, closes the interpreter state when the script fails
   * and leaves it open when it succeeds. It never changes whether the mod
   * is active. The path buffer holds PathMax characters including the NUL.
   */
  method Load(mod: Mod, registry: InterfaceRegistry, script: Script) returns (path: string, stateOpen: bool)
    requires |mod.filepath| + |ScriptFile| < PathMax && registry.Valid()
    modifies registry
    ensures registry.Valid()
    ensures path == ScriptPath(mod.filepath)
    ensures stateOpen <==> RunScript(mod.name, script).error.None?
    ensures registry.keys == old(registry.keys) + RunScript(mod.name, script).names
    ensures old(registry.inserted) <= registry.inserted
    ensures mod.active == old(mod.active)
  {
    path := ScriptPath(mod.filepath);
    if !script.compiles {
      stateOpen := false;
      return;
    }
    var ok := RunExtendCalls(mod, registry, script.calls);
    stateOpen := ok && !script.raisesAfter;
  }

  /** The data:extend calls of a script that loads, in order, up to the first that fails. */
  method RunExtendCalls(mod: Mod, registry: InterfaceRegistry, calls: seq<ExtendArg>) returns (ok: bool)
    requires registry.Valid()
    modifies registry
    ensures registry.Valid()
    ensures ok <==> RunCalls(mod.name, calls).error.None?
    ensures registry.keys == old(registry.keys) + RunCalls(mod.name, calls).names
    ensures old(registry.inserted) <= registry.inserted
    decreases |calls|
  {
    if calls == [] {
      return true;
    }
    var n := |calls| - 1;
    ghost var base := registry.keys;
    ok := RunExtendCalls(mod, registry, calls[..n]);
    if ok {
      ok := ExtendCall(mod, registry, calls, n, base);
    }
    assert calls[..n + 1] == calls;
  }

  /** The script's call number `k`, after the calls before it all succeeded. */
  method ExtendCall(mod: Mod, registry: InterfaceRegistry, calls: seq<ExtendArg>, k: nat, ghost base: seq<string>)
    returns (ok: bool)
    requires k < |calls| && RunCalls(mod.name, calls[..k]).error.None? && registry.Valid()
    requires registry.keys == base + RunCalls(mod.name, calls[..k]).names
    modifies registry
    ensures registry.Valid()
    ensures ok <==> RunCalls(mod.name, calls[..k + 1]).error.None?
    ensures registry.keys == base + RunCalls(mod.name, calls[..k + 1]).names
    ensures old(registry.inserted) <= registry.inserted
  {
    var e, _ := DataExtend(mod, registry, calls[k]);
    RunCallsStep(mod.name, calls, k);
    ok := e.None?;
  }
}
