/** The name-keyed class registry of gorilla/core/registry.py: a table from
    strings to classes, bulk registration from a dict, and the builder that
    resolves a component from a config dict. The constructed object is
    represented by the class it would be built from and the keyword
    arguments it would receive. */
module Registries {
  import opened Python

  /** The key `_register_module` files a class under: the given name, or the
      class's own `__name__`. */
  function KeyFor(cls: Class, moduleName: Option<string>): string {
    match moduleName
    case Some(n) => n
    case None => cls.name
  }

  /** `_register_module` as a function of the table it updates: the new
      table, or the exception it raises (the table is then unchanged). */
  function Register(table: map<string, Class>, candidate: Value, moduleName: Option<string>, force: bool): (r: Result<map<string, Class>>)
    ensures r.Success? <==> candidate.ClassValue? && (force || KeyFor(candidate.cls, moduleName) !in table)
    ensures r.Failure? ==> r.error == if candidate.ClassValue? then KeyError(KeyFor(candidate.cls, moduleName)) else TypeError
    ensures r.Success? ==>
              && r.value.Keys == table.Keys + {KeyFor(candidate.cls, moduleName)}
              && r.value[KeyFor(candidate.cls, moduleName)] == candidate.cls
              && forall k :: k in table && k != KeyFor(candidate.cls, moduleName) ==> r.value[k] == table[k]
  {
    if !candidate.ClassValue? then Failure(TypeError)
    else
      var key := KeyFor(candidate.cls, moduleName);
      if !force && key in table then Failure(KeyError(key))
      else Success(table[key := candidate.cls])
  }

  /** Registering under a fresh key adds exactly that entry. */
  lemma RegisterFresh(table: map<string, Class>, cls: Class, moduleName: Option<string>, force: bool)
    requires KeyFor(cls, moduleName) !in table
    ensures var r := Register(table, ClassValue(cls), moduleName, force);
      && r.Success?
      && r.value.Keys == table.Keys + {KeyFor(cls, moduleName)}
      && r.value[KeyFor(cls, moduleName)] == cls
      && |r.value| == |table| + 1
      && forall k :: k in table ==> r.value[k] == table[k]
  {
  }

  /** Without `force`, a key already present is a KeyError naming that key. */
  lemma RegisterDuplicate(table: map<string, Class>, cls: Class, moduleName: Option<string>)
    requires KeyFor(cls, moduleName) in table
    ensures Register(table, ClassValue(cls), moduleName, false) == Failure(KeyError(KeyFor(cls, moduleName)))
  {
  }

  /** With `force`, a key already present is overwritten and nothing else
      changes, so the size is the same. */
  lemma RegisterForced(table: map<string, Class>, cls: Class, moduleName: Option<string>)
    requires KeyFor(cls, moduleName) in table
    ensures var r := Register(table, ClassValue(cls), moduleName, true);
      && r.Success?
      && r.value.Keys == table.Keys
      && |r.value| == |table|
      && r.value[KeyFor(cls, moduleName)] == cls
      && forall k :: k in table && k != KeyFor(cls, moduleName) ==> r.value[k] == table[k]
  {
  }

  /** Anything that is not a class is a TypeError, whatever the name and
      the flag. */
  lemma RegisterRejectsNonClass(table: map<string, Class>, candidate: Value, moduleName: Option<string>, force: bool)
    requires !candidate.ClassValue?
    ensures Register(table, candidate, moduleName, force) == Failure(TypeError)
  {
  }

  /** What `register_module` returns: the module itself when it is given
      with `module=`, or else the decorator `_register`, which holds the
      registry it closes over, the name and the flag until it is applied to
      a class. */
  datatype Registration = Registered(moduleClass: Value) | Decorator(reg: Registry, name: Option<string>, force: bool)

  /** The `module_name` argument as `_register_module` sees it. */
  function NameArg(name: Value): Option<string> {
    if name.StrValue? then Some(name.s) else None
  }

  class Registry {
    const name: string
    var moduleDict: map<string, Class>

    constructor (name: string)
      ensures this.name == name && moduleDict == map[]
    {
      this.name := name;
      moduleDict := map[];
    }

    /** `len(registry)`. */
    function Len(): (n: nat)
      reads this
      ensures n == |moduleDict.Keys|
      ensures n == 0 <==> moduleDict == map[]
    {
      |moduleDict|
    }

    /** `registry.get(key)`: the class filed under `key`, or None. */
    function Get(key: string): (r: Option<Class>)
      reads this
      ensures r.Some? <==> key in moduleDict
      ensures r.Some? ==> r.value == moduleDict[key]
    {
      if key in moduleDict then Some(moduleDict[key]) else None
    }

    /** `key in registry`, defined through `get`. */
    function Contains(key: string): (b: bool)
      reads this
      ensures b <==> key in moduleDict
      ensures b <==> Get(key).Some?
    {
      Get(key).Some?
    }

    /** `_register_module(module_class, module_name, force)`. */
    method RegisterModuleClass(candidate: Value, moduleName: Option<string>, force: bool) returns (r: Outcome)
      modifies this
      ensures match Register(old(moduleDict), candidate, moduleName, force)
              case Success(t) => r == Pass && moduleDict == t
              case Failure(e) => r == Fail(e) && moduleDict == old(moduleDict)
      ensures r == Pass ==> candidate.ClassValue? && Get(KeyFor(candidate.cls, moduleName)) == Some(candidate.cls)
      ensures r == Pass ==> Len() == old(Len()) + (if KeyFor(candidate.cls, moduleName) in old(moduleDict) then 0 else 1)
    {
      if !candidate.ClassValue? {
        return Fail(TypeError);
      }
      var key := KeyFor(candidate.cls, moduleName);
      if !force && key in moduleDict {
        return Fail(KeyError(key));
      }
      moduleDict := moduleDict[key := candidate.cls];
      r := Pass;
    }

    /** `register_module(name, force, module)`; `moduleClass` is the
        `module` argument, `NoneValue` when it is not given (its default is
        None). With a module it registers at once and returns the module;
        otherwise it checks the name "ahead of time" and returns the
        decorator, changing nothing. */
    method RegisterModule(name: Value, force: Value, moduleClass: Value) returns (r: Result<Registration>)
      requires !moduleClass.NoneValue? ==> name.NoneValue? || name.StrValue?
      modifies this
      ensures !force.BoolValue? ==> r == Failure(TypeError) && moduleDict == old(moduleDict)
      ensures force.BoolValue? && !moduleClass.NoneValue? ==>
                match Register(old(moduleDict), moduleClass, NameArg(name), force.b)
                case Success(t) => r == Success(Registered(moduleClass)) && moduleDict == t
                case Failure(e) => r == Failure(e) && moduleDict == old(moduleDict)
      ensures force.BoolValue? && moduleClass.NoneValue? ==>
                && moduleDict == old(moduleDict)
                && r == if name.NoneValue? || name.StrValue? then Success(Decorator(this, NameArg(name), force.b))
                        else Failure(TypeError)
    {
      if !force.BoolValue? {
        return Failure(TypeError);
      }
      if !moduleClass.NoneValue? {
        var res := RegisterModuleClass(moduleClass, NameArg(name), force.b);
        if res.Fail? {
          return Failure(res.error);
        }
        return Success(Registered(moduleClass));
      }
      if !(name.NoneValue? || name.StrValue?) {
        return Failure(TypeError);
      }
      r := Success(Decorator(this, NameArg(name), force.b));
    }

    /** Applying the decorator `_register` to a class: it registers the class
        and returns it. */
    method ApplyDecorator(dec: Registration, cls: Value) returns (r: Result<Value>)
      requires dec.Decorator? && dec.reg == this
      modifies this
      ensures match Register(old(moduleDict), cls, dec.name, dec.force)
              case Success(t) => r == Success(cls) && moduleDict == t
              case Failure(e) => r == Failure(e) && moduleDict == old(moduleDict)
    {
      var res := RegisterModuleClass(cls, dec.name, dec.force);
      if res.Fail? {
        return Failure(res.error);
      }
      r := Success(cls);
    }
  }

  /** The entries of `cls_dict` that `auto_registry` keeps: the key does not
      start with "_", and the value is a class derived from `base`. */
  predicate Kept(entry: (string, Value), base: Class) {
    !StartsWithUnderscore(entry.0) && entry.1.ClassValue? && IsSubclass(entry.1.cls, base)
  }

  /** The classes `auto_registry` registers, in the dict's order. */
  function KeptClasses(entries: seq<(string, Value)>, base: Class): (ks: seq<Class>)
    ensures |ks| <= |entries|
    ensures forall c :: c in ks ==> exists i :: 0 <= i < |entries| && entries[i].1 == ClassValue(c) && Kept(entries[i], base)
    ensures forall i :: 0 <= i < |entries| && Kept(entries[i], base) ==> entries[i].1.cls in ks
  {
    if entries == [] then []
    else
      var rest := KeptClasses(entries[1..], base);
      assert forall i :: 1 <= i < |entries| ==> entries[i] == entries[1..][i - 1];
      if Kept(entries[0], base) then [entries[0].1.cls] + rest else rest
  }

  /** Registering `ks` one after another under their own names, without
      `force`, stopping at the first exception: the final table and whether
      an exception was raised. */
  function RegisterAll(table: map<string, Class>, ks: seq<Class>): (r: (map<string, Class>, Outcome))
    ensures table.Keys <= r.0.Keys
    ensures forall k :: k in table ==> r.0[k] == table[k]
    decreases |ks|
  {
    if ks == [] then (table, Pass)
    else
      match Register(table, ClassValue(ks[0]), None, false)
      case Failure(e) => (table, Fail(e))
      case Success(t) => RegisterAll(t, ks[1..])
  }

  /** The names of `ks` are pairwise distinct and none of them is in `keys`. */
  predicate NamesFresh(keys: set<string>, ks: seq<Class>) {
    && (forall i :: 0 <= i < |ks| ==> ks[i].name !in keys)
    && (forall i, j :: 0 <= i < j < |ks| ==> ks[i].name != ks[j].name)
  }

  lemma NamesFreshStep(keys: set<string>, ks: seq<Class>)
    requires ks != []
    ensures NamesFresh(keys, ks) <==> ks[0].name !in keys && NamesFresh(keys + {ks[0].name}, ks[1..])
  {
    var rest := ks[1..];
    assert forall i :: 1 <= i < |ks| ==> ks[i] == rest[i - 1];
    if ks[0].name !in keys && NamesFresh(keys + {ks[0].name}, rest) {
      forall i, j | 0 <= i < j < |ks| ensures ks[i].name != ks[j].name {
        if i > 0 {
          assert ks[i] == rest[i - 1] && ks[j] == rest[j - 1];
        } else {
          assert ks[j] == rest[j - 1];
        }
      }
    }
    if NamesFresh(keys, ks) {
      forall i | 0 <= i < |rest| ensures rest[i].name !in keys + {ks[0].name} {
        assert rest[i] == ks[i + 1];
      }
      forall i, j | 0 <= i < j < |rest| ensures rest[i].name != rest[j].name {
        assert rest[i] == ks[i + 1] && rest[j] == ks[j + 1];
      }
    }
  }

  /** An exception raised by bulk registration is a KeyError naming one of
      the classes. */
  lemma {:induction false} RegisterAllFailsOnName(table: map<string, Class>, ks: seq<Class>)
    ensures RegisterAll(table, ks).1.Fail? ==>
              exists i :: 0 <= i < |ks| && RegisterAll(table, ks).1 == Fail(KeyError(ks[i].name))
    decreases |ks|
  {
    if ks != [] {
      var key := ks[0].name;
      if key !in table {
        var t := table[key := ks[0]];
        RegisterAllFailsOnName(t, ks[1..]);
        var res := RegisterAll(t, ks[1..]).1;
        if res.Fail? {
          var i :| 0 <= i < |ks[1..]| && res == Fail(KeyError(ks[1..][i].name));
          assert ks[i + 1] == ks[1..][i];
        }
      }
    }
  }

  /** Bulk registration succeeds exactly when the names are pairwise
      distinct and none is registered yet. */
  lemma {:induction false} RegisterAllSucceedsIff(table: map<string, Class>, ks: seq<Class>)
    ensures RegisterAll(table, ks).1 == Pass <==> NamesFresh(table.Keys, ks)
    decreases |ks|
  {
    if ks != [] {
      NamesFreshStep(table.Keys, ks);
      var key := ks[0].name;
      if key !in table {
        var t := table[key := ks[0]];
        assert t.Keys == table.Keys + {key};
        RegisterAllSucceedsIff(t, ks[1..]);
      }
    }
  }

  /** The names of `ks`. */
  function Names(ks: seq<Class>): set<string> {
    set i | 0 <= i < |ks| :: ks[i].name
  }

  lemma NamesStep(ks: seq<Class>)
    requires ks != []
    ensures Names(ks) == {ks[0].name} + Names(ks[1..])
  {
    forall n | n in Names(ks[1..]) ensures n in Names(ks) {
      var i :| 0 <= i < |ks[1..]| && ks[1..][i].name == n;
      assert ks[i + 1] == ks[1..][i];
    }
    forall n | n in Names(ks) ensures n in {ks[0].name} + Names(ks[1..]) {
      var i :| 0 <= i < |ks| && ks[i].name == n;
      if i > 0 {
        assert ks[i] == ks[1..][i - 1];
      }
    }
  }

  /** After a successful bulk registration the table holds exactly the old
      entries plus every class under its own name. */
  lemma {:induction false} RegisterAllContents(table: map<string, Class>, ks: seq<Class>)
    requires RegisterAll(table, ks).1 == Pass
    ensures RegisterAll(table, ks).0.Keys == table.Keys + Names(ks)
    ensures forall i :: 0 <= i < |ks| ==> RegisterAll(table, ks).0[ks[i].name] == ks[i]
    decreases |ks|
  {
    if ks == [] {
      assert Names(ks) == {};
    } else {
      var key := ks[0].name;
      assert key !in table;
      var t := table[key := ks[0]];
      assert RegisterAll(table, ks) == RegisterAll(t, ks[1..]);
      var final := RegisterAll(t, ks[1..]).0;
      assert final.Keys == table.Keys + Names(ks) by {
        RegisterAllContents(t, ks[1..]);
        NamesStep(ks);
      }
      forall i | 0 <= i < |ks| ensures final[ks[i].name] == ks[i] {
        if i > 0 {
          RegisterAllContents(t, ks[1..]);
          assert ks[i] == ks[1..][i - 1];
        }
      }
    }
  }

  /** A successful bulk registration grows the table by one entry per
      class. */
  lemma {:induction false} RegisterAllSize(table: map<string, Class>, ks: seq<Class>)
    requires RegisterAll(table, ks).1 == Pass
    ensures |RegisterAll(table, ks).0| == |table| + |ks|
    decreases |ks|
  {
    if ks != [] {
      var key := ks[0].name;
      assert key !in table;
      var t := table[key := ks[0]];
      assert |t| == |table| + 1;
      assert RegisterAll(table, ks) == RegisterAll(t, ks[1..]);
      RegisterAllSize(t, ks[1..]);
    }
  }

  /** `auto_registry(registry, cls_dict, base)`: registers, in the dict's
      order, the class of every kept entry under the class's own name (not
      the dict key), stopping at the first KeyError with the classes before
      it registered. */
  method AutoRegistry(registry: Registry, clsDict: seq<(string, Value)>, base: Class) returns (r: Outcome)
    modifies registry
    ensures (registry.moduleDict, r) == RegisterAll(old(registry.moduleDict), KeptClasses(clsDict, base))
  {
    var i := 0;
    while i < |clsDict|
      invariant 0 <= i <= |clsDict|
      invariant RegisterAll(registry.moduleDict, KeptClasses(clsDict[i..], base))
             == RegisterAll(old(registry.moduleDict), KeptClasses(clsDict, base))
    {
      var (key, cls) := clsDict[i];
      assert clsDict[i..][1..] == clsDict[i + 1..];
      if StartsWithUnderscore(key) || !cls.ClassValue? || !IsSubclass(cls.cls, base) {
        i := i + 1;
        continue;
      }
      var res := registry.RegisterModuleClass(cls, None, false);
      if res.Fail? {
        return res;
      }
      i := i + 1;
    }
    r := Pass;
  }

  /** The usage line `backbones.register_module(ResNet)` in the docstring at
      gorilla/core/registry.py:79 passes the class as `name`, so the call
      raises TypeError at the name check and registers nothing. */
  method DocstringPositionalCall(cls: Class) returns (r: Result<Registration>, size: nat)
    ensures r == Failure(TypeError) && size == 0
  {
    var backbones := new Registry("backbone");
    r := backbones.RegisterModule(ClassValue(cls), BoolValue(false), NoneValue);
    size := backbones.Len();
  }

  /** The evidently intended call `backbones.register_module(module=ResNet)`
      registers the class under its own name and returns it. */
  method DocstringKeywordCall(cls: Class) returns (r: Result<Registration>, found: Option<Class>)
    ensures r == Success(Registered(ClassValue(cls))) && found == Some(cls)
  {
    var backbones := new Registry("backbone");
    r := backbones.RegisterModule(NoneValue, BoolValue(false), ClassValue(cls));
    found := backbones.Get(cls.name);
  }

  /** The constructed object: the class and the keyword arguments it is
      called with. */
  datatype Built = Built(cls: Class, args: map<string, Value>)

  /** The arguments after `cfg.copy()` and `setdefault` of every default:
      a config value always wins, a default only fills a missing key. */
  function MergeDefaults(cfg: map<string, Value>, defaults: Option<map<string, Value>>): (args: map<string, Value>)
    ensures defaults.None? ==> args == cfg
    ensures defaults.Some? ==> args.Keys == cfg.Keys + defaults.value.Keys
    ensures forall k :: k in cfg ==> args[k] == cfg[k]
    ensures defaults.Some? ==> forall k :: k in defaults.value && k !in cfg ==> args[k] == defaults.value[k]
  {
    match defaults
    case None => cfg
    case Some(d) => d + cfg
  }

  /** `build_from_cfg(cfg, registry, default_args)` over the registry's
      table. */
  function Build(cfg: map<string, Value>, table: map<string, Class>, defaults: Option<map<string, Value>>): (r: Result<Built>)
    ensures r.Success? <==>
              && NameOf(cfg, defaults).Some?
              && (|| NameOf(cfg, defaults).value.ClassValue?
                  || (NameOf(cfg, defaults).value.StrValue? && NameOf(cfg, defaults).value.s in table))
    ensures r.Success? ==> "name" !in r.value.args
  {
    if "name" !in cfg && (defaults.None? || "name" !in defaults.value) then Failure(KeyError("name"))
    else
      var args := MergeDefaults(cfg, defaults);
      var rest := args - {"name"};
      match args["name"]
      case StrValue(s) => if s in table then Success(Built(table[s], rest)) else Failure(KeyError(s))
      case ClassValue(c) => Success(Built(c, rest))
      case _ => Failure(TypeError)
  }

  /** The name given to `build_from_cfg`: from the config, else from the
      defaults. */
  function NameOf(cfg: map<string, Value>, defaults: Option<map<string, Value>>): Option<Value> {
    if "name" in cfg then Some(cfg["name"])
    else if defaults.Some? && "name" in defaults.value then Some(defaults.value["name"])
    else None
  }

  /** How the resolved class follows from the name: missing is a KeyError on
      "name", an unregistered string a KeyError on that string, a class is
      used as it is, and any other value is a TypeError. */
  lemma BuildResolvesName(cfg: map<string, Value>, table: map<string, Class>, defaults: Option<map<string, Value>>)
    ensures var n, b := NameOf(cfg, defaults), Build(cfg, table, defaults);
      && (n.None? ==> b == Failure(KeyError("name")))
      && (n.Some? && n.value.ClassValue? ==> b.Success? && b.value.cls == n.value.cls)
      && (n.Some? && n.value.StrValue? && n.value.s in table ==> b.Success? && b.value.cls == table[n.value.s])
      && (n.Some? && n.value.StrValue? && n.value.s !in table ==> b == Failure(KeyError(n.value.s)))
      && (n.Some? && !n.value.StrValue? && !n.value.ClassValue? ==> b == Failure(TypeError))
  {
  }

  /** The keyword arguments of a successful build: every config key but
      "name" with the config's value, and every other default key with the
      default's value. */
  lemma BuildArguments(cfg: map<string, Value>, table: map<string, Class>, defaults: Option<map<string, Value>>)
    requires Build(cfg, table, defaults).Success?
    ensures var args := Build(cfg, table, defaults).value.args;
      && "name" !in args
      && args.Keys == (cfg.Keys + (if defaults.Some? then defaults.value.Keys else {})) - {"name"}
      && (forall k :: k in cfg && k != "name" ==> args[k] == cfg[k])
      && (defaults.Some? ==> forall k :: k in defaults.value && k !in cfg && k != "name" ==> args[k] == defaults.value[k])
  {
  }

  /** The `setdefault` loop of `build_from_cfg` on a copy of `cfg`. */
  method SetDefaults(cfg: map<string, Value>, defaults: map<string, Value>) returns (args: map<string, Value>)
    ensures args == MergeDefaults(cfg, Some(defaults))
  {
    args := cfg;
    var pending := defaults.Keys;
    while pending != {}
      invariant pending <= defaults.Keys
      invariant args.Keys == cfg.Keys + (defaults.Keys - pending)
      invariant forall k :: k in args ==> args[k] == if k in cfg then cfg[k] else defaults[k]
      decreases |pending|
    {
      var k :| k in pending;
      if k !in args {
        args := args[k := defaults[k]];
      }
      pending := pending - {k};
    }
  }

  /** `build_from_cfg`: copies the config, fills in the defaults one by one,
      pops the name and resolves it. The caller's `cfg` is a value and is
      not changed. */
  method BuildFromCfg(cfg: map<string, Value>, registry: Registry, defaultArgs: Option<map<string, Value>>) returns (r: Result<Built>)
    ensures r == Build(cfg, registry.moduleDict, defaultArgs)
  {
    if "name" !in cfg && (defaultArgs.None? || "name" !in defaultArgs.value) {
      return Failure(KeyError("name"));
    }
    var args := cfg;
    if defaultArgs.Some? {
      args := SetDefaults(cfg, defaultArgs.value);
    }
    var objName := args["name"];
    args := args - {"name"};
    match objName
    case StrValue(s) =>
      var cls := registry.Get(s);
      if cls.None? {
        return Failure(KeyError(s));
      }
      r := Success(Built(cls.value, args));
    case ClassValue(c) =>
      r := Success(Built(c, args));
    case _ =>
      r := Failure(TypeError);
  }
}
