# gorilla-core: registry and misc helpers in Dafny

This project models the core of gorilla-core, a PyTorch training toolkit.

The first part is the component registry of `gorilla/core/registry.py`:

- a `Registry` maps names to classes;
- `register_module` adds one class, either directly or as a decorator;
- `auto_registry` registers, under their own names, the classes of a dict whose key does not start with `_` and that derive from `type`;
- `build_from_cfg` turns a config dict into the class to construct and the keyword arguments to pass it.

The second part is `gorilla/core/misc.py`:

- element-wise casting of lists;
- the `is_seq_of` test;
- `slice_list` and `concat_list`;
- `multi_apply`;
- `is_power2`, and `is_multiple` on integers;
- the argument logic of the decorators `check_prerequisites` and `deprecated_api_warning`.

How Python is represented:

- Python values are the datatype `Python.Value`.
- A class carries its `__name__`, an identity and the identities of its ancestors. `issubclass` is decided from those.
- An exception is `Python.Error`, returned through `Result`/`Outcome` rather than thrown.
- The registry is a Dafny class whose `moduleDict` field the registering methods update in place.
- Each method is proved against a pure function of the old table (`Register`, `RegisterAll`, `Build`). The lemmas about those functions carry the properties.
- `auto_registry` walks its dict in insertion order, so the model takes it as a sequence of pairs.
- `build_from_cfg` hands back a `Built` value instead of calling the class: the class it resolved, plus the keyword arguments.

What the code does on its error paths, as the model states it:

- A duplicate registration raises `KeyError` unless `force=True`; with `force` the old entry is overwritten.
- A non-class module is a `TypeError`, and so is a non-bool `force`.
- A missing `"name"` in `build_from_cfg` is a `KeyError` (here `KeyError("name")`); an unregistered name is a `KeyError` on that name; a name that is neither a string nor a class is a `TypeError`.

## Model

| member | source | states |
|---|---|---|
| Registries.Register | gorilla/core/registry.py:49-57 | succeeds iff the candidate is a class and `force` is set or its key is free; the error is TypeError for a non-class, else KeyError on the key; on success the key set gains the key, the key holds the class and every other entry is unchanged |
| Registries.Registry.Len | gorilla/core/registry.py:19-20 | `len` is the number of registered keys, 0 exactly for an empty table |
| Registries.Registry.constructor | gorilla/core/registry.py:11-17 | a new registry has the given name and an empty table |
| Registries.Registry.Get | gorilla/core/registry.py:40-47 | `get` gives a class exactly when the key is registered, and then the class filed under it |
| Registries.Registry.Contains | gorilla/core/registry.py:22-23 | `key in registry` holds exactly when the key is in the table, which is exactly when `get` is not None |
| Registries.Registry.RegisterModuleClass | gorilla/core/registry.py:49-57 | `_register_module` changes the table exactly as `Register` says or raises and leaves it unchanged; on success the class is retrievable under its key and `len` grows by one unless the key was overwritten |
| Registries.RegisterFresh | gorilla/core/registry.py:53-57 | a fresh key (given name, else `__name__`) adds exactly one entry, keeps all others, and grows the size by one |
| Registries.RegisterDuplicate | gorilla/core/registry.py:55-56 | without `force`, an existing key is a KeyError naming that key |
| Registries.RegisterForced | gorilla/core/registry.py:55-57 | with `force`, an existing key is overwritten, the key set and size stay the same and other entries are unchanged |
| Registries.RegisterRejectsNonClass | gorilla/core/registry.py:50-51 | anything that is not a class is a TypeError whatever the name and flag |
| Registries.Registry.RegisterModule | gorilla/core/registry.py:87-106 | a non-bool `force` is a TypeError; with a `module` that is not None the class is registered and the module returned (or the error raised); with `module` None a str or None name yields the decorator and a bad name a TypeError, the table unchanged |
| Registries.Registry.ApplyDecorator | gorilla/core/registry.py:101-104 | the decorator, applied through the registry that made it, registers the class under the held name and flag and returns the class |
| Registries.KeptClasses | gorilla/core/registry.py:119-128 | the kept classes are exactly those of entries whose key does not start with `_` and whose value is a subclass of `type`, and no more than the entries |
| Registries.RegisterAll | gorilla/core/registry.py:119-129 | registering classes one by one without `force` never removes a key or changes an existing entry |
| Registries.AutoRegistry | gorilla/core/registry.py:109-129 | `auto_registry` leaves the table and outcome that registering the kept classes in order under their own names gives |
| Registries.RegisterAllFailsOnName | gorilla/core/registry.py:119-129 | the only exception bulk registration raises is a KeyError naming one of the classes |
| Registries.RegisterAllSucceedsIff | gorilla/core/registry.py:119-129 | bulk registration succeeds if and only if the class names are pairwise distinct and none is registered yet |
| Registries.RegisterAllContents | gorilla/core/registry.py:119-129 | after success the table holds exactly the old keys plus the classes' names, each class under its own name |
| Registries.RegisterAllSize | gorilla/core/registry.py:119-129 | after success `len` has grown by the number of classes |
| Registries.MergeDefaults | gorilla/core/registry.py:157-161 | the arguments hold every config key with its value and every other default key with the default's value |
| Registries.SetDefaults | gorilla/core/registry.py:157-161 | the `setdefault` loop over the defaults computes the merge of config and defaults |
| Registries.Build | gorilla/core/registry.py:132-175 | a build succeeds iff a name is found in the config or defaults and it is a class or a registered string; a successful build never passes `name` on |
| Registries.BuildResolvesName | gorilla/core/registry.py:145-173 | no name anywhere is a KeyError; a registered string gives its class, an unknown string a KeyError on it, a class is used as is, anything else is a TypeError |
| Registries.BuildArguments | gorilla/core/registry.py:157-175 | a successful build passes every config key but `name` with its value and fills the other keys from the defaults |
| Registries.BuildFromCfg | gorilla/core/registry.py:132-175 | `build_from_cfg` returns what `Build` specifies for the registry's table |
| Registries.DocstringPositionalCall | gorilla/core/registry.py:76-79 | the docstring's `backbones.register_module(ResNet)` on a new registry raises TypeError and registers nothing |
| Registries.DocstringKeywordCall | gorilla/core/registry.py:76-79 | `backbones.register_module(module=ResNet)` on a new registry returns the class and files it under its `__name__` |
| MiscLists.ListCast | gorilla/core/misc.py:12-41 | the cast succeeds iff every element casts; then element i is the cast of element i; otherwise the error is that of the first failing element |
| MiscLists.IsSeqOf | gorilla/core/misc.py:48-67 | true exactly when the container test passes and every item is an instance |
| MiscLists.PySlice | gorilla/core/misc.py:98 | within bounds, a Python slice is the ordinary subsequence |
| MiscLists.Repeat | gorilla/core/misc.py:90 | `[n] * q` has `q` (or no) elements, all equal to `n` |
| MiscLists.SliceList | gorilla/core/misc.py:74-100 | an integer 0 is a ZeroDivisionError, an integer not dividing the length an AssertionError, a list not summing to the length a ValueError; otherwise the chunks for the sizes |
| MiscLists.CutChunks | gorilla/core/misc.py:95-100 | the slicing loop yields chunk k as the slice starting at the sum of the sizes before k |
| MiscLists.Concat | gorilla/core/misc.py:103-111 | the concatenation's length is the sum of the inner lengths |
| MiscLists.ConcatAppend | gorilla/core/misc.py:103-111 | concatenation distributes over joining lists of lists |
| MiscLists.ConcatIndex | gorilla/core/misc.py:103-111 | element j of inner list i sits right after all elements of the lists before i |
| MiscLists.ChunksShape | gorilla/core/misc.py:91-100 | with non-negative sizes summing to the length, chunk k is the contiguous piece of length `sizes[k]` after the previous ones |
| MiscLists.SliceConcatRoundTrip | gorilla/core/misc.py:74-111 | with non-negative sizes summing to the length, `concat_list(slice_list(s, sizes)) == s` |
| MiscLists.EachChunks | gorilla/core/misc.py:86-100 | a positive integer `lens` dividing the length gives `len / lens` chunks `s[k*lens:(k+1)*lens]` that concatenate back to `s` |
| MiscLists.NegativeSizesRepeatElements | gorilla/core/misc.py:91-99 | negative sizes pass the sum check: `[1, 2]` with `[2, -2, 2]` slices into `[[1, 2], [], [1, 2]]`, which does not concatenate back |
| MiscLists.NegativeLensLosesList | gorilla/core/misc.py:86-90 | a negative integer `lens` dividing the length passes the check: `slice_list([1, 2], -2)` is `[]`, which does not concatenate back |
| MiscLists.MinLength | gorilla/core/misc.py:253 | the length at which `zip` stops: no list is shorter and some list has it |
| MiscLists.Zip | gorilla/core/misc.py:253 | list k holds element k of every row, for as many k as the shortest row; no rows give no lists |
| MiscLists.Calls | gorilla/core/misc.py:252 | call i of `map` is `func` on element i of every argument list, for as many i as the shortest list |
| MiscLists.MultiApply | gorilla/core/misc.py:237-253 | TypeError exactly when no argument lists are given; otherwise every result list has one entry per call |
| MiscLists.MultiApplyCalls | gorilla/core/misc.py:251-253 | `multi_apply` is the transpose of the calls' results |
| MiscLists.MultiApplyShape | gorilla/core/misc.py:237-253 | `multi_apply` fails (TypeError) iff no argument lists are given; list k of the result holds output k of every call |
| MiscLists.ZipZip | gorilla/core/misc.py:253 | transposing twice gives back rows of one positive length |
| MiscLists.MultiApplyRecoversResults | gorilla/core/misc.py:237-253 | when every call returns a tuple of one positive length, transposing the result gives back each call's results in order |
| MiscIntegers.IsPower2 | gorilla/core/misc.py:255-256 | only a positive number passes `is_power2` |
| MiscIntegers.BitAndSelf | gorilla/core/misc.py:256 | `x & x == x` on Python integers |
| MiscIntegers.PositivePower2 | gorilla/core/misc.py:255-256 | for positive `n`, `n & (n - 1) == 0` iff `n` is a power of two |
| MiscIntegers.NegativeNotPower2 | gorilla/core/misc.py:255-256 | for negative `n`, `n & (n - 1)` is negative, so never 0 |
| MiscIntegers.IsPower2Correct | gorilla/core/misc.py:255-256 | `is_power2(n)` holds iff `n == 2 ** k` for some `k >= 0` |
| MiscIntegers.PyDivMod | gorilla/core/misc.py:259 | Python's `//` and `%` recombine to the dividend, with the remainder taking the divisor's sign |
| MiscIntegers.IsMultiple | gorilla/core/misc.py:258-259 | raises (ZeroDivisionError) exactly when `num` is non-zero and `multiple` is zero; true only for non-zero operands |
| MiscIntegers.IsMultipleSound | gorilla/core/misc.py:258-259 | a true `is_multiple(num, m)` means `num` and `m` are non-zero and `num` is `m` times an integer |
| MiscIntegers.IsMultipleComplete | gorilla/core/misc.py:258-259 | every non-zero multiple of a non-zero `m` passes `is_multiple` |
| MiscIntegers.IsMultipleEdges | gorilla/core/misc.py:258-259 | `num == 0` is never a multiple (the `%` is skipped); a zero `multiple` otherwise raises ZeroDivisionError |
| MiscDecorators.Requirements | gorilla/core/misc.py:132-133 | a single string becomes the one-element list of it, a list is taken as it is |
| MiscDecorators.Missing | gorilla/core/misc.py:134-137 | the missing list is no longer than the requirements and holds exactly the requirements the checker rejects |
| MiscDecorators.MissingAppend | gorilla/core/misc.py:134-137 | the missing list keeps the requirements' order |
| MiscDecorators.MissingEmptyIff | gorilla/core/misc.py:134-138 | nothing is missing exactly when the checker accepts every requirement |
| MiscDecorators.CheckPrerequisites | gorilla/core/misc.py:129-142 | the wrapper collects the rejected requirements in order and raises RuntimeError iff there is one; it calls the function iff the checker accepts all |
| MiscDecorators.RenameDeprecatedKwargs | gorilla/core/misc.py:219-226 | the rewrite moves each present deprecated keyword to its new name, pair by pair in the dict's order |
| MiscDecorators.RenameOne | gorilla/core/misc.py:221-226 | a present deprecated keyword's value moves to the new name and the old name is gone; every other keyword is unchanged; the call never gains keywords |
| MiscDecorators.RenameAll | gorilla/core/misc.py:219-226 | the renaming never adds keywords, so no keyword arguments stay none |
| MiscDecorators.RenameUntouched | gorilla/core/misc.py:220-226 | a keyword no pair mentions keeps its presence and value |
| MiscDecorators.RenameRemovesSource | gorilla/core/misc.py:220-226 | a deprecated name that is no pair's new name is absent afterwards |
| MiscDecorators.RenameMovesValues | gorilla/core/misc.py:220-226 | with all names distinct and no new name passed, each new name is present iff its deprecated name was, with that value |

## Findings

| source | as written | input that shows it | evidently intended | confidence | as-written member | corrected member |
|---|---|---|---|---|---|---|
| gorilla/core/registry.py:76-79 | the docstring shows `backbones.register_module(ResNet)` | the class binds to `name`, which is neither None nor a str, so registry.py:97-98 raises TypeError | `backbones.register_module(module=ResNet)`, which registers ResNet | high (not executed) | Registries.DocstringPositionalCall | Registries.DocstringKeywordCall |
| gorilla/core/misc.py:86-99 | `slice_list` checks only that an integer `lens` divides the length and that a list `lens` sums to it, although its docstring (misc.py:79) calls `lens` the length of each out list | `slice_list([1, 2], [2, -2, 2])` gives `[[1, 2], [], [1, 2]]`; `slice_list([1, 2], -2)` gives `[]`; neither concatenates back | non-negative lengths, for which the slices partition the list and `concat_list` undoes `slice_list` | medium (not executed) | MiscLists.NegativeSizesRepeatElements, MiscLists.NegativeLensLosesList | MiscLists.SliceConcatRoundTrip, MiscLists.EachChunks |

## Left out

- Output is not modelled. This covers `warnings.warn`, the `print` of `check_prerequisites`, and `Registry.__repr__` with its terminal colours.
- `functools.wraps`, `getfullargspec` and the decorator objects themselves are not modelled. Only the decorator's argument logic is.
- `obj_cls(**args)` in `build_from_cfg` is not called, because the constructor is foreign code. The model returns the class and the arguments.
- Type checks that Dafny's typing enforces cannot fail in the model. These are `isinstance(cfg, dict)`, `isinstance(registry, Registry)`, the `default_args` type, `abc.Iterable`, `dst_type` being a type, and the `lens` type assertion.
- The lazy iterator that `iter_cast` returns without `return_type`, and `tuple_cast`, are left out. `ListCast` covers the list result.
- `is_seq_of(..., seq_type)` is left out as an argument: the container test is the `isContainer` parameter. The assertion that `seq_type` is a type is therefore absent too.
- Floats are left out: `is_multiple` on floats, `convert_list_float`, and float rounding in `int(len(in_list) / lens)`. The division is exact because the remainder is 0, so rounding only matters beyond 2**53.
- The positional-argument rename in `deprecated_api_warning` is left out. That code rewrites a local copy of the names that is never used, so it changes nothing.
- The keyword arguments of `multi_apply` are not modelled separately: they are bound into `f`.
- `_check_py_package` and `_check_executable` import modules and run commands. The checker is a parameter.
- The `name` and `module_dict` properties are not modelled as members; the model reads the registry's `name` and `moduleDict` fields directly. `RegisterModuleClass` and `RegisterAllSize` state how `len` changes.
- Registries.Registry.RegisterModule: requires a str or None name when a `module` other than None is given. The source would file the class under any hashable name; the model keys the table by strings.
- MiscDecorators.CheckPrerequisites: a list of prerequisites is taken as already converted by `list_cast(prerequisites, str)`.
- MiscDecorators.RenameDeprecatedKwargs: the kwargs dict is an unordered map, so a renamed keyword's new position in the dict is not modelled.
- Classes are values: two classes that agree on name, uid and ancestors are one `Class` value. Metaclasses are not modelled.
- Python.IsSubclass: uid 0 stands for `object`. Nothing stops another `Class` value from carrying uid 0, and a `type` argument of `auto_registry` that does is treated as `object`, letting every class through.
- Exception messages are not modelled. The model's `KeyError` carries the offending key where the source's carries a message (registry.py:56 and 167-168); for a missing name the source's message even speaks of the key 'type'.
- MiscLists.MultiApply: `f` is a total function, so an exception raised inside `func` is not modelled.
