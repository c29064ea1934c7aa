# argparse-class-namespace, modelled in Dafny

argparse-class-namespace turns a Python class into an `argparse` command
line. The class's annotated fields and class-level values act as the
schema. It then rebuilds nested class instances from the flat result
argparse produces. This project models the core of that library and proves
what it promises:

- the order in which a class's fields are visited (`_is_dunder`,
  `_get_attrnames`);
- how one field's annotation is resolved into the keyword arguments of an
  `add_argument` call. This covers the namespace wrapper, the generic base
  wrapper and the older wrapper in `core/__init__.py`. It includes the
  `_type` coercion functions they install;
- how a tree of `NamespaceWrapper`s is built, by binding children, adding
  subparsers and adding arguments;
- how `parse_args` copies the matched wrapper's fields out of the flat
  result and wraps them once per ancestor;
- the base wrapper's register loop, with its `for`/`else` and its shared
  registry of wrapper types;
- the pairing rule of `get_variable_docstrings`;
- the `Repr` mixin's `__repr__`.

Python's reflection is replaced by data:

- **Classes.** A class is a `SchemaClass`: the keys of `__annotations__`
  and `__dict__` in insertion order, plus the values behind them.
- **Annotations.** An annotation is a closed `Annotation` datatype:
  `TypeRef`, `Const`, `Union`, `Literal`, `ListOf`, `TupleOf`,
  `OtherGeneric` and `Unsupported`. `Union` stands for `typing.Union`,
  `Optional` and `X | Y` alike.
- **The parser.** An argparse parser is the log of calls made on it
  (`ParserCall`). `NamespaceWrapper`s live in an arena indexed by creation
  order (`NamespaceTree.Registry`). A parent is always created after its
  children, so walking up the parent chain provably ends.
- **Converters and `repr`.** The converters `t(value_string)` and Python's
  `repr` are function parameters.

The `_allow_any_value` sentinel answers `True` to every `==`, and the model
keeps that meaning (`Resolution.PyIn`; see `Resolution.SentinelMembership`). As a result, `sentinel in choices`
holds exactly when `choices` is non-empty. So the `choices=` branch of
`_prepare_arg` runs only with an empty list, when the walk met no leaf at
all. The `type=str` branch that follows it can never run.

A plain reading of the intended design says otherwise: `choices=` whenever
only literals were recorded, and `str` when nothing was. The model follows
the code, and `ArgSpecs.ArgSpecChoicesOnlyWhenEmpty` states the code's
behaviour.

## Model

| member | source | states |
|---|---|---|
| Py.Replace | src/argparse_class_namespace/core/namespace_wrapper.py:137 | `str.replace` of one character: the length is kept, and exactly the positions holding the old character change, to the new one |
| Py.ReplaceAbsent | src/argparse_class_namespace/core/namespace_wrapper.py:142 | a name without `-` (every identifier) comes out of `replace('-', '_')` unchanged |
| Py.IndexOf | src/argparse_class_namespace/core/namespace_wrapper.py:95-99 | the index `enumerate` gives a key is its first occurrence |
| Py.PyEqUnwrapRight | src/argparse_class_namespace/core/namespace_wrapper.py:197 | a value of a subclass of `str`/`int`/`bool` compares equal as its base value, on the right of `==` as on the left |
| Py.PyEqReflexive | src/argparse_class_namespace/core/namespace_wrapper.py:197 | Python equality as modelled (`True == 1`, lists element-wise) is reflexive, so `value in a` holds for any value listed in `a` |
| Introspection.DunderMeansPrefixAndSuffix | src/argparse_class_namespace/core/namespace_wrapper.py:85-87 | the dunder test holds exactly when the name starts with `__` and ends with `__` |
| Introspection.Keep | src/argparse_class_namespace/core/namespace_wrapper.py:102 | a name is kept exactly when it is listed, not excluded and not a dunder name |
| Introspection.AttrNames | src/argparse_class_namespace/core/namespace_wrapper.py:89-104 | the field names are exactly the non-dunder keys of annotations ∪ class dict |
| Introspection.KeepKeepsOrder | src/argparse_class_namespace/core/namespace_wrapper.py:101-104 | filtering keeps the relative order of the kept names |
| Introspection.AttrNamesSorted | src/argparse_class_namespace/core/namespace_wrapper.py:95-104 | the field names are strictly increasing in the sort key (a key in both dicts takes its dict position, since the right operand of `\|` wins); hence none appears twice |
| Introspection.SortedByKeyIsUnique | src/argparse_class_namespace/core/namespace_wrapper.py:101-104 | two sequences with the same elements, both strictly increasing in one key, are equal: `sorted` by an injective key is deterministic |
| Introspection.AttrNamesIsTheSortedOrder | src/argparse_class_namespace/core/base_wrapper.py:56-71 | any arrangement of the non-dunder names sorted by the source's key is the one `AttrNames` gives; the same holds for the base wrapper's copy |
| Annotations.BfsLeaves | src/argparse_class_namespace/core/namespace_wrapper.py:162-171 | every item the FIFO walk settles is a leaf: nothing it visits is pushed back |
| Annotations.PopShrinks | src/argparse_class_namespace/core/namespace_wrapper.py:162-171 | popping the head and pushing its arguments or origin shrinks the queue, so the `while stack` loop terminates |
| Annotations.BfsVisitsEveryLeaf | src/argparse_class_namespace/core/namespace_wrapper.py:162-171 | the FIFO walk visits exactly the leaves of the annotation trees, each as often as it occurs; only the order differs |
| Resolution.SentinelMembership | src/argparse_class_namespace/core/namespace_wrapper.py:81-83 | `sentinel in lst` holds exactly when `lst` is non-empty, and every value is `in` a list holding the sentinel |
| Resolution.ResolveQueue | src/argparse_class_namespace/core/namespace_wrapper.py:159-180 | the loop yields `bool_found` and the ordered `allowed` dict over the visited leaves, or the TypeError for the first unsupported leaf; a constant counts when it is an instance of `str`, `int` or `bool`, subclasses included |
| Resolution.DerivedConstantRecorded | src/argparse_class_namespace/core/namespace_wrapper.py:176-177 | a constant of a subclass of `str` or `int` (an `IntEnum`/`StrEnum` member) passes the `isinstance` test and is recorded under its own class `type(current)`, and compares equal to its base value |
| Resolution.KeysSeenMembers | src/argparse_class_namespace/core/namespace_wrapper.py:172-178 | the keys of `allowed` are distinct and are exactly the types something was recorded under |
| Resolution.KeysSeenInFirstEncounterOrder | src/argparse_class_namespace/core/namespace_wrapper.py:160-178 | the keys of `allowed` are in first-encounter order |
| Resolution.EntriesForMembers | src/argparse_class_namespace/core/namespace_wrapper.py:172-178 | a key's list holds the any-value marker exactly when the class itself was visited, and a constant exactly when that constant (of that type) was visited; it is non-empty exactly when the key was recorded |
| Resolution.BoolSeenMembers | src/argparse_class_namespace/core/namespace_wrapper.py:173-174 | `bool_found` holds exactly when `bool` was visited |
| Resolution.FirstRejectedIsFirst | src/argparse_class_namespace/core/namespace_wrapper.py:179-180 | the error names the first unsupported leaf in visiting order, and there is none exactly when no leaf is unsupported |
| Resolution.ResolveValid | src/argparse_class_namespace/core/namespace_wrapper.py:160-178 | a successful walk yields a well-formed ordered dict: distinct keys, one non-empty list per key |
| Resolution.ResolveByLeaves | src/argparse_class_namespace/core/namespace_wrapper.py:162-180 | the outcome does not depend on the FIFO order: failure, `bool_found` and the key set are determined by the leaves of the annotation |
| ArgSpecs.PrepareArg | src/argparse_class_namespace/core/namespace_wrapper.py:127-207 | `_prepare_arg` computes the argument spec of the field, or the error it raises |
| ArgSpecs.ArgSpecNaming | src/argparse_class_namespace/core/namespace_wrapper.py:136-142 | a field with a class value becomes `--name-with-dashes` with `dest=name` and the class value as default (unless it is a toggle); any other field is positional under its own identifier, with no default or dest |
| ArgSpecs.ArgSpecNArgs | src/argparse_class_namespace/core/namespace_wrapper.py:144-157 | outermost `list[...]` gives `nargs='*'`, outermost `tuple[...]` of N arguments gives `nargs=N`, and anything else leaves `nargs` unset |
| ArgSpecs.ArgSpecUnsupported | src/argparse_class_namespace/core/namespace_wrapper.py:179-180 | an unsupported annotation makes `_prepare_arg` raise that same error |
| ArgSpecs.ArgSpecToggle | src/argparse_class_namespace/core/namespace_wrapper.py:183-185 | a `bool` leaf gives `store_false` for a truthy class value and `store_true` otherwise, with `default` removed; with no class value the `del` raises KeyError |
| ArgSpecs.FlattenFromEmpty | src/argparse_class_namespace/core/namespace_wrapper.py:182 | the chained values of a well-formed `allowed` are empty exactly when it has no key |
| ArgSpecs.LeafKinds | src/argparse_class_namespace/core/namespace_wrapper.py:165-180 | every visited leaf is rejected, a `bool`, or recorded under a key |
| ArgSpecs.ArgSpecChoicesOnlyWhenEmpty | src/argparse_class_namespace/core/namespace_wrapper.py:182-205 | `type=str` is never installed, and `choices=` only with an empty list, when the walk met no leaf |
| ArgSpecs.ArgSpecTypeFunc | src/argparse_class_namespace/core/namespace_wrapper.py:186-203 | with no `bool` and some recorded leaf, `_type` is installed over the recorded `allowed` |
| ArgSpecs.CoerceValue | src/argparse_class_namespace/core/namespace_wrapper.py:189-202 | `_type` returns the value of the first key whose conversion succeeds and whose list accepts it, provided no earlier conversion raised anything but TypeError/ValueError; such an exception escapes `_type` unchanged; when every key either fails or rejects, TypeError with the string, every key and exactly the failed conversions' messages in order |
| ArgSpecs.FirstDecisive | src/argparse_class_namespace/core/namespace_wrapper.py:189-202 | when a conversion raises an uncaught exception before any key accepted, no later key is reached and `_type` cannot return a value |
| ArgSpecs.AcceptsByEntries | src/argparse_class_namespace/core/namespace_wrapper.py:197 | under a key holding the marker, every converted value is accepted; under a key holding only constants, a value is accepted exactly when it equals one of them |
| ArgSpecs.FailureMessagesCount | src/argparse_class_namespace/core/namespace_wrapper.py:190-196 | there is at most one collected error per key, and none when every conversion succeeds |
| ArgSpecs.BaseArgSpecOf | src/argparse_class_namespace/core/base_wrapper.py:90-170 | the base `_prepare_arg` succeeds and fails exactly as the namespace one, with the same spec plus `help` = the field's docstring or None |
| LegacyWrapper.ResolveOptions | src/argparse_class_namespace/core/__init__.py:23-26 | the options hold the keys of both dicts; `partial` overrides `full`, and `full`'s other values are kept |
| LegacyWrapper.LegacyFieldsAreAttrNames | src/argparse_class_namespace/core/__init__.py:37 | the legacy field set, dunders aside, holds exactly the names `_get_attrnames` lists |
| LegacyWrapper.LegacyWalk | src/argparse_class_namespace/core/__init__.py:68-90 | the legacy loop yields every visited class (`bool` included) as a type and every constant that is an instance of str/int/bool (subclasses included) as a choice, in visiting order, or the TypeError for the first unsupported leaf |
| LegacyWrapper.LegacyPrepare | src/argparse_class_namespace/core/__init__.py:41-112 | one pass of the legacy loop computes that field's `add_argument` spec, or the error it raises |
| LegacyWrapper.LegacyNamespace | src/argparse_class_namespace/core/__init__.py:37-119 | the legacy constructor adds one argument per non-dunder field, each exactly once and each as soon as it is prepared, whatever order the set yields them in; on a failure the arguments already added stay, and the error is that of a field not yet added |
| LegacyWrapper.ConvertFirst | src/argparse_class_namespace/core/__init__.py:98-110 | the legacy `_type` returns the first conversion that does not raise, unless an earlier one raised something other than TypeError/ValueError, which escapes unchanged; when every type fails, TypeError with every type and one error per type |
| LegacyWrapper.FirstRaised | src/argparse_class_namespace/core/__init__.py:103-108 | once a conversion raises an uncaught exception, no later type is tried and no value is returned |
| LegacyWrapper.LegacyNotListed | src/argparse_class_namespace/core/__init__.py:116-119 | a field that failed is not among the arguments already added |
| LegacyWrapper.LegacyNaming | src/argparse_class_namespace/core/__init__.py:46-51 | a field with a class value always gets `dest=name`, a positional one is `name.replace('_', '-')`, and no toggle is ever built |
| LegacyWrapper.LegacyChoicesMembers | src/argparse_class_namespace/core/__init__.py:85-86 | the choices are exactly the str/int/bool constants among the leaves |
| LegacyWrapper.LegacyTypesMembers | src/argparse_class_namespace/core/__init__.py:83-84 | the types are exactly the classes among the leaves |
| LegacyWrapper.LegacyChoicesWin | src/argparse_class_namespace/core/__init__.py:95-96 | when some constant is among the leaves, `choices` are all the constants in queue order, and the types are ignored |
| LegacyWrapper.LegacyTypesWhenNoChoices | src/argparse_class_namespace/core/__init__.py:97-110 | with no constant and some class, the argument tries the classes in visiting order |
| LegacyWrapper.LegacyBoolIsConverted | src/argparse_class_namespace/core/__init__.py:83-88 | a bare `bool` goes to the types list, so the `isinstance(current, bool)` branch never fires and the field is converted by `bool` |
| NamespaceTree.NewNodeOk | src/argparse_class_namespace/core/namespace_wrapper.py:213-216 | a new wrapper's parser has bind name None and itself as the instance default, and no subparsers |
| NamespaceTree.BoundDefaults | src/argparse_class_namespace/core/namespace_wrapper.py:109-112 | after `_bind` the parser's defaults name the bind name and the wrapper itself, whatever they held before |
| NamespaceTree.CopyAttrs | src/argparse_class_namespace/core/namespace_wrapper.py:334-347 | the `setattr` loop computes the attribute copy of `CopyFields` |
| NamespaceTree.CopyFieldsSpec | src/argparse_class_namespace/core/namespace_wrapper.py:334-347 | the copy succeeds exactly when every name is skipped, or present in the flat result and settable on the new instance; it then holds exactly the names not skipped, with their flat values; otherwise the error is the AttributeError or the `setattr` failure of the first name that is neither |
| NamespaceTree.CopyFieldsOk | src/argparse_class_namespace/core/namespace_wrapper.py:344-347 | the copy succeeds exactly when every name is skipped or copyable, and then holds each name not skipped with its flat value |
| NamespaceTree.CopyFieldsErr | src/argparse_class_namespace/core/namespace_wrapper.py:344-347 | a failed copy stops at the first name that is neither skipped nor copyable, with `getattr`'s AttributeError when it is missing and the `setattr` failure otherwise |
| NamespaceTree.Registry.Bind | src/argparse_class_namespace/core/namespace_wrapper.py:106-112 | `_bind` sets the child's bind name and parent and appends the `set_defaults` of both hidden keys; the arena stays consistent |
| NamespaceTree.Registry.PrepareSubparser | src/argparse_class_namespace/core/namespace_wrapper.py:114-125 | `_prepare_subparser` binds the child to the wrapper and returns `name.replace('_', '-')` with the child's parser |
| NamespaceTree.Registry.GetOrCreateSubparsers | src/argparse_class_namespace/core/namespace_wrapper.py:247-250 | the subparsers object is created on the first call only |
| NamespaceTree.Registry.AddParsers | src/argparse_class_namespace/core/namespace_wrapper.py:241-242 | the subparsers object is created once if any parser is added, then one `add_parser` per collected field, in order |
| NamespaceTree.Registry.AddArguments | src/argparse_class_namespace/core/namespace_wrapper.py:244-245 | one `add_argument` per collected spec, in order, and nothing else changes |
| NamespaceTree.Registry.PrepareField | src/argparse_class_namespace/core/namespace_wrapper.py:232-239 | one pass of the register loop skips a dunder, binds a wrapper field, or prepares an argument; a preparation error leaves the arena untouched |
| NamespaceTree.Registry.PrepareFields | src/argparse_class_namespace/core/namespace_wrapper.py:231-239 | the register loop binds every wrapper field and collects the subparsers and specs in field order; on error it stops at the first failing field, with only the earlier fields bound |
| NamespaceTree.Registry.RegisterNamespace | src/argparse_class_namespace/core/namespace_wrapper.py:226-245 | `_register_namespace` leaves the parser with subparsers (if any), then its `add_parser`s, then its `add_argument`s, and the children bound |
| NamespaceTree.Registry.AddNode | src/argparse_class_namespace/core/namespace_wrapper.py:209-222 | a new wrapper takes the next index, unbound, with the hidden defaults stamped |
| NamespaceTree.Registry.Namespace | src/argparse_class_namespace/core/namespace_wrapper.py:209-224 | construction rejects a defaults dict that repeats a hidden key (TypeError); otherwise it registers the class, or reports the first field error with the partial arena |
| NamespaceTree.Registry.ParseArgs | src/argparse_class_namespace/core/namespace_wrapper.py:331-354 | `parse_args` from the flat result on computes `Reconstruct`: instantiating the matched class, the copied instance, then one new instance per ancestor with the `setattr` of the bind name, each of which can raise |
| TreeProperties.RegisterLogChoices | src/argparse_class_namespace/core/namespace_wrapper.py:241-242 | after registration the subparser choices are the wrapper fields' names, in field order |
| TreeProperties.RegisterLogDefaults | src/argparse_class_namespace/core/namespace_wrapper.py:213-245 | registration sets no default besides the ones stamped at construction |
| TreeProperties.RegisterLogAt | src/argparse_class_namespace/core/namespace_wrapper.py:226-245 | position by position: stamped defaults, subparsers, the `add_parser`s, then the `add_argument`s |
| TreeProperties.RegisterLogSubparsers | src/argparse_class_namespace/core/namespace_wrapper.py:241-250 | the subparsers object is created exactly when some field is a wrapper, and at most once |
| TreeProperties.RegisterLogOrder | src/argparse_class_namespace/core/namespace_wrapper.py:241-245 | every `add_parser` comes before every `add_argument`, and the arguments come last in preparation order |
| TreeProperties.SubparserArgsByField | src/argparse_class_namespace/core/namespace_wrapper.py:231-237 | every wrapper field becomes exactly one subparser, named `name.replace('_', '-')`, in field order |
| TreeProperties.ArgSpecsForIsAllOk | src/argparse_class_namespace/core/namespace_wrapper.py:231-239 | the collected specs are those of the non-wrapper fields, in order, stopping at the first failure |
| TreeProperties.ArgSpecsForByField | src/argparse_class_namespace/core/namespace_wrapper.py:231-239 | collection succeeds exactly when every plain field's spec does, giving one spec per plain field; otherwise it gives the first failure |
| TreeProperties.FieldsPartition | src/argparse_class_namespace/core/namespace_wrapper.py:231-239 | each non-dunder field goes to exactly one of the subparser and argument lists |
| TreeProperties.BindFieldsEffect | src/argparse_class_namespace/core/namespace_wrapper.py:235-237 | a wrapper not named by any field is untouched; one that is gets the new wrapper as parent and the LAST binding field as bind name, with matching hidden defaults |
| TreeProperties.WrapUpNests | src/argparse_class_namespace/core/namespace_wrapper.py:348-353 | the walk puts the instance at the end of the bind-name path; every level above is a fresh instance holding only the next bind name |
| TreeProperties.WalkFollowsAncestry | src/argparse_class_namespace/core/namespace_wrapper.py:348-353 | in a consistent arena the walk follows all the ancestors' bind names up to a root with no parent |
| TreeProperties.ParseArgsNests | src/argparse_class_namespace/core/namespace_wrapper.py:328-354 | `parse_args` succeeds exactly when the matched class can be instantiated, every copied name is present and settable, and every ancestor level can be instantiated and given its bind name; it then returns the root's type with the matched instance at the end of the ancestry path, holding exactly the names not skipped |
| TreeProperties.WalkErrorSpec | src/argparse_class_namespace/core/namespace_wrapper.py:348-353 | the walk up the ancestors instantiates one class and sets one bind name per level, innermost first, and fails at the first level where either raises, with that error |
| TreeProperties.RootMatchUnwrapped | src/argparse_class_namespace/core/namespace_wrapper.py:348 | a matched wrapper with no parent is returned unwrapped, once its class is instantiated and its fields copied |
| BaseWrapperModel.RecordSubwrapper | src/argparse_class_namespace/core/base_wrapper.py:206-212 | the inner loop over the registered types computes `AddRecords` |
| BaseWrapperModel.CollectArgs | src/argparse_class_namespace/core/base_wrapper.py:202-216 | the first loop computes `Collect`: reading each field from the class (which may raise), the per-type records and the argument specs, or the first error |
| BaseWrapperModel.Wrapper.constructor | src/argparse_class_namespace/core/base_wrapper.py:172-189 | a new wrapper holds the class, its field order and docstrings, unbound, with no calls made |
| BaseWrapperModel.Wrapper.Bind | src/argparse_class_namespace/core/base_wrapper.py:73-79 | `_bind` sets bind name and parent and stamps both hidden defaults on the container |
| BaseWrapperModel.Wrapper.Get | src/argparse_class_namespace/core/base_wrapper.py:264-271 | the base `__get__` raises NotImplementedError |
| BaseWrapperModel.Wrapper.AddRow | src/argparse_class_namespace/core/base_wrapper.py:219-222 | the calls for one type's records are made in order, stopping after the first that raises |
| BaseWrapperModel.Wrapper.AddSubwrappers | src/argparse_class_namespace/core/base_wrapper.py:218-222 | the second loop makes `add_wrapper_to_subwrappers` calls type by type and record by record, stopping at the first error |
| BaseWrapperModel.Wrapper.AddArguments | src/argparse_class_namespace/core/base_wrapper.py:223-224 | the third loop adds one argument per spec, in order |
| BaseWrapperModel.Wrapper.Emit | src/argparse_class_namespace/core/base_wrapper.py:218-224 | every sub-wrapper call comes before any `add_argument`, and an error among them skips the arguments |
| BaseWrapperModel.Wrapper.RegisterNamespace | src/argparse_class_namespace/core/base_wrapper.py:192-224 | `_register_namespace` makes the calls of `Registration`: no call at all when the first loop raises, reading a field from the class included |
| BaseWrapperModel.NewWrapper | src/argparse_class_namespace/core/base_wrapper.py:172-190 | construction propagates a docstring error before registering; otherwise the wrapper's calls are its registration's, over the registered types of the shared set |
| BaseWrapperModel.WrapperTypeRegistry.constructor | src/argparse_class_namespace/core/base_wrapper.py:231 | the shared set of wrapper types starts empty |
| BaseWrapperModel.WrapperTypeRegistry.InitSubclass | src/argparse_class_namespace/core/base_wrapper.py:233-234 | defining a subclass adds it to the single shared set, and an enumeration of the set, each type once, extends to one of the new set |
| BaseWrapperProperties.AddRecordsEffect | src/argparse_class_namespace/core/base_wrapper.py:207-212 | a field's value is recorded once in the list of every registered type it is an instance of; this fails exactly when one of those types' `_prepare_subwrapper` fails |
| BaseWrapperProperties.CollectOk | src/argparse_class_namespace/core/base_wrapper.py:202-216 | the first loop succeeds exactly when, for every non-dunder field, reading it from the class, its spec and its sub-wrapper preparations succeed |
| BaseWrapperProperties.CollectArgSpecs | src/argparse_class_namespace/core/base_wrapper.py:202-216 | the `for`/`else` has no `break`, so EVERY non-dunder field (a sub-wrapper field included) gets a spec with its help text, in field order |
| BaseWrapperProperties.CollectRecords | src/argparse_class_namespace/core/base_wrapper.py:195-212 | each type's list holds one record per field whose value is an instance of it, in field order |
| BaseWrapperProperties.SubCallsOk | src/argparse_class_namespace/core/base_wrapper.py:218-222 | the second loop goes through exactly when no call raises, and then calls every record in order |
| BaseWrapperProperties.SubCallsFails | src/argparse_class_namespace/core/base_wrapper.py:218-222 | when the second loop raises, the calls made are those up to and including the first that raised |
| BaseWrapperProperties.ArgumentCallsAt | src/argparse_class_namespace/core/base_wrapper.py:223-224 | the i-th argument call adds the i-th spec |
| BaseWrapperProperties.RecordsEmpty | src/argparse_class_namespace/core/base_wrapper.py:81-88 | when `_prepare_subwrapper` always raises, nothing is ever recorded |
| BaseWrapperProperties.BaseHooksRegister | src/argparse_class_namespace/core/base_wrapper.py:81-88 | with the base class's own hooks, registration succeeds exactly when no field's class value is a wrapper (whose base `__get__` raises) and none is an instance of a registered type; it then makes no sub-wrapper call and adds one argument per non-dunder field in order |
| BaseWrapperProperties.BaseHooksWrapperField | src/argparse_class_namespace/core/base_wrapper.py:206 | with the base class's own hooks, the first wrapper-valued field ends registration before any call, with the NotImplementedError its `__get__` raises naming the wrapper's class |
| VariableDocstring.VarNameFromAssign | src/argparse_class_namespace/core/variable_docstring.py:25-35 | a name exactly for a single bare-name target |
| VariableDocstring.VarNameFromAnnAssign | src/argparse_class_namespace/core/variable_docstring.py:37-42 | a name exactly for a bare-name target |
| VariableDocstring.StrConst | src/argparse_class_namespace/core/variable_docstring.py:44-54 | text exactly for a string constant; other constants and expressions give nothing |
| VariableDocstring.GetVariableDocstrings | src/argparse_class_namespace/core/variable_docstring.py:56-86 | a non-class is a TypeError; source that is not exactly one class definition is a RuntimeError; otherwise the result is the pairwise scan of the class body |
| VariableDocstring.PairDocsKeys | src/argparse_class_namespace/core/variable_docstring.py:86-92 | a name is documented exactly when some assignment of it is immediately followed by a string docstring; a body of fewer than two statements documents nothing |
| VariableDocstring.PairDocsLastWins | src/argparse_class_namespace/core/variable_docstring.py:86-92 | a name documented twice maps to the later docstring |
| ReprMixin.JoinShape | src/argparse_class_namespace/core/mixin.py:8-12 | joining puts exactly one separator between neighbours |
| ReprMixin.JoinLength | src/argparse_class_namespace/core/mixin.py:8-12 | the joined length is the parts' length plus one separator per gap, with nothing at either end; joining nothing gives `""` |
| ReprMixin.EntriesSpec | src/argparse_class_namespace/core/mixin.py:9-12 | the entries are one `name=repr(value)` per name, in order, or AttributeError for the first name without a value |
| ReprMixin.ReprUnsetSubNamespace | src/argparse_class_namespace/core/namespace_wrapper.py:276-285 | a sub-namespace field not set on the instance reads as None through the wrapper's `__get__`, so its entry is `name=` followed by the `repr` of None |
| ReprMixin.KeepNothing | src/argparse_class_namespace/core/mixin.py:11 | the dunder filter removes nothing from the field order |
| ReprMixin.ReprSpec | src/argparse_class_namespace/core/mixin.py:4-14 | `__repr__` is `Name(`, one entry per field in field order with no dunder name, then `)`; a class with no fields gives `Name()`; it fails exactly when some field has no value |

## Left out

- argparse itself is not modelled. Parsers are logs of the calls made on
  them: `set_defaults`, `add_subparsers`, `add_parser` and `add_argument`.
  Tokenising argv is out, and so are argparse's own errors and the
  inheritance of arguments through `parents=[...]`. The flat result of
  `parse_args` is an input (`flat`).
- NamespaceTree.Registry.ParseArgs: the flat result must carry the two
  hidden defaults (`FlatOk`). argparse always supplies them, because the
  root stamps them at construction.
- TreeProperties.ParseArgsNests: assumes the bind name in the flat result
  is the matched wrapper's own bind name, which holds when the matched
  subparser's `set_defaults` wins.
- `argcomplete.autocomplete` is left out, because it is shell completion.
  So is the debug `print` in the legacy constructor.
- Python reflection and `typing` are replaced by `SchemaClass` and the
  closed `Annotation` datatype. String forward references and other
  annotation objects are `Unsupported`.
- `getattr(ns_type, name)` reads only the class dict. Attributes inherited
  from base classes are not modelled.
- The converters `t(value_string)` (`int`, `float`, user classes) are a
  parameter `convert`. Floating point and foreign code stay out.
- Python's `repr` of a value is a parameter `repr`. The instance
  attributes `__repr__` reads are a map.
- `inspect.getsource`, `ast.parse` and `textwrap.dedent` are left out,
  because they read source files and run a foreign parser.
  `GetVariableDocstrings` takes the parsed module. A missing or unparsable
  source is the `SourceUnavailable` RuntimeError.
- The legacy `namespace` decorator and `parse_args` are not modelled,
  because they only hand an `ArgumentParser` to argparse. Their option merge
  is modelled as `ResolveOptions`. The legacy constructor visits a Python
  set, whose order is not defined. `LegacyNamespace` therefore picks any
  order, and its contract holds for every order.
- `isinstance` against the registered wrapper types is a parameter
  (`Hooks.kindsOf`). So is reading a field from the class
  (`Hooks.classGet`), which runs a wrapper's `__get__`, and so are the
  subclasses' `_prepare_subwrapper` and `add_wrapper_to_subwrappers`. The
  iteration order of the shared `_wrapper_types` set is the sequence
  `Hooks.wrapperTypes`, required to enumerate the registry's set.
- Instantiating a schema class and `setattr` on the new instance run user
  code (an `__init__` with required arguments, a property, `__slots__`).
  Whether they raise is the parameter `Objects`; what else they do is not
  modelled.
- The namespace wrapper's `__get__` is modelled where it is used: read
  from the class it yields the wrapper (the register loop), read from an
  ordinary instance with no attribute of that name it yields None
  (`ReprMixin.GetAttr`). `callback`, `set_defaults` and the read-only
  properties (`ns_type`, `T`, `parser`, `subparsers`, `defaults`,
  `attrnames`) are left out, because they wrap a function or pass straight
  through to argparse.
- core/group_wrapper.py and core/help_formatter.py are not part of this
  model. The first is argument-group plumbing that cannot run as written.
  The second is help-text formatting.
- Integers are unbounded. `nargs=len(args)` and `enumerate` indices never
  come near a machine-width limit.
