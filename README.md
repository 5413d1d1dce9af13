# fluffy-test core in Dafny

This project models the core of fluffy-test, a small Java helper for tests that read JSON
fixtures. A fixture is read from a file (`FileReader`) or serialized from an object
(`ObjectReader`). It is then edited, either as text with `mutate(Function)` or as a Jackson
tree with `mutate(BiConsumer)`. Finally it is handed back as text, as a tree or as an object.

The model has three parts.

- **The dot-path tree editor.** This is `Mutators`. A path such as `foo.bar.2` names a node.
  `getNode`/`getDeepNode` walk it, and `setValue`, `setNull`, grouped `setValue` and `copy`
  edit the tree at its end. A path error carries the diagnostic the Java code builds: a
  header, the path line and a caret line.
  - The Jackson tree is the datatype `JsonTree.Json`.
  - An edit the Java code makes in place is a function that returns the edited tree.
  - A node the code holds a reference to is its location, a sequence of steps from the root.
    Writing it back is `JsonTree.Put`.
  - Each path walker follows the Java recursion. It is tied to a reference specification
    (`Resolve`, `ValueLocation`, `NullLocation`, `Put`) by characterization lemmas. Frame,
    read-back, diagnostic and key-uniqueness properties are proved from that specification.
- **The lazy readers.** `Readers.FileReader` and `Readers.ObjectReader` are classes.
  - Each has a constant origin, `Option` caches `content` and `root`, and a mapper.
  - Their methods follow the Java lazy-loading and caching rules.
  - The varargs loops of `Reader` are `MutateTexts`/`MutateTrees`.
  - `ReaderScenarios` states the call sequences the tests use, as verified methods on fresh readers.
- **Package-level settings.** This covers `getNextLevel`, `getSettingsFor`, `getForStackTrace`,
  `Field.isPresent`/`getValue` and `getValueFor`.
  - The reflection is replaced by a table from each package to the fields its
    `PackageSettings` class declares.
  - The stack trace is given as a sequence of class names.

Jackson's `ObjectMapper` is the datatype `ObjectMappers.Mapper`. Its fields are functions for
`readTree`, `writeValueAsString`, `valueToTree` and `convertValue`, and a failing call yields
`None`. The file system is a function from path to optional text.

Where the code and its description disagree, the model follows the code:

- At any step but the last, a numeric segment on an object is not found. `JsonNode.get(int)`
  on an `ObjectNode` yields null. It is not looked up as a key.
- At the last step of `setValue`, the same numeric segment is written as an object key.
  `Mutators.NumericKeyOnObject` and `Mutators.SetValueReadBack` show both sides.
- A text mutation never invalidates or regenerates the cached tree, and a tree mutation
  never regenerates the text. Text mutated after the tree was built is ignored by
  `asJsonNode` and `asObject` (`ReaderScenarios.TextAfterTreeIsIgnored`).
- `copy` reports an error in the final segment of its target with the whole target as
  context. So the path line repeats that segment, and the carets stand past the path.
  `Mutators.CopyContextIsWholeTarget` shows this as written.

## Model

| member | source | states |
|---|---|---|
| Paths.IsNumeric | src/main/java/com/fluminis/fluffytest/Mutators.java:185-187 | a segment is numeric exactly when it is non-empty and all its characters are ASCII digits (the whole-string match of `\d+`) |
| Paths.ParseIntRoundTrip | src/main/java/com/fluminis/fluffytest/Mutators.java:156 | `parseInt` of the decimal digits of any number up to 2147483647 gives that number back; the digits of a larger number pass `isNumeric` but `parseInt` refuses them with NumberFormatException |
| Paths.NineDigitsParse | src/main/java/com/fluminis/fluffytest/Mutators.java:156 | a numeric segment of at most nine digits never makes `parseInt` throw |
| Paths.LeadingZero | src/main/java/com/fluminis/fluffytest/Mutators.java:176 | leading zeros do not change the index a numeric segment selects |
| Paths.CaretLine | src/main/java/com/fluminis/fluffytest/Mutators.java:180 | the caret line has one space per context character, then one caret per segment character |
| Paths.DiagnosticLayout | src/main/java/com/fluminis/fluffytest/Mutators.java:178-180 | a path diagnostic is the header, the path line `context+segment`, and a last line whose carets stand exactly under the segment |
| Paths.SplitFirst | src/main/java/com/fluminis/fluffytest/Mutators.java:168-169 | `split("\\.", 2)` of a dotted path gives a dot-free head and the rest, with `path == head + "." + rest` |
| Paths.SplitLast | src/main/java/com/fluminis/fluffytest/Mutators.java:138 | the last-dot split gives a parent path and a dot-free last segment, with `path == parent + "." + last` |
| Paths.SegmentsJoin | src/main/java/com/fluminis/fluffytest/Mutators.java:167-173 | the segments a path is walked through are dot-free and join back with dots into the path |
| Paths.SegmentsAppend | src/main/java/com/fluminis/fluffytest/Mutators.java:167-173 | the segments of `a + "." + b` are those of `a` followed by those of `b`, whichever dot the walk splits at |
| Paths.SegmentsOfSplitLast | src/main/java/com/fluminis/fluffytest/Mutators.java:138-139 | the parent path of the last-dot split walks all segments but the last |
| Paths.StepsOfAppend | src/main/java/com/fluminis/fluffytest/Mutators.java:167-173 | walking two segment lists in turn reaches the same steps as walking them joined, and fails exactly when either part fails |
| JsonTree.GetField | src/main/java/com/fluminis/fluffytest/Mutators.java:176 | `get(String)` yields a value exactly on an object that has the key, otherwise null |
| JsonTree.SetField | src/main/java/com/fluminis/fluffytest/Mutators.java:164 | `ObjectNode.set` makes the key hold the value, leaves every other key, keeps the key order, and overwrites in place or appends one member |
| JsonTree.SetIndex | src/main/java/com/fluminis/fluffytest/Mutators.java:159 | `ArrayNode.set` replaces one slot and keeps the length and every other slot |
| JsonTree.Insert | src/main/java/com/fluminis/fluffytest/Mutators.java:157 | `ArrayNode.insert` adds exactly one element, at the index or at the end when the index is past it, shifting the later elements |
| JsonTree.Place | src/main/java/com/fluminis/fluffytest/Mutators.java:156-164 | the final write puts the value at its step and leaves every other child |
| JsonTree.AtPutBelow | src/main/java/com/fluminis/fluffytest/Mutators.java:144-149 | after an in-place write at a location, everything below that location is the written node |
| JsonTree.AtPutApart | src/main/java/com/fluminis/fluffytest/Mutators.java:144-149 | an in-place write changes no location that is neither above nor below it |
| JsonTree.PutExtend | src/main/java/com/fluminis/fluffytest/Mutators.java:139-141 | editing a resolved parent node in place is writing at the parent's location plus one step |
| JsonTree.PutSame | src/main/java/com/fluminis/fluffytest/Mutators.java:117 | writing back a node where it was found changes nothing |
| JsonTree.AtPut | src/main/java/com/fluminis/fluffytest/Mutators.java:164 | a write at a location that can be written makes that location hold exactly the written node |
| JsonTree.PutWellFormed | src/main/java/com/fluminis/fluffytest/Mutators.java:164 | writing a tree with unique keys into a tree with unique keys keeps every object's keys unique |
| JsonTree.AtWellFormed | src/main/java/com/fluminis/fluffytest/Mutators.java:167-173 | every node reached in a tree with unique keys has unique keys |
| Mutators.GetNode | src/main/java/com/fluminis/fluffytest/Mutators.java:175-183 | `getNode` returns the child the segment's step selects, fails with "Could not find node" when there is none, and fails in parseInt on an oversized number |
| Mutators.NothingFound | src/main/java/com/fluminis/fluffytest/Mutators.java:175-183 | nothing is found exactly for an index past an array's end, a numeric segment on an object, a key on an array, a missing key, and any segment on null or a scalar |
| Mutators.GetDeepNodeAt | src/main/java/com/fluminis/fluffytest/Mutators.java:167-173 | `getDeepNode` finds exactly the node at the steps the path's segments name, and fails when there is none |
| Mutators.GetDeepNodeLocates | src/main/java/com/fluminis/fluffytest/Mutators.java:167-173 | every `getDeepNode` diagnostic has a context that is empty or ends with a dot, and underlines one whole segment of the path |
| Mutators.ResolveByParent | src/main/java/com/fluminis/fluffytest/Mutators.java:137-139 | a path resolves to the child its last segment selects in the node its leading segments resolve to, and to nothing when either is missing |
| Mutators.SetValueIsPut | src/main/java/com/fluminis/fluffytest/Mutators.java:144-165 | `setValue` succeeds exactly when the parent chain exists and the last segment fits the parent, and it then writes the node at that one location |
| Mutators.SetValueEffect | src/main/java/com/fluminis/fluffytest/Mutators.java:144-165 | after `setValue` the written location holds the node with its whole subtree, and every location apart from it is unchanged |
| Mutators.SetValueReadBack | src/main/java/com/fluminis/fluffytest/Mutators.java:150-164 | reading the path back finds the node, except after a numeric key on an object or an index past an array's end, where it finds nothing |
| Mutators.SetValueLocates | src/main/java/com/fluminis/fluffytest/Mutators.java:144-155 | every `setValue` diagnostic, including "should be a number" on an array, underlines one whole segment of the path |
| Mutators.NumericKeyOnObject | src/main/java/com/fluminis/fluffytest/Mutators.java:164 | on `{"1": "a"}`, the path `1` cannot be read but `setValue("1", ...)` overwrites that key |
| Mutators.AppendPastTheEnd | src/main/java/com/fluminis/fluffytest/Mutators.java:156-158 | `setValue("5", w)` on a two-element array appends `w` as the third element, with no padding |
| Mutators.SetNullIsPut | src/main/java/com/fluminis/fluffytest/Mutators.java:189-196 | `setNull` succeeds exactly when every ancestor exists and the final parent is an object, and then puts null at the final key |
| Mutators.SetNullEffect | src/main/java/com/fluminis/fluffytest/Mutators.java:189-196 | after `setNull` the final key holds null, nothing of the old subtree remains below it, and every location apart from it is unchanged |
| Mutators.SetNullLocates | src/main/java/com/fluminis/fluffytest/Mutators.java:189-192 | every `setNull` diagnostic underlines one whole segment of the path |
| Mutators.CopyIsPut | src/main/java/com/fluminis/fluffytest/Mutators.java:135-142 | `copy` succeeds exactly when the source resolves, the target has a dot and `setValue` could write at the target, and it then writes the source node there |
| Mutators.SetValueFinal | src/main/java/com/fluminis/fluffytest/Mutators.java:150-164 | at the final segment: an array with a non-numeric segment throws "should be a number" with the segment and context, an array with a digit string above 2147483647 throws NumberFormatException, a node that is neither array nor object fails its `ObjectNode` cast, and an object or an array with an in-range index is written |
| Mutators.SetNullFinal | src/main/java/com/fluminis/fluffytest/Mutators.java:194 | at the final segment `setNull` throws exactly when the parent is not an object (the `ObjectNode` cast) |
| Mutators.SetValueByParent | src/main/java/com/fluminis/fluffytest/Mutators.java:144-148 | on a dotted path `setValue` throws what `getDeepNode` throws on the parent path, or else what the final segment throws in that parent, with the parent path and a dot as context |
| Mutators.SetNullByParent | src/main/java/com/fluminis/fluffytest/Mutators.java:189-192 | on a dotted path `setNull` throws what `getDeepNode` throws on the parent path, or else what the final segment throws in that parent |
| Mutators.CopyFinal | src/main/java/com/fluminis/fluffytest/Mutators.java:137-140 | once the source and the target's parent resolve, `copy` throws "should be a number" (with the whole target as context), NumberFormatException or the cast failure exactly as `setValue` would at the target's last segment |
| Mutators.CopyIsSetValueOfSource | src/main/java/com/fluminis/fluffytest/Mutators.java:139-141 | a copy produces the tree that `setValue` at the target with the source node produces, and fails exactly when that fails |
| Mutators.CopyIsIndependent | src/main/java/com/fluminis/fluffytest/Mutators.java:141 | a later write anywhere apart from the target, including under the source, leaves the copy as it was |
| Mutators.CopyContextIsWholeTarget | src/main/java/com/fluminis/fluffytest/Mutators.java:141 | copying to `list.x` with `list` an array fails with context `list.x`, a path line `list.xx` and a caret outside the path |
| Mutators.CopyTargetWithoutDot | src/main/java/com/fluminis/fluffytest/Mutators.java:138-141 | a target without a dot always fails; when source and target both resolve, it fails for lack of a parent |
| Mutators.ApplyGroup | src/main/java/com/fluminis/fluffytest/Mutators.java:115-122 | the grouped `setValue` loop resolves the common node, accepts each mutator on it in order, stops at the first exception, and writes the edited node back |
| Mutators.GroupEditsOneNode | src/main/java/com/fluminis/fluffytest/Mutators.java:115-122 | a group fails without edits when its path does not resolve; otherwise it changes only the resolved node, which becomes the group's result |
| Mutators.GroupStopsAtFailure | src/main/java/com/fluminis/fluffytest/Mutators.java:118-120 | when a mutator of a group throws, later ones never run and the earlier edits remain |
| Mutators.ApplyAllAppend | src/main/java/com/fluminis/fluffytest/Mutators.java:118-120 | running mutators in two parts is running them in order, the second part only if the first did not throw |
| Mutators.EmptyGroup | src/main/java/com/fluminis/fluffytest/Mutators.java:117 | an empty group leaves the tree and fails exactly when its path does not resolve |
| Mutators.FailedEditWritesNothing | src/main/java/com/fluminis/fluffytest/Mutators.java:64-66 | a single `setNull`, `setValue` or `copy` that throws leaves the tree as it was |
| Mutators.ApplyWellFormed | src/main/java/com/fluminis/fluffytest/Mutators.java:91-93 | mutators built from the factory methods keep every object's keys unique |
| Mutators.ApplyAllWellFormed | src/main/java/com/fluminis/fluffytest/Mutators.java:118-120 | a group of such mutators keeps every object's keys unique |
| Readers.ApplyTextsAppend | src/main/java/com/fluminis/fluffytest/Reader.java:21 | chained text mutations compose in call order |
| Readers.FileReader.constructor | src/main/java/com/fluminis/fluffytest/FileReader.java:25-28 | a new reader keeps its path and mapper and has nothing cached |
| Readers.FileReader.WithObjectMapper | src/main/java/com/fluminis/fluffytest/FileReader.java:30-33 | replaces the mapper, returns the same reader, and leaves both caches |
| Readers.FileReader.AsString | src/main/java/com/fluminis/fluffytest/FileReader.java:45-54 | reads the file only while no text is cached and then keeps it; an unreadable file fails with "Could not read" and the path |
| Readers.FileReader.AsJsonNode | src/main/java/com/fluminis/fluffytest/FileReader.java:64-73 | parses the current text only while no tree is cached and then keeps the tree; loading the text is kept even when parsing fails |
| Readers.FileReader.AsObject | src/main/java/com/fluminis/fluffytest/FileReader.java:56-62 | converts from the tree, loading it as `asJsonNode` does |
| Readers.FileReader.MutateText | src/main/java/com/fluminis/fluffytest/FileReader.java:35-38 | the text becomes `f` of the current text; the cached tree is left alone |
| Readers.FileReader.MutateTree | src/main/java/com/fluminis/fluffytest/FileReader.java:40-43 | the cached tree is edited by the mutator and keeps its edits even when it throws |
| Readers.FileReader.MutateTexts | src/main/java/com/fluminis/fluffytest/Reader.java:45-50 | each text mutator is applied once, in order; an empty batch changes nothing and reads nothing |
| Readers.FileReader.MutateTrees | src/main/java/com/fluminis/fluffytest/Reader.java:87-92 | each tree mutator is applied once, in order, to the one cached tree, up to the first that throws; an empty batch changes nothing |
| Readers.ObjectReader.constructor | src/main/java/com/fluminis/fluffytest/ObjectReader.java:21-24 | a new reader keeps its object and mapper and has nothing cached |
| Readers.ObjectReader.WithObjectMapper | src/main/java/com/fluminis/fluffytest/ObjectReader.java:26-29 | replaces the mapper, returns the same reader, and leaves both caches |
| Readers.ObjectReader.AsString | src/main/java/com/fluminis/fluffytest/ObjectReader.java:41-50 | serializes the object only while no text is cached and then keeps the text |
| Readers.ObjectReader.AsJsonNode | src/main/java/com/fluminis/fluffytest/ObjectReader.java:60-73 | with no tree and no text, builds the tree from the object and leaves the text uncached; with text, parses it; a cached tree is kept |
| Readers.ObjectReader.AsObject | src/main/java/com/fluminis/fluffytest/ObjectReader.java:52-58 | converts from the tree, building it as `asJsonNode` does |
| Readers.ObjectReader.MutateText | src/main/java/com/fluminis/fluffytest/ObjectReader.java:31-34 | the text becomes `f` of the current text; the cached tree is left alone |
| Readers.ObjectReader.MutateTree | src/main/java/com/fluminis/fluffytest/ObjectReader.java:36-39 | the cached tree is edited by the mutator; the text is never touched |
| Readers.ObjectReader.MutateTexts | src/main/java/com/fluminis/fluffytest/Reader.java:45-50 | each text mutator is applied once, in order; an empty batch changes nothing |
| Readers.ObjectReader.MutateTrees | src/main/java/com/fluminis/fluffytest/Reader.java:87-92 | each tree mutator is applied once, in order, to the one cached tree, up to the first that throws |
| ReaderScenarios.TextMutationsCompose | src/test/java/com/fluminis/fluffytest/TestUtilsTest.java:42-51 | two chained text mutations apply in order to the file's text |
| ReaderScenarios.TreeEditsStayOutOfText | src/main/java/com/fluminis/fluffytest/FileReader.java:45-54 | after a tree mutation, `asString` still returns the file's text |
| ReaderScenarios.TextBeforeTreeReachesObject | src/test/java/com/fluminis/fluffytest/TestUtilsTest.java:65-70 | a text mutation made before the tree is needed reaches `asObject` |
| ReaderScenarios.TreeMutationsAccumulate | src/test/java/com/fluminis/fluffytest/TestUtilsTest.java:108-115 | two tree mutations both land on the one cached tree |
| ReaderScenarios.TextAfterTreeIsIgnored | src/main/java/com/fluminis/fluffytest/Reader.java:62 | a text mutation after the tree was built changes `asString` but not `asJsonNode` |
| ReaderScenarios.NewMapperKeepsTree | src/main/java/com/fluminis/fluffytest/FileReader.java:30-33 | a new mapper does not rebuild a cached tree |
| ReaderScenarios.ObjectEditsSkipText | src/test/java/com/fluminis/fluffytest/TestUtilsTest.java:121-131 | `setNull` then `setValue` on an object reader both reach `asObject`, while `asString` serializes the original object |
| ReaderScenarios.ObjectTextBeforeTree | src/main/java/com/fluminis/fluffytest/ObjectReader.java:61-66 | once text is cached, the tree is parsed from it, not built from the object |
| ReaderScenarios.TextBatchIsInOrder | src/main/java/com/fluminis/fluffytest/Reader.java:45-50 | `mutate(f, g)` equals `mutate(f).mutate(g)` |
| PackageSettings.NextLevel | src/main/java/org/packagesettings/PackageLevelSettings.java:68-71 | null exactly when there is no dot; otherwise the strictly shorter prefix before the last dot, with a dot-free tail |
| PackageSettings.OverlayIsMerge | src/main/java/org/packagesettings/PackageLevelSettings.java:44-49 | putting a package's fields over the inherited settings replaces entries of the same name and keeps the rest |
| PackageSettings.OverlayKeys | src/main/java/org/packagesettings/PackageLevelSettings.java:44-49 | a package's own settings have exactly its declared field names as keys |
| PackageSettings.OverlayLookup | src/main/java/org/packagesettings/PackageLevelSettings.java:44-49 | a field name holds what its last declaration read, located in the package's settings class |
| PackageSettings.SettingsForFresh | src/main/java/org/packagesettings/PackageLevelSettings.java:35-56 | with no ancestor done, a package's settings are its parent's with its own merged over them, and the done set gains exactly it and its ancestors |
| PackageSettings.SettingsForDone | src/main/java/org/packagesettings/PackageLevelSettings.java:36-54 | from a done set closed under ancestors, `getSettingsFor` adds exactly the package and its ancestors and keeps the set closed |
| PackageSettings.OwnSettingsOverride | src/main/java/org/packagesettings/PackageLevelSettings.java:39-49 | a package's own settings override those it inherits, key by key |
| PackageSettings.GetSettingsFor | src/main/java/org/packagesettings/PackageLevelSettings.java:35-56 | the recursive method with its field loop computes the settings and done set specified by `SettingsFor` |
| PackageSettings.PutFields | src/main/java/org/packagesettings/PackageLevelSettings.java:44-49 | the field loop puts each declared field in order over the inherited settings, as `Overlay` specifies |
| PackageSettings.GetForStackTrace | src/main/java/org/packagesettings/PackageLevelSettings.java:18-33 | the frame loop merges each frame's settings in stack order with one shared done set |
| PackageSettings.ForStackTraceDone | src/main/java/org/packagesettings/PackageLevelSettings.java:21-25 | after a stack trace, the done set is closed and holds every frame's package and ancestors |
| PackageSettings.LaterFramesWin | src/main/java/org/packagesettings/PackageLevelSettings.java:22-25 | a later frame's entries replace earlier ones for the same key; other entries stay; an already-done package adds nothing |
| PackageSettings.RepeatedPackageAddsNothing | src/main/java/org/packagesettings/PackageLevelSettings.java:36-38 | a frame whose package an earlier frame reached adds nothing |
| PackageSettings.SingleFrame | src/main/java/org/packagesettings/PackageLevelSettings.java:18-25 | a call from one class sees its package's chain of settings |
| PackageSettings.Field.GetValue | src/main/java/org/packagesettings/Field.java:9-16 | the default for a missing name, an unreadable entry, a null value or a value of another class; otherwise the stored value; so any result other than the default is an instance of the field's class stored under its name |
| PackageSettings.NearestPackageWins | src/main/java/org/packagesettings/PackageLevelSettings.java:90-92 | a value of the field's type declared in the caller's own package is the value found |
| PackageSettings.UndeclaredUsesDefault | src/main/java/org/packagesettings/Field.java:9-16 | when no package from the caller's up to the root declares the name, the default is used |
| PackageSettings.ChainKeys | src/main/java/org/packagesettings/PackageLevelSettings.java:39-49 | a name no package from this one up to the root declares is absent from its settings |

## Left out

- Jackson is abstract. `readTree`, `writeValueAsString`, `valueToTree` and `convertValue` are functions in `Mapper`, and any call may fail except `valueToTree`. The mapper configuration of `TestUtils.createObjectMapper` is not part of this model.
- The model has no JSON floating-point or big-decimal numbers. A number node holds an unbounded integer.
- `deepCopy` is implicit: trees are immutable values, so a copy is independent by construction (`Mutators.CopyIsIndependent`).
- `replaceAll` and its regular expression are not modelled. Text mutators are arbitrary functions from string to string.
- File reading is a function from path to optional text, fixed for the reader's lifetime. A file that changes between reads is not modelled. The classloader lookup and path joining in `TestUtils` are not part of this model.
- `utcTime` is not part of this model; it is date arithmetic.
- Aliasing of the cached tree: `asJsonNode` returns the cached `root` itself, so a caller's own in-place edits would change the cache. The model returns the tree as a value, and only tree mutators change `root`.
- Caller-written `BiConsumer` edits (`Mutators.Custom`) are total functions that never throw. `Mutators.ApplyWellFormed` excludes them, since they may break key uniqueness.
- `asObject(TypeReference)` is the same operation as `asObject(Class)`. The target type is named by a string.
- Exception messages other than the path diagnostics are constructor names: `ReadFailed` carries the path of "Could not read <path>". The `ObjectReader` serialization message depends on the object's `toString` and is not modelled.
- Reflection: loading `<package>.PackageSettings`, listing its declared fields, and the static/instance distinction in reading them are not modelled. They are replaced by the field table. A package whose class cannot be loaded or instantiated is absent from it, and a field whose read throws is `Unreadable` (a null entry).
- `Thread.getStackTrace` is not modelled. The trace is given as a sequence of class names. `getForStackTrace` rethrowing reflection errors cannot happen once reflection is a table.
- `getValueFor(String key)` and `getValueFor(field)` with a null default are not modelled. A null of the value type has no counterpart here. The `Supplier` of `getValueFor(field, supplier)` is given as its value, because evaluating it has no side effect in the model.
- The `FileReader`/`ObjectReader` constructors take the mapper as a parameter instead of looking up the package-level `OBJECT_MAPPER` setting.
- `Readers.FileReader.MutateTree`, `Readers.ObjectReader.MutateTree`: Java's unchecked cast in `asJsonNode` is not modelled; the cached tree is always a `Json`.
- `ReaderScenarios.TreeMutationsAccumulate`: states the result only when both mutations succeed. `MutateTree` states the failing cases.
- `Paths.CaretLine`, `Paths.Diagnostic`: string lengths are counted in characters (Unicode scalar values), not in Java's UTF-16 code units, so a path segment or context holding a character outside the Basic Multilingual Plane gets fewer spaces or carets than Java prints.
