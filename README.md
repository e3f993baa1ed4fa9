# simply-immutable, modelled in Dafny

simply-immutable is a small TypeScript library for updating trees of plain JavaScript
objects and arrays without mutating them. Every update function takes a root and a path
and returns a new root. The new root shares every subtree the update did not touch, and
it is the *same* root when nothing changed. With freezing enabled, each container the
library creates is `Object.freeze`d.

The path is an array of keys and indices, or an accessor function such as
`(o, id) => o.items[id].name`. The library parses the accessor's source text, memoises the
parsed path, and substitutes the extra arguments for the accessor's parameters.

The library's core parts are:

- **the walker** (`modifyImmutableInternal`). It goes down the path and creates an empty
  object or array where one is missing. It computes the new leaf with an update function.
  It then goes back up and copies (and freezes) each parent whose child changed. Writing
  the `REMOVE` symbol deletes a key or splices out an index. A removal through a path that
  does not exist returns the root untouched.
- **the comparators** (`cmpAndSetOrMerge` and its four wrappers). Replace, shallow merge,
  deep merge and apply-diff differ in whether they keep the existing keys and indices of
  the destination at the top level and below it.
- **the leaf operations**: increment, array concat/push/unshift, slice/pop/shift and
  splice.
- **the differ** (`diffImmutable`). It builds a patch holding only the changed keys and
  indices, with `REMOVE` for those that are gone. Applying the patch to the old tree gives
  the new one.
- **the collection helpers** `filterImmutable`, `mapImmutable` and `deepFreeze`, the
  cloning functions, and the type and frozen-ness helpers.

The model has these parts:

- **Values.** A JavaScript value is `Values.Value`. Arrays and objects carry their frozen
  flag. `Hole` is an empty slot of a sparse array, and `Remove` is the `REMOVE` symbol.
- **Reference identity.** The source compares references with `===`. The model uses value
  equality for this.
- **Deep equality.** This is `Values.DeepEqual`, which ignores the frozen flags.
- **The freeze switch.** The library's global switch (`freezeImmutableStructures`) is the
  `fz` parameter.
- **The parse cache.** The memo table of parsed accessors is the `cache` field of the class
  `FunctionParse.FunctionParser`.
- **Loops.** Each operation that loops in the source is a method with that loop. Each such
  method is proved equal to a function. The properties are lemmas about those functions.

## Model

| member | source | states |
|---|---|---|
| Helpers.GetType | lib/Helpers.ts:1-12 | "array" exactly for arrays, "null" exactly for null, "object" exactly for plain objects; otherwise `typeof` ("undefined" also for an empty slot, "symbol" for `REMOVE`) |
| Helpers.IsDeepFrozen | lib/Helpers.ts:14-46 | true exactly when every array and object in the tree is frozen; a primitive counts as frozen |
| Helpers.ShallowCloneObject | lib/Helpers.ts:48-54 | the copy has the same keys with the same values |
| Helpers.ShallowCloneArray | lib/Helpers.ts:56-62 | the copy has the requested length; slot i holds what reading index i of the source gives, so there are no empty slots and `undefined` lies past the source's end |
| Helpers.AssignAt | lib/Core.ts:217 | `a[i] = x`: slot i holds x, other slots are unchanged, and writing past the end grows the array with empty slots |
| Cloning.CloneImmutable | lib/Core.ts:230-246 | the recursive copy equals the specification `Clone` |
| Cloning.CloneDeepEqual | lib/Core.ts:230-246 | a clone is deeply equal to its original (both ways) and has the same type |
| Cloning.CloneFrozen | lib/Core.ts:230-246 | with freezing on, every container of the clone is frozen; with it off, none is; the clone has no empty slots |
| Cloning.CloneIdempotent | lib/Core.ts:230-246 | cloning a clone gives the same tree |
| Cloning.ClonePrimitive | lib/Core.ts:244-245 | a primitive is returned as it is |
| Cloning.CloneMutable | lib/Core.ts:248-264 | the copy is deeply equal to the root and contains no frozen container |
| Cloning.ShallowCloneMutable | lib/Core.ts:266-274 | an array becomes a dense unfrozen copy, an object an unfrozen copy with the same fields, and a primitive is returned as it is; the result is deeply equal to the root |
| MergeImpl.CmpAndSetOrMerge | lib/Core.ts:19-102 | the comparator's result equals the specification `Merge` for every flag combination |
| MergeImpl.CmpAndMergeArrays | lib/Core.ts:38-66 | the downward pass over indices (sparse skip, splice on `REMOVE`, copy on first change) computes `MergeArrays` |
| MergeImpl.CmpAndMergeObjects | lib/Core.ts:68-98 | the key pass and the deletion pass compute `MergeObjects` |
| MergeImpl.WriteSourceKeys | lib/Core.ts:70-82 | a copy is made exactly when some source key yields a changed child; the copy is the destination with those children written or, for `REMOVE`, deleted |
| MergeImpl.DeleteAbsentKeys | lib/Core.ts:83-93 | without object merging, the keys missing from the source are deleted; a copy exists exactly when a write or a deletion happened |
| MergeImpl.PassDone | lib/Core.ts:44-61 | after the index pass a copy exists exactly when the entries differ from the destination; the copy holds the kept entries with `REMOVE` spliced out |
| MergeProps.MergeResultType | lib/Core.ts:19-102 | the result has the source's type; it is `REMOVE` or `undefined` exactly when the source is; it is a container exactly when the source is |
| MergeProps.MergeMismatch | lib/Core.ts:28-36 | when the types differ, a container source is cloned and a primitive returned; either way the result is deeply equal to the source |
| MergeProps.MergeDeepEqualKeepsDst | lib/Core.ts:24-26 | a source deeply equal to the destination leaves the destination itself, so no copy is made |
| MergeProps.MergeArraysShape | lib/Core.ts:38-61 | an index below the desired length is spliced out exactly when the source holds `REMOVE` there (not skipped, and the destination does not hold `REMOVE` too); the merged array lists, in order, the entries of the surviving indices: the destination's element where array merging skips an empty source slot, otherwise the nested merge of both elements |
| MergeProps.MergeArraysNoRemove | lib/Core.ts:38-61 | with no `REMOVE` in the source, the merged array has exactly the desired length and each index holds its entry in place |
| MergeProps.MergeObjectsFields | lib/Core.ts:68-98 | each source key holds the nested merge (or is deleted for `REMOVE`); with object merging the other keys of the destination are kept, without it they are dropped |
| MergeProps.MergeObjectsKeys | lib/Core.ts:68-98 | for a JSON source the keys are the source's, plus the destination's when objects are merged |
| MergeProps.ReplaceYieldsSource | lib/Core.ts:104-106 | `cmpAndSet` with a JSON source gives a tree deeply equal to the source, whatever the destination |
| MergeProps.RemoveNeverStored | lib/Core.ts:38-98 | when the destination holds no `REMOVE` at its top level and the source is of the same kind (or holds no `REMOVE` at its top level either), neither does the result: a `REMOVE` child is spliced out or deleted, never stored |
| MergeProps.MismatchKeepsRemove | lib/Core.ts:30-33 | a container source of another kind is cloned with its `REMOVE` children: applying `{a: REMOVE}` to a number gives `{a: REMOVE}` |
| MergeProps.MergeKeepsDeepFrozen | lib/Core.ts:62-64 | with freezing on, merging into a deeply frozen tree gives a deeply frozen tree |
| MergeProps.MergeReplacesNestedObjects | lib/Core.ts:108-110 | `cmpAndMerge` merges only the top level: a nested object is replaced, so a key the source's nested object lacks is gone |
| MergeProps.DeepMergeKeepsNestedKeys | lib/Core.ts:112-114 | `cmpAndDeepMerge` keeps a nested key the source lacks, with its old value |
| MergeProps.DeepMergeReplacesNestedArrays | lib/Core.ts:112-114 | `cmpAndDeepMerge` replaces nested arrays: a nested array whose source holds no `REMOVE` gets the source's length |
| LeafOps.IncrementCompose | lib/Core.ts:120-125 | two increments equal one increment by the sum; a non-number counts as 0 |
| LeafOps.JoinAppends | lib/Core.ts:127-134 | concat keeps the old elements in front and appends clones of the new ones |
| LeafOps.JoinPrepends | lib/Core.ts:127-134 | unshift puts clones of the new elements in front of the old ones |
| LeafOps.JoinCreates | lib/Core.ts:128-131 | on a non-array the result is a clone of the values, deeply equal to them and frozen when freezing is on |
| LeafOps.PopShiftShape | lib/Core.ts:136-139 | slice(0, -1) drops the last element and slice(1) the first; both give `[]` on an empty array |
| LeafOps.PushThenPop | lib/Core.ts:127-139 | pushing one element and then popping gives the original elements back |
| LeafOps.UnshiftThenShift | lib/Core.ts:127-139 | unshifting one element and then shifting gives the original elements back |
| LeafOps.SpliceShape | lib/Core.ts:141-148 | for an in-range window, the result is the prefix, then the cloned values, then the suffix after the deleted ones |
| LeafOps.SpliceNothing | lib/Core.ts:141-148 | deleting nothing and inserting nothing keeps the elements |
| LeafOps.SpliceNegativeIndex | lib/Core.ts:146 | with a negative index, `slice(index + deleteCount)` counts from the end, so the splice can duplicate elements |
| JsBuiltins.Slice | lib/Core.ts:137 | `Array.prototype.slice` with relative indices; the result is never longer than the input and equals the plain subsequence for in-range bounds |
| JsBuiltins.RelativeIndex | lib/Core.ts:146 | a negative index counts from the end; an index past the length gives the length, and one before the start gives 0 |
| JsBuiltins.IndexOf | lib/FunctionParse.ts:11 | the first occurrence of the pattern, or -1 when there is none |
| JsBuiltins.SplitJoin | lib/FunctionParse.ts:25 | joining the pieces of `split(sep)` with sep gives the string back |
| JsBuiltins.Trim | lib/FunctionParse.ts:25 | the trimmed string is the piece of the input that starts at its first non-space character and is followed only by white space; it neither starts nor ends with white space |
| JsBuiltins.IntToStringRoundTrip | lib/FunctionParse.ts:60-61 | `parseInt` of an integer's decimal text gives the integer, so that text is canonical |
| Modifying.ModifyImmutableInternal | lib/Core.ts:152-228 | the two-pass walk over the `parents` array computes the specification `Modify` |
| Modifying.WalkDown | lib/Core.ts:164-190 | the walk stops early exactly for a removal through a missing container; otherwise the leaf is the value at the path, and each parent is the node there or the container created for it |
| Modifying.StepParent | lib/Core.ts:167-188 | an empty array is created for an index on a non-array and an empty object for a key on a primitive; a removal reports that the step is missing instead |
| Modifying.UpdateLeaf | lib/Core.ts:192-196 | a setter is applied to the old leaf; `REMOVE` is kept; anything else goes through the update function |
| Modifying.ApplyUpdate | lib/Core.ts:196 | dispatches to the comparator or leaf operation with its parameter |
| Modifying.WriteChild | lib/Core.ts:204-224 | one parent's copy, with the index spliced out or the key deleted for `REMOVE` and the child stored otherwise, frozen when freezing is on |
| Modifying.WalkUp | lib/Core.ts:198-225 | the upward pass from the deepest parent rebuilds exactly `Rebuild(root, path)` |
| ModifyProps.ModifyThenGet | lib/Core.ts:152-228 | after an update that does not remove the leaf, reading the path gives the new leaf |
| ModifyProps.UnchangedLeafKeepsRoot | lib/Core.ts:204 | when every container exists and the new leaf equals the old one, the same root comes back |
| ModifyProps.ReadRebuild | lib/Core.ts:204-224 | one step into a rebuilt node reads the child rebuilt along the rest of the path |
| ModifyProps.ModifyAtDepth | lib/Core.ts:199-225 | the node at any depth of the result is the original node there rebuilt along the rest of the path (or the original node, for a removal through a missing container), so each level behaves as the root does |
| ModifyProps.StepAtDepth | lib/Core.ts:199-225 | at any depth, the node of the result is the original (or created) container when its rebuilt child is unchanged, and otherwise its copy with the child written |
| ModifyProps.ObjectSiblingsKept | lib/Core.ts:207-218 | in an object met on the path at any depth, every key other than the step's keeps its presence and value |
| ModifyProps.ArrayPrefixKept | lib/Core.ts:205-217 | in an array met on the path at any depth, the indices before the step's are unchanged |
| ModifyProps.ArrayOthersKept | lib/Core.ts:205-217 | in an array met on the path at any depth, when the child is not removed, every other index is unchanged, and a changed array grows to cover the written index |
| ModifyProps.ArrayRemoveShifts | lib/Core.ts:210-212 | in an array met on the path at any depth, removing an element shortens the array by one and shifts the elements after it down |
| ModifyProps.WriteKeepsPrefix | lib/Core.ts:205-217 | writing or splicing at an index of an array copy leaves the elements before it |
| ModifyProps.WriteKeepsOthers | lib/Core.ts:216-217 | storing a child at an index keeps every other index and makes the array long enough to hold it |
| ModifyProps.WriteRemoveShifts | lib/Core.ts:210-212 | splicing out an index shortens the copy by one and moves the later elements down |
| ModifyProps.IndexReplacesNonArray | lib/Core.ts:170-177 | an index step into a non-array installs an array, so the result is an array |
| ModifyProps.RemoveMissingIntermediate | lib/Core.ts:170-183 | deleting below a key that is absent returns the root untouched |
| ModifyProps.RemoveMissingFinalKey | lib/Core.ts:204-223 | deleting an absent final key still returns a fresh copy with the same fields, frozen when freezing is on |
| ModifyProps.ModifyKeepsDeepFrozen | lib/Core.ts:221-223 | with freezing on, updating a deeply frozen tree along a path whose containers all exist gives a deeply frozen tree |
| ModifyProps.CreatedContainerLeftUnfrozen | lib/Core.ts:184-224 | a container created on the way down is not frozen when its child ends up unchanged, so a frozen root can gain an unfrozen child |
| Paths.StepOf | lib/Utils.ts:29-34 | a name becomes a key; a parameter reference becomes its value, or the key "undefined" past the values given; a non-negative index becomes an index; other numbers have no step |
| Paths.Substitute | lib/Utils.ts:29-34 | the steps correspond one to one with the segments, and substitution fails exactly when some segment has no step |
| Paths.NormalPath | lib/Utils.ts:26-37 | an array path is used as it is; an accessor's parse error is passed on; otherwise the parsed path is substituted |
| Paths.NormalizePath | lib/Utils.ts:26-37 | returns `NormalPath` and leaves the parser's cache as memoising that accessor alone would |
| Utils.UpdateAt | lib/Utils.ts:47-51 | an entry point fails exactly when its path fails to normalise |
| Utils.ModifyAt | lib/Utils.ts:47-51 | normalises the path (updating the cache) and walks it with the given update function |
| Utils.ReplaceImmutable | lib/Utils.ts:47-51 | the walk with `cmpAndSet`; without a path the root itself is replaced |
| Utils.UpdateImmutable | lib/Utils.ts:59-63 | the walk with `cmpAndMerge` |
| Utils.DeepUpdateImmutable | lib/Utils.ts:71-75 | the walk with `cmpAndDeepMerge` |
| Utils.ApplyDiffImmutable | lib/Utils.ts:83-87 | the walk with `cmpAndApplyDiff` |
| Utils.DeleteImmutable | lib/Utils.ts:94-96 | the walk writing `REMOVE` with `cmpAndSet` |
| Utils.IncrementImmutable | lib/Utils.ts:98-100 | the walk with the increment operation |
| Utils.ArrayConcatImmutable | lib/Utils.ts:102-104 | the walk appending the values |
| Utils.ArrayPushImmutable | lib/Utils.ts:106-108 | the walk appending the arguments |
| Utils.ArrayPopImmutable | lib/Utils.ts:110-112 | the walk with slice(0, -1) |
| Utils.ArrayShiftImmutable | lib/Utils.ts:114-116 | the walk with slice(1) |
| Utils.ArrayUnshiftImmutable | lib/Utils.ts:118-120 | the walk prepending the arguments |
| Utils.ArraySliceImmutable | lib/Utils.ts:122-124 | the walk with slice(start, end) |
| Utils.ArraySpliceImmutable | lib/Utils.ts:126-128 | the walk with splice(index, deleteCount, values) |
| UtilsProps.NormalizeAccessor | lib/Utils.ts:26-37 | an accessor whose body reads a rendered path from its first parameter normalises to that path with the arguments substituted |
| UtilsProps.NormalizeParamAccessor | lib/Utils.ts:29-34 | `(o, s) => o.a[s].c` with argument x gives the path a, x, c, and a, "undefined", c without an argument |
| UtilsProps.OneArgumentForm | lib/Utils.ts:47-51 | with no path, the comparator entry points apply the comparator to the root itself |
| UtilsProps.ReplaceThenGet | lib/Utils.ts:47-51 | after replacing at an array path, the path reads a tree deeply equal to the JSON value |
| UtilsProps.ApplyDiffRoundTrip | lib/Utils.ts:83-87 | applying `diffImmutable(b, a)` to a gives a tree deeply equal to b, for JSON trees |
| UtilsProps.DeleteKey | lib/Utils.ts:94-96 | deleting a present top-level key gives a copy without that key |
| UtilsProps.DeleteBelowMissingKey | lib/Utils.ts:94-96 | deleting below an absent key returns the root itself |
| UtilsProps.IncrementAdds | lib/Utils.ts:98-100 | the path then holds the old number plus the amount, counting a non-number as 0 |
| UtilsProps.PushAppends | lib/Utils.ts:106-108 | the array at the path keeps its elements and gains clones of the values at its end |
| UtilsProps.UnshiftPrepends | lib/Utils.ts:118-120 | the array at the path gains clones of the values in front of its old elements |
| UtilsProps.PopAndShiftDrop | lib/Utils.ts:110-116 | pop drops the last element and shift the first of the array at the path |
| UtilsProps.SpliceReplacesRange | lib/Utils.ts:126-128 | the deleted window of the array at the path is replaced by clones of the values |
| Utils.FilterImmutable | lib/Utils.ts:132-159 | the loop computes the specification `Filter` |
| Utils.FilterElems | lib/Utils.ts:136-144 | keeps exactly the passing elements in order; reports a change exactly when some element fails |
| Utils.FilterFields | lib/Utils.ts:145-154 | keeps exactly the passing fields; reports a change exactly when some field fails |
| Utils.PassingFields | lib/Utils.ts:145-154 | a key is kept exactly when its value passes, and it keeps that value |
| UtilsProps.PassingShorter | lib/Utils.ts:136-144 | when some element fails, the result is strictly shorter |
| UtilsProps.PassingAll | lib/Utils.ts:136-144 | when every element passes, all of them are kept in place |
| UtilsProps.PassingMembers | lib/Utils.ts:136-144 | a value is kept exactly when it passes and occurs in the input |
| UtilsProps.PassingConcat | lib/Utils.ts:136-144 | filtering distributes over concatenation, so order is kept |
| UtilsProps.PassingPasses | lib/Utils.ts:136-144 | every kept element passes |
| UtilsProps.FilterKeepsInput | lib/Utils.ts:155-157 | the input itself comes back exactly when every entry passes |
| UtilsProps.FilterIdempotent | lib/Utils.ts:132-159 | filtering twice gives what filtering once gives |
| Utils.Mapped | lib/Utils.ts:164-175 | the callback's results, with the same indices or keys as the input |
| Utils.MapImmutable | lib/Utils.ts:163-177 | the loop and the final replace compute the specification `MapResult` |
| Utils.MapElems | lib/Utils.ts:165-169 | the callback applied at each index |
| Utils.MapFields | lib/Utils.ts:170-175 | the callback applied at each key |
| UtilsProps.MapIsReplace | lib/Utils.ts:176 | mapping is `replaceImmutable` of the input by the mapped container |
| UtilsProps.MapIdentity | lib/Utils.ts:176 | a callback that returns every entry unchanged gives the input itself |
| UtilsProps.MapKeepsElement | lib/Utils.ts:176 | an element the callback returns unchanged stays at its index, and the length is kept |
| UtilsProps.MapKeepsField | lib/Utils.ts:176 | a field the callback returns unchanged keeps its value |
| UtilsProps.MapYieldsMapped | lib/Utils.ts:176 | for a JSON mapped container, the result is deeply equal to it |
| Utils.Freeze | lib/Utils.ts:179-193 | keeps shape: same length or keys, and a primitive is returned as it is |
| Utils.DeepFreeze | lib/Utils.ts:179-193 | the recursive freeze computes `Freeze` |
| UtilsProps.FreezeDeepFrozen | lib/Utils.ts:179-193 | the frozen tree is deeply frozen |
| UtilsProps.FreezeDeepEqual | lib/Utils.ts:179-193 | freezing changes nothing but the frozen flags |
| UtilsProps.FreezeFixed | lib/Utils.ts:179-193 | freezing leaves a tree unchanged exactly when it is already deeply frozen |
| Diffing.DiffImmutable | lib/Utils.ts:195-201 | returns the specification `Diff`, which is `undefined` for identical trees |
| Diffing.DiffImmutableRecur | lib/Utils.ts:203-249 | the recursive differ computes `DiffRecur` |
| Diffing.DiffObjects | lib/Utils.ts:211-230 | the two key loops compute `DiffFields` |
| Diffing.DiffArrays | lib/Utils.ts:231-245 | the two index loops compute the entries up to the last one written |
| Diffing.DiffFields | lib/Utils.ts:211-230 | a key is in the patch exactly when it is new, its value changed, or it is gone |
| Diffing.DiffEntries | lib/Utils.ts:234-244 | one entry per index up to the longer length |
| DiffProps.DiffThenApply | lib/Utils.ts:195-249 | for distinct JSON trees, merging `Diff(b, a)` into a with apply-diff flags gives a tree deeply equal to b |
| DiffProps.IdenticalGivesUndefined | lib/Utils.ts:196-198 | identical trees give `undefined`, and applying that replaces the tree by `undefined` |
| DiffProps.DiffArrayIndices | lib/Utils.ts:231-245 | an index is set in an array patch exactly when it is new or changed, or lies past the new length; indices past the new length hold `REMOVE`, new indices the new element |
| DiffProps.DiffObjectKeys | lib/Utils.ts:211-230 | a key is in an object patch exactly when it is new, changed or gone, and it holds `REMOVE` exactly when it is gone |
| DiffProps.DiffKeepsDeepFrozen | lib/Utils.ts:230 | with freezing on, the patch of a deeply frozen tree is deeply frozen |
| DiffProps.ObjectPatch | lib/Utils.ts:211-230 | a changed key, a gone key, an unchanged key and a new key give a patch with the new value, `REMOVE` and the new key only |
| DiffProps.ObjectExample | lib/Utils.ts:211-230 | `{a:1, b:2, c:'foo'}` to `{a:2, c:'foo', d:'goo'}` gives `{a:2, b:REMOVE, d:'goo'}` |
| DiffProps.ArrayPatch | lib/Utils.ts:231-245 | one changed element and a dropped last element give empty slots, the new element and `REMOVE` |
| DiffProps.ArrayExample | lib/Utils.ts:231-245 | `[1, 20, 10, 'boo', 'foo']` to `[1, 15, 10, 'boo']` gives `[ , 15, , , REMOVE]` |
| FunctionParse.ParseParams | lib/FunctionParse.ts:8-26 | a successful parse has at least one name |
| FunctionParse.TrimAll | lib/FunctionParse.ts:25 | each name is the trimmed piece at the same position |
| FunctionParse.NextTurn | lib/FunctionParse.ts:52-86 | each successful iteration of the segment loop shortens the remaining text |
| FunctionParse.ParseReturnPath | lib/FunctionParse.ts:28-90 | the loop computes the specification `ReturnPath` |
| FunctionParse.Remember | lib/FunctionParse.ts:95-102 | a successful parse is stored under its source text, and every other entry is unchanged |
| FunctionParse.FunctionParser.constructor | lib/FunctionParse.ts:6 | the cache starts empty |
| FunctionParse.FunctionParser.ParseFunction | lib/FunctionParse.ts:92-106 | the result is the parse of the text; a cached text is answered from the cache unchanged; a new successful parse is added; a failure leaves the cache as it was |
| FunctionParseProps.ParamNamesTrimmed | lib/FunctionParse.ts:25 | every parameter name is trimmed and contains no comma |
| FunctionParseProps.ParamNamesFromText | lib/FunctionParse.ts:8-26 | the names are the trimmed comma-separated pieces of the parameter text |
| FunctionParseProps.ParamsFailure | lib/FunctionParse.ts:10-20 | the parameter parse fails exactly for a `function` or parenthesised text without a `(` followed later by a `)` |
| FunctionParseProps.ReturnTextFailure | lib/FunctionParse.ts:29-38 | the return text is missing exactly when neither `return ` nor `=>` occurs |
| FunctionParseProps.ReturnTextCut | lib/FunctionParse.ts:40-47 | the return text occurs in the source, contains no `;`, and ends at a `;` unless it contains no newline |
| FunctionParseProps.SegmentsWellFormed | lib/FunctionParse.ts:51-87 | every name segment is trimmed and has no `.` or `[`, and every parameter reference is in range |
| FunctionParseProps.RenderThenParse | lib/FunctionParse.ts:51-87 | parsing the text of any path written with `.name` and `[…]` gives that path back |
| FunctionParseProps.AccessorReadsBack | lib/FunctionParse.ts:51-87 | a root name followed by a rendered path parses to the trimmed root then the path |
| FunctionParseProps.BracketReadsBack | lib/FunctionParse.ts:53-65 | a bracket holding a parameter name, a canonical integer or `NaN` reads back its segment |
| FunctionParseProps.ParseFunctionReadsPath | lib/FunctionParse.ts:92-106 | an accessor returning a rendered path from its first parameter parses to that path |
| FunctionParseProps.ParseFunctionFold | lib/FunctionParse.ts:96-101 | a return path that starts at the first parameter yields the rest of the path |
| FunctionParseProps.ParseFunctionUnfold | lib/FunctionParse.ts:96-101 | every successful parse comes from such a return path (the converse of the fold) |
| FunctionParseProps.ParseFunctionParamsInRange | lib/FunctionParse.ts:56-58 | every parameter reference of a parsed accessor indexes an extra parameter |
| FunctionParseExamples.ArrowParams | lib/FunctionParse.ts:21-23 | `o => o.a.b.c` has the single parameter `o` |
| FunctionParseExamples.ParenParams | lib/FunctionParse.ts:10-20 | `(o, s) => o.a.b.c` has the parameters `o` and `s` |
| FunctionParseExamples.FunctionParams | lib/FunctionParse.ts:10-20 | `function(o, $a) { return o.a.b.c; }` has the parameters `o` and `$a` |
| FunctionParseExamples.ArrowPath | lib/FunctionParse.ts:28-90 | `o => o.a.b.c` returns the path o, a, b, c |
| FunctionParseExamples.ParamAccessor | lib/FunctionParse.ts:92-106 | `(o, s) => o.a[s].c` parses to a, the first extra parameter, c |

## Left out

- The global freeze switch `freezeImmutableStructures` is the explicit parameter `fz` of every operation; the mutable global is not modelled.
- `_immutableRoot` is unused by the walker and is not modelled. `ModifyContext` and `modifyMultiImmutable` (lib/ModifyContext.ts) are not part of this model.
- Numbers are unbounded integers: floating point, `NaN` values in trees, `Infinity` and integers beyond 2^53 are not modelled.
- Object key order is not modelled: objects are maps, so `for…in` order cannot be observed.
- `in` and `hasOwnProperty` look only at own properties; prototype chains are not modelled.
- `===` on containers is modelled as equality of values: two distinct but equal objects count as the same reference.
- An accessor is given by its source text (`func.toString()`), and the `__cachedParsed` property stored on the function object is not modelled; the memo table keyed by the text is.
- The segment loop of `parseReturnPath` never ends on an unclosed `[` (`indexOf(']')` is -1, so the text does not shrink); the model reports that input as `Err(Diverges)` instead of looping.
- Paths.StepOf: parameter values are path steps (keys and indices) only; a negative or `NaN` parsed index has no step and is reported as `Unsupported`.
- Modifying.Write: a string key applied to an array (which would set a named property on the copy) is not modelled; the properties about the walker exclude it with `NoKeyOnArray`.
- Utils.DeepFreeze: returns a frozen value instead of freezing the tree in place, so aliasing between the input and the output is not modelled.
- Utils.FilterImmutable: the filter and map callbacks are total functions of the value (and index or key) without side effects; a callback that throws is not modelled.
- RemoveNeverStored: a container source of a different kind from the destination is copied by `cloneImmutable` with its `REMOVE` children in place (MergeProps.MismatchKeepsRemove), so the property is stated only for a source of the destination's kind or one without a `REMOVE` at its top level.
- DiffProps.DiffThenApply: the round trip is stated for JSON trees (no `undefined`, `REMOVE` or empty slots) that differ. A key holding `undefined` breaks it in the source, because merging compares with the `undefined` read of the missing key.
- ModifyProps.ModifyKeepsDeepFrozen: stated only for paths whose containers all exist, because a container created on the way down whose child ends up unchanged is never frozen (see ModifyProps.CreatedContainerLeftUnfrozen).
- Helpers.IsDeepFrozen: `isFrozen` detects freezing by writing a probe property inside `try`/`catch`; the model reads the frozen flag (a primitive counts as frozen).
- Exceptions thrown by the parser are `Err(Throws(message))` values carrying the same message text.
