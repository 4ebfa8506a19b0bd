# Assistant-model settings form: a model of its state transitions

The assistant-model settings page of the model management screen edits two
things: an ordered list of model rows (`llm_list`), each with a model id, an
agent executor type, a streaming flag, a maximum knowledge length, a
knowledge re-ordering flag and a `default` flag; and one separate row
(`auto_llm`) for the auto-optimization model. The page keeps the whole form
in one state slot and replaces it wholesale on every interaction.

`assis_model.dfy` (module `AssisModel`) models that state and every
transition on it as pure functions `Form -> Form`:

- `Row`, `Form` and `Response` are the row record, the form and what the
  configuration endpoint returns. The row's `default` field is called
  `isDefault`; the other fields are the source's names in camelCase.
- The `(field, value)` pair of `updateField` and `updateAutoLLMField` is a
  `FieldValue`: one constructor per field, carrying a value of that field's
  type. `Lookup(r, f)` reads field `f`; `SetField(r, v)` is the spread
  `{ ...r, [field]: value }`.
- `InitialForm` is `defaultValue`; `Load` is the load step with its
  fallback; `UpdateField`, `UpdateAutoLlmField`, `AddNewRow` and `DeleteRow`
  are the four transitions; `EncodeFlag`/`DecodeFlag` are the `"1"`/`"0"`
  encoding of the boolean selectors of a row.
- `DefaultCount` counts the rows flagged default, and `ExactlyOneDefault` is
  the single-selection invariant the form aims for. The lemmas say which
  transitions establish it, which keep it, and which can break it.

A single-selection form would keep at most one default row, and exactly
one whenever the list is non-empty. The code does not, and the model
proves where it fails:
- `deleteRow` forces the first kept row to be the default even when another
  kept row already is, which leaves two defaults
  (`DeleteRowKeepsUniqueDefaultIff`, `DeleteRowCanLeaveTwoDefaults`).
- `addNewRow` on an empty list gives a row and no default.
- `updateField(i, 'default', true)` with an index outside the list clears
  every row's flag.

The model states these rules as properties of the code as written.

## Model

| member | source | states |
|---|---|---|
| AssisModel.SetField | src/frontend/src/pages/ModelPage/manage/tabs/AssisModel.tsx:118 | the spread reads back the written value in the written field, and every other field reads as before |
| AssisModel.SetFieldIsDetermined | src/frontend/src/pages/ModelPage/manage/tabs/AssisModel.tsx:118 | any row that holds the written value in the written field and agrees with the old row elsewhere is the spread's result, so the spread's contract fixes the whole row |
| AssisModel.RowsAgreeOnFields | src/frontend/src/pages/ModelPage/manage/tabs/AssisModel.tsx:118 | a row is determined by what its six fields read |
| AssisModel.SetFieldToCurrentValue | src/frontend/src/pages/ModelPage/manage/tabs/AssisModel.tsx:118 | writing a field the value it already holds leaves the row unchanged |
| AssisModel.SetFieldLastWriteWins | src/frontend/src/pages/ModelPage/manage/tabs/AssisModel.tsx:118 | two writes of the same field equal the second write alone |
| AssisModel.EncodeFlag | src/frontend/src/pages/ModelPage/manage/tabs/AssisModel.tsx:46-75 | a flag is shown as "1" or "0", and the shown value reads back as the same flag (true as "1", false as "0") |
| AssisModel.FlagRoundTrip | src/frontend/src/pages/ModelPage/manage/tabs/AssisModel.tsx:46-75 | showing a flag and reading the selector back gives the same flag |
| AssisModel.FlagEncodingImage | src/frontend/src/pages/ModelPage/manage/tabs/AssisModel.tsx:46-75 | read-then-show is the identity exactly on "1" and "0"; any other value reads as false |
| AssisModel.InitialForm | src/frontend/src/pages/ModelPage/manage/tabs/AssisModel.tsx:85-105 | the initial form has one row, which is the only default row, and the baseline auto row, which is not a default |
| AssisModel.Load | src/frontend/src/pages/ModelPage/manage/tabs/AssisModel.tsx:108-112 | the loaded list is the response's list verbatim; the auto row is the response's when present and the non-default baseline when absent |
| AssisModel.UpdateField | src/frontend/src/pages/ModelPage/manage/tabs/AssisModel.tsx:115-126 | the list keeps its length and the auto row is untouched |
| AssisModel.UpdateFieldWritesOneField | src/frontend/src/pages/ModelPage/manage/tabs/AssisModel.tsx:116-118 | with a valid index, that row holds the written value in the written field and is unchanged in every other field |
| AssisModel.UpdateFieldSelectsUniqueDefault | src/frontend/src/pages/ModelPage/manage/tabs/AssisModel.tsx:116-121 | setting `default` to true on a valid row leaves exactly one default row, that one, and every other row differs from its old self only in a cleared `default` |
| AssisModel.UpdateFieldKeepsOtherRows | src/frontend/src/pages/ModelPage/manage/tabs/AssisModel.tsx:116-123 | any other edit leaves every other row unchanged, and with an index outside the list leaves the form unchanged |
| AssisModel.UpdateFieldOutOfRangeClearsDefaults | src/frontend/src/pages/ModelPage/manage/tabs/AssisModel.tsx:116-123 | setting `default` to true with an index outside the list clears every row's flag, leaving no default row |
| AssisModel.UpdateFieldKeepsDefaultCount | src/frontend/src/pages/ModelPage/manage/tabs/AssisModel.tsx:116-123 | an edit of a field other than `default` keeps the number of default rows |
| AssisModel.UpdateFieldKeepsAtMostOneDefault | src/frontend/src/pages/ModelPage/manage/tabs/AssisModel.tsx:115-126 | no field edit turns a list with at most one default row into one with more |
| AssisModel.SelectDefaultsLastWins | src/frontend/src/pages/ModelPage/manage/tabs/AssisModel.tsx:115-126 | after any non-empty run of valid default selections exactly one row is the default, the one selected last |
| AssisModel.UpdateAutoLlmField | src/frontend/src/pages/ModelPage/manage/tabs/AssisModel.tsx:128-130 | the auto row holds the written value in the written field, is unchanged in every other field, and the list is untouched |
| AssisModel.AddNewRow | src/frontend/src/pages/ModelPage/manage/tabs/AssisModel.tsx:132-145 | the list grows by one, the old rows are an unchanged prefix, the new last row is the non-default baseline row, and the auto row is untouched |
| AssisModel.AddNewRowKeepsDefaultCount | src/frontend/src/pages/ModelPage/manage/tabs/AssisModel.tsx:132-145 | adding a row keeps the number of default rows |
| AssisModel.AddNewRowOnEmptyListHasNoDefault | src/frontend/src/pages/ModelPage/manage/tabs/AssisModel.tsx:138-143 | adding a row to an empty list gives one row and no default row |
| AssisModel.Without | src/frontend/src/pages/ModelPage/manage/tabs/AssisModel.tsx:148 | filtering out a position shortens the list by one when the position is in the list, and not at all otherwise |
| AssisModel.WithoutIsCut | src/frontend/src/pages/ModelPage/manage/tabs/AssisModel.tsx:148 | filtering out a position inside the list equals the list with that one position cut out, order kept |
| AssisModel.WithoutNoMatch | src/frontend/src/pages/ModelPage/manage/tabs/AssisModel.tsx:148 | filtering out a position outside the list keeps the list as it was |
| AssisModel.ForceFirstDefault | src/frontend/src/pages/ModelPage/manage/tabs/AssisModel.tsx:148-151 | the length is kept, the first row becomes a default row and the later rows are unchanged |
| AssisModel.DeleteRow | src/frontend/src/pages/ModelPage/manage/tabs/AssisModel.tsx:147-153 | the auto row is untouched |
| AssisModel.DeleteRowRemovesOneRow | src/frontend/src/pages/ModelPage/manage/tabs/AssisModel.tsx:147-152 | a valid delete shortens the list by one, keeps the other rows in order, makes the first kept row the default and leaves the later kept rows unchanged |
| AssisModel.DeleteRowOfSingleton | src/frontend/src/pages/ModelPage/manage/tabs/AssisModel.tsx:148-149 | deleting the only row leaves an empty list |
| AssisModel.DeleteRowOutOfRange | src/frontend/src/pages/ModelPage/manage/tabs/AssisModel.tsx:148-149 | an index outside the list removes nothing but still makes the first row the default |
| AssisModel.DeleteRowDefaultCount | src/frontend/src/pages/ModelPage/manage/tabs/AssisModel.tsx:148-151 | a non-empty result has its first row default plus the later kept defaults, and exactly one default iff no later kept row is a default |
| AssisModel.DeleteRowKeepsUniqueDefaultIff | src/frontend/src/pages/ModelPage/manage/tabs/AssisModel.tsx:147-152 | from exactly one default row, a valid delete on two or more rows keeps exactly one iff the old default was deleted or is the first kept row |
| AssisModel.DeleteRowCanLeaveTwoDefaults | src/frontend/src/pages/ModelPage/manage/tabs/AssisModel.tsx:147-152 | a three-row list with one default on its last row has two default rows after its middle row is deleted |
| AssisModel.AddThenSelectMovesDefault | src/frontend/src/pages/ModelPage/manage/tabs/AssisModel.tsx:115-145 | from the initial form, adding a row and selecting it as default leaves row 1 as the only default row |
| AssisModel.DeleteSecondOfTwoKeepsDefault | src/frontend/src/pages/ModelPage/manage/tabs/AssisModel.tsx:147-152 | with two rows and row 0 default, deleting row 1 leaves row 0 alone, still the only default row |

## Left out

- Rendering of the row editor and the page, the selector, radio and input widgets, labels, tooltips and translations: presentation with no state logic. Only the `"1"`/`"0"` flag encoding of the selectors is modelled.
- The fetch and save calls, the error-capturing wrapper, the success toast, the console log and the `onBack` callback: network I/O and collaborators whose code is not part of this model. The load is modelled as a function of the response value, and saving is not modelled, since it only sends the form out.
- A load that fails, or a response without a list: the code leaves the earlier state in place or stores an undefined list, both outside this model. `Response` always carries a list.
- `parseInt` of the number input and its advisory `max` of 15000: the parse and its NaN result are specific to JavaScript, and the bound is never enforced. `knowledgeMaxContent` is an unbounded `int`.
- UpdateField: field names other than the six row fields, and values of the wrong type for a field, are not expressible. The code's computed key would add or overwrite such a property, but its callers only pass the six fields with values of their own types.
- `modelId`: modelled as an optional string, the kind of id the model selector reports; ids of other types in a loaded response are not distinguished.
- The state hook's scheduling and the stale `form` each transition closes over: framework timing, not logic in the component. Each transition is applied to the form it is given.
