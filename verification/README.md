# ngx-formly core, modelled in Dafny

This project models the three pieces of ngx-formly that connect a field tree
to Angular forms and keep the form's model in step:

- **`FormlyField`**, the per-field component. It forwards Angular lifecycle callbacks to the field's `hooks`. It re-renders when its `field` input changes, and each render resets `_componentRefs` first. It keeps at most one subscription to the field's control. Each value from that subscription goes through the field's `parsers` and is written into the model: deleted when it auto-clears, assigned at the key path otherwise. Then a `{value, field, type: 'valueChanges'}` item is put on `options.fieldChanges`.
- **`FormlyForm`**, the form component.
  - Its `model`, `fields` and `options` inputs are shallow-merged into a root field, cloned first under `extras.immutable`.
  - It rebuilds the tree when `fields`, `form` or `model` change.
  - It re-checks expressions on `ngDoCheck` under `checkExpressionOn: 'changeDetectionCheck'`.
  - It repeats each `valueChanges` item's model write.
  - It emits a clone of the model once the form settles. While it does so, a `useDebounce` flag holds back new items by 100 ms.
- **`FieldFormExtension`**, the form-control extension.
  - `onPopulate` finds or creates each keyed field's control: a `FormGroup` for a field with a `fieldGroup`, else a `FormControl` holding the field's model value. It then registers the field on the control.
  - Keyless groups use their parent's control.
  - `postPopulate` of the field the walk started from (`root`) runs `setValidators` over the whole tree. That call disables the controls of disabled fields. On any control whose sync or async validator is `null`, it installs aggregate validators that run the validators of the fields sharing the control: all of them when there is one, only the visible ones otherwise.

JavaScript values are the datatype `Values.Value`. Objects and arrays are both property maps; an array is keyed by decimal strings. Field, control, subscription and object identities are natural numbers. Parsers and validators are identifiers, interpreted by functions the caller passes in.

Modules:

| file | module | models |
|---|---|---|
| `wrappers.dfy` | `Wrappers` | `Option` |
| `values.dfy` | `Values` | values and the key-path utilities (`getKeyPath`, `assignModelValue`, the auto-clear delete walk, `getFieldValue`) |
| `fields.dfy` | `Fields` | the field descriptor |
| `controls.dfy` | `Controls` | controls, and the `findControl` / `registerControl` utilities |
| `model_writer.dfy` | `ModelWriter` | parsing, the model write and the emitted item, shared by both components |
| `field_component.dfy` | `FieldComponent` | `FormlyField` |
| `form_component.dfy` | `FormComponent` | `FormlyForm` |
| `field_form.dfy` | `FieldForm` | `FieldFormExtension` and the builder's populate walk |
| `scenarios.dfy` | `Scenarios` | concrete cases from `formly.field.spec.ts` |

`getKeyPath`, `assignModelValue`, `findControl` and `registerControl` live in the library's utils; the model defines them as follows. `getKeyPath`:
- replace every `[word]` with `.word`;
- split on `.`.

`assignModelValue` creates missing or non-object steps: `[]` when the next segment is all digits, `{}` otherwise. `findControl` looks first for the field's own control, then for the control its parent's group holds under the field's key. `registerControl` binds the field, adds it once to the control's `_fields` and attaches the control to the parent's group.

## Model

| member | source | states |
|---|---|---|
| ModelWriter.ApplyParsersAppend | src/core/src/lib/components/formly.field.ts:140-142 | parsers apply left to right: running a list is running its prefix, then its suffix on the prefix's output |
| ModelWriter.ApplyParsersLast | src/core/src/lib/components/formly.field.ts:141 | the last parser receives the output of all the earlier ones |
| ModelWriter.FieldValue | src/core/src/lib/components/formly.field.ts:125 | `getFieldValue` is the value at the field's full key path from the form's model, or `undefined` when the path does not exist |
| ModelWriter.WriteModel | src/core/src/lib/components/formly.field.ts:144-155 | after the write, the field's key path reads nothing when the value is nullish on an `autoClear` field whose control has no parent, and reads the value otherwise; the parent model stays reachable |
| ModelWriter.WriteModelAtFullPath | src/core/src/lib/components/formly.field.ts:149-154 | writing through `field.parent.model` is a delete or an assignment at the full path from the form's root model |
| ModelWriter.WriteModelIdempotent | src/core/src/lib/components/formly.form.ts:76-89 | writing the same value twice leaves the model as one write does, so the form's repeat of the field's write is harmless |
| ModelWriter.WriteModelOverwrites | src/core/src/lib/components/formly.field.ts:154 | a later assigned value replaces an earlier one at the same key |
| ModelWriter.WriteModelLeavesOthers | src/core/src/lib/components/formly.field.ts:144-155 | no path that leaves the field's key path at some segment changes |
| ModelWriter.AutoClearCreatesNothing | src/core/src/lib/components/formly.field.ts:149-152 | the auto-clear walk, which steps into an empty object where a step is missing, never makes a path readable that was not readable before |
| ModelWriter.HandleValue | src/core/src/lib/components/formly.field.ts:140-157 | one value: the item carries the parsed value, the field and type `valueChanges`, and the model already holds what the item says (or nothing, when it auto-cleared) |
| ModelWriter.HandleAll | src/core/src/lib/components/formly.field.ts:134-158 | one item per delivered value, in order, each carrying that value parsed |
| ModelWriter.HandleAllLast | src/core/src/lib/components/formly.field.ts:134-158 | after a run of values the field's key path holds the last parsed value, or nothing when that value auto-cleared |
| Values.GetAfterAssign | src/core/src/lib/components/formly.field.ts:154 | after `assignModelValue` the path reads the assigned value |
| Values.AssignContainerKinds | src/core/src/lib/components/formly.field.ts:154 | each container `assignModelValue` creates is an array when the next segment is all digits and an object otherwise |
| Values.DeleteIdempotent | src/core/src/lib/components/formly.field.ts:152 | deleting the same key twice is deleting it once |
| Values.BracketKeyAssign | src/core/src/lib/components/formly.field.spec.ts:210-219 | the key `o[0].0.name` assigns into `{o: [[{name: '***'}]]}` |
| Controls.Disable | src/core/src/lib/extensions/field-form/field-form.ts:58 | `disable({onlySelf: true})` on a control disables it and every control below it, leaves everything else and every other attribute as it was |
| Controls.ClosureLeast | src/core/src/lib/extensions/field-form/field-form.ts:58 | the controls below a control are the least set containing it and closed under the group's children |
| Controls.RegisterControl | src/core/src/lib/extensions/field-form/field-form.ts:46 | the field is bound to the control, listed once in its `_fields`, and the control hangs under the field's key in the parent's group |
| FieldComponent.TriggerHook | src/core/src/lib/components/formly.field.ts:98-112 | the hook is called, with the field, exactly when it is declared and either there are no changes or `field` changed; a render happens exactly on an `onChanges` with a `field` change; the subscription changes only on `onInit` or a non-first `field` change |
| FieldComponent.NgOnInit | src/core/src/lib/components/formly.field.ts:54-56 | `onInit` calls the hook if declared and leaves a live subscription exactly for a keyed field without a group, releasing any earlier one |
| FieldComponent.NgOnChanges | src/core/src/lib/components/formly.field.ts:58-60 | changes without `field` do nothing; a `field` change takes the new field, renders it and calls its hook; only a non-first change resubscribes |
| FieldComponent.NgOnDestroy | src/core/src/lib/components/formly.field.ts:62-66 | destroy clears `_componentRefs` first, then releases the live subscription (and releases nothing when there is none), and calls the `onDestroy` hook exactly when the field declares it, as the last effect |
| FieldComponent.Resubscribe | src/core/src/lib/components/formly.field.ts:119-163 | the previous subscription is released first; a new one is made exactly for a keyed field without a `fieldGroup` |
| FieldComponent.RefsNeverAccumulate | src/core/src/lib/components/formly.field.ts:68-72 | over any sequence of callbacks the component holds only the refs of the last render, or none after a destroy |
| FieldComponent.AtMostOneSubscription | src/core/src/lib/components/formly.field.ts:110 | over any sequence of callbacks the subscriptions opened and not released are exactly the live one, so at most one |
| FieldComponent.PlanFor | src/core/src/lib/components/formly.field.ts:123-132 | debounce applies exactly when `updateOn` is absent or `change` and `debounce.default > 0`; then neither duplicate suppression nor the initial value applies; otherwise the control's value is emitted first exactly when it differs from the model's |
| FieldComponent.Distinct | src/core/src/lib/components/formly.field.ts:123 | `distinctUntilChanged` output has no equal neighbours, keeps the first and last values, and adds nothing |
| FieldComponent.DistinctAppend | src/core/src/lib/components/formly.field.ts:123 | `distinctUntilChanged` as a stream: one more value is passed on exactly when it differs from the last value seen, so the output is fixed by the input one value at a time |
| FieldComponent.LastOfEach | src/core/src/lib/components/formly.field.spec.ts:171-189 | the debounced delivery is the last value of each non-empty burst, in order, one per burst |
| FieldComponent.DistinctKeepsDistinct | src/core/src/lib/components/formly.field.ts:123 | a stream with no equal neighbours passes unchanged |
| FieldComponent.BlurIgnoresDebounce | src/core/src/lib/components/formly.field.spec.ts:191-208 | with `updateOn` `blur` or `submit` every distinct change is delivered as it happens, debounce or not |
| FieldComponent.DebounceDeliversLast | src/core/src/lib/components/formly.field.spec.ts:171-189 | with a debounce time, a burst of changes delivers only its last value |
| FieldComponent.Pipeline | src/core/src/lib/components/formly.field.ts:119-158 | the subscription emits one `valueChanges` item per delivered value, in order, carrying the parsed value |
| FormComponent.NgOnChanges | src/core/src/lib/components/formly.form.ts:53-58 | the tree is rebuilt exactly when `fields`, `form` or `model` changed; then the old subscription is released, a fresh one starts with `useDebounce` off, and the options in place carry `_checkField`; otherwise nothing happens |
| FormComponent.EquipOptions | src/core/src/lib/components/formly.form.ts:55 | after a build the root field has an options object carrying `_checkField`, every earlier property kept |
| FormComponent.NgDoCheck | src/core/src/lib/components/formly.form.ts:47-51 | `_checkField` runs exactly under `changeDetectionCheck` when the options object in place carries it |
| FormComponent.NgOnDestroy | src/core/src/lib/components/formly.form.ts:60-62 | the channel subscription is released |
| FormComponent.SetField | src/core/src/lib/components/formly.form.ts:107-112 | the root field keeps every other property; the set one has the given contents, as a fresh copy under `immutable` and as the same object otherwise; without a rebuild, new options can re-check exactly when the object passed in carries `_checkField` |
| FormComponent.SetForm | src/core/src/lib/components/formly.form.ts:19-21 | the form control is stored on the current root field, nothing else changes |
| FormComponent.SetFieldCommutes | src/core/src/lib/components/formly.form.ts:107-112 | without `immutable`, setting two different inputs in either order gives the same root field properties |
| FormComponent.ModelInputSharing | src/core/src/lib/components/formly.form.ts:110 | without `immutable` a later change to the caller's model object is seen by the form; with it, not |
| FormComponent.OnFieldChange | src/core/src/lib/components/formly.form.ts:74-89 | items of other types change nothing; a `valueChanges` item writes into the same model object by the field component's rule |
| FormComponent.FormRepeatsFieldWrite | src/core/src/lib/components/formly.form.ts:76-89 | after the field component's write, the form's write of the same item leaves the model as it was |
| FormComponent.DelayFor | src/core/src/lib/components/formly.form.ts:90 | an item is held back exactly while `useDebounce` is on |
| FormComponent.Settle | src/core/src/lib/components/formly.form.ts:96-102 | the body runs with `useDebounce` on and ends with it off; it re-checks exactly when `_checkField` is available, runs change detection, and emits a copy of the model (`undefined` when none was set) with a new identity; it opens and releases no subscription |
| FormComponent.EmittedModelIsCopy | src/core/src/lib/components/formly.form.ts:100 | overwriting the emitted object leaves the form's model object unchanged |
| FormComponent.AtMostOneSubscription | src/core/src/lib/components/formly.form.ts:53-71 | over any sequence of input changes, input sets, checks, settles and destroys, the channel subscriptions opened and not released are exactly the live one, so at most one |
| FormComponent.NoCheckUntilRebuild | src/core/src/lib/components/formly.form.ts:47-68 | options without `_checkField` stay without it, and no call re-checks expressions, until a change of `fields`, `form` or `model` rebuilds the tree |
| FormComponent.NewOptionsStopChecks | src/core/src/lib/components/formly.form.ts:32 | setting an options object that does not carry `_checkField` stops the re-checks, even in a form that made them, until the next rebuild |
| FieldForm.OnPopulate | src/core/src/lib/extensions/field-form/field-form.ts:11-22 | `root` is set only when empty; a keyed field ends up bound to a control; a keyless group under a parent gets the parent's control (or none); other fields change nothing |
| FieldForm.AddFormControl | src/core/src/lib/extensions/field-form/field-form.ts:34-47 | a found control is reused; otherwise a new enabled control with both validators `null` is made: a group holding `{}` for a field with a `fieldGroup`, else a leaf holding the field's model value, with the field's `updateOn`; no other field's binding changes |
| FieldForm.SameKeyShares | src/core/src/lib/extensions/field-form/field-form.ts:34-47 | two fields with the same key under one bound parent share one control listing both, in order |
| FieldForm.FirstOfKey | src/core/src/lib/extensions/field-form/field-form.ts:34-47 | the first field of a key under a bound parent gets a new control listing only that field, filed under the parent's control by the key, with the parent's binding kept |
| FieldForm.JoinsSibling | src/core/src/lib/extensions/field-form/field-form.ts:34-47 | an unbound field whose key is already filed under its parent's control is bound to that control and appended to its field list |
| FieldForm.SetOwn | src/core/src/lib/extensions/field-form/field-form.ts:51-83 | the flag is set exactly when the control must be disabled or has a `null` validator; afterwards the control is disabled if the field is and both validators are set; disabling a group disables every control below it; controls neither the field's nor below it are untouched |
| FieldForm.StepControl | src/core/src/lib/extensions/field-form/field-form.ts:57-82 | one control: disabled (with everything below it) when the field is disabled and the control enabled, validator slots filled when one is `null`, and the flag says whether either happened |
| FieldForm.DisabledGroupDisablesChildren | src/core/src/lib/extensions/field-form/field-form.ts:57-58 | a disabled field whose group control is enabled leaves every child control of that group disabled |
| FieldForm.SetValidators | src/core/src/lib/extensions/field-form/field-form.ts:49-88 | the result flag is true exactly when some field of the tree needed work in the initial controls; when false, nothing changed; afterwards every keyed field's control is settled; nothing is re-enabled or cleared; controls that are neither a tree field's nor below one are untouched |
| FieldForm.SetAll | src/core/src/lib/extensions/field-form/field-form.ts:85 | every child is visited whatever the flags so far, and the flags are ORed |
| FieldForm.SetValidatorsIdempotent | src/core/src/lib/extensions/field-form/field-form.ts:49-88 | a second `setValidators` over the same tree changes nothing and reports nothing |
| FieldForm.PostPopulate | src/core/src/lib/extensions/field-form/field-form.ts:24-32 | nothing happens unless the field is `root`; otherwise `root` is cleared, validators are set, and validity is updated exactly when the flag is set |
| FieldForm.InstallValidators | src/core/src/lib/extensions/field-form/field-form.ts:29-31 | one `setValidators` over the tree, followed by one `_updateTreeValidity` exactly when it reported work; every field of the tree is settled afterwards |
| FieldForm.Populate | src/core/src/lib/extensions/field-form/field-form.ts:11-32 | a walk started with no `root` runs `setValidators` exactly once, for the starting field, optionally followed by one validity update, settles every keyed field of the tree and leaves no `root`; a walk started inside another walk runs nothing; every keyed field of the tree is bound afterwards |
| FieldForm.PopulateAll | src/core/src/lib/extensions/field-form/field-form.ts:11-22 | the children's walks keep every earlier child bound and touch no binding outside their trees |
| FieldForm.Contributors | src/core/src/lib/extensions/field-form/field-form.ts:65-67 | a lone field always contributes; with several fields, exactly the visible ones do |
| FieldForm.AggregateErrors | src/core/src/lib/extensions/field-form/field-form.ts:64-71 | an error is reported exactly when a validator of a contributing field reports it |
| FieldForm.ErrorsOfMeaning | src/core/src/lib/extensions/field-form/field-form.ts:69 | the composed validators report the union of their members' errors |
| FieldForm.LoneFieldAlwaysValidated | src/core/src/lib/extensions/field-form/field-form.ts:65 | a field alone on its control is validated even while hidden |
| FieldForm.ShowingFieldAddsItsErrors | src/core/src/lib/extensions/field-form/field-form.ts:65-67 | on a shared control, showing a hidden field adds exactly its errors |
| Scenarios.FirstValueWritten | src/core/src/lib/components/formly.field.spec.ts:139-153 | a value typed into field `foo` emits one item and leaves `{foo: 'First value'}` |
| Scenarios.ParsedValueEmitted | src/core/src/lib/components/formly.field.spec.ts:155-169 | with the parser list `[Number]`, typing `'15'` emits the item with value `15` and stores `15` under `foo` |
| Scenarios.BracketKeyWritten | src/core/src/lib/components/formly.field.spec.ts:210-219 | the key `o[0].0.name` writes `{o: [[{name: '***'}]]}` |
| Scenarios.GroupChildWritten | src/core/src/lib/components/formly.field.spec.ts:232-246 | a child `bar` of group `foo` writes `{foo: {bar: 'First value'}}` and the item names the child |
| Scenarios.DuplicateKeyTwoItems | src/core/src/lib/components/formly.field.spec.ts:248-259 | two fields on one key give two items with the same value, and the second write changes nothing |

## Left out

- Rendering is not modelled: wrapper and component creation, `containerRef`, `attachComponentRef`, host bindings and change-detector calls. A render is the list of component references the caller says it mounted.
- Timers are not modelled. `debounceTime`, the form's `debounce`/`timer(100)` and the `switchMap`/`timeout(0)` wait for the form's value are outside the model. Debouncing is the rule that each burst delivers its last value. The form's emit is one `Settle` step, and `useDebounce` is modelled as the delay it imposes.
- The `_onChange.length > 1` `patchValue` workaround (formly.field.ts:136-138) only echoes the value back into the control without events. It is left out.
- `Validators.compose` internals are abstracted, as is `_updateTreeValidity` (an effect only). Errors are modelled as sets of error keys. Error values, and the order in which later validators overwrite earlier keys, are not modelled.
- JavaScript numbers are unbounded integers (`Num(int)`): fractions, `NaN` and infinities are not modelled. So `NaN !== NaN` is lost: the source's `distinctUntilChanged` passes repeated `NaN`s and its `control.value != getFieldValue(field)` is always true for `NaN`, which the model does not reproduce; a fractional `debounce.default` cannot be expressed.
- `field.parent.model` is modelled as a path from the form's root model (`parentModelPath`). A parent model object that is not reachable from the root model, which the source would write into all the same, is not modelled.
- The form builder is not part of this model. Its effect on the form component is modelled only as far as the component reads it: after a build the root field has an options object (an empty one if none was set) and the builder's `_checkField` callback is installed on that object. Which objects carry the callback is tracked by identity for the options only; `clone` copies an object's properties, so a copy of an options object carries the callback exactly when the original does.
- `clone` is modelled as a copy with a fresh identity and equal contents. Reference identity inside values, and `distinctUntilChanged` comparing by reference, are modelled as value equality.
- `LooseEquals` models `!=` between a control value and a model value without JavaScript's string/number/boolean coercion. Only `null == undefined` is modelled.
- `findControl` and `registerControl` are modelled only as far as this extension relies on them. Intermediate groups for dotted keys, the rule that attaches hidden fields, and value patching on registration are left out.
- Keys that are numbers or arrays are left out (the model's key is a string); `getKeyPath`'s `_keyPath` cache is left out too.
- `getFieldValue` on a non-object intermediate value (a string, say) gives `undefined` here; JavaScript would read the property of the primitive.
- The builder's other extensions, and the expression checks that `_checkField` runs, are left out; a check is an effect.
- The field array type is left out.
- `ngOnDestroy`'s guard for a missing `field` is left out, since the model's component always has a field.
- `FieldForm.SetOwn`: a `null` async validator alone also replaces a non-null sync validator, because the condition is `null === c.validator || null === c.asyncValidator` and both slots are then set. The model does the same. It does not model what the replaced foreign validator did.
- The situations where the source would throw are excluded by preconditions rather than modelled as errors. `ModelWriter.WriteModel` requires the field's parent model to be reachable: the source hands `field.parent.model` to `assignModelValue` and to the `delete` walk without checking it, so a missing parent model would throw there. `FieldForm.SetValidators` requires every keyed field of the tree to be bound to a control, which the preceding `onPopulate` walk guarantees (`FieldForm.Populate` proves it).
