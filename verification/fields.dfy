/**
 * The field descriptor: one node of the form's field tree, as far as the
 * field component, the form component and the form-control extension read it.
 */
module Fields {
  import opened Wrappers
  import opened Values

  /** Object identity of a field (JavaScript compares fields by reference). */
  type FieldId = nat

  /** A parser function in `parsers`; `ParserId`s are interpreted by the caller. */
  type ParserId = nat

  /** A validator function in `_validators`/`_asyncValidators`, interpreted by the caller. */
  type ValidatorId = nat

  /** The lifecycle hooks a field may declare in `hooks`. */
  datatype Hook =
    | OnInit
    | OnChanges
    | DoCheck
    | AfterContentInit
    | AfterContentChecked
    | AfterViewInit
    | AfterViewChecked
    | OnDestroy

  /** `modelOptions.updateOn`. */
  datatype UpdateOn = Change | Blur | Submit

  /**
   * `modelOptions`: `updateOn` when set, and `debounce.default` when both the
   * `debounce` object and its `default` are set.
   */
  datatype ModelOptions = ModelOptions(updateOn: Option<UpdateOn>, debounceDefault: Option<int>)

  datatype Field = Field(
    id: FieldId,
    /** The key; the empty string stands for a missing key (both are falsy). */
    key: string,
    fieldGroup: FieldGroup,
    /** The hooks present in `hooks`. */
    hooks: set<Hook>,
    modelOptions: ModelOptions,
    /** `templateOptions.disabled`. */
    disabled: bool,
    parsers: seq<ParserId>,
    autoClear: bool,
    /** `_hide`: the field is currently hidden. */
    hide: bool,
    validators: seq<ValidatorId>,
    asyncValidators: seq<ValidatorId>,
    /** Where `field.parent.model` sits inside the form's model. */
    parentModelPath: Path)

  /** `fieldGroup`: absent, or the child fields in order. */
  datatype FieldGroup = NoGroup | Group(fields: seq<Field>)

  predicate HasKey(f: Field) {
    f.key != ""
  }

  predicate IsLeaf(f: Field) {
    f.fieldGroup.NoGroup?
  }
}
