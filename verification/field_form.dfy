/**
 * The form-control extension: while the builder walks the field tree it
 * gives every keyed field a form control (finding an existing one first, so
 * fields with the same key share a control), lets keyless groups use their
 * parent's control, and once the whole tree is populated installs on every
 * control a validator that aggregates the validators of the fields sharing it.
 *
 * The extension remembers the field the walk started from (`root`); only
 * that field's `postPopulate` installs validators, so a walk triggered from
 * inside another walk installs nothing of its own.
 */
module FieldForm {
  import opened Wrappers
  import opened Values
  import opened Fields
  import opened Controls
  import opened ModelWriter

  /** The extension's state, `root`, together with the controls it works on. */
  datatype Ext = Ext(root: Option<FieldId>, reg: Registry)

  /** What the extension does besides changing controls. */
  datatype ExtEffect =
    /** `setValidators` ran over the tree of this field. */
    | ValidatorsSet(root: FieldId)
    /** `_updateTreeValidity` ran on this field's control. */
    | UpdateTreeValidity(root: FieldId)

  // ---------------------------------------------------------------------------
  // The field tree

  /** The children of a field: its `fieldGroup`, or none. */
  function Kids(f: Field): (kids: seq<Field>) {
    if f.fieldGroup.Group? then f.fieldGroup.fields else []
  }

  /** The fields of the tree under `f`, in pre-order. */
  function Subtree(f: Field): (r: seq<Field>)
    ensures |r| > 0 && r[0] == f
    decreases f, 1
  {
    [f] + SubtreeFrom(f, 0)
  }

  /** The subtrees of the children of `f` from index `i` on, in order. */
  function SubtreeFrom(f: Field, i: nat): seq<Field>
    decreases f, 0, |Kids(f)| - i
  {
    if i >= |Kids(f)| then []
    else
      assert Kids(f)[i] in f.fieldGroup.fields;
      Subtree(Kids(f)[i]) + SubtreeFrom(f, i + 1)
  }

  function Ids(fs: seq<Field>): (ids: set<FieldId>) {
    set g | g in fs :: g.id
  }

  /** No two fields of the tree under `f` have the same identity. */
  predicate Unique(f: Field)
    decreases f, 1
  {
    f.id !in Ids(SubtreeFrom(f, 0)) && UniqueFrom(f, 0)
  }

  predicate UniqueFrom(f: Field, i: nat)
    decreases f, 0, |Kids(f)| - i
  {
    i >= |Kids(f)| ||
    (assert Kids(f)[i] in f.fieldGroup.fields;
     Unique(Kids(f)[i]) && Ids(Subtree(Kids(f)[i])) !! Ids(SubtreeFrom(f, i + 1)) && UniqueFrom(f, i + 1))
  }

  // ---------------------------------------------------------------------------
  // onPopulate

  /**
   * `getFieldValue` as seen from a field whose parent model may be missing:
   * the walk stops at a missing object and gives `undefined`.
   */
  function ValueAt(model: Props, f: Field): (v: Value)
    requires HasKey(f)
    ensures ParentReachable(model, f) ==> v == FieldValue(model, f)
    ensures !ParentReachable(model, f) ==> v == Undefined
  {
    if ParentReachable(model, f) then FieldValue(model, f) else Undefined
  }

  /** The control `addFormControl` creates when none is found. */
  function FreshControl(f: Field, model: Props): (c: Control)
    requires HasKey(f)
  {
    if f.fieldGroup.Group? then
      Control(GroupControl, Container(ObjectKind, map[]), f.modelOptions.updateOn, None, true, Unset, Unset, [])
    else
      Control(LeafControl, ValueAt(model, f), f.modelOptions.updateOn, None, true, Unset, Unset, [])
  }

  /**
   * `addFormControl(field)`: the control `findControl` gives, else a new group
   * (for a field with a `fieldGroup`) or a new leaf holding the field's model
   * value, with the field's `updateOn`; then `registerControl`.
   */
  function AddFormControl(reg: Registry, f: Field, parent: Option<Field>, model: Props): (r: Registry)
    requires Valid(reg) && HasKey(f)
    ensures Valid(r)
    ensures f.id in r.binding && r.binding[f.id] in r.controls
    ensures forall id | id != f.id :: (id in r.binding <==> id in reg.binding) && (id in reg.binding ==> r.binding[id] == reg.binding[id])
    ensures reg.controls.Keys <= r.controls.Keys
    ensures FindControl(reg, f, parent).Some? ==>
              var cid := FindControl(reg, f, parent).value;
              && r.binding[f.id] == cid && r.controls.Keys == reg.controls.Keys
              && r.controls[cid].fields ==
                   if f.id in reg.controls[cid].fields then reg.controls[cid].fields
                   else reg.controls[cid].fields + [f.id]
    ensures FindControl(reg, f, parent).None? ==>
              var cid := r.binding[f.id];
              var c := r.controls[cid];
              && cid !in reg.controls
              && (c.kind == GroupControl <==> f.fieldGroup.Group?)
              && (c.kind == GroupControl ==> c.value == Container(ObjectKind, map[]))
              && (c.kind == LeafControl ==> c.value == ValueAt(model, f))
              && c.updateOn == f.modelOptions.updateOn
              && c.enabled && c.validator == Unset && c.asyncValidator == Unset
              && c.fields == [f.id]
    ensures var cid := r.binding[f.id];
            f.id in r.controls[cid].fields && |r.controls[cid].fields| >= 1
    ensures ParentControl(reg, parent).Some? ==>
              var pc := ParentControl(reg, parent).value;
              && r.controls[r.binding[f.id]].parent == Some(pc)
              && (pc, f.key) in r.children && r.children[(pc, f.key)] == r.binding[f.id]
  {
    match FindControl(reg, f, parent)
    case Some(cid) => RegisterControl(reg, f, parent, cid)
    case None =>
      var (r1, cid) := NewControl(reg, FreshControl(f, model));
      assert ParentControl(r1, parent) == ParentControl(reg, parent);
      RegisterControl(r1, f, parent, cid)
  }

  /**
   * `onPopulate(field)`: remember the first field populated as `root`; give a
   * keyed field its control; let a keyless group under a parent use the
   * parent's control, or none when the parent has none.
   */
  function OnPopulate(st: Ext, f: Field, parent: Option<Field>, model: Props): (r: Ext)
    requires Valid(st.reg)
    ensures Valid(r.reg)
    ensures r.root == if st.root.None? then Some(f.id) else st.root
    ensures HasKey(f) ==> f.id in r.reg.binding && r.reg.binding[f.id] in r.reg.controls
    ensures !HasKey(f) && parent.Some? && f.fieldGroup.Group? ==>
              ControlOf(r.reg, f) == ControlOf(st.reg, parent.value)
    ensures !HasKey(f) && !(parent.Some? && f.fieldGroup.Group?) ==> r.reg == st.reg
    ensures forall id | id != f.id :: (id in r.reg.binding <==> id in st.reg.binding) && (id in st.reg.binding ==> r.reg.binding[id] == st.reg.binding[id])
    ensures st.reg.controls.Keys <= r.reg.controls.Keys
  {
    var root := if st.root.None? then Some(f.id) else st.root;
    var reg1 := if HasKey(f) then AddFormControl(st.reg, f, parent, model) else st.reg;
    var reg2 :=
      if parent.Some? && f.fieldGroup.Group? && !HasKey(f) then
        match ControlOf(reg1, parent.value)
        case Some(pc) => reg1.(binding := reg1.binding[f.id := pc])
        case None => reg1.(binding := reg1.binding - {f.id})
      else reg1;
    Ext(root, reg2)
  }

  /**
   * Two fields with the same key under the same bound parent share one
   * control, listed in registration order.
   */
  lemma SameKeyShares(reg: Registry, a: Field, b: Field, parent: Field, model: Props)
    requires Valid(reg) && HasKey(a) && a.key == b.key && a.id != b.id && b.id != parent.id
    requires a.id !in reg.binding && b.id !in reg.binding
    requires parent.id in reg.binding && (reg.binding[parent.id], a.key) !in reg.children
    ensures var r1 := AddFormControl(reg, a, Some(parent), model);
            var r2 := AddFormControl(r1, b, Some(parent), model);
            r2.binding[a.id] == r2.binding[b.id] &&
            r2.controls[r2.binding[b.id]].fields == [a.id, b.id]
  {
    var r1 := AddFormControl(reg, a, Some(parent), model);
    FirstOfKey(reg, a, parent, model);
    JoinsSibling(r1, b, parent, model, r1.binding[a.id]);
  }

  /** The first field of a key under a bound parent gets a new control of its own, filed under the key. */
  lemma FirstOfKey(reg: Registry, a: Field, parent: Field, model: Props)
    requires Valid(reg) && HasKey(a) && a.id !in reg.binding
    requires parent.id in reg.binding && (reg.binding[parent.id], a.key) !in reg.children
    ensures var r1 := AddFormControl(reg, a, Some(parent), model);
            var pc := reg.binding[parent.id];
            var cid := r1.binding[a.id];
            && r1.controls[cid].fields == [a.id]
            && parent.id in r1.binding && r1.binding[parent.id] == pc
            && (pc, a.key) in r1.children && r1.children[(pc, a.key)] == cid
  {
    assert ParentControl(reg, Some(parent)) == Some(reg.binding[parent.id]);
    assert FindControl(reg, a, Some(parent)).None?;
  }

  /** An unbound field whose key is filed under its parent's control joins that control. */
  lemma JoinsSibling(reg: Registry, b: Field, parent: Field, model: Props, cid: ControlId)
    requires Valid(reg) && HasKey(b) && b.id !in reg.binding
    requires parent.id in reg.binding && (reg.binding[parent.id], b.key) in reg.children
    requires reg.children[(reg.binding[parent.id], b.key)] == cid && cid in reg.controls
    requires b.id !in reg.controls[cid].fields
    ensures var r2 := AddFormControl(reg, b, Some(parent), model);
            r2.binding[b.id] == cid && r2.controls[cid].fields == reg.controls[cid].fields + [b.id]
  {
    assert ParentControl(reg, Some(parent)) == Some(reg.binding[parent.id]);
    assert FindControl(reg, b, Some(parent)) == Some(cid);
  }

  /** Populating a field that is already bound keeps its control. */
  lemma RepopulateKeepsControl(reg: Registry, f: Field, parent: Option<Field>, model: Props)
    requires Valid(reg) && HasKey(f) && f.id in reg.binding
    ensures AddFormControl(reg, f, parent, model).binding[f.id] == reg.binding[f.id]
    ensures AddFormControl(reg, f, parent, model).controls.Keys == reg.controls.Keys
  {
  }

  // ---------------------------------------------------------------------------
  // setValidators

  /** The field's control exists whenever the field has a key. */
  predicate Bound(reg: Registry, g: Field) {
    HasKey(g) ==> g.id in reg.binding && reg.binding[g.id] in reg.controls
  }

  predicate AllBound(reg: Registry, fs: seq<Field>) {
    forall g | g in fs :: Bound(reg, g)
  }

  /** A monotone change keeps every field bound. */
  lemma BoundMonotone(a: Registry, b: Registry, fs: seq<Field>)
    requires Monotone(a, b) && AllBound(a, fs)
    ensures AllBound(b, fs)
  {
  }

  lemma AllBoundConcat(reg: Registry, fs: seq<Field>, gs: seq<Field>)
    requires AllBound(reg, fs) && AllBound(reg, gs)
    ensures AllBound(reg, fs + gs)
  {
  }

  lemma IdsSingleton(f: Field)
    ensures Ids([f]) == {f.id}
  {
    assert f in [f];
  }

  lemma IdsConcat(fs: seq<Field>, gs: seq<Field>)
    ensures Ids(fs + gs) == Ids(fs) + Ids(gs)
  {
  }

  /** Fields stay bound across a change of other fields' bindings that adds controls only. */
  lemma AllBoundKept(a: Registry, b: Registry, fs: seq<Field>, ids: set<FieldId>)
    requires AllBound(a, fs) && Ids(fs) !! ids
    requires SameBindingOutside(a, b, ids) && a.controls.Keys <= b.controls.Keys
    ensures AllBound(b, fs)
  {
  }

  lemma SameBindingTrans(a: Registry, b: Registry, c: Registry, ids1: set<FieldId>, ids2: set<FieldId>)
    requires SameBindingOutside(a, b, ids1) && SameBindingOutside(b, c, ids2)
    ensures SameBindingOutside(a, c, ids1 + ids2)
  {
  }

  /** The control of a bound keyed field. */
  function CtrlOf(reg: Registry, g: Field): Control
    requires HasKey(g) && Bound(reg, g)
  {
    reg.controls[reg.binding[g.id]]
  }

  /** Some validator slot of the control is `null`. */
  predicate HasUnsetSlot(c: Control) {
    c.validator == Unset || c.asyncValidator == Unset
  }

  /** The control of `g` still needs work: it must be disabled, or a validator slot is `null`. */
  predicate Needs(reg: Registry, g: Field) {
    HasKey(g) && Bound(reg, g) && ((g.disabled && CtrlOf(reg, g).enabled) || HasUnsetSlot(CtrlOf(reg, g)))
  }

  /** The control of `g` has been dealt with: disabled if `g` is, both slots set. */
  predicate Settled(reg: Registry, g: Field) {
    HasKey(g) ==> Bound(reg, g) && !HasUnsetSlot(CtrlOf(reg, g)) && (g.disabled ==> !CtrlOf(reg, g).enabled)
  }

  /**
   * `b` differs from `a` at most by controls that were disabled and by
   * validator slots that were filled: nothing is enabled again, no slot is
   * cleared, and the rest of every control is unchanged.
   */
  predicate Monotone(a: Registry, b: Registry) {
    && b.binding == a.binding && b.children == a.children && b.next == a.next
    && b.controls.Keys == a.controls.Keys
    && forall cid | cid in a.controls ::
         var x := a.controls[cid];
         var y := b.controls[cid];
         && y.kind == x.kind && y.value == x.value && y.updateOn == x.updateOn
         && y.parent == x.parent && y.fields == x.fields
         && (!x.enabled ==> !y.enabled)
         && (x.validator != Unset ==> y.validator != Unset)
         && (x.asyncValidator != Unset ==> y.asyncValidator != Unset)
  }

  /**
   * Control `cid` is one that `setValidators` over `fs` may change: the
   * control of a keyed field of `fs`, or a control below it, which disabling
   * that field's control reaches.
   */
  predicate Affected(reg: Registry, fs: seq<Field>, cid: ControlId) {
    exists g | g in fs :: HasKey(g) && g.id in reg.binding && cid in Below(reg, reg.binding[g.id])
  }

  /**
   * The step of `setValidators` for one field: disable the control, and with
   * it every control below it, when the field is disabled and the control
   * enabled; when either validator slot is `null`, install the aggregate
   * validators in both. The flag says whether anything was done.
   */
  function SetOwn(reg: Registry, g: Field): (r: (Registry, bool))
    requires Bound(reg, g)
    ensures r.1 == Needs(reg, g)
    ensures !r.1 ==> r.0 == reg
    ensures Monotone(reg, r.0)
    ensures Settled(r.0, g)
    ensures HasKey(g) && !HasUnsetSlot(CtrlOf(reg, g)) ==>
              CtrlOf(r.0, g).validator == CtrlOf(reg, g).validator &&
              CtrlOf(r.0, g).asyncValidator == CtrlOf(reg, g).asyncValidator
    ensures HasKey(g) && HasUnsetSlot(CtrlOf(reg, g)) ==>
              CtrlOf(r.0, g).validator == Aggregate && CtrlOf(r.0, g).asyncValidator == Aggregate
    ensures HasKey(g) && g.disabled && CtrlOf(reg, g).enabled ==>
              forall d | d in reg.controls && d in Below(reg, reg.binding[g.id]) :: !r.0.controls[d].enabled
    ensures HasKey(g) ==>
              forall d | d in reg.controls && d != reg.binding[g.id] ::
                r.0.controls[d].(enabled := true) == reg.controls[d].(enabled := true)
    ensures forall cid | cid in reg.controls && !Affected(reg, [g], cid) :: r.0.controls[cid] == reg.controls[cid]
  {
    if !HasKey(g) then (reg, false)
    else
      assert g in [g];
      StepControl(reg, reg.binding[g.id], g.disabled)
  }

  /**
   * The step of `setValidators` on control `cid` for a field that is
   * `disabled` or not: disable it and everything below it when the field is
   * disabled and the control enabled, then fill both validator slots with
   * the aggregate when either is `null`.
   */
  function StepControl(reg: Registry, cid: ControlId, disabled: bool): (r: (Registry, bool))
    requires cid in reg.controls
    ensures r.1 == ((disabled && reg.controls[cid].enabled) || HasUnsetSlot(reg.controls[cid]))
    ensures !r.1 ==> r.0 == reg
    ensures Monotone(reg, r.0)
    ensures !HasUnsetSlot(r.0.controls[cid]) && (disabled ==> !r.0.controls[cid].enabled)
    ensures !HasUnsetSlot(reg.controls[cid]) ==>
              r.0.controls[cid].validator == reg.controls[cid].validator &&
              r.0.controls[cid].asyncValidator == reg.controls[cid].asyncValidator
    ensures HasUnsetSlot(reg.controls[cid]) ==>
              r.0.controls[cid].validator == Aggregate && r.0.controls[cid].asyncValidator == Aggregate
    ensures disabled && reg.controls[cid].enabled ==>
              forall d | d in reg.controls && d in Below(reg, cid) :: !r.0.controls[d].enabled
    ensures forall d | d in reg.controls && d != cid :: r.0.controls[d].(enabled := true) == reg.controls[d].(enabled := true)
    ensures forall d | d in reg.controls && d !in Below(reg, cid) :: r.0.controls[d] == reg.controls[d]
  {
    var reg1 := DisableStep(reg, cid, disabled);
    var reg2 := FillSlots(reg1, cid);
    (reg2, (disabled && reg.controls[cid].enabled) || HasUnsetSlot(reg.controls[cid]))
  }

  /** The first half of the step: `if (disabled && c.enabled) c.disable(...)`. */
  function DisableStep(reg: Registry, cid: ControlId, disabled: bool): (r: Registry)
    requires cid in reg.controls
    ensures Monotone(reg, r)
    ensures !(disabled && reg.controls[cid].enabled) ==> r == reg
    ensures disabled ==> !r.controls[cid].enabled
    ensures disabled && reg.controls[cid].enabled ==>
              forall d | d in reg.controls && d in Below(reg, cid) :: !r.controls[d].enabled
    ensures forall d | d in reg.controls :: r.controls[d].(enabled := true) == reg.controls[d].(enabled := true)
    ensures forall d | d in reg.controls && d !in Below(reg, cid) :: r.controls[d] == reg.controls[d]
  {
    var disabling := disabled && reg.controls[cid].enabled;
    DisableMonotone(reg, cid, disabling);
    assert cid in Below(reg, cid);
    if disabling then Disable(reg, cid) else reg
  }

  /** The second half of the step: fill both validator slots with the aggregate when either is `null`. */
  function FillSlots(reg: Registry, cid: ControlId): (r: Registry)
    requires cid in reg.controls
    ensures Monotone(reg, r)
    ensures !HasUnsetSlot(reg.controls[cid]) ==> r == reg
    ensures HasUnsetSlot(reg.controls[cid]) ==>
              r.controls[cid].validator == Aggregate && r.controls[cid].asyncValidator == Aggregate
    ensures r.controls[cid].enabled == reg.controls[cid].enabled
    ensures forall d | d in reg.controls && d != cid :: r.controls[d] == reg.controls[d]
  {
    var c := reg.controls[cid];
    var installing := HasUnsetSlot(c);
    InstallMonotone(reg, reg, cid, installing);
    if installing then reg.(controls := reg.controls[cid := c.(validator := Aggregate, asyncValidator := Aggregate)]) else reg
  }

  /** Disabling a control and those below it is a monotone change. */
  lemma DisableMonotone(reg: Registry, cid: ControlId, disabling: bool)
    ensures Monotone(reg, if disabling then Disable(reg, cid) else reg)
  {
  }

  /** Filling both validator slots of one control is a monotone change. */
  lemma InstallMonotone(a: Registry, b: Registry, cid: ControlId, installing: bool)
    requires a == b && cid in b.controls
    ensures var c1 := b.controls[cid];
            Monotone(a, if installing then b.(controls := b.controls[cid := c1.(validator := Aggregate, asyncValidator := Aggregate)]) else b)
  {
  }

  /** Settledness survives a monotone change. */
  lemma SettledMonotone(a: Registry, b: Registry, fs: seq<Field>)
    requires Monotone(a, b)
    ensures forall g | g in fs && Settled(a, g) :: Settled(b, g)
  {
  }

  /**
   * `setValidators(field)`: the step for the field, then for each child in
   * order (every child is visited, whatever the flags so far); the result
   * flag is the OR of all steps' flags.
   */
  function SetValidators(reg: Registry, f: Field): (r: (Registry, bool))
    requires AllBound(reg, Subtree(f))
    ensures r.1 <==> exists g | g in Subtree(f) :: Needs(reg, g)
    ensures !r.1 ==> r.0 == reg
    ensures Monotone(reg, r.0)
    ensures forall g | g in Subtree(f) :: Settled(r.0, g)
    ensures forall cid | cid in reg.controls && !Affected(reg, Subtree(f), cid) :: r.0.controls[cid] == reg.controls[cid]
    decreases f, 1
  {
    assert f in Subtree(f);
    assert Subtree(f) == [f] + SubtreeFrom(f, 0);
    var (r1, own) := SetOwn(reg, f);
    BoundMonotone(reg, r1, SubtreeFrom(f, 0));
    var (r2, rest) := SetAll(r1, f, 0);
    SettledMonotone(r1, r2, [f]);
    assert f in [f];
    assert own <==> exists g | g in [f] :: Needs(reg, g);
    StepsCompose(reg, r1, r2, own, rest, [f], SubtreeFrom(f, 0));
    (r2, own || rest)
  }

  /** `setValidators` on the children of `f` from index `i` on. */
  function SetAll(reg: Registry, f: Field, i: nat): (r: (Registry, bool))
    requires AllBound(reg, SubtreeFrom(f, i))
    ensures r.1 <==> exists g | g in SubtreeFrom(f, i) :: Needs(reg, g)
    ensures !r.1 ==> r.0 == reg
    ensures Monotone(reg, r.0)
    ensures forall g | g in SubtreeFrom(f, i) :: Settled(r.0, g)
    ensures forall cid | cid in reg.controls && !Affected(reg, SubtreeFrom(f, i), cid) :: r.0.controls[cid] == reg.controls[cid]
    decreases f, 0, |Kids(f)| - i
  {
    if i >= |Kids(f)| then (reg, false)
    else
      var kid := Kids(f)[i];
      assert kid in f.fieldGroup.fields;
      assert SubtreeFrom(f, i) == Subtree(kid) + SubtreeFrom(f, i + 1);
      var (r1, a) := SetValidators(reg, kid);
      var (r2, b) := SetAll(r1, f, i + 1);
      SettledMonotone(r1, r2, Subtree(kid));
      StepsCompose(reg, r1, r2, a, b, Subtree(kid), SubtreeFrom(f, i + 1));
      (r2, a || b)
  }

  /**
   * Two steps of `setValidators` over consecutive parts of the tree compose:
   * flags, monotonicity, settledness and untouched controls carry over to the
   * concatenation.
   */
  lemma StepsCompose(r0: Registry, r1: Registry, r2: Registry, a: bool, b: bool, xs: seq<Field>, ys: seq<Field>)
    requires a <==> exists g | g in xs :: Needs(r0, g)
    requires !a ==> r1 == r0
    requires Monotone(r0, r1)
    requires forall g | g in xs :: Settled(r2, g)
    requires forall cid | cid in r0.controls && !Affected(r0, xs, cid) :: r1.controls[cid] == r0.controls[cid]
    requires b <==> exists g | g in ys :: Needs(r1, g)
    requires !b ==> r2 == r1
    requires Monotone(r1, r2)
    requires forall g | g in ys :: Settled(r2, g)
    requires forall cid | cid in r1.controls && !Affected(r1, ys, cid) :: r2.controls[cid] == r1.controls[cid]
    ensures a || b <==> exists g | g in xs + ys :: Needs(r0, g)
    ensures !(a || b) ==> r2 == r0
    ensures Monotone(r0, r2)
    ensures forall g | g in xs + ys :: Settled(r2, g)
    ensures forall cid | cid in r0.controls && !Affected(r0, xs + ys, cid) :: r2.controls[cid] == r0.controls[cid]
  {
    MonotoneTrans(r0, r1, r2);
    AffectedCompose(r0, r1, r2, xs, ys);
    if !a {
      assert (exists g | g in xs + ys :: Needs(r0, g)) ==> exists g | g in ys :: Needs(r0, g);
    }
  }

  lemma MonotoneTrans(r0: Registry, r1: Registry, r2: Registry)
    requires Monotone(r0, r1) && Monotone(r1, r2)
    ensures Monotone(r0, r2)
  {
  }

  /** A control neither part may change is a control the whole may not change. */
  lemma AffectedCompose(r0: Registry, r1: Registry, r2: Registry, xs: seq<Field>, ys: seq<Field>)
    requires Monotone(r0, r1) && Monotone(r1, r2)
    requires forall cid | cid in r0.controls && !Affected(r0, xs, cid) :: r1.controls[cid] == r0.controls[cid]
    requires forall cid | cid in r1.controls && !Affected(r1, ys, cid) :: r2.controls[cid] == r1.controls[cid]
    ensures forall cid | cid in r0.controls && !Affected(r0, xs + ys, cid) :: r2.controls[cid] == r0.controls[cid]
  {
    forall cid | cid in r0.controls && !Affected(r0, xs + ys, cid)
      ensures r2.controls[cid] == r0.controls[cid]
    {
      assert !Affected(r0, xs, cid);
      assert !Affected(r1, ys, cid);
    }
  }

  /**
   * A disabled keyed group whose control is still enabled ends with every
   * control its group holds disabled, whether or not the fields bound to
   * those controls are disabled themselves.
   */
  lemma DisabledGroupDisablesChildren(reg: Registry, g: Field, key: string)
    requires Valid(reg) && AllBound(reg, Subtree(g))
    requires HasKey(g) && g.disabled && CtrlOf(reg, g).enabled
    requires (reg.binding[g.id], key) in reg.children
    ensures !SetValidators(reg, g).0.controls[reg.children[(reg.binding[g.id], key)]].enabled
  {
    assert g in Subtree(g);
    var cid := reg.binding[g.id];
    var child := reg.children[(cid, key)];
    assert child in Below(reg, cid);
    var r1 := SetOwn(reg, g).0;
    assert !r1.controls[child].enabled;
    BoundMonotone(reg, r1, SubtreeFrom(g, 0));
    assert Subtree(g) == [g] + SubtreeFrom(g, 0);
    assert SetValidators(reg, g).0 == SetAll(r1, g, 0).0;
  }

  /** Once every control is settled a second `setValidators` does nothing and reports nothing. */
  lemma SetValidatorsIdempotent(reg: Registry, f: Field)
    requires AllBound(reg, Subtree(f))
    ensures var (once, _) := SetValidators(reg, f);
            SetValidators(once, f) == (once, false)
  {
  }

  // ---------------------------------------------------------------------------
  // postPopulate and the whole walk

  /**
   * `postPopulate(field)`: nothing unless `field` is `root`; otherwise forget
   * `root` and install the validators over the tree.
   */
  function PostPopulate(st: Ext, f: Field): (r: (Ext, seq<ExtEffect>))
    requires st.root == Some(f.id) ==> AllBound(st.reg, Subtree(f))
    ensures st.root != Some(f.id) ==> r == (st, [])
    ensures st.root == Some(f.id) ==> r.0.root.None? && (r.0.reg, r.1) == InstallValidators(st.reg, f)
  {
    if st.root != Some(f.id) then (st, [])
    else
      var (reg, effs) := InstallValidators(st.reg, f);
      (Ext(None, reg), effs)
  }

  /**
   * The root's part of `postPopulate`: run `setValidators` over the tree,
   * then update the validity of the field's control when any step did
   * something. Bindings and controls stay, every field stays bound, and
   * every keyed field of the tree ends settled.
   */
  function InstallValidators(reg: Registry, f: Field): (r: (Registry, seq<ExtEffect>))
    requires AllBound(reg, Subtree(f))
    ensures r.0 == SetValidators(reg, f).0
    ensures r.1 == if SetValidators(reg, f).1 then [ValidatorsSet(f.id), UpdateTreeValidity(f.id)] else [ValidatorsSet(f.id)]
    ensures r.0.binding == reg.binding && r.0.controls.Keys == reg.controls.Keys
    ensures Valid(reg) ==> Valid(r.0)
    ensures AllBound(r.0, Subtree(f))
    ensures forall g | g in Subtree(f) :: Settled(r.0, g)
  {
    var (reg', updateValidity) := SetValidators(reg, f);
    BoundMonotone(reg, reg', Subtree(f));
    (reg', if updateValidity then [ValidatorsSet(f.id), UpdateTreeValidity(f.id)] else [ValidatorsSet(f.id)])
  }

  /** `binding` agrees between `a` and `b` on every identity outside `ids`. */
  ghost predicate SameBindingOutside(a: Registry, b: Registry, ids: set<FieldId>) {
    forall id | id !in ids :: (id in b.binding <==> id in a.binding) && (id in a.binding ==> b.binding[id] == a.binding[id])
  }

  /**
   * The builder's walk over the tree under `f`: `onPopulate` on the way down,
   * the children in order, `postPopulate` on the way up. Started with no
   * `root`, it installs validators exactly once, at the end, for `f`, and
   * leaves no `root` behind; started inside another walk it installs nothing.
   */
  function Populate(st: Ext, f: Field, parent: Option<Field>, model: Props): (r: (Ext, seq<ExtEffect>))
    requires Valid(st.reg) && Unique(f)
    ensures Valid(r.0.reg)
    ensures st.root.None? ==>
              && r.0.root.None?
              && (r.1 == [ValidatorsSet(f.id)] || r.1 == [ValidatorsSet(f.id), UpdateTreeValidity(f.id)])
              && (forall g | g in Subtree(f) :: Settled(r.0.reg, g))
    ensures st.root.Some? && st.root.value !in Ids(Subtree(f)) ==> r.0.root == st.root && r.1 == []
    ensures AllBound(r.0.reg, Subtree(f))
    ensures SameBindingOutside(st.reg, r.0.reg, Ids(Subtree(f)))
    ensures st.reg.controls.Keys <= r.0.reg.controls.Keys
    decreases f, 1
  {
    var st1 := OnPopulate(st, f, parent, model);
    var (st2, e1) := PopulateAll(st1, f, 0, model);
    assert Subtree(f) == [f] + SubtreeFrom(f, 0);
    IdsConcat([f], SubtreeFrom(f, 0));
    IdsSingleton(f);
    assert Bound(st2.reg, f);
    AllBoundConcat(st2.reg, [f], SubtreeFrom(f, 0));
    var (st3, e2) := PostPopulate(st2, f);
    SameBindingTrans(st.reg, st1.reg, st2.reg, {f.id}, Ids(SubtreeFrom(f, 0)));
    assert f.id !in Ids(SubtreeFrom(f, 0));
    assert st.root.None? ==> st1.root == Some(f.id);
    assert st.root.None? ==> e1 == [];
    assert st.root.None? ==> e1 + e2 == e2;
    (st3, e1 + e2)
  }

  /** The walk over the children of `f` from index `i` on, with `f` as their parent. */
  function PopulateAll(st: Ext, f: Field, i: nat, model: Props): (r: (Ext, seq<ExtEffect>))
    requires Valid(st.reg) && UniqueFrom(f, i)
    ensures Valid(r.0.reg)
    ensures st.root.Some? && st.root.value !in Ids(SubtreeFrom(f, i)) ==> r.0.root == st.root && r.1 == []
    ensures AllBound(r.0.reg, SubtreeFrom(f, i))
    ensures SameBindingOutside(st.reg, r.0.reg, Ids(SubtreeFrom(f, i)))
    ensures st.reg.controls.Keys <= r.0.reg.controls.Keys
    decreases f, 0, |Kids(f)| - i
  {
    if i >= |Kids(f)| then (st, [])
    else
      var kid := Kids(f)[i];
      assert kid in f.fieldGroup.fields;
      assert SubtreeFrom(f, i) == Subtree(kid) + SubtreeFrom(f, i + 1);
      var (st1, e1) := Populate(st, kid, Some(f), model);
      var (st2, e2) := PopulateAll(st1, f, i + 1, model);
      IdsConcat(Subtree(kid), SubtreeFrom(f, i + 1));
      AllBoundKept(st1.reg, st2.reg, Subtree(kid), Ids(SubtreeFrom(f, i + 1)));
      AllBoundConcat(st2.reg, Subtree(kid), SubtreeFrom(f, i + 1));
      SameBindingTrans(st.reg, st1.reg, st2.reg, Ids(Subtree(kid)), Ids(SubtreeFrom(f, i + 1)));
      (st2, e1 + e2)
  }

  // ---------------------------------------------------------------------------
  // The aggregate validators

  /**
   * The fields whose validators the aggregate runs: all of the control's
   * fields when there is exactly one, else those not hidden.
   */
  function Contributors(members: seq<Field>): (r: seq<Field>)
    ensures |members| == 1 ==> r == members
    ensures |members| != 1 ==> forall g :: g in r <==> g in members && !g.hide
  {
    if |members| == 1 then members else Visible(members)
  }

  function Visible(fs: seq<Field>): (r: seq<Field>)
    ensures forall g :: g in r <==> g in fs && !g.hide
    decreases |fs|
  {
    if |fs| == 0 then []
    else (if fs[0].hide then [] else [fs[0]]) + Visible(fs[1..])
  }

  /** The validators of one field, sync or async. */
  function ValidatorsOf(g: Field, async: bool): (vs: seq<ValidatorId>) {
    if async then g.asyncValidators else g.validators
  }

  /** The error keys the validators of the given fields report on `value`. */
  function ErrorsOf(fs: seq<Field>, async: bool, run: (ValidatorId, Value) -> set<string>, value: Value): set<string>
    decreases |fs|
  {
    if |fs| == 0 then {}
    else
      (set v, e | v in ValidatorsOf(fs[0], async) && e in run(v, value) :: e) + ErrorsOf(fs[1..], async, run, value)
  }

  /**
   * The errors the aggregate validator installed on a control reports for
   * the control's value, given the fields sharing the control: the union of
   * the contributors' validators' errors (none when nothing contributes).
   */
  function AggregateErrors(members: seq<Field>, async: bool, run: (ValidatorId, Value) -> set<string>, value: Value): (r: set<string>)
    ensures forall e :: e in r <==> exists g, v | g in Contributors(members) && v in ValidatorsOf(g, async) :: e in run(v, value)
  {
    ErrorsOfMeaning(Contributors(members), async, run, value);
    ErrorsOf(Contributors(members), async, run, value)
  }

  /** An error is reported exactly when some validator of some field reports it. */
  lemma {:induction false} ErrorsOfMeaning(fs: seq<Field>, async: bool, run: (ValidatorId, Value) -> set<string>, value: Value)
    ensures forall e :: e in ErrorsOf(fs, async, run, value) <==>
              exists g, v | g in fs && v in ValidatorsOf(g, async) :: e in run(v, value)
    decreases |fs|
  {
    if |fs| > 0 {
      ErrorsOfMeaning(fs[1..], async, run, value);
      forall e | e in ErrorsOf(fs, async, run, value)
        ensures exists g, v | g in fs && v in ValidatorsOf(g, async) :: e in run(v, value)
      {
        if e !in ErrorsOf(fs[1..], async, run, value) {
          var v :| v in ValidatorsOf(fs[0], async) && e in run(v, value);
          assert fs[0] in fs;
        } else {
          var g, v :| g in fs[1..] && v in ValidatorsOf(g, async) && e in run(v, value);
          assert g in fs;
        }
      }
      forall e, g, v | g in fs && v in ValidatorsOf(g, async) && e in run(v, value)
        ensures e in ErrorsOf(fs, async, run, value)
      {
        if g != fs[0] {
          assert g in fs[1..];
        }
      }
    }
  }

  /** A field alone on its control is validated even while hidden. */
  lemma LoneFieldAlwaysValidated(g: Field, async: bool, run: (ValidatorId, Value) -> set<string>, value: Value, v: ValidatorId, e: string)
    requires v in ValidatorsOf(g, async) && e in run(v, value)
    ensures e in AggregateErrors([g], async, run, value)
  {
  }

  /** On a shared control a hidden field's validators report nothing unless another contributor's do. */
  lemma HiddenSharedFieldIgnored(members: seq<Field>, async: bool, run: (ValidatorId, Value) -> set<string>, value: Value, e: string)
    requires |members| >= 2
    requires e in AggregateErrors(members, async, run, value)
    ensures exists g, v | g in members && !g.hide && v in ValidatorsOf(g, async) :: e in run(v, value)
  {
  }

  /**
   * On a shared control, showing a hidden field adds exactly that field's
   * errors to the aggregate.
   */
  lemma ShowingFieldAddsItsErrors(members: seq<Field>, i: nat, async: bool, run: (ValidatorId, Value) -> set<string>, value: Value)
    requires |members| >= 2 && i < |members| && members[i].hide
    ensures var shown := members[i := members[i].(hide := false)];
            AggregateErrors(shown, async, run, value) ==
              AggregateErrors(members, async, run, value) + ErrorsOf([members[i].(hide := false)], async, run, value)
  {
    ShownErrorsWithin(members, i, async, run, value);
    ShownErrorsCover(members, i, async, run, value);
  }

  /** After showing `members[i]`, every reported error comes from before or from that field. */
  lemma ShownErrorsWithin(members: seq<Field>, i: nat, async: bool, run: (ValidatorId, Value) -> set<string>, value: Value)
    requires |members| >= 2 && i < |members| && members[i].hide
    ensures var shown := members[i := members[i].(hide := false)];
            AggregateErrors(shown, async, run, value) <=
              AggregateErrors(members, async, run, value) + ErrorsOf([members[i].(hide := false)], async, run, value)
  {
    var shown := members[i := members[i].(hide := false)];
    var g' := members[i].(hide := false);
    ErrorsOfMeaning([g'], async, run, value);
    forall e | e in AggregateErrors(shown, async, run, value)
      ensures e in AggregateErrors(members, async, run, value) + ErrorsOf([g'], async, run, value)
    {
      var g, v :| g in Contributors(shown) && v in ValidatorsOf(g, async) && e in run(v, value);
      if g != g' {
        var j :| 0 <= j < |shown| && shown[j] == g;
        assert j != i;
        assert members[j] == g;
      } else {
        assert g' in [g'];
      }
    }
  }

  /** After showing `members[i]`, the errors reported before and that field's errors are all reported. */
  lemma ShownErrorsCover(members: seq<Field>, i: nat, async: bool, run: (ValidatorId, Value) -> set<string>, value: Value)
    requires |members| >= 2 && i < |members| && members[i].hide
    ensures var shown := members[i := members[i].(hide := false)];
            AggregateErrors(members, async, run, value) + ErrorsOf([members[i].(hide := false)], async, run, value) <=
              AggregateErrors(shown, async, run, value)
  {
    var shown := members[i := members[i].(hide := false)];
    var g' := members[i].(hide := false);
    ErrorsOfMeaning([g'], async, run, value);
    forall e | e in AggregateErrors(members, async, run, value) + ErrorsOf([g'], async, run, value)
      ensures e in AggregateErrors(shown, async, run, value)
    {
      if e in AggregateErrors(members, async, run, value) {
        var g, v :| g in Contributors(members) && v in ValidatorsOf(g, async) && e in run(v, value);
        var j :| 0 <= j < |members| && members[j] == g;
        assert j != i;
        assert shown[j] == g;
      } else {
        var g, v :| g in [g'] && v in ValidatorsOf(g, async) && e in run(v, value);
        assert shown[i] == g';
      }
    }
  }
}
