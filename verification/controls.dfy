/**
 * Form controls and the registry that binds fields to them. Several fields
 * may share one control (duplicate keys); the control lists them in
 * `fields`, in registration order.
 *
 * `findControl` and `registerControl` are utilities outside the modelled
 * files; they are given here the behaviour the form-control extension relies
 * on: a field's own control is found first, then the control its parent's
 * group holds under the field's key; registering binds the field, records it
 * in the control's field list once, and attaches the control to the parent's
 * group under the key.
 */
module Controls {
  import opened Wrappers
  import opened Values
  import opened Fields

  /** Object identity of a control. */
  type ControlId = nat

  /** `FormGroup` or `FormControl`. */
  datatype ControlKind = GroupControl | LeafControl

  /**
   * A validator slot of a control: `null`, the aggregate installed by the
   * form-control extension, or a validator someone else set.
   */
  datatype Slot = Unset | Aggregate | Foreign

  datatype Control = Control(
    kind: ControlKind,
    value: Value,
    updateOn: Option<UpdateOn>,
    parent: Option<ControlId>,
    enabled: bool,
    validator: Slot,
    asyncValidator: Slot,
    /** `_fields`: the fields sharing this control, in registration order. */
    fields: seq<FieldId>)

  datatype Registry = Registry(
    controls: map<ControlId, Control>,
    /** `field.formControl` for each bound field. */
    binding: map<FieldId, ControlId>,
    /** The child control a group holds under a key. */
    children: map<(ControlId, string), ControlId>,
    /** The next unused control identity. */
    next: ControlId)

  /** Every reference in the registry names an existing control, and `next` is fresh. */
  predicate Valid(r: Registry) {
    && (forall f | f in r.binding :: r.binding[f] in r.controls)
    && (forall k | k in r.children :: k.0 in r.controls && r.children[k] in r.controls)
    && (forall c | c in r.controls :: c < r.next)
  }

  /** `field.formControl`, when the field is bound. */
  function ControlOf(r: Registry, f: Field): Option<ControlId> {
    if f.id in r.binding then Some(r.binding[f.id]) else None
  }

  /** `field.parent.formControl`. */
  function ParentControl(r: Registry, parent: Option<Field>): Option<ControlId> {
    if parent.Some? then ControlOf(r, parent.value) else None
  }

  /** `findControl(field)`: the field's own control, else the parent group's child under its key. */
  function FindControl(r: Registry, f: Field, parent: Option<Field>): (c: Option<ControlId>)
    requires Valid(r)
    ensures c.Some? ==> c.value in r.controls
  {
    if f.id in r.binding then Some(r.binding[f.id])
    else
      match ParentControl(r, parent)
      case Some(pc) => if (pc, f.key) in r.children then Some(r.children[(pc, f.key)]) else None
      case None => None
  }

  /** Add a new control under a fresh identity. */
  function NewControl(r: Registry, c: Control): (res: (Registry, ControlId))
    requires Valid(r)
    ensures Valid(res.0)
    ensures res.1 !in r.controls && res.0.controls == r.controls[res.1 := c]
    ensures res.0.binding == r.binding && res.0.children == r.children
  {
    (r.(controls := r.controls[r.next := c], next := r.next + 1), r.next)
  }

  /**
   * `registerControl(field, control)`: bind the field to the control, record
   * the field in the control's field list unless it is already there, and
   * attach the control to the parent's group under the field's key.
   */
  function RegisterControl(r: Registry, f: Field, parent: Option<Field>, cid: ControlId): (r': Registry)
    requires Valid(r) && cid in r.controls
    ensures Valid(r')
    ensures r'.controls.Keys == r.controls.Keys && r'.next == r.next
    ensures r'.binding == r.binding[f.id := cid]
    ensures r'.controls[cid].fields ==
              if f.id in r.controls[cid].fields then r.controls[cid].fields
              else r.controls[cid].fields + [f.id]
    ensures forall d | d in r.controls && d != cid :: r'.controls[d] == r.controls[d]
    ensures ParentControl(r, parent).Some? ==>
              var pc := ParentControl(r, parent).value;
              (pc, f.key) in r'.children && r'.children[(pc, f.key)] == cid && r'.controls[cid].parent == Some(pc)
  {
    var c := r.controls[cid];
    var fields := if f.id in c.fields then c.fields else c.fields + [f.id];
    match ParentControl(r, parent)
    case None =>
      r.(controls := r.controls[cid := c.(fields := fields)], binding := r.binding[f.id := cid])
    case Some(pc) =>
      r.(controls := r.controls[cid := c.(fields := fields, parent := Some(pc))],
         binding := r.binding[f.id := cid],
         children := r.children[(pc, f.key) := cid])
  }

  /** The controls the groups in `s` hold directly, under any key. */
  function ChildrenOf(children: map<(ControlId, string), ControlId>, s: set<ControlId>): (r: set<ControlId>)
    ensures forall k | k in children && k.0 in s :: children[k] in r
    ensures r <= children.Values
  {
    set k | k in children && k.0 in s :: children[k]
  }

  /**
   * The controls reachable from `seen` through the groups' children: the
   * smallest set containing `seen` that holds every child of its members
   * (see `ClosureLeast`).
   */
  function Closure(children: map<(ControlId, string), ControlId>, seen: set<ControlId>): (r: set<ControlId>)
    ensures seen <= r
    ensures forall k | k in children && k.0 in r :: children[k] in r
    decreases children.Values - seen
  {
    var next := seen + ChildrenOf(children, seen);
    if next <= seen then seen
    else Closure(children, next)
  }

  /** `Closure` adds nothing that a set closed under the children must not already hold. */
  lemma {:induction false} ClosureLeast(children: map<(ControlId, string), ControlId>, seen: set<ControlId>, s: set<ControlId>)
    requires seen <= s
    requires forall k | k in children && k.0 in s :: children[k] in s
    ensures Closure(children, seen) <= s
    decreases children.Values - seen
  {
    var next := seen + ChildrenOf(children, seen);
    if !(next <= seen) {
      ClosureLeast(children, next, s);
    }
  }

  /**
   * The control `c` and every control below it: what `disable()` on `c`
   * reaches, since a group disables each of its controls in turn.
   */
  function Below(r: Registry, c: ControlId): set<ControlId> {
    Closure(r.children, {c})
  }

  /**
   * `c.disable({onlySelf: true})`: `c` and every control below it are
   * disabled (a group disables each of its controls, which pass it on);
   * nothing else about any control changes, and controls elsewhere are left
   * alone. `onlySelf` keeps the ancestors' status as it is.
   */
  function Disable(r: Registry, c: ControlId): (r': Registry)
    ensures r'.binding == r.binding && r'.children == r.children && r'.next == r.next
    ensures r'.controls.Keys == r.controls.Keys
    ensures forall d | d in r.controls && d in Below(r, c) :: !r'.controls[d].enabled
    ensures forall d | d in r.controls && d !in Below(r, c) :: r'.controls[d] == r.controls[d]
    ensures forall d | d in r.controls :: r'.controls[d].(enabled := true) == r.controls[d].(enabled := true)
  {
    var below := Below(r, c);
    r.(controls := map d | d in r.controls :: if d in below then r.controls[d].(enabled := false) else r.controls[d])
  }
}
