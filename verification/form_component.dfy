/**
 * The form component: it holds a root field assembled from its `model`,
 * `fields` and `options` inputs, rebuilds the field tree when the tree's
 * inputs change, and listens on the form's change channel to keep the model
 * in step and to emit a copy of it after the form settles.
 *
 * Objects handed across the component boundary are modelled by an identity
 * and their contents, so that copying (`clone`) and sharing can be told apart.
 */
module FormComponent {
  import opened Wrappers
  import opened Values
  import opened Fields
  import opened Controls
  import opened ModelWriter

  /** The component's inputs. */
  datatype Input = FieldsInput | FormInput | ModelInput | OptionsInput

  /** `extras.checkExpressionOn`. */
  datatype CheckOn = OnModelChange | OnChangeDetectionCheck

  /** The configuration extras the component reads. */
  datatype Extras = Extras(checkExpressionOn: CheckOn, immutable: bool)

  /** The properties of the root field that the inputs set. */
  datatype Prop = ModelProp | FieldGroupProp | OptionsProp

  /** An object: its identity and its contents. */
  datatype Obj = Obj(ref: nat, data: Value)

  /**
   * The component's state: the root field's properties (by their object),
   * the root field's own identity, the form control, the identities of the
   * options objects that carry the `_checkField` callback, the live channel
   * subscription, the `useDebounce` flag of that subscription, and the next
   * fresh identities.
   */
  datatype Form = Form(
    extras: Extras,
    props: map<Prop, Obj>,
    rootRef: nat,
    formControl: Option<ControlId>,
    checkFieldOn: set<nat>,
    live: Option<nat>,
    nextSub: nat,
    useDebounce: bool,
    nextRef: nat)

  /** What the component does, in order. */
  datatype Effect =
    | BuildField
    | Unsubscribe(sub: nat)
    | Subscribe(sub: nat)
    | CheckField
    | DetectChanges
    | EmitModel(model: Obj)

  /** Every object the component holds has an identity older than `nextRef`. */
  predicate Valid(s: Form) {
    && s.rootRef < s.nextRef
    && (forall p | p in s.props :: s.props[p].ref < s.nextRef)
    && (forall n | n in s.checkFieldOn :: n < s.nextRef)
    && (s.live.Some? ==> s.live.value < s.nextSub)
  }

  /** The inputs whose change rebuilds the field tree. */
  const RebuildInputs: set<Input> := {FieldsInput, FormInput, ModelInput}

  /**
   * What the rebuild leaves on the root field for this component to read: an
   * options object, created empty when there was none, and the builder's
   * `_checkField` callback installed on it.
   */
  function EquipOptions(s: Form): (r: Form)
    requires Valid(s)
    ensures Valid(r)
    ensures CanCheck(r)
    ensures forall q | q in s.props :: q in r.props && r.props[q] == s.props[q]
    ensures r.props.Keys == s.props.Keys + {OptionsProp}
    ensures OptionsProp !in s.props ==> r.props[OptionsProp].ref >= s.nextRef
    ensures s.checkFieldOn <= r.checkFieldOn
    ensures r.live == s.live && r.nextSub == s.nextSub && r.formControl == s.formControl && r.extras == s.extras
  {
    if OptionsProp in s.props then
      s.(checkFieldOn := s.checkFieldOn + {s.props[OptionsProp].ref})
    else
      s.(props := s.props[OptionsProp := Obj(s.nextRef, Container(ObjectKind, map[]))],
         checkFieldOn := s.checkFieldOn + {s.nextRef},
         nextRef := s.nextRef + 1)
  }

  /**
   * `ngOnChanges`: when `fields`, `form` or `model` changed, rebuild the field
   * tree and subscribe to the change channel again, releasing the previous
   * subscription first; the new subscription starts with `useDebounce` off.
   * After a rebuild the options carry `_checkField`.
   */
  function NgOnChanges(s: Form, changed: set<Input>): (r: (Form, seq<Effect>))
    requires Valid(s)
    ensures Valid(r.0)
    ensures BuildField in r.1 <==> changed * RebuildInputs != {}
    ensures changed * RebuildInputs == {} ==> r == (s, [])
    ensures changed * RebuildInputs != {} ==>
              r.0.live == Some(s.nextSub) && !r.0.useDebounce &&
              r.1[|r.1| - 1] == Subscribe(s.nextSub) &&
              (s.live.Some? ==> r.1[1] == Unsubscribe(s.live.value)) &&
              CanCheck(r.0) && r.0.props.Keys == s.props.Keys + {OptionsProp}
    ensures forall q | q in s.props :: q in r.0.props && r.0.props[q] == s.props[q]
    ensures r.0.formControl == s.formControl
  {
    if changed * RebuildInputs != {} then
      var built := EquipOptions(s);
      (built.(live := Some(s.nextSub), nextSub := s.nextSub + 1, useDebounce := false),
       RebuildEffects(s.live, s.nextSub))
    else
      assert BuildField !in []; (s, [])
  }

  /** `options._checkField` is callable: options are set and the object in place carries the callback. */
  predicate CanCheck(s: Form) {
    OptionsProp in s.props && s.props[OptionsProp].ref in s.checkFieldOn
  }

  /** `ngDoCheck`: re-check expressions only under `checkExpressionOn: 'changeDetectionCheck'`. */
  function NgDoCheck(s: Form): (r: (Form, seq<Effect>))
    ensures r.0 == s
    ensures r.1 == [CheckField] <==> s.extras.checkExpressionOn == OnChangeDetectionCheck && CanCheck(s)
    ensures r.1 == [] <==> !(s.extras.checkExpressionOn == OnChangeDetectionCheck && CanCheck(s))
  {
    if s.extras.checkExpressionOn == OnChangeDetectionCheck && CanCheck(s) then (s, [CheckField]) else (s, [])
  }

  /** `ngOnDestroy`: release the channel subscription. */
  function NgOnDestroy(s: Form): (r: (Form, seq<Effect>))
    ensures r.0.live.None?
    ensures s.live.Some? ==> r.1 == [Unsubscribe(s.live.value)]
    ensures s.live.None? <==> r.1 == []
  {
    (s.(live := None), if s.live.Some? then [Unsubscribe(s.live.value)] else [])
  }

  /**
   * `setField({p: o})`: a new root field holding the old properties with `p`
   * replaced; under `immutable` the stored object is a copy of `o`, otherwise
   * `o` itself. The field is not rebuilt, so new options carry `_checkField`
   * only when the object passed in already did (a copy takes its properties,
   * the callback among them).
   */
  function SetField(s: Form, p: Prop, o: Obj): (r: Form)
    requires Valid(s)
    ensures Valid(r)
    ensures p in r.props && r.props[p].data == o.data
    ensures s.extras.immutable ==> r.props[p].ref != o.ref && r.props[p].ref >= s.nextRef
    ensures !s.extras.immutable ==> r.props[p] == o
    ensures forall q | q in s.props && q != p :: q in r.props && r.props[q] == s.props[q]
    ensures r.props.Keys == s.props.Keys + {p}
    ensures r.rootRef >= s.nextRef
    ensures p == OptionsProp ==> (CanCheck(r) <==> o.ref in s.checkFieldOn)
    ensures p != OptionsProp ==> (CanCheck(r) <==> CanCheck(s))
    ensures p != OptionsProp || o.ref !in s.checkFieldOn ==> r.checkFieldOn == s.checkFieldOn
    ensures r.formControl == s.formControl && r.live == s.live && r.extras == s.extras
    ensures r.nextSub == s.nextSub && r.useDebounce == s.useDebounce
  {
    var n := if o.ref < s.nextRef then s.nextRef else o.ref + 1;
    if s.extras.immutable then
      var carried := if p == OptionsProp && o.ref in s.checkFieldOn then {n} else {};
      s.(props := s.props[p := Obj(n, o.data)], rootRef := n + 1, nextRef := n + 2,
         checkFieldOn := s.checkFieldOn + carried)
    else
      s.(props := s.props[p := o], rootRef := n, nextRef := n + 1)
  }

  /** The `form` input is stored on the current root field, without copying. */
  function SetForm(s: Form, c: ControlId): (r: Form)
    ensures r.formControl == Some(c)
    ensures r.props == s.props && r.rootRef == s.rootRef
  {
    s.(formControl := Some(c))
  }

  /** Without `immutable`, setting two different properties in either order gives the same contents. */
  lemma SetFieldCommutes(s: Form, p: Prop, o: Obj, q: Prop, o': Obj)
    requires Valid(s)
    requires p != q && !s.extras.immutable
    ensures SetField(SetField(s, p, o), q, o').props == SetField(SetField(s, q, o'), p, o).props
  {
    var sp, sq := SetField(s, p, o), SetField(s, q, o');
    assert SetField(sp, q, o').props == s.props[p := o][q := o'];
    assert SetField(sq, p, o).props == s.props[q := o'][p := o];
  }

  /** The model object can receive writes: it is set and it is an object or array. */
  predicate ModelReady(s: Form) {
    ModelProp in s.props && s.props[ModelProp].data.Container?
  }

  /** The contents of the model object. */
  function ModelProps(s: Form): Props
    requires ModelReady(s)
  {
    s.props[ModelProp].data.props
  }

  /**
   * The channel's `tap`: items of any type but `valueChanges` are dropped;
   * for a `valueChanges` item the value is written into the model object in
   * place, by the same rule the field component uses.
   */
  function OnFieldChange(s: Form, e: Event, c: Control): (r: Form)
    requires e.eventType == ValueChanges ==> ModelReady(s) && HasKey(e.field) && ParentReachable(ModelProps(s), e.field)
    ensures e.eventType != ValueChanges ==> r == s
    ensures e.eventType == ValueChanges ==>
              ModelReady(r) && r.props[ModelProp].ref == s.props[ModelProp].ref &&
              ModelProps(r) == WriteModel(ModelProps(s), e.field, c, e.value)
    ensures r.props.Keys == s.props.Keys
    ensures forall q | q in s.props && q != ModelProp :: r.props[q] == s.props[q]
  {
    if e.eventType != ValueChanges then s
    else
      var m := s.props[ModelProp];
      s.(props := s.props[ModelProp := Obj(m.ref, Container(m.data.kind, WriteModel(ModelProps(s), e.field, c, e.value)))])
  }

  /**
   * The field component writes the value before emitting the item; the form's
   * write of the same item changes nothing more.
   */
  lemma FormRepeatsFieldWrite(s: Form, f: Field, c: Control, apply: (ParserId, Value) -> Value, raw: Value)
    requires ModelReady(s) && HasKey(f) && ParentReachable(ModelProps(s), f)
    ensures var (written, e) := HandleValue(ModelProps(s), f, c, apply, raw);
            var s1 := s.(props := s.props[ModelProp := Obj(s.props[ModelProp].ref, Container(s.props[ModelProp].data.kind, written))]);
            ModelReady(s1) && ParentReachable(ModelProps(s1), f) &&
            ModelProps(OnFieldChange(s1, e, c)) == written
  {
    var (written, e) := HandleValue(ModelProps(s), f, c, apply, raw);
    WriteModelIdempotent(ModelProps(s), f, c, e.value);
  }

  /** The pause `debounce(() => useDebounce ? timer(100) : of())` puts on an item, in milliseconds. */
  function DelayFor(s: Form): (ms: nat)
    ensures ms > 0 <==> s.useDebounce
  {
    if s.useDebounce then 100 else 0
  }

  /** `this.model`: the root field's model, `undefined` when none was set. */
  function Model(s: Form): (v: Value)
    ensures ModelProp !in s.props ==> v.Undefined?
  {
    if ModelProp in s.props then s.props[ModelProp].data else Undefined
  }

  /**
   * The subscriber body, run once the form's value has settled: with
   * `useDebounce` on, re-check expressions, run change detection and emit a
   * copy of the model, then turn `useDebounce` off. `during` is the state
   * seen by items that change detection puts on the channel.
   */
  function Settle(s: Form): (r: (Form, Form, seq<Effect>))
    requires Valid(s)
    ensures var (during, after, effs) := r;
            && during.useDebounce && DelayFor(during) == 100
            && !after.useDebounce && DelayFor(after) == 0
            && Valid(after) && after.props == s.props && after.live == s.live
            && after.checkFieldOn == s.checkFieldOn && (CanCheck(after) <==> CanCheck(s))
            && |effs| > 0 && effs[|effs| - 1].EmitModel?
            && effs[|effs| - 1].model.data == (if ModelProp in s.props then s.props[ModelProp].data else Undefined)
            && (forall q | q in s.props :: effs[|effs| - 1].model.ref != s.props[q].ref)
            && (CheckField in effs <==> CanCheck(s))
            && DetectChanges in effs
            && (forall e | e in effs :: !e.Subscribe? && !e.Unsubscribe?)
  {
    var during := s.(useDebounce := true);
    var copy := Obj(s.nextRef, Model(s));
    var effs := (if CanCheck(s) then [CheckField] else []) + [DetectChanges, EmitModel(copy)];
    (during, s.(useDebounce := false, nextRef := s.nextRef + 1), effs)
  }

  /**
   * The emitted model is a copy: a receiver that overwrites the emitted
   * object's contents leaves the form's own model object as it was.
   */
  lemma EmittedModelIsCopy(s: Form, contents: Value)
    requires Valid(s) && ModelProp in s.props
    ensures var (_, after, effs) := Settle(s);
            var emitted := effs[|effs| - 1].model;
            Overwrite(after, emitted.ref, contents).props[ModelProp] == s.props[ModelProp]
  {
  }

  /** Another holder of object `ref` replaces its contents. */
  function Overwrite(s: Form, ref: nat, contents: Value): (r: Form)
    ensures r.props.Keys == s.props.Keys
    ensures forall q | q in s.props :: r.props[q].ref == s.props[q].ref
    ensures forall q | q in s.props :: r.props[q].data == if s.props[q].ref == ref then contents else s.props[q].data
  {
    s.(props := map q | q in s.props :: if s.props[q].ref == ref then Obj(ref, contents) else s.props[q])
  }

  /**
   * Without `immutable` the model object is shared with whoever passed it in,
   * so their later changes are the form's; with `immutable` they are not.
   */
  lemma ModelInputSharing(s: Form, o: Obj, contents: Value)
    requires Valid(s)
    ensures var r := SetField(s, ModelProp, o);
            Overwrite(r, o.ref, contents).props[ModelProp].data ==
              if s.extras.immutable then o.data else contents
  {
  }

  // ---------------------------------------------------------------------------
  // The component's life

  /** What the component is asked to do, one call at a time. */
  datatype Call =
    | InputsChanged(changed: set<Input>)
    | InputSet(p: Prop, o: Obj)
    | FormSet(c: ControlId)
    | DoCheck
    | Destroy
    | Settled

  /** One call; the subscriber body runs only while a subscription is live. */
  function Step(s: Form, c: Call): (r: (Form, seq<Effect>))
    requires Valid(s)
    ensures Valid(r.0)
  {
    match c
    case InputsChanged(changed) => NgOnChanges(s, changed)
    case InputSet(p, o) => (SetField(s, p, o), [])
    case FormSet(id) => (SetForm(s, id), [])
    case DoCheck => NgDoCheck(s)
    case Destroy => NgOnDestroy(s)
    case Settled => if s.live.Some? then (Settle(s).1, Settle(s).2) else (s, [])
  }

  /** A sequence of calls, with the effects of each in turn. */
  function Run(s: Form, cs: seq<Call>): (r: (Form, seq<Effect>))
    requires Valid(s)
    ensures Valid(r.0)
    decreases |cs|
  {
    if |cs| == 0 then (s, [])
    else
      var (s1, e1) := Step(s, cs[0]);
      var (s2, e2) := Run(s1, cs[1..]);
      (s2, e1 + e2)
  }

  /** The subscriptions open after `effs`, starting from `open`. */
  function Outstanding(open: set<nat>, effs: seq<Effect>): (still: set<nat>)
    decreases |effs|
  {
    if |effs| == 0 then open
    else
      var next := match effs[0]
        case Subscribe(n) => open + {n}
        case Unsubscribe(n) => open - {n}
        case _ => open;
      Outstanding(next, effs[1..])
  }

  lemma {:induction false} OutstandingAppend(open: set<nat>, a: seq<Effect>, b: seq<Effect>)
    ensures Outstanding(open, a + b) == Outstanding(Outstanding(open, a), b)
    decreases |a|
  {
    if |a| > 0 {
      assert (a + b)[0] == a[0];
      assert (a + b)[1..] == a[1..] + b;
      var next := match a[0]
        case Subscribe(n) => open + {n}
        case Unsubscribe(n) => open - {n}
        case _ => open;
      OutstandingAppend(next, a[1..], b);
    } else {
      assert a + b == b;
    }
  }

  /** Effects that neither open nor release a subscription leave the open set alone. */
  lemma {:induction false} OutstandingQuiet(open: set<nat>, effs: seq<Effect>)
    requires forall e | e in effs :: !e.Subscribe? && !e.Unsubscribe?
    ensures Outstanding(open, effs) == open
    decreases |effs|
  {
    if |effs| > 0 {
      assert effs[0] in effs;
      assert forall e | e in effs[1..] :: e in effs;
      OutstandingQuiet(open, effs[1..]);
    }
  }

  /** The live subscription, as a set. */
  function LiveSet(s: Form): (r: set<nat>)
    ensures |r| <= 1
  {
    if s.live.Some? then {s.live.value} else {}
  }

  /** The effects of a rebuild, releasing `live` first. */
  function RebuildEffects(live: Option<nat>, n: nat): (effs: seq<Effect>)
    ensures BuildField in effs && effs[|effs| - 1] == Subscribe(n)
  {
    [BuildField] + (if live.Some? then [Unsubscribe(live.value)] else []) + [Subscribe(n)]
  }

  /** A rebuild's effects leave open exactly the new subscription. */
  lemma RebuildOutstanding(live: Option<nat>, n: nat)
    ensures Outstanding(if live.Some? then {live.value} else {}, RebuildEffects(live, n)) == {n}
  {
    var open: set<nat> := if live.Some? then {live.value} else {};
    var released: seq<Effect> := if live.Some? then [Unsubscribe(live.value)] else [];
    OutstandingAppend(open, [BuildField] + released, [Subscribe(n)]);
    OutstandingAppend(open, [BuildField], released);
    assert Outstanding(open, [BuildField]) == open;
    assert Outstanding(open, released) == {};
  }

  lemma ChangesOutstanding(s: Form, changed: set<Input>)
    requires Valid(s)
    ensures Outstanding(LiveSet(s), NgOnChanges(s, changed).1) == LiveSet(NgOnChanges(s, changed).0)
  {
    if changed * RebuildInputs != {} {
      RebuildOutstanding(s.live, s.nextSub);
    }
  }

  lemma SettledOutstanding(s: Form)
    requires Valid(s)
    ensures Outstanding(LiveSet(s), Step(s, Settled).1) == LiveSet(Step(s, Settled).0)
  {
    if s.live.Some? {
      OutstandingQuiet(LiveSet(s), Settle(s).2);
    }
  }

  lemma StepOutstanding(s: Form, c: Call)
    requires Valid(s)
    ensures Outstanding(LiveSet(s), Step(s, c).1) == LiveSet(Step(s, c).0)
  {
    match c
    case InputsChanged(changed) => ChangesOutstanding(s, changed);
    case InputSet(_, _) =>
    case FormSet(_) =>
    case DoCheck => OutstandingQuiet(LiveSet(s), NgDoCheck(s).1);
    case Destroy =>
    case Settled => SettledOutstanding(s);
  }

  /**
   * Every subscription to the change channel is released before the next is
   * made and on destroy: over any sequence of calls, the subscriptions opened
   * and not released are exactly the live one, so at most one is open.
   */
  lemma {:induction false} AtMostOneSubscription(s: Form, cs: seq<Call>)
    requires Valid(s)
    ensures Outstanding(LiveSet(s), Run(s, cs).1) == LiveSet(Run(s, cs).0)
    ensures |Outstanding(LiveSet(s), Run(s, cs).1)| <= 1
    decreases |cs|
  {
    if |cs| > 0 {
      var (s1, e1) := Step(s, cs[0]);
      StepOutstanding(s, cs[0]);
      AtMostOneSubscription(s1, cs[1..]);
      OutstandingAppend(LiveSet(s), e1, Run(s1, cs[1..]).1);
    }
  }

  /**
   * A call that neither rebuilds the tree nor hands in an options object that
   * already carries `_checkField` (one of `equipped`).
   */
  predicate KeepsOptions(c: Call, equipped: set<nat>) {
    match c
    case InputsChanged(changed) => changed * RebuildInputs == {}
    case InputSet(p, o) => p == OptionsProp ==> o.ref !in equipped
    case _ => true
  }

  lemma StepKeepsNoCheck(s: Form, c: Call)
    requires Valid(s) && !CanCheck(s) && KeepsOptions(c, s.checkFieldOn)
    ensures CheckField !in Step(s, c).1
    ensures !CanCheck(Step(s, c).0) && Step(s, c).0.checkFieldOn == s.checkFieldOn
  {
  }

  /**
   * Options without `_checkField` stay without it until the tree is rebuilt:
   * no call before the rebuild re-checks expressions.
   */
  lemma {:induction false} NoCheckUntilRebuild(s: Form, cs: seq<Call>)
    requires Valid(s) && !CanCheck(s)
    requires forall i | 0 <= i < |cs| :: KeepsOptions(cs[i], s.checkFieldOn)
    ensures CheckField !in Run(s, cs).1
    ensures !CanCheck(Run(s, cs).0) && Run(s, cs).0.checkFieldOn == s.checkFieldOn
    decreases |cs|
  {
    if |cs| > 0 {
      var (s1, e1) := Step(s, cs[0]);
      StepKeepsNoCheck(s, cs[0]);
      assert forall i | 0 <= i < |cs[1..]| :: cs[1..][i] == cs[i + 1];
      NoCheckUntilRebuild(s1, cs[1..]);
    }
  }

  /**
   * Handing the form a new options object that does not carry `_checkField`
   * stops the re-checks, even in a form that made them, until the next
   * rebuild.
   */
  lemma NewOptionsStopChecks(s: Form, o: Obj, cs: seq<Call>)
    requires Valid(s) && o.ref !in s.checkFieldOn
    requires forall i | 0 <= i < |cs| :: KeepsOptions(cs[i], s.checkFieldOn)
    ensures CheckField !in Run(s, [InputSet(OptionsProp, o)] + cs).1
  {
    var all := [InputSet(OptionsProp, o)] + cs;
    assert all[0] == InputSet(OptionsProp, o) && all[1..] == cs;
    var s1 := SetField(s, OptionsProp, o);
    NoCheckUntilRebuild(s1, cs);
  }
}
