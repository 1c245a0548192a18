/**
 * The per-field component: it forwards lifecycle callbacks to the field's
 * hooks, re-renders when its `field` input changes, and keeps one
 * subscription to the field's control whose values go through the
 * parse / write / emit pipeline of `ModelWriter`.
 *
 * Rendering itself (creating components into a container) is outside the
 * model; a render is represented by the references of the components it
 * created, supplied by the caller.
 */
module FieldComponent {
  import opened Wrappers
  import opened Values
  import opened Fields
  import opened Controls
  import opened ModelWriter

  /** A reference to a mounted component, kept in `_componentRefs`. */
  type RefId = nat

  /** A subscription handle. */
  type SubId = nat

  /** The `field` entry of `SimpleChanges`: the new field and whether this is its first value. */
  datatype FieldChange = FieldChange(current: Field, firstChange: bool)

  /** The `SimpleChanges` given to `ngOnChanges`, as far as the component reads it. */
  datatype Changes = Changes(field: Option<FieldChange>)

  /** What the component does, in order. */
  datatype Effect =
    | CallHook(hook: Hook, arg: Field)
    | ClearRefs
    | Mount(refs: seq<RefId>)
    | Unsubscribe(sub: SubId)
    | Subscribe(sub: SubId)

  /**
   * The component's state: its field, the field's `_componentRefs`, the live
   * value subscription (none when the stored unsubscriber is the no-op) and
   * the next fresh subscription handle.
   */
  datatype Comp = Comp(field: Field, refs: seq<RefId>, live: Option<SubId>, nextSub: SubId)

  /** A freshly created component for `f`: nothing mounted, no-op unsubscriber. */
  function NewComp(f: Field): Comp {
    Comp(f, [], None, 0)
  }

  /** The changes carry a `field` entry. */
  predicate FieldChanged(changes: Option<Changes>) {
    changes.Some? && changes.value.field.Some?
  }

  /** The changes carry a `field` entry that is not its first value. */
  predicate FieldReplaced(changes: Option<Changes>) {
    FieldChanged(changes) && !changes.value.field.value.firstChange
  }

  /** Only fields with a key and without a group listen to their control. */
  predicate Subscribes(f: Field) {
    HasKey(f) && IsLeaf(f)
  }

  /**
   * `valueChanges(field)`: release the previous subscription, then subscribe
   * again when the field has a key and no group; otherwise keep a no-op.
   */
  function Resubscribe(s: Comp): (r: (Comp, seq<Effect>))
    ensures r.0.field == s.field && r.0.refs == s.refs
    ensures s.live.Some? ==> |r.1| > 0 && r.1[0] == Unsubscribe(s.live.value)
    ensures r.0.live.Some? <==> Subscribes(s.field)
    ensures r.0.live.Some? ==> |r.1| > 0 && r.1[|r.1| - 1] == Subscribe(r.0.live.value) && r.0.live.value == s.nextSub
    ensures forall e | e in r.1 :: e.Unsubscribe? || e.Subscribe?
    ensures r.0.nextSub >= s.nextSub
  {
    var released := if s.live.Some? then [Unsubscribe(s.live.value)] else [];
    if Subscribes(s.field) then
      (s.(live := Some(s.nextSub), nextSub := s.nextSub + 1), released + [Subscribe(s.nextSub)])
    else
      (s.(live := None), released)
  }

  /**
   * `triggerHook(name, changes)`: call the field's hook with the field when it
   * is present (for `onChanges` only when `field` changed), re-render on a
   * `field` change, and resubscribe on `onInit` or on a later `field` change.
   */
  function TriggerHook(s: Comp, name: Hook, changes: Option<Changes>, mounted: seq<RefId>): (r: (Comp, seq<Effect>))
    requires name == OnChanges ==> changes.Some?
    ensures r.0.field == s.field
    ensures (CallHook(name, s.field) in r.1) <==>
              name in s.field.hooks && (changes.None? || FieldChanged(changes))
    ensures forall i | 0 <= i < |r.1| && r.1[i].CallHook? :: i == 0 && r.1[i] == CallHook(name, s.field)
    ensures (Mount(mounted) in r.1) <==> name == OnChanges && FieldChanged(changes)
    ensures r.0.refs == if name == OnChanges && FieldChanged(changes) then mounted else s.refs
    ensures (exists i | 0 <= i < |r.1| :: r.1[i].Subscribe? || r.1[i].Unsubscribe?) ==>
              name == OnInit || (name == OnChanges && FieldReplaced(changes))
    ensures name != OnInit && !(name == OnChanges && FieldReplaced(changes)) ==> r.0.live == s.live
  {
    var hookCall := if name in s.field.hooks && (changes.None? || changes.value.field.Some?)
      then [CallHook(name, s.field)] else [];
    var rendered := name == OnChanges && changes.value.field.Some?;
    var s1 := if rendered then s.(refs := mounted) else s;
    var renderEffects := if rendered then [ClearRefs, Mount(mounted)] else [];
    if name == OnInit || (name == OnChanges && changes.value.field.Some? && !changes.value.field.value.firstChange) then
      var (s2, subEffects) := Resubscribe(s1);
      (s2, hookCall + renderEffects + subEffects)
    else
      (s1, hookCall + renderEffects)
  }

  /** `ngOnInit`. */
  function NgOnInit(s: Comp): (r: (Comp, seq<Effect>))
    ensures r.0.field == s.field && r.0.refs == s.refs
    ensures (CallHook(OnInit, s.field) in r.1) <==> OnInit in s.field.hooks
    ensures r.0.live.Some? <==> Subscribes(s.field)
    ensures s.live.Some? ==> Unsubscribe(s.live.value) in r.1
  {
    TriggerHook(s, OnInit, None, [])
  }

  /** `ngOnChanges`: Angular sets the new `field` input before the callback. */
  function NgOnChanges(s: Comp, changes: Changes, mounted: seq<RefId>): (r: (Comp, seq<Effect>))
    ensures changes.field.None? ==> r == (s, [])
    ensures changes.field.Some? ==>
              var f := changes.field.value.current;
              && r.0.field == f && r.0.refs == mounted && Mount(mounted) in r.1
              && ((CallHook(OnChanges, f) in r.1) <==> OnChanges in f.hooks)
              && (changes.field.value.firstChange ==> r.0.live == s.live)
              && (!changes.field.value.firstChange ==> (r.0.live.Some? <==> Subscribes(f)))
  {
    var s1 := if changes.field.Some? then s.(field := changes.field.value.current) else s;
    TriggerHook(s1, OnChanges, Some(changes), mounted)
  }

  /** `ngOnDestroy`: clear `_componentRefs`, release the subscription, then call the hook. */
  function NgOnDestroy(s: Comp): (r: (Comp, seq<Effect>))
    ensures r.0.refs == [] && r.0.live.None?
    ensures |r.1| > 0 && r.1[0] == ClearRefs
    ensures s.live.Some? ==> |r.1| > 1 && r.1[1] == Unsubscribe(s.live.value)
    ensures s.live.None? ==> Unsubscribe(0) !in r.1 && forall e | e in r.1 :: !e.Unsubscribe?
    ensures (CallHook(OnDestroy, s.field) in r.1) <==> OnDestroy in s.field.hooks
    ensures OnDestroy in s.field.hooks ==> r.1[|r.1| - 1] == CallHook(OnDestroy, s.field)
  {
    var released := if s.live.Some? then [Unsubscribe(s.live.value)] else [];
    var s1 := s.(refs := [], live := None);
    var (s2, hook) := TriggerHook(s1, OnDestroy, None, []);
    (s2, [ClearRefs] + released + hook)
  }

  /** One lifecycle callback; `changes` and `mounted` are read by `onChanges` only. */
  datatype Tick = Tick(hook: Hook, changes: Changes, mounted: seq<RefId>)

  /** Deliver one lifecycle callback to the component. */
  function Step(s: Comp, t: Tick): (Comp, seq<Effect>) {
    match t.hook
    case OnInit => NgOnInit(s)
    case OnChanges => NgOnChanges(s, t.changes, t.mounted)
    case OnDestroy => NgOnDestroy(s)
    case _ => TriggerHook(s, t.hook, None, [])
  }

  /** Deliver a sequence of lifecycle callbacks, collecting the effects in order. */
  function Run(s: Comp, ts: seq<Tick>): (Comp, seq<Effect>)
    decreases |ts|
  {
    if |ts| == 0 then (s, [])
    else
      var (s1, e1) := Step(s, ts[0]);
      var (s2, e2) := Run(s1, ts[1..]);
      (s2, e1 + e2)
  }

  // ---------------------------------------------------------------------------
  // Mounted references never accumulate

  /** The tick re-renders the component into its own container. */
  predicate Renders(t: Tick) {
    t.hook == OnChanges && t.changes.field.Some?
  }

  /**
   * The references held after a sequence of callbacks, read off the sequence:
   * those of the last render, or none after a later destroy, or the initial
   * ones when neither happened.
   */
  function LastRefs(initial: seq<RefId>, ts: seq<Tick>): (refs: seq<RefId>)
    decreases |ts|
  {
    if |ts| == 0 then initial
    else
      var t := ts[|ts| - 1];
      if Renders(t) then t.mounted
      else if t.hook == OnDestroy then []
      else LastRefs(initial, ts[..|ts| - 1])
  }

  /** One step keeps exactly the references `LastRefs` predicts for that step. */
  lemma StepRefs(s: Comp, t: Tick)
    ensures Step(s, t).0.refs == LastRefs(s.refs, [t])
  {
  }

  /** `LastRefs` over a sequence is `LastRefs` of its tail started from its head's result. */
  lemma {:induction false} LastRefsCons(initial: seq<RefId>, t: Tick, ts: seq<Tick>)
    ensures LastRefs(initial, [t] + ts) == LastRefs(LastRefs(initial, [t]), ts)
    decreases |ts|
  {
    if |ts| == 0 {
      assert [t] + ts == [t];
    } else {
      var all := [t] + ts;
      assert all[|all| - 1] == ts[|ts| - 1];
      assert all[..|all| - 1] == [t] + ts[..|ts| - 1];
      LastRefsCons(initial, t, ts[..|ts| - 1]);
    }
  }

  /**
   * Rendering resets `_componentRefs` before mounting, so after any sequence
   * of callbacks the component holds only the references of the last render
   * (none after a destroy): references never accumulate across rebuilds.
   */
  lemma {:induction false} RefsNeverAccumulate(s: Comp, ts: seq<Tick>)
    ensures Run(s, ts).0.refs == LastRefs(s.refs, ts)
    decreases |ts|
  {
    if |ts| > 0 {
      var s1 := Step(s, ts[0]).0;
      RefsNeverAccumulate(s1, ts[1..]);
      StepRefs(s, ts[0]);
      LastRefsCons(s.refs, ts[0], ts[1..]);
      assert [ts[0]] + ts[1..] == ts;
    }
  }

  // ---------------------------------------------------------------------------
  // At most one live subscription

  /** The subscriptions left open after a run of effects, starting from `open`. */
  function Outstanding(open: set<SubId>, effs: seq<Effect>): (still: set<SubId>)
    decreases |effs|
  {
    if |effs| == 0 then open
    else
      var next := match effs[0]
        case Subscribe(n) => open + {n}
        case Unsubscribe(n) => open - {n}
        case _ => open;
      Outstanding(next, effs[1..])
  }

  lemma {:induction false} OutstandingAppend(open: set<SubId>, a: seq<Effect>, b: seq<Effect>)
    ensures Outstanding(open, a + b) == Outstanding(Outstanding(open, a), b)
    decreases |a|
  {
    if |a| > 0 {
      assert (a + b)[1..] == a[1..] + b;
      var next := match a[0]
        case Subscribe(n) => open + {n}
        case Unsubscribe(n) => open - {n}
        case _ => open;
      OutstandingAppend(next, a[1..], b);
    } else {
      assert a + b == b;
    }
  }

  /** Effects that do not touch subscriptions leave the open set alone. */
  lemma {:induction false} OutstandingQuiet(open: set<SubId>, effs: seq<Effect>)
    requires forall i | 0 <= i < |effs| :: !effs[i].Subscribe? && !effs[i].Unsubscribe?
    ensures Outstanding(open, effs) == open
    decreases |effs|
  {
    if |effs| > 0 {
      OutstandingQuiet(open, effs[1..]);
    }
  }

  /** The live subscription as a set. */
  function LiveSet(s: Comp): set<SubId> {
    if s.live.Some? then {s.live.value} else {}
  }

  /** The live handle, when there is one, is older than the next fresh handle. */
  predicate Fresh(s: Comp) {
    s.live.Some? ==> s.live.value < s.nextSub
  }

  lemma ResubscribeOutstanding(s: Comp)
    requires Fresh(s)
    ensures Fresh(Resubscribe(s).0)
    ensures Outstanding(LiveSet(s), Resubscribe(s).1) == LiveSet(Resubscribe(s).0)
  {
    var released: seq<Effect> := if s.live.Some? then [Unsubscribe(s.live.value)] else [];
    assert Outstanding(LiveSet(s), released) == {} by {
      if s.live.Some? {
        assert Outstanding({} , released[1..]) == {};
      }
    }
    if Subscribes(s.field) {
      OutstandingAppend(LiveSet(s), released, [Subscribe(s.nextSub)]);
      assert Outstanding({s.nextSub}, []) == {s.nextSub};
    }
  }

  lemma TriggerHookOutstanding(s: Comp, name: Hook, changes: Option<Changes>, mounted: seq<RefId>)
    requires name == OnChanges ==> changes.Some?
    requires Fresh(s)
    ensures Fresh(TriggerHook(s, name, changes, mounted).0)
    ensures Outstanding(LiveSet(s), TriggerHook(s, name, changes, mounted).1) ==
              LiveSet(TriggerHook(s, name, changes, mounted).0)
  {
    var hookCall := if name in s.field.hooks && (changes.None? || changes.value.field.Some?)
      then [CallHook(name, s.field)] else [];
    var rendered := name == OnChanges && changes.value.field.Some?;
    var s1 := if rendered then s.(refs := mounted) else s;
    var renderEffects := if rendered then [ClearRefs, Mount(mounted)] else [];
    OutstandingQuiet(LiveSet(s), hookCall + renderEffects);
    if name == OnInit || (name == OnChanges && changes.value.field.Some? && !changes.value.field.value.firstChange) {
      ResubscribeOutstanding(s1);
      OutstandingAppend(LiveSet(s), hookCall + renderEffects, Resubscribe(s1).1);
    }
  }

  lemma StepOutstanding(s: Comp, t: Tick)
    requires Fresh(s)
    ensures Fresh(Step(s, t).0)
    ensures Outstanding(LiveSet(s), Step(s, t).1) == LiveSet(Step(s, t).0)
  {
    match t.hook
    case OnInit =>
      TriggerHookOutstanding(s, OnInit, None, []);
    case OnChanges =>
      var s1 := if t.changes.field.Some? then s.(field := t.changes.field.value.current) else s;
      TriggerHookOutstanding(s1, OnChanges, Some(t.changes), t.mounted);
    case OnDestroy =>
      var released: seq<Effect> := if s.live.Some? then [Unsubscribe(s.live.value)] else [];
      var s1 := s.(refs := [], live := None);
      var hook := TriggerHook(s1, OnDestroy, None, []).1;
      TriggerHookOutstanding(s1, OnDestroy, None, []);
      OutstandingAppend(LiveSet(s), [ClearRefs] + released, hook);
      OutstandingAppend(LiveSet(s), [ClearRefs], released);
      assert Outstanding(LiveSet(s), [ClearRefs]) == LiveSet(s);
      if s.live.Some? {
        assert Outstanding({}, released[1..]) == {};
      }
    case _ =>
      TriggerHookOutstanding(s, t.hook, None, []);
  }

  /**
   * Every subscription made is released before the next one is made: over
   * any sequence of callbacks, the subscriptions opened and not yet released
   * are exactly the component's live one, so at most one is open at a time.
   */
  lemma {:induction false} AtMostOneSubscription(s: Comp, ts: seq<Tick>)
    requires Fresh(s)
    ensures Fresh(Run(s, ts).0)
    ensures Outstanding(LiveSet(s), Run(s, ts).1) == LiveSet(Run(s, ts).0)
    ensures |Outstanding(LiveSet(s), Run(s, ts).1)| <= 1
    decreases |ts|
  {
    if |ts| > 0 {
      var (s1, e1) := Step(s, ts[0]);
      StepOutstanding(s, ts[0]);
      AtMostOneSubscription(s1, ts[1..]);
      OutstandingAppend(LiveSet(s), e1, Run(s1, ts[1..]).1);
    }
  }

  // ---------------------------------------------------------------------------
  // The value pipeline

  /**
   * How the control's value stream is set up: duplicate suppression, an
   * initial value to emit at once, and a debounce time.
   */
  datatype Plan = Plan(distinct: bool, startWith: Option<Value>, debounceMs: Option<int>)

  /** `(!updateOn || updateOn === 'change') && debounce && debounce.default > 0`. */
  predicate UsesDebounce(mo: ModelOptions) {
    (mo.updateOn.None? || mo.updateOn == Some(Change)) && mo.debounceDefault.Some? && mo.debounceDefault.value > 0
  }

  /**
   * The stream set up for a field whose control holds `controlValue` while the
   * model holds `modelValue`. With debounce the stream is rebuilt from the
   * control's raw changes, so neither duplicate suppression nor the initial
   * value survive.
   */
  function PlanFor(f: Field, controlValue: Value, modelValue: Value): (p: Plan)
    ensures f.modelOptions.updateOn == Some(Blur) || f.modelOptions.updateOn == Some(Submit) ==> p.debounceMs.None?
    ensures f.modelOptions.debounceDefault.None? ==> p.debounceMs.None?
    ensures p.debounceMs.Some? ==> p.debounceMs == f.modelOptions.debounceDefault && p.debounceMs.value > 0
    ensures p.debounceMs.None? && (f.modelOptions.updateOn.None? || f.modelOptions.updateOn == Some(Change)) ==>
              f.modelOptions.debounceDefault.None? || f.modelOptions.debounceDefault.value <= 0
    ensures p.debounceMs.None? ==> p.distinct && (p.startWith.Some? <==> !LooseEquals(controlValue, modelValue))
    ensures p.startWith.Some? ==> p.startWith.value == controlValue
    ensures p.debounceMs.Some? ==> !p.distinct && p.startWith.None?
  {
    if UsesDebounce(f.modelOptions) then Plan(false, None, f.modelOptions.debounceDefault)
    else Plan(true, if !LooseEquals(controlValue, modelValue) then Some(controlValue) else None, None)
  }

  /** `distinctUntilChanged()`: drop every value equal to the one just before it. */
  function Distinct(vs: seq<Value>): (r: seq<Value>)
    ensures forall i | 0 <= i < |r| - 1 :: r[i] != r[i + 1]
    ensures |vs| > 0 ==> |r| > 0 && r[0] == vs[0] && r[|r| - 1] == vs[|vs| - 1]
    ensures forall x | x in r :: x in vs
    ensures |r| <= |vs|
    decreases |vs|
  {
    if |vs| <= 1 then vs
    else if vs[0] == vs[1] then Distinct(vs[1..])
    else [vs[0]] + Distinct(vs[1..])
  }

  /** A stream with no two equal neighbours passes duplicate suppression unchanged. */
  lemma {:induction false} DistinctKeepsDistinct(vs: seq<Value>)
    requires forall i | 0 <= i < |vs| - 1 :: vs[i] != vs[i + 1]
    ensures Distinct(vs) == vs
    decreases |vs|
  {
    if |vs| > 1 {
      DistinctKeepsDistinct(vs[1..]);
    }
  }

  /**
   * Duplicate suppression as a stream operator: a new value is passed on
   * exactly when it differs from the value that arrived just before it.
   * With `Distinct([]) == []` this determines `Distinct` completely.
   */
  lemma {:induction false} DistinctAppend(vs: seq<Value>, x: Value)
    ensures Distinct(vs + [x]) == if |vs| > 0 && vs[|vs| - 1] == x then Distinct(vs) else Distinct(vs) + [x]
    decreases |vs|
  {
    if |vs| == 1 {
      assert vs + [x] == [vs[0], x];
    } else if |vs| > 1 {
      var ws := vs + [x];
      assert ws[0] == vs[0] && ws[1] == vs[1] && ws[1..] == vs[1..] + [x];
      DistinctStep(ws);
      DistinctStep(vs);
      DistinctAppend(vs[1..], x);
      TailKeepsLast(vs);
      if vs[0] != vs[1] {
        assert [vs[0]] + (Distinct(vs[1..]) + [x]) == ([vs[0]] + Distinct(vs[1..])) + [x];
      }
    }
  }

  lemma TailKeepsLast(vs: seq<Value>)
    requires |vs| > 1
    ensures |vs[1..]| > 0 && vs[1..][|vs[1..]| - 1] == vs[|vs| - 1]
  {
  }

  /** Duplicate suppression looks at the first two values only to decide about the first. */
  lemma DistinctStep(ws: seq<Value>)
    requires |ws| >= 2
    ensures Distinct(ws) == if ws[0] == ws[1] then Distinct(ws[1..]) else [ws[0]] + Distinct(ws[1..])
  {
  }

  /** Duplicate suppression applied twice is applied once. */
  lemma DistinctIdempotent(vs: seq<Value>)
    ensures Distinct(Distinct(vs)) == Distinct(vs)
  {
    DistinctKeepsDistinct(Distinct(vs));
  }

  function Flatten(bursts: seq<seq<Value>>): (all: seq<Value>)
    decreases |bursts|
  {
    if |bursts| == 0 then [] else bursts[0] + Flatten(bursts[1..])
  }

  /** The bursts that hold at least one change, in order. */
  function NonEmpty(bursts: seq<seq<Value>>): (r: seq<seq<Value>>)
    ensures forall k | 0 <= k < |r| :: |r[k]| > 0
    ensures forall b | b in bursts && |b| > 0 :: b in r
    ensures forall b | b in r :: b in bursts
    decreases |bursts|
  {
    if |bursts| == 0 then []
    else if |bursts[0]| == 0 then NonEmpty(bursts[1..])
    else [bursts[0]] + NonEmpty(bursts[1..])
  }

  /** The last change of a burst. */
  function Last(b: seq<Value>): Value
    requires |b| > 0
  {
    b[|b| - 1]
  }

  /**
   * Debouncing: of each burst of changes only its last value is delivered,
   * one value per non-empty burst, in the order of the bursts.
   */
  function LastOfEach(bursts: seq<seq<Value>>): (r: seq<Value>)
    ensures |r| == |NonEmpty(bursts)|
    ensures forall k | 0 <= k < |r| :: r[k] == Last(NonEmpty(bursts)[k])
    decreases |bursts|
  {
    if |bursts| == 0 then []
    else if |bursts[0]| == 0 then LastOfEach(bursts[1..])
    else
      var rest := LastOfEach(bursts[1..]);
      LastOfEachCons(bursts[0], NonEmpty(bursts[1..]), rest);
      [Last(bursts[0])] + rest
  }

  lemma LastOfEachCons(b: seq<Value>, ne: seq<seq<Value>>, rest: seq<Value>)
    requires |b| > 0 && forall k | 0 <= k < |ne| :: |ne[k]| > 0
    requires |rest| == |ne| && forall k | 0 <= k < |rest| :: rest[k] == Last(ne[k])
    ensures forall k | 0 <= k < |rest| + 1 :: ([Last(b)] + rest)[k] == Last(([b] + ne)[k])
  {
    forall k | 0 <= k < |rest| + 1
      ensures ([Last(b)] + rest)[k] == Last(([b] + ne)[k])
    {
      if k > 0 {
        assert ([b] + ne)[k] == ne[k - 1];
      }
    }
  }

  /**
   * The values the subscription delivers for control changes arriving in
   * `bursts`, each burst being changes that follow one another within the
   * debounce time. Timers are not modelled: a debounced burst is delivered
   * once, with its last value, when it ends.
   */
  function Delivered(p: Plan, bursts: seq<seq<Value>>): (out: seq<Value>) {
    if p.debounceMs.Some? then LastOfEach(bursts)
    else
      (if p.startWith.Some? then [p.startWith.value] else []) +
      (if p.distinct then Distinct(Flatten(bursts)) else Flatten(bursts))
  }

  /**
   * With `updateOn: 'blur'` or `'submit'` the debounce setting is ignored:
   * every change whose value differs from the one before it is delivered, in
   * order, each as it happens; a model already in sync adds no initial value.
   */
  lemma {:induction false} BlurIgnoresDebounce(f: Field, controlValue: Value, bursts: seq<seq<Value>>)
    requires f.modelOptions.updateOn == Some(Blur) || f.modelOptions.updateOn == Some(Submit)
    ensures Delivered(PlanFor(f, controlValue, controlValue), bursts) == Distinct(Flatten(bursts))
  {
  }

  /** With a debounce time set and `updateOn` absent or `'change'`, each burst delivers its last value. */
  lemma DebounceDeliversLast(f: Field, controlValue: Value, modelValue: Value, burst: seq<Value>)
    requires f.modelOptions.updateOn.None? || f.modelOptions.updateOn == Some(Change)
    requires f.modelOptions.debounceDefault.Some? && f.modelOptions.debounceDefault.value > 0
    requires |burst| > 0
    ensures Delivered(PlanFor(f, controlValue, modelValue), [burst]) == [burst[|burst| - 1]]
  {
  }

  /**
   * The subscription body for every delivered value, in order: one
   * `valueChanges` item per delivered value, carrying the parsed value, and
   * the model written before each item.
   */
  function Pipeline(root: Props, f: Field, c: Control, apply: (ParserId, Value) -> Value,
                    controlValue: Value, bursts: seq<seq<Value>>): (r: (Props, seq<Event>))
    requires HasKey(f) && ParentReachable(root, f)
    ensures var delivered := Delivered(PlanFor(f, controlValue, FieldValue(root, f)), bursts);
            |r.1| == |delivered| &&
            forall i | 0 <= i < |delivered| ::
              r.1[i] == Event(ApplyParsers(f.parsers, apply, delivered[i]), f, ValueChanges)
  {
    HandleAll(root, f, c, apply, Delivered(PlanFor(f, controlValue, FieldValue(root, f)), bursts))
  }
}
