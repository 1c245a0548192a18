/**
 * What happens to one value coming out of a field's control: the field's
 * parsers run left to right, the result is written into the model, and a
 * `{value, field, type}` item is put on the form's change channel. The write
 * rule is shared by the field component and the form component: a nullish
 * value on an auto-clearing field whose control has no parent deletes the
 * key; every other value is assigned at the key path.
 */
module ModelWriter {
  import opened Wrappers
  import opened Values
  import opened Fields
  import opened Controls

  /** The type tag of a change-channel item. */
  datatype EventType = ValueChanges | OtherType(name: string)

  /** An item of the form's change channel, `{value, field, type}`. */
  datatype Event = Event(value: Value, field: Field, eventType: EventType)

  /** `parsers.forEach(p => value = p(value))`: apply the parsers in list order. */
  function ApplyParsers(ps: seq<ParserId>, apply: (ParserId, Value) -> Value, v: Value): Value
    decreases |ps|
  {
    if |ps| == 0 then v else ApplyParsers(ps[1..], apply, apply(ps[0], v))
  }

  /** The key path of a field from the root of the form's model. */
  function FullPath(f: Field): (p: Path) {
    f.parentModelPath + KeyPath(f.key)
  }

  /** `field.parent.model` is an object inside the form's model. */
  predicate ParentReachable(root: Props, f: Field) {
    PropsAt(root, f.parentModelPath).Some?
  }

  /** `value == null && field.autoClear && !field.formControl.parent`. */
  predicate AutoClears(f: Field, c: Control, v: Value) {
    IsNullish(v) && f.autoClear && c.parent.None?
  }

  /** `getFieldValue(field)`: the value at the field's key in its parent's model. */
  function FieldValue(root: Props, f: Field): (v: Value)
    requires HasKey(f) && ParentReachable(root, f)
    ensures GetIn(root, FullPath(f)).Some? ==> v == GetIn(root, FullPath(f)).value
    ensures GetIn(root, FullPath(f)).None? ==> v == Undefined
  {
    GetThroughParent(root, f.parentModelPath, KeyPath(f.key));
    GetIn(PropsAt(root, f.parentModelPath).value, KeyPath(f.key)).GetOr(Undefined)
  }

  /** The write into the parent's model object. */
  function WriteParent(parent: Props, f: Field, c: Control, v: Value): (written: Props)
    requires HasKey(f)
  {
    if AutoClears(f, c, v) then DeleteIn(parent, KeyPath(f.key))
    else AssignIn(parent, KeyPath(f.key), v)
  }

  /**
   * Write `v` for field `f` into the form's model `root`, through the
   * field's parent model.
   */
  function WriteModel(root: Props, f: Field, c: Control, v: Value): (r: Props)
    requires HasKey(f) && ParentReachable(root, f)
    ensures ParentReachable(r, f)
    ensures AutoClears(f, c, v) ==> GetIn(r, FullPath(f)) == None
    ensures !AutoClears(f, c, v) ==> GetIn(r, FullPath(f)) == Some(v)
  {
    var pre := f.parentModelPath;
    var p := KeyPath(f.key);
    var parent := PropsAt(root, pre).value;
    var written := WriteParent(parent, f, c, v);
    var r := PutProps(root, pre, written);
    GetThroughParent(r, pre, p);
    if AutoClears(f, c, v) then GetAfterDelete(parent, p); r
    else GetAfterAssign(parent, p, v); r
  }

  /**
   * Writing through the parent model is writing at the full path from the
   * root: a delete there when the value auto-clears, an assignment otherwise.
   */
  lemma WriteModelAtFullPath(root: Props, f: Field, c: Control, v: Value)
    requires HasKey(f) && ParentReachable(root, f)
    ensures AutoClears(f, c, v) ==> WriteModel(root, f, c, v) == DeleteIn(root, FullPath(f))
    ensures !AutoClears(f, c, v) ==> WriteModel(root, f, c, v) == AssignIn(root, FullPath(f), v)
  {
    if AutoClears(f, c, v) {
      DeleteThroughParent(root, f.parentModelPath, KeyPath(f.key));
    } else {
      AssignThroughParent(root, f.parentModelPath, KeyPath(f.key), v);
    }
  }

  /**
   * Writing the same value twice leaves the model as one write does: the
   * field component and the form component both write each value.
   */
  lemma WriteModelIdempotent(root: Props, f: Field, c: Control, v: Value)
    requires HasKey(f) && ParentReachable(root, f)
    ensures WriteModel(WriteModel(root, f, c, v), f, c, v) == WriteModel(root, f, c, v)
  {
    var once := WriteModel(root, f, c, v);
    WriteModelAtFullPath(root, f, c, v);
    WriteModelAtFullPath(once, f, c, v);
    if AutoClears(f, c, v) {
      DeleteIdempotent(root, FullPath(f));
    } else {
      AssignOverwrites(root, FullPath(f), v, v);
    }
  }

  /** A later assignment replaces an earlier write at the same key. */
  lemma WriteModelOverwrites(root: Props, f: Field, c: Control, v1: Value, v2: Value)
    requires HasKey(f) && ParentReachable(root, f)
    requires !AutoClears(f, c, v1) && !AutoClears(f, c, v2)
    ensures WriteModel(WriteModel(root, f, c, v1), f, c, v2) == WriteModel(root, f, c, v2)
  {
    var once := WriteModel(root, f, c, v1);
    WriteModelAtFullPath(root, f, c, v1);
    WriteModelAtFullPath(once, f, c, v2);
    WriteModelAtFullPath(root, f, c, v2);
    AssignOverwrites(root, FullPath(f), v1, v2);
  }

  /** A path that leaves the field's full path at segment `i` is not touched by the write. */
  lemma WriteModelLeavesOthers(root: Props, f: Field, c: Control, v: Value, q: Path, i: nat)
    requires HasKey(f) && ParentReachable(root, f)
    requires i < |FullPath(f)| && i < |q| && FullPath(f)[..i] == q[..i] && FullPath(f)[i] != q[i]
    ensures GetIn(WriteModel(root, f, c, v), q) == GetIn(root, q)
  {
    WriteModelAtFullPath(root, f, c, v);
    if AutoClears(f, c, v) {
      DeleteLeavesOthers(root, FullPath(f), q, i);
    } else {
      AssignLeavesOthers(root, FullPath(f), q, v, i);
    }
  }

  /** An auto-clearing write never makes a path readable that was not readable before. */
  lemma AutoClearCreatesNothing(root: Props, f: Field, c: Control, v: Value, q: Path)
    requires HasKey(f) && ParentReachable(root, f) && AutoClears(f, c, v)
    ensures GetIn(WriteModel(root, f, c, v), q).Some? ==> GetIn(root, q).Some?
  {
    WriteModelAtFullPath(root, f, c, v);
    DeleteCreatesNothing(root, FullPath(f), q);
  }

  /** Running `ps1` and then `ps2` is running their concatenation. */
  lemma {:induction false} ApplyParsersAppend(ps1: seq<ParserId>, ps2: seq<ParserId>, apply: (ParserId, Value) -> Value, v: Value)
    ensures ApplyParsers(ps1 + ps2, apply, v) == ApplyParsers(ps2, apply, ApplyParsers(ps1, apply, v))
    decreases |ps1|
  {
    if |ps1| > 0 {
      assert (ps1 + ps2)[1..] == ps1[1..] + ps2;
      ApplyParsersAppend(ps1[1..], ps2, apply, apply(ps1[0], v));
    } else {
      assert ps1 + ps2 == ps2;
    }
  }

  /** The last parser sees the output of all the others. */
  lemma ApplyParsersLast(ps: seq<ParserId>, p: ParserId, apply: (ParserId, Value) -> Value, v: Value)
    ensures ApplyParsers(ps + [p], apply, v) == apply(p, ApplyParsers(ps, apply, v))
  {
    ApplyParsersAppend(ps, [p], apply, v);
  }

  /**
   * Handle one value coming out of the field's control: parse it, write the
   * parsed value into the model, then emit one `valueChanges` item carrying
   * the parsed value and the field. The model returned is the one the item's
   * consumers see.
   */
  function HandleValue(root: Props, f: Field, c: Control, apply: (ParserId, Value) -> Value, raw: Value): (r: (Props, Event))
    requires HasKey(f) && ParentReachable(root, f)
    ensures r.1.eventType == ValueChanges && r.1.field == f
    ensures r.1.value == ApplyParsers(f.parsers, apply, raw)
    ensures ParentReachable(r.0, f)
    ensures !AutoClears(f, c, r.1.value) ==> GetIn(r.0, FullPath(f)) == Some(r.1.value)
    ensures AutoClears(f, c, r.1.value) ==> GetIn(r.0, FullPath(f)) == None
  {
    var value := ApplyParsers(f.parsers, apply, raw);
    (WriteModel(root, f, c, value), Event(value, f, ValueChanges))
  }

  /** Handle a run of values in order: one item per value, each after its write. */
  function HandleAll(root: Props, f: Field, c: Control, apply: (ParserId, Value) -> Value, raws: seq<Value>): (r: (Props, seq<Event>))
    requires HasKey(f) && ParentReachable(root, f)
    ensures ParentReachable(r.0, f)
    ensures |r.1| == |raws|
    ensures forall i | 0 <= i < |raws| ::
              r.1[i] == Event(ApplyParsers(f.parsers, apply, raws[i]), f, ValueChanges)
    decreases |raws|
  {
    if |raws| == 0 then (root, [])
    else
      var (m1, e) := HandleValue(root, f, c, apply, raws[0]);
      var (m2, es) := HandleAll(m1, f, c, apply, raws[1..]);
      (m2, [e] + es)
  }

  /** After a run of values the model holds the last one at the field's key, or nothing if it auto-cleared. */
  lemma {:induction false} HandleAllLast(root: Props, f: Field, c: Control, apply: (ParserId, Value) -> Value, raws: seq<Value>)
    requires HasKey(f) && ParentReachable(root, f) && |raws| > 0
    ensures var last := ApplyParsers(f.parsers, apply, raws[|raws| - 1]);
            GetIn(HandleAll(root, f, c, apply, raws).0, FullPath(f)) ==
              if AutoClears(f, c, last) then None else Some(last)
    decreases |raws|
  {
    var (m1, e) := HandleValue(root, f, c, apply, raws[0]);
    if |raws| > 1 {
      HandleAllLast(m1, f, c, apply, raws[1..]);
      assert raws[1..][|raws[1..]| - 1] == raws[|raws| - 1];
    }
  }
}
