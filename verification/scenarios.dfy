/**
 * Concrete runs of the value pipeline: the situations the field component's
 * own test suite describes, stated as facts about the model.
 */
module Scenarios {
  import opened Wrappers
  import opened Values
  import opened Fields
  import opened Controls
  import opened ModelWriter

  /** A key without brackets or dots is a one-segment path. */
  lemma PlainKeyPath(key: string)
    requires key != "" && '[' !in key && '.' !in key
    ensures KeyPath(key) == [key]
  {
    ReplaceBracketsNoBracket(key);
    SplitPrefix(key, "");
    assert key + "" == key;
  }

  /**
   * Typing "First value" into the control of a field keyed `foo` on an empty
   * model emits one item carrying the value and the field, and leaves the
   * model as `{foo: 'First value'}`.
   */
  lemma FirstValueWritten(f: Field, c: Control, apply: (ParserId, Value) -> Value, v: Value)
    requires f.key == "foo" && f.parentModelPath == [] && f.parsers == []
    requires v == Str("First value")
    ensures HandleValue(map[], f, c, apply, v) == (map["foo" := v], Event(v, f, ValueChanges))
  {
    PlainKeyPath(f.key);
    assert FullPath(f) == ["foo"];
    WriteModelAtFullPath(map[], f, c, v);
  }

  /**
   * With the parser list `[Number]`, typing `'15'` emits `15` and stores
   * `15`: the parser runs before both the write and the item.
   */
  lemma ParsedValueEmitted(f: Field, c: Control, apply: (ParserId, Value) -> Value, toNumber: ParserId)
    requires f.key == "foo" && f.parentModelPath == [] && f.parsers == [toNumber]
    requires apply(toNumber, Str("15")) == Num(15)
    ensures HandleValue(map[], f, c, apply, Str("15")) == (map["foo" := Num(15)], Event(Num(15), f, ValueChanges))
  {
    PlainKeyPath(f.key);
    assert FullPath(f) == ["foo"];
    assert ApplyParsers(f.parsers, apply, Str("15")) == Num(15);
    WriteModelAtFullPath(map[], f, c, Num(15));
  }

  /** With the square-bracket key `o[0].0.name` the value lands in nested arrays: `{o: [[{name: '***'}]]}`. */
  lemma BracketKeyWritten(f: Field, c: Control, apply: (ParserId, Value) -> Value, v: Value)
    requires f.key == "o[0].0.name" && f.parentModelPath == [] && f.parsers == []
    requires v == Str("***")
    ensures HandleValue(map[], f, c, apply, v).0 ==
      map["o" := Container(ArrayKind, map["0" := Container(ArrayKind,
        map["0" := Container(ObjectKind, map["name" := v])])])]
  {
    assert FullPath(f) == KeyPath(f.key);
    WriteModelAtFullPath(map[], f, c, v);
    BracketKeyAssign(f.key);
  }

  /**
   * A child `bar` of a group keyed `foo` writes into the group's object:
   * `{foo: {}}` becomes `{foo: {bar: 'First value'}}`, and the item names the child.
   */
  lemma GroupChildWritten(child: Field, c: Control, apply: (ParserId, Value) -> Value, v: Value)
    requires child.key == "bar" && child.parentModelPath == ["foo"] && child.parsers == []
    requires v == Str("First value")
    ensures var root := map["foo" := Container(ObjectKind, map[])];
            ParentReachable(root, child) &&
            HandleValue(root, child, c, apply, v) ==
              (map["foo" := Container(ObjectKind, map["bar" := v])], Event(v, child, ValueChanges))
  {
    var root := map["foo" := Container(ObjectKind, map[])];
    PlainKeyPath(child.key);
    assert PropsAt(root, ["foo"]) == Some(map[]) by {
      assert ["foo"][1..] == [];
    }
    var parent := map[];
    assert WriteParent(parent, child, c, v) == map["bar" := v];
    assert PutProps(root, ["foo"], map["bar" := v]) == map["foo" := Container(ObjectKind, map["bar" := v])] by {
      assert ["foo"][1..] == [];
    }
  }

  /**
   * Two fields with the same key share a control, so one change reaches both
   * subscriptions: two items are emitted, one per field, with the same value,
   * and the second write leaves the model as the first left it.
   */
  lemma DuplicateKeyTwoItems(root: Props, a: Field, b: Field, c: Control, apply: (ParserId, Value) -> Value, raw: Value)
    requires HasKey(a) && ParentReachable(root, a)
    requires b.key == a.key && b.parentModelPath == a.parentModelPath
    requires b.parsers == a.parsers && b.autoClear == a.autoClear
    ensures var (m1, e1) := HandleValue(root, a, c, apply, raw);
            ParentReachable(m1, b) &&
            var (m2, e2) := HandleValue(m1, b, c, apply, raw);
            m2 == m1 && e1.field == a && e2.field == b && e1.value == e2.value
  {
    var (m1, e1) := HandleValue(root, a, c, apply, raw);
    assert FullPath(b) == FullPath(a);
    WriteModelAtFullPath(root, a, c, e1.value);
    WriteModelAtFullPath(m1, b, c, e1.value);
    WriteModelIdempotent(root, a, c, e1.value);
    WriteModelAtFullPath(m1, a, c, e1.value);
  }
}
