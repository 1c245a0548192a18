/**
 * The plain data model a form reads and writes, and the key-path utilities
 * over it: turning a field key such as `o[0].0.name` into path segments,
 * reading the value at a path, assigning at a path (creating missing
 * containers on the way) and deleting at a path (never creating anything).
 *
 * JavaScript objects and arrays are both modelled as a `Container`: a map
 * from property names to values. An array is a container whose kind is
 * `ArrayKind` and whose property names are decimal indices, which is how
 * JavaScript itself stores them.
 */
module Values {
  import opened Wrappers

  datatype Kind = ObjectKind | ArrayKind

  datatype Value =
    | Undefined
    | Null
    | Bool(b: bool)
    | Num(n: int)
    | Str(s: string)
    | Container(kind: Kind, props: map<string, Value>)

  /** The properties of one object or array. */
  type Props = map<string, Value>

  /** A key path: the property names to follow, outermost first. */
  type Path = seq<string>

  /** `v == null` in JavaScript holds for both `null` and `undefined`. */
  predicate IsNullish(v: Value) {
    v.Undefined? || v.Null?
  }

  /** `a == b` in JavaScript on the values the model holds (no string/number coercion). */
  predicate LooseEquals(a: Value, b: Value) {
    (IsNullish(a) && IsNullish(b)) || a == b
  }

  // ---------------------------------------------------------------------------
  // Key parsing

  predicate IsDigit(c: char) {
    '0' <= c <= '9'
  }

  /** The regular-expression class `\w`. */
  predicate IsWordChar(c: char) {
    IsDigit(c) || 'a' <= c <= 'z' || 'A' <= c <= 'Z' || c == '_'
  }

  /** `/^\d+$/`: the segment names an array index. */
  predicate IsIndex(s: string) {
    |s| > 0 && forall i | 0 <= i < |s| :: IsDigit(s[i])
  }

  /** Length of the longest prefix of `s` made of word characters. */
  function WordRun(s: string): (n: nat)
    ensures n <= |s|
    ensures forall i | 0 <= i < n :: IsWordChar(s[i])
    ensures n < |s| ==> !IsWordChar(s[n])
  {
    if |s| == 0 || !IsWordChar(s[0]) then 0 else 1 + WordRun(s[1..])
  }

  /** `key.replace(/\[(\w+)\]/g, '.$1')`: every bracketed word becomes a dotted segment. */
  function ReplaceBrackets(key: string): (out: string)
    decreases |key|
  {
    if |key| == 0 then ""
    else if key[0] == '[' then
      var n := WordRun(key[1..]);
      if 0 < n && n + 1 < |key| && key[n + 1] == ']' then
        "." + key[1..n + 1] + ReplaceBrackets(key[n + 2..])
      else
        "[" + ReplaceBrackets(key[1..])
    else
      [key[0]] + ReplaceBrackets(key[1..])
  }

  /** `s.split('.')`. */
  function Split(s: string): (r: seq<string>)
    ensures |r| > 0
    ensures forall i | 0 <= i < |r| :: '.' !in r[i]
  {
    if |s| == 0 then [""]
    else
      var rest := Split(s[1..]);
      if s[0] == '.' then [""] + rest
      else [[s[0]] + rest[0]] + rest[1..]
  }

  /** `segs.join('.')`, the inverse of `Split`. */
  function Join(segs: seq<string>): (s: string)
    requires |segs| > 0
  {
    if |segs| == 1 then segs[0] else segs[0] + "." + Join(segs[1..])
  }

  /** The key path of a field key; a missing (empty) key has no path. */
  function KeyPath(key: string): (p: Path)
    ensures key != "" ==> |p| > 0
  {
    if key == "" then [] else Split(ReplaceBrackets(key))
  }

  // ---------------------------------------------------------------------------
  // Reading, assigning and deleting at a path

  /** The kind of container created in front of segment `next`. */
  function KindFor(next: string): Kind {
    if IsIndex(next) then ArrayKind else ObjectKind
  }

  /** The value at path `p` below the properties `m`, if every step exists. */
  function GetIn(m: Props, p: Path): (found: Option<Value>)
    decreases |p|
  {
    if |p| == 0 || p[0] !in m then None
    else if |p| == 1 then Some(m[p[0]])
    else
      match m[p[0]]
      case Container(_, inner) => GetIn(inner, p[1..])
      case _ => None
  }

  /**
   * Assign `v` at path `p`. Every intermediate step that is not already an
   * object or array is replaced by a new, empty one: an array when the next
   * segment is an index, otherwise an object.
   */
  function AssignIn(m: Props, p: Path, v: Value): (r: Props)
    requires |p| > 0
    ensures r.Keys == m.Keys + {p[0]}
    ensures forall k | k in m && k != p[0] :: r[k] == m[k]
    decreases |p|
  {
    if |p| == 1 then m[p[0] := v]
    else
      var child := StepContainer(m, p);
      m[p[0] := Container(child.kind, AssignIn(child.props, p[1..], v))]
  }

  /**
   * The container an assignment along `p` walks into at `p[0]`: the one
   * there, or a new empty one whose kind suits the next segment.
   */
  function StepContainer(m: Props, p: Path): (c: Value)
    requires |p| > 1
    ensures c.Container?
  {
    if p[0] in m && m[p[0]].Container? then m[p[0]] else Container(KindFor(p[1]), map[])
  }

  /**
   * Delete the last segment of `p`. The walk to it follows existing objects
   * only; a missing step leads into a detached empty object, so nothing in
   * `m` changes.
   */
  function DeleteIn(m: Props, p: Path): (r: Props)
    requires |p| > 0
    ensures r.Keys <= m.Keys
    ensures forall k | k in r && k != p[0] :: r[k] == m[k]
    decreases |p|
  {
    if |p| == 1 then m - {p[0]}
    else if p[0] in m && m[p[0]].Container? then
      m[p[0] := Container(m[p[0]].kind, DeleteIn(m[p[0]].props, p[1..]))]
    else m
  }

  /** The properties of the object reached by following `pre`, if it is reachable. */
  function PropsAt(root: Props, pre: Path): (sub: Option<Props>)
    decreases |pre|
  {
    if |pre| == 0 then Some(root)
    else if pre[0] in root && root[pre[0]].Container? then PropsAt(root[pre[0]].props, pre[1..])
    else None
  }

  /** Replace the properties of the object reached by `pre` with `sub`. */
  function PutProps(root: Props, pre: Path, sub: Props): (r: Props)
    requires PropsAt(root, pre).Some?
    ensures PropsAt(r, pre) == Some(sub)
    decreases |pre|
  {
    if |pre| == 0 then sub
    else root[pre[0] := Container(root[pre[0]].kind, PutProps(root[pre[0]].props, pre[1..], sub))]
  }

  // ---------------------------------------------------------------------------
  // Properties of key parsing

  /** A key without brackets is left as it is (the `indexOf('[') === -1` shortcut). */
  lemma {:induction false} ReplaceBracketsNoBracket(key: string)
    requires '[' !in key
    ensures ReplaceBrackets(key) == key
    decreases |key|
  {
    if |key| > 0 {
      assert '[' !in key[1..];
      ReplaceBracketsNoBracket(key[1..]);
    }
  }

  /** Splitting a dot-free prefix onto a string extends its first segment. */
  lemma {:induction false} SplitPrefix(a: string, s: string)
    requires '.' !in a
    ensures Split(a + s) == [a + Split(s)[0]] + Split(s)[1..]
    decreases |a|
  {
    if |a| > 0 {
      assert (a + s)[1..] == a[1..] + s;
      assert '.' !in a[1..];
      SplitPrefix(a[1..], s);
      assert [a[0]] + (a[1..] + Split(s)[0]) == a + Split(s)[0];
    } else {
      assert a + s == s;
      assert a + Split(s)[0] == Split(s)[0];
      assert [Split(s)[0]] + Split(s)[1..] == Split(s);
    }
  }

  /** Joining the segments of a split gives back the string. */
  lemma {:induction false} JoinSplit(s: string)
    ensures Join(Split(s)) == s
    decreases |s|
  {
    if |s| > 0 {
      JoinSplit(s[1..]);
      var rest := Split(s[1..]);
      if s[0] == '.' {
        assert Split(s) == [""] + rest;
        assert ([""] + rest)[1..] == rest;
        assert s == "" + "." + s[1..];
      } else if |rest| == 1 {
        assert Join(Split(s)) == [s[0]] + rest[0];
        assert s == [s[0]] + s[1..];
      } else {
        var r := Split(s);
        assert r[1..] == rest[1..];
        assert Join(rest) == rest[0] + "." + Join(rest[1..]);
        assert Join(r) == ([s[0]] + rest[0]) + "." + Join(rest[1..]);
        assert s == [s[0]] + s[1..];
      }
    }
  }

  /** Splitting the join of dot-free segments gives back the segments. */
  lemma {:induction false} SplitJoin(segs: seq<string>)
    requires |segs| > 0
    requires forall i | 0 <= i < |segs| :: '.' !in segs[i]
    ensures Split(Join(segs)) == segs
    decreases |segs|
  {
    if |segs| == 1 {
      SplitPrefix(segs[0], "");
      assert segs[0] + "" == segs[0];
    } else {
      var tail := segs[1..];
      SplitJoin(tail);
      SplitPrefix(segs[0], "." + Join(tail));
      assert Split("." + Join(tail)) == [""] + Split(Join(tail)) by {
        assert ("." + Join(tail))[1..] == Join(tail);
      }
      assert segs[0] + "." + Join(tail) == segs[0] + ("." + Join(tail));
      assert segs[0] + "" == segs[0];
      assert segs == [segs[0]] + tail;
    }
  }

  /** A character other than `[` is copied through. */
  lemma ReplacePlainChar(c: char, rest: string)
    requires c != '['
    ensures ReplaceBrackets([c] + rest) == [c] + ReplaceBrackets(rest)
  {
  }

  /** The word run of a word followed by a non-word character is that word. */
  lemma {:induction false} WordRunOfWord(w: string, rest: string)
    requires forall i | 0 <= i < |w| :: IsWordChar(w[i])
    requires |rest| > 0 && !IsWordChar(rest[0])
    ensures WordRun(w + rest) == |w|
    decreases |w|
  {
    if |w| > 0 {
      assert (w + rest)[1..] == w[1..] + rest;
      WordRunOfWord(w[1..], rest);
    } else {
      assert w + rest == rest;
    }
  }

  /** A bracketed word `[w]` becomes the dotted segment `.w`. */
  lemma ReplaceBracketWord(w: string, rest: string)
    requires |w| > 0 && forall i | 0 <= i < |w| :: IsWordChar(w[i])
    ensures ReplaceBrackets("[" + w + "]" + rest) == "." + w + ReplaceBrackets(rest)
  {
    var k := "[" + w + "]" + rest;
    assert k[1..] == w + ("]" + rest);
    WordRunOfWord(w, "]" + rest);
    assert k[|w| + 1] == ']';
    assert k[1..|w| + 1] == w;
    assert k[|w| + 2..] == rest;
  }

  /** A bracket-free prefix is copied through. */
  lemma {:induction false} ReplacePlainPrefix(a: string, rest: string)
    requires '[' !in a
    ensures ReplaceBrackets(a + rest) == a + ReplaceBrackets(rest)
    decreases |a|
  {
    if |a| > 0 {
      assert a + rest == [a[0]] + (a[1..] + rest);
      assert '[' !in a[1..];
      ReplacePlainPrefix(a[1..], rest);
      ReplacePlainChar(a[0], a[1..] + rest);
      assert [a[0]] + (a[1..] + ReplaceBrackets(rest)) == a + ReplaceBrackets(rest);
    } else {
      assert a + rest == rest;
    }
  }

  /** One bracketed word between bracket-free text becomes a dotted segment. */
  lemma ReplaceOneBracket(a: string, w: string, rest: string)
    requires '[' !in a && '[' !in rest
    requires |w| > 0 && forall i | 0 <= i < |w| :: IsWordChar(w[i])
    ensures ReplaceBrackets(a + ("[" + w + "]" + rest)) == a + ("." + w + rest)
  {
    ReplacePlainPrefix(a, "[" + w + "]" + rest);
    ReplaceBracketWord(w, rest);
    ReplaceBracketsNoBracket(rest);
  }

  /** `o[0].0.name` becomes `o.0.0.name`. */
  lemma BracketReplace(key: string)
    requires key == "o[0].0.name"
    ensures ReplaceBrackets(key) == "o.0.0.name"
  {
    KeyShape(key);
    ReplaceOneBracket("o", "0", ".0.name");
    DottedShape();
  }

  lemma KeyShape(key: string)
    requires key == "o[0].0.name"
    ensures key == "o" + ("[" + "0" + "]" + ".0.name")
  {
  }

  lemma DottedShape()
    ensures "o" + ("." + "0" + ".0.name") == "o.0.0.name"
  {
  }

  /** `o.0.0.name` splits into four segments. */
  lemma BracketSplit(s: string)
    requires s == "o.0.0.name"
    ensures Split(s) == ["o", "0", "0", "name"]
  {
    assert Join(["o", "0", "0", "name"]) == s;
    SplitJoin(["o", "0", "0", "name"]);
  }

  /** The bracket key of the source's test walks `o`, `0`, `0`, `name`. */
  lemma BracketKeyPath(key: string)
    requires key == "o[0].0.name"
    ensures KeyPath(key) == ["o", "0", "0", "name"]
  {
    BracketReplace(key);
    BracketSplit(ReplaceBrackets(key));
  }

  // ---------------------------------------------------------------------------
  // Properties of assign and delete

  /** Reading back an assigned path gives the assigned value. */
  lemma {:induction false} GetAfterAssign(m: Props, p: Path, v: Value)
    requires |p| > 0
    ensures GetIn(AssignIn(m, p, v), p) == Some(v)
    decreases |p|
  {
    if |p| > 1 {
      var child := StepContainer(m, p);
      GetAfterAssign(child.props, p[1..], v);
    }
  }

  /** A path that leaves `p` at segment `i` reads the same before and after assigning at `p`. */
  lemma {:induction false} AssignLeavesOthers(m: Props, p: Path, q: Path, v: Value, i: nat)
    requires i < |p| && i < |q|
    requires p[..i] == q[..i] && p[i] != q[i]
    ensures GetIn(AssignIn(m, p, v), q) == GetIn(m, q)
    decreases i
  {
    if i > 0 {
      assert p[0] == q[0] by { assert p[..i][0] == q[..i][0]; }
      assert p[1..][..i - 1] == q[1..][..i - 1] by {
        assert p[1..][..i - 1] == p[..i][1..];
        assert q[1..][..i - 1] == q[..i][1..];
      }
      var child := StepContainer(m, p);
      AssignLeavesOthers(child.props, p[1..], q[1..], v, i - 1);
    }
  }

  /** Writing twice at the same path is the same as writing the second value once. */
  lemma {:induction false} AssignOverwrites(m: Props, p: Path, v1: Value, v2: Value)
    requires |p| > 0
    ensures AssignIn(AssignIn(m, p, v1), p, v2) == AssignIn(m, p, v2)
    decreases |p|
  {
    if |p| > 1 {
      var child := StepContainer(m, p);
      var inner1 := AssignIn(child.props, p[1..], v1);
      var once := AssignIn(m, p, v1);
      assert once == m[p[0] := Container(child.kind, inner1)];
      assert StepContainer(once, p) == Container(child.kind, inner1);
      AssignOverwrites(child.props, p[1..], v1, v2);
      UpdateTwice(m, p[0], Container(child.kind, inner1), Container(child.kind, AssignIn(child.props, p[1..], v2)));
    }
  }


  lemma UpdateTwice<K, V>(m: map<K, V>, k: K, a: V, b: V)
    ensures m[k := a][k := b] == m[k := b]
  {
  }

  /**
   * After an assignment every proper prefix of `p` holds a container. One that
   * already held a container keeps its kind; a new one is an array exactly when
   * the segment after it is an index.
   */
  lemma {:induction false} AssignContainerKinds(m: Props, p: Path, v: Value, i: nat)
    requires 0 < i < |p|
    ensures GetIn(AssignIn(m, p, v), p[..i]).Some?
    ensures GetIn(AssignIn(m, p, v), p[..i]).value.Container?
    ensures GetIn(AssignIn(m, p, v), p[..i]).value.kind == KindAfter(GetIn(m, p[..i]), p[i])
    decreases i
  {
    var child := StepContainer(m, p);
    var inner := AssignIn(child.props, p[1..], v);
    var r := AssignIn(m, p, v);
    assert p[0] in r && r[p[0]] == Container(child.kind, inner);
    var q := p[..i];
    if i > 1 {
      AssignContainerKinds(child.props, p[1..], v, i - 1);
      StepInto(r, q, child.kind, inner);
      assert q[1..] == p[1..][..i - 1];
      if p[0] in m && m[p[0]].Container? {
        StepInto(m, q, child.kind, child.props);
      } else {
        assert GetIn(m, q) == None;
        assert GetIn(child.props, q[1..]) == None;
      }
    } else {
      assert GetIn(r, q) == Some(Container(child.kind, inner));
    }
  }

  /** Following a path of two or more segments goes into the container at its first segment. */
  lemma StepInto(m: Props, q: Path, k: Kind, inner: Props)
    requires |q| > 1 && q[0] in m && m[q[0]] == Container(k, inner)
    ensures GetIn(m, q) == GetIn(inner, q[1..])
  {
  }


  /**
   * The kind of the container at a step of an assignment path, given what was
   * there before: an existing container keeps its kind, otherwise the kind
   * suits the `next` segment.
   */
  function KindAfter(before: Option<Value>, next: string): Kind {
    if before.Some? && before.value.Container? then before.value.kind else KindFor(next)
  }


  /** A deleted path reads as missing. */
  lemma {:induction false} GetAfterDelete(m: Props, p: Path)
    requires |p| > 0
    ensures GetIn(DeleteIn(m, p), p) == None
    decreases |p|
  {
    if |p| > 1 && p[0] in m && m[p[0]].Container? {
      GetAfterDelete(m[p[0]].props, p[1..]);
    }
  }

  /** Deleting never makes a path readable that was not readable before. */
  lemma {:induction false} DeleteCreatesNothing(m: Props, p: Path, q: Path)
    requires |p| > 0
    ensures GetIn(DeleteIn(m, p), q).Some? ==> GetIn(m, q).Some?
    decreases |q|
  {
    if |q| > 1 && |p| > 1 && p[0] == q[0] && p[0] in m && m[p[0]].Container? {
      DeleteCreatesNothing(m[p[0]].props, p[1..], q[1..]);
    }
  }

  /** When a step before the last segment is missing, deleting changes nothing. */
  lemma {:induction false} DeleteDetached(m: Props, p: Path, i: nat)
    requires 0 < i < |p|
    requires GetIn(m, p[..i]).None? || !GetIn(m, p[..i]).value.Container?
    ensures DeleteIn(m, p) == m
    decreases i
  {
    if i > 1 && p[0] in m && m[p[0]].Container? {
      assert p[..i][1..] == p[1..][..i - 1];
      DeleteDetached(m[p[0]].props, p[1..], i - 1);
    }
  }

  /** A path that leaves `p` at segment `i` reads the same before and after deleting at `p`. */
  lemma {:induction false} DeleteLeavesOthers(m: Props, p: Path, q: Path, i: nat)
    requires i < |p| && i < |q|
    requires p[..i] == q[..i] && p[i] != q[i]
    ensures GetIn(DeleteIn(m, p), q) == GetIn(m, q)
    decreases i
  {
    if i > 0 {
      assert p[0] == q[0] by { assert p[..i][0] == q[..i][0]; }
      if p[0] in m && m[p[0]].Container? {
        assert p[1..][..i - 1] == q[1..][..i - 1] by {
          assert p[1..][..i - 1] == p[..i][1..];
          assert q[1..][..i - 1] == q[..i][1..];
        }
        DeleteLeavesOthers(m[p[0]].props, p[1..], q[1..], i - 1);
      }
    }
  }

  /** Deleting twice is the same as deleting once. */
  lemma {:induction false} DeleteIdempotent(m: Props, p: Path)
    requires |p| > 0
    ensures DeleteIn(DeleteIn(m, p), p) == DeleteIn(m, p)
    decreases |p|
  {
    if |p| > 1 && p[0] in m && m[p[0]].Container? {
      DeleteIdempotent(m[p[0]].props, p[1..]);
    }
  }

  // ---------------------------------------------------------------------------
  // Writing through a nested object

  /** Assigning inside the object at `pre` is assigning at the joined path from the root. */
  lemma {:induction false} AssignThroughParent(root: Props, pre: Path, p: Path, v: Value)
    requires |p| > 0
    requires PropsAt(root, pre).Some?
    ensures PutProps(root, pre, AssignIn(PropsAt(root, pre).value, p, v)) == AssignIn(root, pre + p, v)
    decreases |pre|
  {
    if |pre| > 0 {
      assert (pre + p)[0] == pre[0];
      assert (pre + p)[1..] == pre[1..] + p;
      AssignThroughParent(root[pre[0]].props, pre[1..], p, v);
    } else {
      assert pre + p == p;
    }
  }

  /** Deleting inside the object at `pre` is deleting at the joined path from the root. */
  lemma {:induction false} DeleteThroughParent(root: Props, pre: Path, p: Path)
    requires |p| > 0
    requires PropsAt(root, pre).Some?
    ensures PutProps(root, pre, DeleteIn(PropsAt(root, pre).value, p)) == DeleteIn(root, pre + p)
    decreases |pre|
  {
    if |pre| > 0 {
      assert (pre + p)[0] == pre[0];
      assert (pre + p)[1..] == pre[1..] + p;
      DeleteThroughParent(root[pre[0]].props, pre[1..], p);
    } else {
      assert pre + p == p;
    }
  }

  /** Reading inside the object at `pre` is reading at the joined path from the root. */
  lemma {:induction false} GetThroughParent(root: Props, pre: Path, p: Path)
    requires |p| > 0
    requires PropsAt(root, pre).Some?
    ensures GetIn(PropsAt(root, pre).value, p) == GetIn(root, pre + p)
    decreases |pre|
  {
    if |pre| > 0 {
      assert (pre + p)[0] == pre[0];
      assert (pre + p)[1..] == pre[1..] + p;
      GetThroughParent(root[pre[0]].props, pre[1..], p);
    } else {
      assert pre + p == p;
    }
  }

  /** Assigning `'***'` at `o[0].0.name` in an empty model gives `{o: [[{name: '***'}]]}`. */
  lemma BracketKeyAssign(key: string)
    requires key == "o[0].0.name"
    ensures AssignIn(map[], KeyPath(key), Str("***")) ==
      map["o" := Container(ArrayKind, map["0" := Container(ArrayKind,
        map["0" := Container(ObjectKind, map["name" := Str("***")])])])]
  {
    BracketKeyPath(key);
    var p := KeyPath(key);
    assert IsIndex(p[1]) && IsIndex(p[2]) && !IsIndex(p[3]) by {
      assert p[1][0] == '0' && p[2][0] == '0' && p[3][0] == 'n';
    }
    var leaf := AssignIn(map[], p[3..], Str("***"));
    assert leaf == map["name" := Str("***")];
    var inner := AssignIn(map[], p[2..], Str("***"));
    assert p[2..][1..] == p[3..];
    assert inner == map["0" := Container(ObjectKind, leaf)];
    var mid := AssignIn(map[], p[1..], Str("***"));
    assert p[1..][1..] == p[2..];
    assert mid == map["0" := Container(ArrayKind, inner)];
  }
}
