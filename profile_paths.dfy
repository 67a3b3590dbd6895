/** Reading and writing a field of the member record by its path of property
    names, as the profile form does (src/components/Profile.tsx:25-33 and
    49-64). */
module ProfilePaths {
  import opened Wrappers
  import opened Json

  /** A path of property names from the record to one field. */
  type FieldPath = seq<string>

  // ---------------------------------------------------------------------
  // getValueAtPath
  // ---------------------------------------------------------------------

  /** One step of the reader: the property `key` of the current value when
      that value is an object, `undefined` otherwise (`null`, a scalar, or
      `undefined` itself). */
  function Step(acc: Option<Value>, key: string): (r: Option<Value>)
    ensures r.Some? <==> acc.Some? && acc.value.Obj? && key in KeySet(acc.value.entries)
    ensures r.Some? ==> (key, r.value) in acc.value.entries
  {
    if acc.Some? && acc.value.Obj? then Lookup(acc.value.entries, key) else None
  }

  /** The reader's fold over the path: once `undefined`, always `undefined`. */
  function Walk(acc: Option<Value>, path: FieldPath): (r: Option<Value>)
    ensures acc.None? ==> r.None?
    ensures path != [] && r.Some? ==> acc.Some? && acc.value.Obj?
    decreases path
  {
    if path == [] then acc else Walk(Step(acc, path[0]), path[1..])
  }

  /** `getValueAtPath`: `None` stands for `undefined`, `Some(Null)` for a
      stored `null`. A `null` record reads as `undefined` everywhere. */
  function GetValueAtPath(source: Value, path: FieldPath): (r: Option<Value>)
    ensures source.Null? ==> r.None?
    ensures path != [] && r.Some? ==> source.Obj?
  {
    Walk(if source.Null? then None else Some(source), path)
  }

  /** Walking one key further is one more step. */
  lemma {:induction false} WalkSnoc(acc: Option<Value>, path: FieldPath, key: string)
    ensures Walk(acc, path + [key]) == Step(Walk(acc, path), key)
    decreases path
  {
    if path != [] {
      assert (path + [key])[1..] == path[1..] + [key];
      WalkSnoc(Step(acc, path[0]), path[1..], key);
    }
  }

  /** Reading along `p` and then along `q` is reading along `p + q`. */
  lemma {:induction false} WalkAppend(acc: Option<Value>, p: FieldPath, q: FieldPath)
    ensures Walk(acc, p + q) == Walk(Walk(acc, p), q)
    decreases p
  {
    if p != [] {
      assert (p + q)[1..] == p[1..] + q;
      WalkAppend(Step(acc, p[0]), p[1..], q);
    } else {
      assert p + q == q;
    }
  }

  /** Once a prefix of the path reads `undefined`, `null` or anything but an
      object, every longer path reads `undefined`. */
  lemma GetBelowNonObject(source: Value, p: FieldPath, q: FieldPath)
    requires q != []
    requires var v := GetValueAtPath(source, p); v.None? || !v.value.Obj?
    ensures GetValueAtPath(source, p + q) == None
  {
    WalkAppend(if source.Null? then None else Some(source), p, q);
  }

  // ---------------------------------------------------------------------
  // The field-change updater
  // ---------------------------------------------------------------------

  /** Why the updater throws instead of returning a record: the property
      `key`, at position `depth` of the path, would be assigned on a value
      that is not an object. */
  datatype PathError =
    | CannotCreateProperty(key: string, depth: nat)  // the value is a string, number or boolean
    | IntoArray(key: string, depth: nat)             // the value is an array (not modelled)

  /** `cursor[key] ?? {}`: a missing or `null` intermediate becomes a new
      empty object. */
  function OrEmpty(o: Option<Value>): (r: Value)
    ensures !r.Null?
    ensures o.Some? && !o.value.Null? ==> r == o.value
  {
    if o.None? || o.value.Null? then Obj([]) else o.value
  }

  /** An intermediate value the updater can walk into: `undefined`, `null`
      (both replaced by `{}`) or an object. */
  predicate Descendable(o: Option<Value>)
  {
    o.None? || o.value.Null? || o.value.Obj?
  }

  /** The updater on the sub-tree `node`, reached at position `depth` of the
      full path, with `path` the keys still to apply. */
  function SetIn(node: Value, path: FieldPath, x: Value, depth: nat): (r: Result<Value, PathError>)
    requires path != []
    ensures r.Ok? ==> node.Obj? && r.value.Obj?
    ensures r.Err? ==> depth <= r.error.depth < depth + |path|
    decreases path
  {
    if !node.Obj? then
      if node.Arr? then Err(IntoArray(path[0], depth)) else Err(CannotCreateProperty(path[0], depth))
    else if |path| == 1 then Ok(Obj(Put(node.entries, path[0], x)))
    else
      match SetIn(OrEmpty(Lookup(node.entries, path[0])), path[1..], x, depth + 1)
      case Ok(c) => Ok(Obj(Put(node.entries, path[0], c)))
      case Err(e) => Err(e)
  }

  /** The state updater of `handleFieldChange` as a pure function: a `null`
      record is returned as it is, an empty path returns an unchanged copy,
      and otherwise the value is stored at the end of the path, creating the
      objects missing on the way. The record is an object or `null`, as its
      type says. */
  function SetPath(record: Value, path: FieldPath, x: Value): (r: Result<Value, PathError>)
    requires record.Null? || record.Obj?
    ensures r.Ok? ==> r.value.Null? == record.Null?
    ensures r.Err? ==> 0 < r.error.depth < |path|
  {
    if !Truthy(record) || path == [] then Ok(record) else SetIn(record, path, x, 0)
  }

  /** Putting back the sub-tree under the objects the updater walked
      through, innermost last: each frame is the parent's properties (already
      holding the key) and the key leading down. */
  function Plug(frames: seq<(Entries, string)>, v: Value): (r: Value)
    ensures frames != [] ==> r.Obj?
  {
    if frames == [] then v
    else
      var last := frames[|frames| - 1];
      Plug(frames[..|frames| - 1], Obj(Put(last.0, last.1, v)))
  }

  /** What is left of the update once the walk has reached the sub-tree. */
  function Resume(frames: seq<(Entries, string)>, res: Result<Value, PathError>): (r: Result<Value, PathError>)
  {
    match res
    case Ok(c) => Ok(Plug(frames, c))
    case Err(e) => Err(e)
  }

  /** Moving the cursor one key down: the parent, with the key defaulted,
      becomes a new frame, and the rest of the update continues below. */
  lemma DescendFrame(frames: seq<(Entries, string)>, es: Entries, path: FieldPath, x: Value, depth: nat)
    requires |path| > 1
    ensures var child := OrEmpty(Lookup(es, path[0]));
            Resume(frames, SetIn(Obj(es), path, x, depth))
              == Resume(frames + [(Put(es, path[0], child), path[0])], SetIn(child, path[1..], x, depth + 1))
  {
    var key := path[0];
    var child := OrEmpty(Lookup(es, key));
    var longer := frames + [(Put(es, key, child), key)];
    assert longer[..|frames|] == frames;
    match SetIn(child, path[1..], x, depth + 1)
    case Ok(c) =>
      PutPut(es, key, child, c);
      assert Plug(longer, c) == Plug(frames, Obj(Put(es, key, c)));
    case Err(_) =>
  }

  /** The updater passed to `setFormData` by `handleFieldChange`, with its
      cursor: each intermediate key is defaulted to `{}` in its parent and
      the cursor moves into it; the last key takes the value. A cursor that
      is not an object makes the assignment throw, reported as `Err`. The
      copy being edited is always `Plug(frames, cursor)`. */
  method HandleFieldChange(prev: Value, path: FieldPath, x: Value) returns (r: Result<Value, PathError>)
    requires prev.Null? || prev.Obj?
    ensures r == SetPath(prev, path, x)
  {
    if !Truthy(prev) {
      return Ok(prev);
    }
    var cursor := prev;
    var frames: seq<(Entries, string)> := [];
    var index := 0;
    while index < |path|
      invariant 0 <= index <= |path|
      invariant index < |path| ==> SetPath(prev, path, x) == Resume(frames, SetIn(cursor, path[index..], x, index))
      invariant index == |path| ==> SetPath(prev, path, x) == Ok(Plug(frames, cursor))
    {
      var key := path[index];
      if !cursor.Obj? {
        r := if cursor.Arr? then Err(IntoArray(key, index)) else Err(CannotCreateProperty(key, index));
        return;
      }
      if index == |path| - 1 {
        cursor := Obj(Put(cursor.entries, key, x));
      } else {
        var child := OrEmpty(Lookup(cursor.entries, key));
        var parent := Put(cursor.entries, key, child);
        assert path[index..][1..] == path[index + 1..];
        DescendFrame(frames, cursor.entries, path[index..], x, index);
        frames := frames + [(parent, key)];
        cursor := child;
      }
      index := index + 1;
    }
    r := Ok(Plug(frames, cursor));
  }

  // ---------------------------------------------------------------------
  // Properties of the updater
  // ---------------------------------------------------------------------

  /** Below the default `{}`, every longer path reads `undefined`, exactly as
      below a missing or `null` value. */
  lemma WalkOrEmpty(o: Option<Value>, q: FieldPath)
    requires q != []
    requires o.None? || o.value.Null?
    ensures Walk(Some(OrEmpty(o)), q) == Walk(o, q) == None
  {
  }

  lemma {:induction false} SetInReadsBack(node: Value, path: FieldPath, x: Value, depth: nat)
    requires path != []
    requires SetIn(node, path, x, depth).Ok?
    ensures Walk(Some(SetIn(node, path, x, depth).value), path) == Some(x)
    decreases path
  {
    if |path| > 1 {
      SetInReadsBack(OrEmpty(Lookup(node.entries, path[0])), path[1..], x, depth + 1);
    }
  }

  lemma {:induction false} SetInCreates(node: Value, path: FieldPath, x: Value, depth: nat, j: nat)
    requires path != []
    requires SetIn(node, path, x, depth).Ok?
    requires 0 < j < |path|
    ensures var w := Walk(Some(SetIn(node, path, x, depth).value), path[..j]); w.Some? && w.value.Obj?
    decreases path
  {
    var child := OrEmpty(Lookup(node.entries, path[0]));
    var c := SetIn(child, path[1..], x, depth + 1).value;
    var n := Obj(Put(node.entries, path[0], c));
    assert SetIn(node, path, x, depth).value == n;
    assert Step(Some(n), path[0]) == Some(c);
    assert path[..j][1..] == path[1..][..j - 1];
    assert Walk(Some(n), path[..j]) == Walk(Some(c), path[1..][..j - 1]);
    if j > 1 {
      SetInCreates(child, path[1..], x, depth + 1, j - 1);
    }
  }

  /** Reading the changed field back gives the value just written, and every
      object on the way to it is an object. */
  lemma SetThenGet(record: Value, path: FieldPath, x: Value)
    requires record.Obj? && path != []
    requires SetPath(record, path, x).Ok?
    ensures GetValueAtPath(SetPath(record, path, x).value, path) == Some(x)
    ensures forall j :: 0 < j < |path| ==> GetValueAtPath(SetPath(record, path, x).value, path[..j]).Some?
    ensures forall j :: 0 < j < |path| ==> GetValueAtPath(SetPath(record, path, x).value, path[..j]).value.Obj?
  {
    SetInReadsBack(record, path, x, 0);
    forall j | 0 < j < |path|
      ensures var w := GetValueAtPath(SetPath(record, path, x).value, path[..j]); w.Some? && w.value.Obj?
    {
      SetInCreates(record, path, x, 0, j);
    }
  }

  /** Only the property named by the first key changes at the top. */
  lemma SetInOtherKey(node: Value, path: FieldPath, x: Value, depth: nat, k: string)
    requires path != []
    requires SetIn(node, path, x, depth).Ok?
    requires k != path[0]
    ensures Step(Some(SetIn(node, path, x, depth).value), k) == Step(Some(node), k)
  {
  }

  /** Below the first key, the change is the change of the defaulted child. */
  lemma SetInChild(node: Value, path: FieldPath, x: Value, depth: nat)
    requires |path| > 1
    requires SetIn(node, path, x, depth).Ok?
    ensures var child := OrEmpty(Lookup(node.entries, path[0]));
            SetIn(child, path[1..], x, depth + 1).Ok? &&
            Step(Some(SetIn(node, path, x, depth).value), path[0]) == Some(SetIn(child, path[1..], x, depth + 1).value)
  {
  }

  /** A path that leaves the changed path at position `i` reads as before. */
  lemma {:induction false} SetInFrame(node: Value, path: FieldPath, x: Value, depth: nat, q: FieldPath, i: nat)
    requires path != []
    requires SetIn(node, path, x, depth).Ok?
    requires i < |path| && i < |q| && q[i] != path[i]
    requires forall k :: 0 <= k < i ==> q[k] == path[k]
    ensures Walk(Some(SetIn(node, path, x, depth).value), q) == Walk(Some(node), q)
    decreases path
  {
    var lk := Lookup(node.entries, path[0]);
    var n := SetIn(node, path, x, depth).value;
    assert Walk(Some(n), q) == Walk(Step(Some(n), q[0]), q[1..]);
    assert Walk(Some(node), q) == Walk(Step(Some(node), q[0]), q[1..]);
    if i == 0 {
      SetInOtherKey(node, path, x, depth, q[0]);
    } else {
      assert q[0] == path[0];
      var child := OrEmpty(lk);
      SetInChild(node, path, x, depth);
      SetInFrame(child, path[1..], x, depth + 1, q[1..], i - 1);
      if lk.None? || lk.value.Null? {
        WalkOrEmpty(lk, q[1..]);
      }
    }
  }

  /** Every field whose path leaves the changed path somewhere keeps its
      value: siblings, and everything under them. */
  lemma SetPathFrame(record: Value, path: FieldPath, x: Value, q: FieldPath, i: nat)
    requires record.Null? || record.Obj?
    requires SetPath(record, path, x).Ok?
    requires i < |path| && i < |q| && q[i] != path[i]
    requires forall k :: 0 <= k < i ==> q[k] == path[k]
    ensures GetValueAtPath(SetPath(record, path, x).value, q) == GetValueAtPath(record, q)
  {
    if record.Obj? {
      SetInFrame(record, path, x, 0, q, i);
    }
  }

  /** Descending from `node` by the first key of `path`: the value at
      position `j` is the value at position `j - 1` below the defaulted
      child, and the child itself is an object exactly when the value at
      position 1 is `undefined`, `null` or an object. */
  lemma DescendableStep(node: Value, path: FieldPath, j: nat)
    requires node.Obj? && 0 < j < |path|
    ensures j == 1 ==>
              (Descendable(Walk(Some(node), path[..j])) <==> OrEmpty(Lookup(node.entries, path[0])).Obj?)
    ensures j > 1 ==>
              (Descendable(Walk(Some(node), path[..j])) <==>
               Descendable(Walk(Some(OrEmpty(Lookup(node.entries, path[0]))), path[1..][..j - 1])))
  {
    var lk := Lookup(node.entries, path[0]);
    assert path[..j][1..] == path[1..][..j - 1];
    assert Walk(Some(node), path[..j]) == Walk(lk, path[1..][..j - 1]);
    if j > 1 && (lk.None? || lk.value.Null?) {
      WalkOrEmpty(lk, path[1..][..j - 1]);
    }
  }

  lemma {:induction false} SetInSucceeds(node: Value, path: FieldPath, x: Value, depth: nat)
    requires path != []
    ensures SetIn(node, path, x, depth).Ok? <==>
              node.Obj? && forall j :: 0 < j < |path| ==> Descendable(Walk(Some(node), path[..j]))
    decreases path
  {
    if node.Obj? && |path| > 1 {
      var child := OrEmpty(Lookup(node.entries, path[0]));
      SetInSucceeds(child, path[1..], x, depth + 1);
      forall j | 0 < j < |path| {
        DescendableStep(node, path, j);
      }
      if SetIn(child, path[1..], x, depth + 1).Ok? {
        forall j | 0 < j < |path| ensures Descendable(Walk(Some(node), path[..j])) {
          if j > 1 {
            assert 0 < j - 1 < |path[1..]|;
          }
        }
      } else if child.Obj? {
        var j' :| 0 < j' < |path[1..]| && !Descendable(Walk(Some(child), path[1..][..j']));
        DescendableStep(node, path, j' + 1);
      } else {
        DescendableStep(node, path, 1);
      }
    }
  }

  lemma {:induction false} SetInError(node: Value, path: FieldPath, x: Value, depth: nat)
    requires path != []
    requires SetIn(node, path, x, depth).Err?
    ensures var e := SetIn(node, path, x, depth).error;
            var j := e.depth - depth;
            e.key == path[j] &&
            (j == 0 <==> !node.Obj?) &&
            (j > 0 ==> !Descendable(Walk(Some(node), path[..j]))) &&
            forall j' :: 0 < j' < j ==> Descendable(Walk(Some(node), path[..j']))
    decreases path
  {
    if node.Obj? {
      var child := OrEmpty(Lookup(node.entries, path[0]));
      SetInError(child, path[1..], x, depth + 1);
      var e := SetIn(node, path, x, depth).error;
      var j := e.depth - depth;
      DescendableStep(node, path, j);
      forall j' | 0 < j' < j ensures Descendable(Walk(Some(node), path[..j'])) {
        DescendableStep(node, path, j');
      }
    }
  }

  /** The updater throws exactly when some value strictly inside the path is
      present and neither `null` nor an object; the error names the first
      such position and the key that could not be assigned there. */
  lemma SetPathFails(record: Value, path: FieldPath, x: Value)
    requires record.Obj? && path != []
    ensures SetPath(record, path, x).Ok? <==>
              forall j :: 0 < j < |path| ==> Descendable(GetValueAtPath(record, path[..j]))
    ensures SetPath(record, path, x).Err? ==>
              var e := SetPath(record, path, x).error;
              e.key == path[e.depth] &&
              !Descendable(GetValueAtPath(record, path[..e.depth])) &&
              forall j :: 0 < j < e.depth ==> Descendable(GetValueAtPath(record, path[..j]))
  {
    SetInSucceeds(record, path, x, 0);
    if SetPath(record, path, x).Err? {
      SetInError(record, path, x, 0);
    }
  }

  /** One level of `SetInTwice`, given the claim for the child. */
  lemma SetInTwiceStep(node: Value, path: FieldPath, a: Value, b: Value, depth: nat)
    requires |path| > 1
    requires SetIn(node, path, a, depth).Ok?
    requires var child := OrEmpty(Lookup(node.entries, path[0]));
             SetIn(child, path[1..], a, depth + 1).Ok? &&
             SetIn(SetIn(child, path[1..], a, depth + 1).value, path[1..], b, depth + 1)
               == SetIn(child, path[1..], b, depth + 1)
    ensures SetIn(SetIn(node, path, a, depth).value, path, b, depth) == SetIn(node, path, b, depth)
  {
    var es, k := node.entries, path[0];
    var child := OrEmpty(Lookup(es, k));
    var c := SetIn(child, path[1..], a, depth + 1).value;
    var n1 := Obj(Put(es, k, c));
    assert OrEmpty(Lookup(n1.entries, k)) == c;
    var second := SetIn(child, path[1..], b, depth + 1);
    if second.Ok? {
      PutPut(es, k, c, second.value);
    }
  }

  lemma {:induction false} SetInTwice(node: Value, path: FieldPath, a: Value, b: Value, depth: nat)
    requires path != []
    requires SetIn(node, path, a, depth).Ok?
    ensures SetIn(SetIn(node, path, a, depth).value, path, b, depth) == SetIn(node, path, b, depth)
    decreases path
  {
    if |path| == 1 {
      PutPut(node.entries, path[0], a, b);
    } else {
      SetInTwice(OrEmpty(Lookup(node.entries, path[0])), path[1..], a, b, depth + 1);
      SetInTwiceStep(node, path, a, b, depth);
    }
  }

  /** Of two changes to the same field, only the second is visible; in
      particular repeating a change changes nothing more. */
  lemma SetPathTwice(record: Value, path: FieldPath, a: Value, b: Value)
    requires record.Null? || record.Obj?
    requires SetPath(record, path, a).Ok?
    ensures SetPath(SetPath(record, path, a).value, path, b) == SetPath(record, path, b)
    ensures SetPath(SetPath(record, path, a).value, path, a) == SetPath(record, path, a)
  {
    if record.Obj? && path != [] {
      SetInTwice(record, path, a, b, 0);
      SetInTwice(record, path, a, a, 0);
    }
  }

  /** A `null` record and an empty path leave the record as it is. */
  lemma SetPathNoChange(record: Value, path: FieldPath, x: Value)
    requires record.Null? || record.Obj?
    requires record.Null? || path == []
    ensures SetPath(record, path, x) == Ok(record)
  {
  }

  /** A change below a field that holds a string throws; a change below a
      missing or `null` field creates the object on the way. */
  lemma NestedFieldExamples(address: string, city: string, x: Value)
    requires address == "memberAddress" && city == "city"
    ensures SetPath(Obj([(address, Str("Accra"))]), [address, city], x)
              == Err(CannotCreateProperty(city, 1))
    ensures SetPath(Obj([("firstName", Str("Ama"))]), [address, city], x)
              == Ok(Obj([("firstName", Str("Ama")), (address, Obj([(city, x)]))]))
    ensures SetPath(Obj([(address, Null)]), [address, city], x)
              == Ok(Obj([(address, Obj([(city, x)]))]))
  {
    var path := [address, city];
    assert path[1..] == [city];
    var inner := Obj([(city, x)]);
    assert SetIn(Obj([]), [city], x, 1) == Ok(inner);

    var holdsString: Entries := [(address, Str("Accra"))];
    assert Lookup(holdsString, address) == Some(Str("Accra"));
    assert SetIn(Str("Accra"), [city], x, 1) == Err(CannotCreateProperty(city, 1));
    assert SetIn(Obj(holdsString), path, x, 0) == Err(CannotCreateProperty(city, 1));

    var named: Entries := [("firstName", Str("Ama"))];
    assert named[0].0 != address;
    assert Lookup(named, address) == None;
    assert Put(named, address, inner) == named + [(address, inner)];
    assert SetIn(Obj(named), path, x, 0) == Ok(Obj(named + [(address, inner)]));
    assert named + [(address, inner)] == [("firstName", Str("Ama")), (address, inner)];

    var holdsNull: Entries := [(address, Null)];
    assert Lookup(holdsNull, address) == Some(Null);
    assert Put(holdsNull, address, inner) == [(address, inner)];
    assert SetIn(Obj(holdsNull), path, x, 0) == Ok(Obj([(address, inner)]));
  }
}
