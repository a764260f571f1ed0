/**
 * The harvest of JSON field names offered after a '.': every field name of
 * every object in the message body, at any depth.
 */
module JsonKeys {
  import opened Options

  /** A parsed JSON tree; numbers, strings, booleans and null are all leaves here. */
  datatype Json =
    | Obj(fields: seq<(string, Json)>)
    | Arr(elems: seq<Json>)
    | Scalar

  // ---------------------------------------------------------------------
  // The recursive definition

  function KeysOf(j: Json): set<string>
    decreases j
  {
    match j
    case Scalar => {}
    case Arr(es) => ElemKeys(es)
    case Obj(fs) => FieldKeys(fs)
  }

  /** The keys of the elements, element by element. */
  function ElemKeys(es: seq<Json>): set<string>
    decreases es
  {
    if |es| == 0 then {}
    else ElemKeys(es[..|es| - 1]) + KeysOf(es[|es| - 1])
  }

  /** Each field's name together with the keys of its value. */
  function FieldKeys(fs: seq<(string, Json)>): set<string>
    decreases fs
  {
    if |fs| == 0 then {}
    else
      var f := fs[|fs| - 1];
      assert f in fs && f.1 < f;
      FieldKeys(fs[..|fs| - 1]) + {f.0} + KeysOf(f.1)
  }

  lemma {:induction false} ElemKeysMember(es: seq<Json>, x: string)
    ensures x in ElemKeys(es) <==> exists i :: 0 <= i < |es| && x in KeysOf(es[i])
    decreases |es|
  {
    if |es| > 0 {
      var init := es[..|es| - 1];
      ElemKeysMember(init, x);
      if exists i :: 0 <= i < |init| && x in KeysOf(init[i]) {
        var i :| 0 <= i < |init| && x in KeysOf(init[i]);
        assert es[i] == init[i];
      }
      if exists i :: 0 <= i < |es| && x in KeysOf(es[i]) {
        var i :| 0 <= i < |es| && x in KeysOf(es[i]);
        if i < |init| {
          assert init[i] == es[i];
        }
      }
    }
  }

  lemma {:induction false} FieldKeysMember(fs: seq<(string, Json)>, x: string)
    ensures x in FieldKeys(fs) <==>
              exists i :: 0 <= i < |fs| && (fs[i].0 == x || x in KeysOf(fs[i].1))
    decreases |fs|
  {
    if |fs| > 0 {
      var init := fs[..|fs| - 1];
      FieldKeysMember(init, x);
      if exists i :: 0 <= i < |init| && (init[i].0 == x || x in KeysOf(init[i].1)) {
        var i :| 0 <= i < |init| && (init[i].0 == x || x in KeysOf(init[i].1));
        assert fs[i] == init[i];
      }
      if exists i :: 0 <= i < |fs| && (fs[i].0 == x || x in KeysOf(fs[i].1)) {
        var i :| 0 <= i < |fs| && (fs[i].0 == x || x in KeysOf(fs[i].1));
        if i < |init| {
          assert init[i] == fs[i];
        }
      }
    }
  }

  // ---------------------------------------------------------------------
  // getKeys

  /**
   * JQTab.getKeys: an array contributes its elements' keys; anything else
   * contributes each of its fields' names and the keys of the fields' values
   * (a leaf has no fields).
   */
  method GetKeys(node: Json) returns (keys: set<string>)
    ensures keys == KeysOf(node)
    decreases node
  {
    keys := {};
    match node
    case Arr(es) =>
      var i := 0;
      while i < |es|
        invariant 0 <= i <= |es|
        invariant keys == ElemKeys(es[..i])
      {
        var sub := GetKeys(es[i]);
        assert es[..i + 1][..i] == es[..i];
        keys := keys + sub;
        i := i + 1;
      }
      assert es[..i] == es;
    case Obj(fs) =>
      var i := 0;
      while i < |fs|
        invariant 0 <= i <= |fs|
        invariant keys == FieldKeys(fs[..i])
      {
        var entry := fs[i];
        keys := keys + {entry.0};
        var sub := GetKeys(entry.1);
        assert fs[..i + 1][..i] == fs[..i];
        keys := keys + sub;
        i := i + 1;
      }
      assert fs[..i] == fs;
    case Scalar =>
  }

  // ---------------------------------------------------------------------
  // An independent description: the names of objects reached by a path

  /** The `i`-th field value of an object or the `i`-th element of an array. */
  function Child(j: Json, i: nat): Option<Json>
  {
    match j
    case Obj(fs) => if i < |fs| then Some(fs[i].1) else None
    case Arr(es) => if i < |es| then Some(es[i]) else None
    case Scalar => None
  }

  /** The node reached from `j` by following child positions. */
  function Subtree(j: Json, path: seq<nat>): Option<Json>
    decreases |path|
  {
    if |path| == 0 then Some(j)
    else
      match Child(j, path[0])
      case None => None
      case Some(c) => Subtree(c, path[1..])
  }

  predicate NamesField(j: Json, x: string)
  {
    j.Obj? && exists i :: 0 <= i < |j.fields| && j.fields[i].0 == x
  }

  /** One step down prefixes the path. */
  lemma SubtreeStep(j: Json, i: nat, c: Json, path: seq<nat>)
    requires Child(j, i) == Some(c)
    ensures Subtree(j, [i] + path) == Subtree(c, path)
  {
    assert ([i] + path)[1..] == path;
  }

  /**
   * The keys are exactly the field names of the objects somewhere in the
   * tree: array positions and leaf values never appear.
   */
  lemma {:induction false} KeysAreFieldNames(j: Json, x: string)
    ensures x in KeysOf(j) <==>
              exists path :: Subtree(j, path).Some? && NamesField(Subtree(j, path).value, x)
  {
    if x in KeysOf(j) {
      KeysReached(j, x);
    }
    if exists path :: Subtree(j, path).Some? && NamesField(Subtree(j, path).value, x) {
      var path :| Subtree(j, path).Some? && NamesField(Subtree(j, path).value, x);
      ReachedAreKeys(j, path, x);
    }
  }

  lemma {:induction false} KeysReached(j: Json, x: string)
    requires x in KeysOf(j)
    ensures exists path :: Subtree(j, path).Some? && NamesField(Subtree(j, path).value, x)
    decreases j
  {
    match j
    case Arr(es) =>
      ElemKeysMember(es, x);
      var i :| 0 <= i < |es| && x in KeysOf(es[i]);
      KeysReached(es[i], x);
      var path :| Subtree(es[i], path).Some? && NamesField(Subtree(es[i], path).value, x);
      SubtreeStep(j, i, es[i], path);
    case Obj(fs) =>
      FieldKeysMember(fs, x);
      var i :| 0 <= i < |fs| && (fs[i].0 == x || x in KeysOf(fs[i].1));
      if fs[i].0 == x {
        assert Subtree(j, []) == Some(j);
      } else {
        KeysReached(fs[i].1, x);
        var path :| Subtree(fs[i].1, path).Some? && NamesField(Subtree(fs[i].1, path).value, x);
        SubtreeStep(j, i, fs[i].1, path);
      }
  }

  lemma {:induction false} ReachedAreKeys(j: Json, path: seq<nat>, x: string)
    requires Subtree(j, path).Some? && NamesField(Subtree(j, path).value, x)
    ensures x in KeysOf(j)
    decreases |path|
  {
    if |path| == 0 {
      var i :| 0 <= i < |j.fields| && j.fields[i].0 == x;
      FieldKeysMember(j.fields, x);
    } else {
      var c := Child(j, path[0]).value;
      ReachedAreKeys(c, path[1..], x);
      match j
      case Arr(es) =>
        ElemKeysMember(es, x);
        assert es[path[0]] == c;
      case Obj(fs) =>
        FieldKeysMember(fs, x);
        assert fs[path[0]].1 == c;
    }
  }

  /** The example tree {"a": [{"b": 1}, 2], "c": "d"} has the keys a, b and c. */
  lemma KeysExample()
    ensures KeysOf(Obj([("a", Arr([Obj([("b", Scalar)]), Scalar])), ("c", Scalar)])) == {"a", "b", "c"}
  {
    var inner := Arr([Obj([("b", Scalar)]), Scalar]);
    assert [Obj([("b", Scalar)]), Scalar][..1] == [Obj([("b", Scalar)])];
    assert KeysOf(inner) == {"b"};
    var fs := [("a", inner), ("c", Scalar)];
    assert fs[..1] == [("a", inner)];
  }
}
