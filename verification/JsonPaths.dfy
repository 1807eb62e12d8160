/** JSON trees and the first-write-wins assignment of a value at a path. */
module JsonPaths {
  import opened Text

  datatype Json =
    | Null
    | Bool(value: bool)
    | Num(number: real)
    | Str(text: string)
    | Arr(items: seq<Json>)
    | Obj(fields: map<string, Json>)

  type Object = map<string, Json>
  type Path = seq<string>

  /** `ensure_path_value`: missing objects on the way are created; what is there and not null stays. */
  function Ensure(m: Object, path: Path, value: Json): Object
    decreases |path|
  {
    if path == [] then m
    else if |path| == 1 then (if path[0] in m && !m[path[0]].Null? then m else m[path[0] := value])
    else
      var entry := if path[0] in m then m[path[0]] else Obj(map[]);
      if entry.Obj? then m[path[0] := Obj(Ensure(entry.fields, path[1..], value))] else m
  }

  /** The value at a path, if every step on the way is an object. */
  function Lookup(m: Object, path: Path): Option<Json>
    decreases |path|
  {
    if path == [] then Some(Obj(m))
    else if path[0] !in m then None
    else if |path| == 1 then Some(m[path[0]])
    else if m[path[0]].Obj? then Lookup(m[path[0]].fields, path[1..])
    else None
  }

  /** A path is open if it holds nothing yet, or null, and no other value stands in its way. */
  predicate Open(m: Object, path: Path)
    decreases |path|
  {
    path != [] &&
    if |path| == 1 then path[0] in m ==> m[path[0]].Null?
    else path[0] in m ==> m[path[0]].Obj? && Open(m[path[0]].fields, path[1..])
  }

  lemma {:induction false} EmptyIsOpen(path: Path)
    requires path != []
    ensures Open(map[], path)
  {
  }

  /** An assignment takes effect exactly on an open path; everywhere else it changes nothing. */
  lemma {:induction false} EnsureWritesExactlyOpenPaths(m: Object, path: Path, value: Json)
    ensures if Open(m, path) then Lookup(Ensure(m, path, value), path) == Some(value) else Ensure(m, path, value) == m
    decreases |path|
  {
    if |path| > 1 {
      var entry := if path[0] in m then m[path[0]] else Obj(map[]);
      if entry.Obj? {
        EmptyIsOpen(path[1..]);
        EnsureWritesExactlyOpenPaths(entry.fields, path[1..], value);
        if !Open(m, path) {
          assert m[path[0] := m[path[0]]] == m;
        }
      }
    }
  }

  predicate IsScalar(value: Json) {
    !value.Null? && !value.Obj?
  }

  lemma {:induction false} EnsureCloses(m: Object, path: Path, value: Json)
    requires IsScalar(value)
    ensures !Open(Ensure(m, path, value), path)
    decreases |path|
  {
    if |path| > 1 {
      var entry := if path[0] in m then m[path[0]] else Obj(map[]);
      if entry.Obj? {
        EnsureCloses(entry.fields, path[1..], value);
      }
    }
  }

  /** A path that is closed stays closed under any later assignment. */
  lemma {:induction false} ClosedStaysClosed(m: Object, closed: Path, path: Path, value: Json)
    requires !Open(m, closed) && IsScalar(value)
    ensures !Open(Ensure(m, path, value), closed)
    decreases |path|
  {
    if |path| > 1 && |closed| > 1 && path[0] == closed[0] && path[0] in m && m[path[0]].Obj? {
      ClosedStaysClosed(m[path[0]].fields, closed[1..], path[1..], value);
    }
  }

  // ---------- nothing is lost ----------

  /** Every value of `a` that is not null is in `b`, at the same place. */
  ghost predicate Extends(a: Json, b: Json)
    decreases a
  {
    match a
    case Null => true
    case Obj(fields) => b.Obj? && forall key :: key in fields ==> key in b.fields && Extends(fields[key], b.fields[key])
    case _ => b == a
  }

  lemma {:induction false} ExtendsReflexive(a: Json)
    ensures Extends(a, a)
    decreases a
  {
    if a.Obj? {
      forall key | key in a.fields ensures Extends(a.fields[key], a.fields[key]) {
        ExtendsReflexive(a.fields[key]);
      }
    }
  }

  lemma {:induction false} ExtendsTransitive(a: Json, b: Json, c: Json)
    requires Extends(a, b) && Extends(b, c)
    ensures Extends(a, c)
    decreases a
  {
    if a.Obj? {
      forall key | key in a.fields ensures key in c.fields && Extends(a.fields[key], c.fields[key]) {
        ExtendsTransitive(a.fields[key], b.fields[key], c.fields[key]);
      }
    }
  }

  lemma {:induction false} EnsureExtends(m: Object, path: Path, value: Json)
    ensures Extends(Obj(m), Obj(Ensure(m, path, value)))
    decreases |path|
  {
    var m' := Ensure(m, path, value);
    forall key | key in m ensures key in m' && Extends(m[key], m'[key]) {
      if |path| > 1 && key == path[0] && m[key].Obj? {
        EnsureExtends(m[key].fields, path[1..], value);
      } else if !(|path| == 1 && key == path[0] && m[key].Null?) {
        ExtendsReflexive(m[key]);
      }
    }
  }

  /** So a value found at a path before is found there after, with all it held. */
  lemma {:induction false} ExtendsKeepsLookup(a: Object, b: Object, path: Path)
    requires Extends(Obj(a), Obj(b)) && Lookup(a, path).Some? && !Lookup(a, path).value.Null?
    ensures Lookup(b, path).Some? && Extends(Lookup(a, path).value, Lookup(b, path).value)
    decreases |path|
  {
    if path != [] {
      assert Extends(a[path[0]], b[path[0]]);
      if |path| > 1 {
        ExtendsKeepsLookup(a[path[0]].fields, b[path[0]].fields, path[1..]);
      }
    }
  }

  // ---------- nothing else is touched ----------

  /** Neither path is a prefix of the other. */
  predicate Apart(p: Path, q: Path) {
    p != [] && q != [] && (p[0] != q[0] || Apart(p[1..], q[1..]))
  }

  lemma {:induction false} EnsureTouchesNothingElse(m: Object, path: Path, value: Json, other: Path)
    requires Apart(path, other)
    ensures Lookup(Ensure(m, path, value), other) == Lookup(m, other)
    decreases |path|
  {
    if path[0] == other[0] {
      assert |path| > 1 && |other| > 1;
      var entry := if path[0] in m then m[path[0]] else Obj(map[]);
      if entry.Obj? {
        EnsureTouchesNothingElse(entry.fields, path[1..], value, other[1..]);
        assert Lookup(map[], other[1..]) == None;
      }
    }
  }

  lemma {:induction false} EnsureKeepsOpen(m: Object, path: Path, value: Json, other: Path)
    requires Apart(path, other) && Open(m, other)
    ensures Open(Ensure(m, path, value), other)
    decreases |path|
  {
    if path[0] == other[0] {
      assert |path| > 1 && |other| > 1;
      var entry := if path[0] in m then m[path[0]] else Obj(map[]);
      EmptyIsOpen(other[1..]);
      EnsureKeepsOpen(entry.fields, path[1..], value, other[1..]);
    }
  }

  // ---------- a list of optional assignments ----------

  /** The first `n` of the values, those that are there, assigned to their paths in order. */
  function Assigned(m: Object, paths: seq<Path>, values: seq<Option<Json>>, n: nat): Object
    requires n <= |paths| == |values|
  {
    if n == 0 then m
    else if values[n - 1].None? then Assigned(m, paths, values, n - 1)
    else Ensure(Assigned(m, paths, values, n - 1), paths[n - 1], values[n - 1].value)
  }

  predicate Scalars(values: seq<Option<Json>>) {
    forall i :: 0 <= i < |values| && values[i].Some? ==> IsScalar(values[i].value)
  }

  ghost predicate PairwiseApart(paths: seq<Path>) {
    forall i, j :: 0 <= i < |paths| && 0 <= j < |paths| && i != j ==> Apart(paths[i], paths[j])
  }

  lemma {:induction false} AssignedExtends(m: Object, paths: seq<Path>, values: seq<Option<Json>>, n: nat)
    requires n <= |paths| == |values|
    ensures Extends(Obj(m), Obj(Assigned(m, paths, values, n)))
  {
    if n == 0 {
      ExtendsReflexive(Obj(m));
    } else {
      var before := Assigned(m, paths, values, n - 1);
      AssignedExtends(m, paths, values, n - 1);
      if values[n - 1].Some? {
        EnsureExtends(before, paths[n - 1], values[n - 1].value);
        ExtendsTransitive(Obj(m), Obj(before), Obj(Assigned(m, paths, values, n)));
      }
    }
  }

  lemma {:induction false} AssignedTouchesNothingElse(m: Object, paths: seq<Path>, values: seq<Option<Json>>, n: nat,
                                                      other: Path)
    requires n <= |paths| == |values|
    requires forall i :: 0 <= i < n ==> Apart(paths[i], other)
    ensures Lookup(Assigned(m, paths, values, n), other) == Lookup(m, other)
    ensures Open(m, other) ==> Open(Assigned(m, paths, values, n), other)
  {
    if n > 0 {
      var before := Assigned(m, paths, values, n - 1);
      AssignedTouchesNothingElse(m, paths, values, n - 1, other);
      if values[n - 1].Some? {
        EnsureTouchesNothingElse(before, paths[n - 1], values[n - 1].value, other);
        if Open(m, other) {
          EnsureKeepsOpen(before, paths[n - 1], values[n - 1].value, other);
        }
      }
    }
  }

  /** What the list leaves at its own paths: the value where the path was open, what was there otherwise. */
  lemma {:induction false} AssignedExactly(m: Object, paths: seq<Path>, values: seq<Option<Json>>, n: nat, k: nat)
    requires k < n <= |paths| == |values|
    requires PairwiseApart(paths)
    ensures Lookup(Assigned(m, paths, values, n), paths[k]) ==
      if values[k].Some? && Open(m, paths[k]) then values[k] else Lookup(m, paths[k])
  {
    if k < n - 1 {
      AssignedExactly(m, paths, values, n - 1, k);
      if values[n - 1].Some? {
        EnsureTouchesNothingElse(Assigned(m, paths, values, n - 1), paths[n - 1], values[n - 1].value, paths[k]);
      }
    } else {
      var before := Assigned(m, paths, values, k);
      AssignedTouchesNothingElse(m, paths, values, k, paths[k]);
      if values[k].Some? {
        EnsureWritesExactlyOpenPaths(before, paths[k], values[k].value);
        if !Open(m, paths[k]) {
          AssignedStaysClosed(m, paths, values, k, paths[k]);
        }
      }
    }
  }

  lemma {:induction false} AssignedStaysClosed(m: Object, paths: seq<Path>, values: seq<Option<Json>>, n: nat,
                                               closed: Path)
    requires n <= |paths| == |values|
    requires !Open(m, closed) && (forall i :: 0 <= i < n ==> Apart(paths[i], closed))
    ensures !Open(Assigned(m, paths, values, n), closed)
  {
    if n > 0 {
      AssignedStaysClosed(m, paths, values, n - 1, closed);
      if values[n - 1].Some? {
        EnsureKeepsClosed(Assigned(m, paths, values, n - 1), paths[n - 1], values[n - 1].value, closed);
      }
    }
  }

  lemma {:induction false} EnsureKeepsClosed(m: Object, path: Path, value: Json, closed: Path)
    requires Apart(path, closed) && !Open(m, closed)
    ensures !Open(Ensure(m, path, value), closed)
    decreases |path|
  {
    if path[0] == closed[0] && |path| > 1 && |closed| > 1 && path[0] in m && m[path[0]].Obj? {
      EnsureKeepsClosed(m[path[0]].fields, path[1..], value, closed[1..]);
    }
  }

  lemma {:induction false} AssignedClosesAll(m: Object, paths: seq<Path>, values: seq<Option<Json>>, n: nat)
    requires n <= |paths| == |values| && Scalars(values)
    ensures forall i :: 0 <= i < n && values[i].Some? ==> !Open(Assigned(m, paths, values, n), paths[i])
  {
    if n > 0 {
      var before := Assigned(m, paths, values, n - 1);
      AssignedClosesAll(m, paths, values, n - 1);
      if values[n - 1].Some? {
        EnsureCloses(before, paths[n - 1], values[n - 1].value);
        forall i | 0 <= i < n - 1 && values[i].Some? ensures !Open(Assigned(m, paths, values, n), paths[i]) {
          ClosedStaysClosed(before, paths[i], paths[n - 1], values[n - 1].value);
        }
      }
    }
  }

  lemma {:induction false} AssignedOnClosed(m: Object, paths: seq<Path>, values: seq<Option<Json>>, n: nat)
    requires n <= |paths| == |values|
    requires forall i :: 0 <= i < n && values[i].Some? ==> !Open(m, paths[i])
    ensures Assigned(m, paths, values, n) == m
  {
    if n > 0 {
      AssignedOnClosed(m, paths, values, n - 1);
      if values[n - 1].Some? {
        EnsureWritesExactlyOpenPaths(m, paths[n - 1], values[n - 1].value);
      }
    }
  }
}
