/** `DictSam.normalize` and `_restore_lists`: a path list folded back into a
    JSON value. The store loop walks a cursor down each route, vivifying
    missing keys and smashing (or, under `enforce_unique`, refusing) leaves in
    the way; then every node whose names are all list indices becomes a list. */
module Normalization {
  import opened Wrappers
  import opened Assoc
  import opened JsonValue
  import opened PathTree
  import opened Denormalization

  /** The outer loop of normalize: `for path in data`, with the tree reset to
      the root cursor before each path. */
  method BuildTree(paths: seq<Path>, enforce: bool) returns (r: Result<Entries, Conflict>)
    requires LongPaths(paths)
    ensures r == FoldFrom([], paths, enforce)
  {
    var root: Entries := [];
    for i := 0 to |paths|
      invariant FoldFrom(root, paths[i..], enforce) == FoldFrom([], paths, enforce)
    {
      assert paths[i..][0] == paths[i] && paths[i..][1..] == paths[i + 1..];
      var stored := StorePath(root, paths[i], enforce);
      if stored.None? {
        return Err(PathConflict(paths[i]));
      }
      root := stored.value;
    }
    assert paths[|paths|..] == [];
    return Ok(root);
  }

  /** The inner loop of normalize: the cursor walks down the route of one
      path, then the leaf is stored under the last key. The cursor is the
      depth `j` reached along the route; `At(root, route, j)` is `cursor[key]`
      and a store through the cursor is `SetDeep` at that depth. `None` is
      the conflict error. */
  method StorePath(start: Entries, path: Path, enforce: bool) returns (r: Option<Entries>)
    requires |path| >= 2
    ensures r == Put(start, Route(path), LeafOf(path), enforce)
  {
    var route := Route(path);
    var leaf := LeafOf(path);
    var root := start;
    ghost var goal := Put(start, route, leaf, enforce);
    var j := 0;
    while j < |route|
      invariant j <= |route|
      invariant NodesAlong(root, route, j)
      invariant Put(root, route, leaf, enforce) == goal
    {
      var here := At(root, route, j);
      if !(here.Some? && here.value.Node?) {
        if enforce && here.Some? {
          LeafOnRoute(root, route, j, leaf);
          return None;
        }
        CursorStep(root, route, j, leaf, enforce);
        root := SetDeep(root, route, j, Node([]));
      } else {
        CursorStep(root, route, j, leaf, enforce);
      }
      j := j + 1;
    }
    PutThroughNodes(root, route, leaf, enforce);
    return Some(SetDeep(root, route, |route| - 1, TLeaf(leaf)));
  }

  /** One step of the cursor: it moves down through a node, and otherwise
      vivifies the key (or smashes the leaf there), without changing what
      storing the path gives. */
  lemma CursorStep(root: Entries, route: seq<Atom>, j: nat, leaf: Atom, enforce: bool)
    requires j < |route| && NodesAlong(root, route, j)
    requires !(enforce && At(root, route, j).Some? && At(root, route, j).value.TLeaf?)
    ensures var next := if At(root, route, j).Some? && At(root, route, j).value.Node? then root
                        else SetDeep(root, route, j, Node([]));
      NodesAlong(next, route, j + 1) && Put(next, route, leaf, enforce) == Put(root, route, leaf, enforce)
  {
    if At(root, route, j).Some? && At(root, route, j).value.Node? {
      NodesAlongStep(root, route, j);
    } else {
      VivifyKeepsPut(root, route, j, leaf, enforce);
    }
  }

  // ---------------------------------------------------------------------
  // List restoration

  /** `all(_is_int(x) for x in keys)`. */
  predicate IntNames(es: Entries)
    requires forall i :: 0 <= i < |es| ==> IsKey(es[i].0)
  {
    forall i :: 0 <= i < |es| ==> IsInt(es[i].0)
  }

  /** `max(keys)` over list indices. */
  function MaxIndex(es: Entries): (m: nat)
    requires |es| > 0
    requires forall i :: 0 <= i < |es| ==> es[i].0.Num? && es[i].0.n >= 0
    ensures forall i :: 0 <= i < |es| ==> es[i].0.n <= m
    ensures exists i :: 0 <= i < |es| && es[i].0.n == m
    decreases |es|
  {
    if |es| == 1 then es[0].0.n
    else
      var m := MaxIndex(es[1..]);
      assert forall i :: 1 <= i < |es| ==> es[i] == es[1..][i - 1];
      if es[0].0.n > m then es[0].0.n else m
  }

  /** The value `_restore_lists` makes of a tree: a node whose names are all
      list indices becomes a list of length `max + 1` holding each member at
      its index and `None` elsewhere; any other node stays an object. */
  function Restored(t: Tree): (r: Json)
    requires Valid(t)
    ensures r.Leaf? <==> t.TLeaf?
    ensures t.Node? && r.Arr? ==> |t.entries| > 0 && IntNames(t.entries)
    ensures t.Node? && r.Obj? ==> |r.fields| == |t.entries|
    decreases t, 1
  {
    match t
    case TLeaf(a) => Leaf(a)
    case Node(es) =>
      if |es| > 0 && IntNames(es) then
        Arr(seq(MaxIndex(es) + 1, n requires 0 <= n <= MaxIndex(es) => Slot(es, n)))
      else
        Obj(seq(|es|, i requires 0 <= i < |es| => (es[i].0, Restored(es[i].1))))
  }

  /** Slot `n` of a restored list: the member with index `n`, or `None`. */
  function Slot(es: Entries, n: nat): Json
    requires Valid(Node(es))
    decreases Node(es), 0
  {
    var i := Find(es, Num(n));
    if i < |es| then Restored(es[i].1) else Leaf(Null)
  }

  /** `_restore_lists` on one tree: a leaf stays as it is, a node is handed to
      the list or the object branch. */
  method RestoreLists(t: Tree) returns (j: Json)
    requires Valid(t)
    ensures j == Restored(t)
    decreases t, 2
  {
    match t
    case TLeaf(a) =>
      j := Leaf(a);
    case Node(es) =>
      if |es| > 0 && IntNames(es) {
        j := RestoreList(es);
      } else {
        j := RestoreObject(es);
      }
  }

  /** The list branch: `[None] * (max + 1)`, then each member restored into its slot. */
  method RestoreList(es: Entries) returns (j: Json)
    requires Valid(Node(es)) && |es| > 0 && IntNames(es)
    ensures j == Restored(Node(es))
    decreases Node(es), 1
  {
    IndexNames(es);
    var slots := new Json[MaxIndex(es) + 1](_ => Leaf(Null));
    FillSlots(es, slots);
    j := Arr(slots[..]);
  }

  /** The loop of the list branch: every member restored into the slot of its index. */
  method FillSlots(es: Entries, slots: array<Json>)
    requires Valid(Node(es))
    requires forall i :: 0 <= i < |es| ==> es[i].0.Num? && 0 <= es[i].0.n < slots.Length
    requires forall n :: 0 <= n < slots.Length ==> slots[n] == Leaf(Null)
    modifies slots
    ensures forall n :: 0 <= n < slots.Length ==> slots[n] == Slot(es, n)
    decreases Node(es), 0
  {
    for i := 0 to |es|
      invariant forall n :: 0 <= n < slots.Length ==> slots[n] == (if Find(es, Num(n)) < i then Slot(es, n) else Leaf(Null))
    {
      var v := RestoreLists(es[i].1);
      SlotFilled(es, i);
      slots[es[i].0.n] := v;
    }
    forall n | 0 <= n < slots.Length ensures slots[n] == Slot(es, n) {
      if Find(es, Num(n)) >= |es| {
        assert Slot(es, n) == Leaf(Null);
      }
    }
  }

  /** The object branch: each member restored under its own name, in order. */
  method RestoreObject(es: Entries) returns (j: Json)
    requires Valid(Node(es)) && !(|es| > 0 && IntNames(es))
    ensures j == Restored(Node(es))
    decreases Node(es), 1
  {
    var fields: seq<(Atom, Json)> := [];
    for i := 0 to |es|
      invariant fields == seq(i, m requires 0 <= m < i => (es[m].0, Restored(es[m].1)))
    {
      var v := RestoreLists(es[i].1);
      fields := fields + [(es[i].0, v)];
    }
    j := Obj(fields);
  }

  /** In a valid node, `_is_int` holds of a name exactly when it is a list index. */
  lemma {:induction false} IndexNames(es: Entries)
    requires Valid(Node(es)) && IntNames(es)
    ensures forall i :: 0 <= i < |es| ==> es[i].0.Num? && es[i].0.n >= 0
  {
    forall i | 0 <= i < |es| ensures es[i].0.Num? && es[i].0.n >= 0 {
      PlainKeyIsInt(es[i].0);
    }
  }

  /** Member `i` fills exactly the slot of its own index. */
  lemma {:induction false} SlotFilled(es: Entries, i: nat)
    requires Valid(Node(es)) && i < |es| && es[i].0.Num? && es[i].0.n >= 0
    ensures Slot(es, es[i].0.n) == Restored(es[i].1)
    ensures forall n: nat :: (Find(es, Num(n)) < i + 1) == (Find(es, Num(n)) < i || n == es[i].0.n)
  {
    FindDistinct(es, i);
  }

  // ---------------------------------------------------------------------
  // normalize

  /** `normalize(paths)` with the flag `enforce_unique`. */
  function NormalizeSpec(paths: seq<Path>, enforce: bool): (r: Result<Json, Conflict>)
    requires KeyedPaths(paths)
    ensures !enforce ==> r.Ok?
    ensures r.Ok? ==> r.value.Arr? || r.value.Obj?
    ensures r.Err? ==> enforce && r.error.path in paths
  {
    match FoldFrom([], paths, enforce)
    case Err(c) =>
      FoldBlames([], paths, enforce);
      Err(c)
    case Ok(es) =>
      FoldValid([], paths, enforce);
      Ok(Restored(Node(es)))
  }

  method Normalize(paths: seq<Path>, enforce: bool) returns (r: Result<Json, Conflict>)
    requires KeyedPaths(paths)
    ensures r == NormalizeSpec(paths, enforce)
  {
    var built := BuildTree(paths, enforce);
    match built
    case Err(c) =>
      r := Err(c);
    case Ok(es) =>
      FoldValid([], paths, enforce);
      var j := RestoreLists(Node(es));
      r := Ok(j);
  }

  // ---------------------------------------------------------------------
  // What normalize promises

  /** A restored list holds each member at its own index and `None` in every gap. */
  lemma {:induction false} RestoredList(es: Entries)
    requires Valid(Node(es)) && |es| > 0 && IntNames(es)
    ensures forall i :: 0 <= i < |es| ==> es[i].0.Num? && es[i].0.n >= 0
    ensures Restored(Node(es)).Arr?
    ensures |Restored(Node(es)).items| == MaxIndex(es) + 1
    ensures forall i :: 0 <= i < |es| ==> Restored(Node(es)).items[es[i].0.n] == Restored(es[i].1)
    ensures forall n :: 0 <= n < |Restored(Node(es)).items| && Num(n) !in Names(es) ==> Restored(Node(es)).items[n] == Leaf(Null)
  {
    IndexNames(es);
    forall i | 0 <= i < |es| ensures Restored(Node(es)).items[es[i].0.n] == Restored(es[i].1) {
      SlotFilled(es, i);
    }
  }

  /** A node with a name that is not a list index stays an object with the
      same names in the same order, each member restored. */
  lemma {:induction false} RestoredObject(es: Entries)
    requires Valid(Node(es)) && !(|es| > 0 && IntNames(es))
    ensures Restored(Node(es)).Obj?
    ensures |Restored(Node(es)).fields| == |es|
    ensures forall i :: 0 <= i < |es| ==> Restored(Node(es)).fields[i] == (es[i].0, Restored(es[i].1))
    ensures |es| > 0 ==> exists i :: 0 <= i < |es| && es[i].0.Str?
  {
    if |es| > 0 {
      var i :| 0 <= i < |es| && !IsInt(es[i].0);
      assert es[i].0.Str?;
    }
  }

  /** One step down a restored node: the member named `es[i].0` is member `i`, restored. */
  lemma {:induction false} RestoredStep(es: Entries, i: nat, rest: seq<Atom>)
    requires Valid(Node(es)) && i < |es|
    ensures JsonAt(Restored(Node(es)), [es[i].0] + rest) == JsonAt(Restored(es[i].1), rest)
  {
    var route := [es[i].0] + rest;
    assert route[0] == es[i].0 && route[1..] == rest;
    if |es| > 0 && IntNames(es) {
      RestoredList(es);
    } else {
      RestoredObject(es);
      var fields := Restored(Node(es)).fields;
      assert forall m :: 0 <= m < |es| ==> fields[m].0 == es[m].0;
      FindDistinct(fields, i);
    }
  }

  /** `_restore_lists` keeps every leaf at its route: a list member sits at
      its index, an object member under its name. */
  lemma {:induction false} RestoredAt(es: Entries, route: seq<Atom>, a: Atom)
    requires Valid(Node(es)) && |route| >= 1
    requires At(es, route, |route| - 1) == Some(TLeaf(a))
    ensures JsonAt(Restored(Node(es)), route) == Some(Leaf(a))
    decreases |route|, 0
  {
    AtHead(es, route, TLeaf(a));
    var i := Find(es, route[0]);
    assert Get(es, route[0]) == Some(es[i].1);
    var rest, sub := route[1..], es[i].1;
    if |route| > 1 {
      assert sub.Node? && At(sub.entries, rest, |rest| - 1) == Some(TLeaf(a));
      RestoredBelow(es, i, rest, a);
    } else {
      assert JsonAt(Restored(sub), rest) == Some(Restored(sub));
    }
    assert route == [es[i].0] + rest;
    RestoredStep(es, i, rest);
  }

  /** The recursive step of RestoredAt: the leaf below member `i`. */
  lemma {:induction false} RestoredBelow(es: Entries, i: nat, rest: seq<Atom>, a: Atom)
    requires Valid(Node(es)) && i < |es| && es[i].1.Node? && |rest| >= 1
    requires At(es[i].1.entries, rest, |rest| - 1) == Some(TLeaf(a))
    ensures JsonAt(Restored(es[i].1), rest) == Some(Leaf(a))
    decreases |rest|, 1
  {
    var sub := es[i].1;
    assert Valid(sub);
    assert Node(sub.entries) == sub;
    RestoredAt(sub.entries, rest, a);
  }

  /** What a lookup along a route says about its first key. */
  lemma AtHead(es: Entries, route: seq<Atom>, t: Tree)
    requires |route| >= 1 && At(es, route, |route| - 1) == Some(t)
    ensures Get(es, route[0]).Some?
    ensures |route| == 1 ==> Get(es, route[0]) == Some(t)
    ensures |route| > 1 ==>
      Get(es, route[0]).value.Node? && At(Get(es, route[0]).value.entries, route[1..], |route| - 2) == Some(t)
  {
  }

  /** A leaf placed by the tree-building fold is where normalize puts it. */
  lemma PlacedNormalized(paths: seq<Path>, q: Path)
    requires KeyedPaths(paths) && LongPaths(paths)
    requires Placed(Built([], paths), q)
    ensures NormalizeSpec(paths, false).Ok?
    ensures JsonAt(NormalizeSpec(paths, false).value, Route(q)) == Some(Leaf(LeafOf(q)))
  {
    var es: Entries := [];
    assert Valid(Node(es));
    FoldValid(es, paths, false);
    RestoredAt(Built(es, paths), Route(q), LeafOf(q));
  }

  /** Paths whose routes pairwise part: without `enforce_unique`, normalize
      puts every leaf at its own route. */
  lemma NormalizePlaces(paths: seq<Path>)
    requires KeyedPaths(paths) && PairwiseDiverge(paths)
    ensures NormalizeSpec(paths, false).Ok?
    ensures forall p :: p in paths ==> JsonAt(NormalizeSpec(paths, false).value, Route(p)) == Some(Leaf(LeafOf(p)))
  {
    var es: Entries := [];
    FoldPlaces(es, paths);
    assert FoldFrom(es, paths, false) == Ok(Built(es, paths));
    forall p | p in paths ensures JsonAt(NormalizeSpec(paths, false).value, Route(p)) == Some(Leaf(LeafOf(p))) {
      PlacedNormalized(paths, p);
    }
  }

  /** No paths normalize to an empty object, with or without `enforce_unique`. */
  lemma NormalizeEmpty(enforce: bool)
    ensures NormalizeSpec([], enforce) == Ok(Obj([]))
  {
    assert Restored(Node([])) == Obj([]);
  }

  /** Two paths to the same route: under `enforce_unique` the second one is the conflict. */
  lemma SameRouteExample()
    ensures var paths := [[Str("a"), Str("b"), Num(1)], [Str("a"), Str("b"), Num(2)]];
      KeyedPaths(paths) && NormalizeSpec(paths, true) == Err(PathConflict([Str("a"), Str("b"), Num(2)]))
  {
    var a, b := Str("a"), Str("b");
    var p, q := [a, b, Num(1)], [a, b, Num(2)];
    ThreeKeyed(a, b, Num(1), Num(2));
    RouteOfThree(a, b, Num(1));
    RouteOfThree(a, b, Num(2));
    StoreTwoKeys([], a, b, Num(1));
    PutOverLeaf(a, b, Num(1), Num(2), true);
    FoldTwo(p, q, true);
  }

  /** The same two paths without `enforce_unique`: the second leaf wins. */
  lemma SameRouteLastWins()
    ensures var paths := [[Str("a"), Str("b"), Num(1)], [Str("a"), Str("b"), Num(2)]];
      KeyedPaths(paths) && NormalizeSpec(paths, false) == Ok(Obj([(Str("a"), Obj([(Str("b"), Leaf(Num(2)))]))]))
  {
    var a, b := Str("a"), Str("b");
    var p, q := [a, b, Num(1)], [a, b, Num(2)];
    ThreeKeyed(a, b, Num(1), Num(2));
    RouteOfThree(a, b, Num(1));
    RouteOfThree(a, b, Num(2));
    StoreTwoKeys([], a, b, Num(1));
    PutOverLeaf(a, b, Num(1), Num(2), false);
    FoldTwo(p, q, false);
    PlainNames();
    RestoredNested(a, b, Num(2));
  }

  /** A leaf stored where a subtree stands replaces the subtree, even under
      `enforce_unique`: only leaves along the route count as conflicts. */
  lemma SubtreeOverwriteExample()
    ensures var paths := [[Str("a"), Str("b"), Num(1)], [Str("a"), Num(2)]];
      KeyedPaths(paths) &&
      NormalizeSpec(paths, true) == Ok(Obj([(Str("a"), Leaf(Num(2)))]))
  {
    var a, b := Str("a"), Str("b");
    var p, q := [a, b, Num(1)], [a, Num(2)];
    ThreeKeyed(a, b, Num(1), Num(2));
    RouteOfThree(a, b, Num(1));
    assert Route(q) == [a] && LeafOf(q) == Num(2);
    StoreTwoKeys([], a, b, Num(1));
    PutOverNode(a, [(b, TLeaf(Num(1)))], Num(2));
    FoldTwo(p, q, true);
    PlainNames();
    RestoredSingle(a, Num(2));
  }

  /** Two paths stored into an empty tree: the first conflict, or the tree after both. */
  lemma FoldTwo(p: Path, q: Path, enforce: bool)
    requires |p| >= 2 && |q| >= 2
    ensures LongPaths([p, q])
    ensures FoldFrom([], [p, q], enforce) ==
      match Put([], Route(p), LeafOf(p), enforce)
      case None => Err(PathConflict(p))
      case Some(t1) =>
        match Put(t1, Route(q), LeafOf(q), enforce)
        case None => Err(PathConflict(q))
        case Some(t2) => Ok(t2)
  {
    assert [p, q][0] == p && [p, q][1..] == [q];
    assert [q][0] == q && [q][1..] == [];
    var first := Put([], Route(p), LeafOf(p), enforce);
    if first.Some? {
      var second := Put(first.value, Route(q), LeafOf(q), enforce);
      assert FoldFrom([], [p, q], enforce) == FoldFrom(first.value, [q], enforce);
      if second.Some? {
        assert FoldFrom(first.value, [q], enforce) == FoldFrom(second.value, [], enforce);
      }
    }
  }

  lemma RouteOfThree(a: Atom, b: Atom, x: Atom)
    ensures Route([a, b, x]) == [a, b] && LeafOf([a, b, x]) == x
  {
    assert [a, b, x][..2] == [a, b];
  }

  /** The example paths are ones normalize accepts. */
  lemma ThreeKeyed(a: Atom, b: Atom, x: Atom, y: Atom)
    requires a == Str("a") && b == Str("b")
    ensures KeyedPaths([[a, b, x], [a, b, y]])
    ensures KeyedPaths([[a, b, x], [a, y]])
  {
    PlainNames();
  }

  /** Two string names, one inside the other, restore as nested objects. */
  lemma RestoredNested(a: Atom, b: Atom, x: Atom)
    requires a.Str? && b.Str? && PlainKey(a) && PlainKey(b)
    ensures Valid(Node([(a, Node([(b, TLeaf(x))]))]))
    ensures Restored(Node([(a, Node([(b, TLeaf(x))]))])) == Obj([(a, Obj([(b, Leaf(x))]))])
  {
    var inner: Entries := [(b, TLeaf(x))];
    RestoredSingle(b, x);
    PlainKeyIsInt(a);
    assert !IsInt([(a, Node(inner))][0].0);
  }

  /** One string name holding a leaf restores as a one-member object. */
  lemma RestoredSingle(a: Atom, x: Atom)
    requires a.Str? && PlainKey(a)
    ensures Valid(Node([(a, TLeaf(x))]))
    ensures Restored(Node([(a, TLeaf(x))])) == Obj([(a, Leaf(x))])
  {
    var es: Entries := [(a, TLeaf(x))];
    assert Valid(Node(es));
    PlainKeyIsInt(a);
    assert !IsInt(es[0].0);
  }

  lemma PlainNames()
    ensures PlainKey(Str("a")) && PlainKey(Str("b"))
  {
    assert TrimRight(TrimLeft("a")) == "a";
    assert TrimRight(TrimLeft("b")) == "b";
  }

  /** A two-key route stored into an empty tree. */
  lemma StoreTwoKeys(es: Entries, a: Atom, b: Atom, leaf: Atom)
    requires es == []
    ensures Put(es, [a, b], leaf, true) == Some([(a, Node([(b, TLeaf(leaf))]))])
    ensures Put(es, [a, b], leaf, false) == Some([(a, Node([(b, TLeaf(leaf))]))])
  {
    var t := [(a, Node([(b, TLeaf(leaf))]))];
    var none: Entries := [];
    assert Names(none) == {};
    AssignFresh(none, b, TLeaf(leaf));
    AssignFresh(none, a, Node([(b, TLeaf(leaf))]));
    assert none + [(b, TLeaf(leaf))] == [(b, TLeaf(leaf))];
    assert none + [(a, Node([(b, TLeaf(leaf))]))] == t;
    assert [a, b][1..] == [b];
    assert Below([], a) == [];
    assert Put([], [b], leaf, false) == Some([(b, TLeaf(leaf))]);
    assert Put([], [b], leaf, true) == Some([(b, TLeaf(leaf))]);
  }

  /** The same two-key route again: a conflict under `enforce_unique`, the new leaf otherwise. */
  lemma PutOverLeaf(a: Atom, b: Atom, x: Atom, y: Atom, enforce: bool)
    ensures Put([(a, Node([(b, TLeaf(x))]))], [a, b], y, enforce) ==
      if enforce then None else Some([(a, Node([(b, TLeaf(y))]))])
  {
    var inner := [(b, TLeaf(x))];
    SingleMember(a, Node(inner), a, Node([(b, TLeaf(y))]));
    SingleMember(b, TLeaf(x), b, TLeaf(y));
    assert Below([(a, Node(inner))], a) == inner;
    assert [a, b][1..] == [b];
  }

  /** A one-key route onto a subtree: the leaf replaces it, with or without `enforce_unique`. */
  lemma PutOverNode(a: Atom, inner: Entries, y: Atom)
    ensures Put([(a, Node(inner))], [a], y, true) == Some([(a, TLeaf(y))])
  {
    SingleMember(a, Node(inner), a, TLeaf(y));
  }

  /** Reading and writing the one member of a single-member dict. */
  lemma SingleMember(k: Atom, v: Tree, k': Atom, w: Tree)
    requires k' == k
    ensures Get([(k, v)], k') == Some(v)
    ensures Assign([(k, v)], k', w) == [(k, w)]
  {
    FindIs([(k, v)], k', 0);
  }
}
