/** `DictSam.denormalize`: a JSON value flattened into one path per scalar leaf. */
module Denormalization {
  import opened Wrappers
  import opened Assoc
  import opened JsonValue

  /** The recursive `helper(data, curr_path)`: the paths of every leaf below
      `j`, each one `route`, then the keys and indices down to the leaf, then
      the leaf. Objects in member order, lists in index order. */
  function Walk(j: Json, route: seq<Atom>): seq<Path>
    decreases j, 1, 0
  {
    match j
    case Leaf(a) => [route + [a]]
    case Arr(items) => WalkItems(items, 0, route)
    case Obj(fields) => WalkFields(fields, 0, route)
  }

  /** `for idx, value in enumerate(data)`, from index `i` on. */
  function WalkItems(items: seq<Json>, i: nat, route: seq<Atom>): seq<Path>
    requires i <= |items|
    decreases Arr(items), 0, |items| - i
  {
    if i == |items| then []
    else Walk(items[i], route + [Num(i)]) + WalkItems(items, i + 1, route)
  }

  /** `for key, value in data.items()`, from member `i` on. */
  function WalkFields(fields: seq<(Atom, Json)>, i: nat, route: seq<Atom>): seq<Path>
    requires i <= |fields|
    decreases Obj(fields), 0, |fields| - i
  {
    if i == |fields| then []
    else Walk(fields[i].1, route + [fields[i].0]) + WalkFields(fields, i + 1, route)
  }

  /** `denormalize(data)`. Every path holds at least its scalar, and the
      paths of a document are ones normalize accepts. */
  function Denormalize(j: Json): (r: seq<Path>)
    ensures forall p :: p in r ==> |p| >= 1
    ensures Document(j) ==> KeyedPaths(r)
  {
    WalkPaths(j);
    Walk(j, [])
  }

  /** The value a route of keys and indices reaches, as `data[k1][k2]...` would. */
  function JsonAt(j: Json, route: seq<Atom>): Option<Json>
    decreases |route|
  {
    if route == [] then Some(j)
    else match j
      case Leaf(_) => None
      case Arr(items) =>
        if route[0].Num? && 0 <= route[0].n < |items| then JsonAt(items[route[0].n], route[1..]) else None
      case Obj(fields) =>
        match Get(fields, route[0])
        case None => None
        case Some(v) => JsonAt(v, route[1..])
  }

  // ---------------------------------------------------------------------
  // Membership in the concatenations

  lemma {:induction false} InItems(items: seq<Json>, i: nat, route: seq<Atom>, p: Path)
    requires i <= |items|
    ensures p in WalkItems(items, i, route) <==>
            exists m :: i <= m < |items| && p in Walk(items[m], route + [Num(m)])
    decreases |items| - i
  {
    if i < |items| {
      var head := Walk(items[i], route + [Num(i)]);
      InItems(items, i + 1, route, p);
      assert WalkItems(items, i, route) == head + WalkItems(items, i + 1, route);
      if p in head {
        assert i <= i < |items| && p in Walk(items[i], route + [Num(i)]);
      }
    }
  }

  lemma {:induction false} InFields(fields: seq<(Atom, Json)>, i: nat, route: seq<Atom>, p: Path)
    requires i <= |fields|
    ensures p in WalkFields(fields, i, route) <==>
            exists m :: i <= m < |fields| && p in Walk(fields[m].1, route + [fields[m].0])
    decreases |fields| - i
  {
    if i < |fields| {
      var head := Walk(fields[i].1, route + [fields[i].0]);
      InFields(fields, i + 1, route, p);
      assert WalkFields(fields, i, route) == head + WalkFields(fields, i + 1, route);
      if p in head {
        assert i <= i < |fields| && p in Walk(fields[i].1, route + [fields[i].0]);
      }
    }
  }

  // ---------------------------------------------------------------------
  // Shape of the paths

  /** Every path starts with `route`; below a container it has a key, then at least the leaf. */
  lemma {:induction false} WalkShape(j: Json, route: seq<Atom>, p: Path)
    requires p in Walk(j, route)
    ensures |p| > |route| && p[..|route|] == route
    ensures j.Leaf? ==> p == route + [j.atom]
    ensures j.Arr? ==> |p| >= |route| + 2 && exists m :: 0 <= m < |j.items| && p[|route|] == Num(m)
    ensures j.Obj? ==> |p| >= |route| + 2 && p[|route|] in Names(j.fields)
    decreases j
  {
    match j
    case Leaf(_) =>
    case Arr(items) =>
      InItems(items, 0, route, p);
      var m :| 0 <= m < |items| && p in Walk(items[m], route + [Num(m)]);
      WalkShape(items[m], route + [Num(m)], p);
      assert p[..|route| + 1] == route + [Num(m)];
      assert p[..|route|] == (route + [Num(m)])[..|route|];
    case Obj(fields) =>
      InFields(fields, 0, route, p);
      var m :| 0 <= m < |fields| && p in Walk(fields[m].1, route + [fields[m].0]);
      WalkShape(fields[m].1, route + [fields[m].0], p);
      assert p[..|route| + 1] == route + [fields[m].0];
      assert p[..|route|] == (route + [fields[m].0])[..|route|];
  }

  /** Below a well-formed value, every key the walk adds is a plain key. */
  lemma {:induction false} WalkKeys(j: Json, route: seq<Atom>, p: Path)
    requires WellFormed(j) && p in Walk(j, route)
    ensures |p| > |route|
    ensures forall m :: |route| <= m < |p| - 1 ==> PlainKey(p[m])
    decreases j
  {
    WalkShape(j, route, p);
    match j
    case Leaf(_) =>
    case Arr(items) =>
      InItems(items, 0, route, p);
      var i :| 0 <= i < |items| && p in Walk(items[i], route + [Num(i)]);
      WalkKeys(items[i], route + [Num(i)], p);
      WalkShape(items[i], route + [Num(i)], p);
      assert p[|route|] == (route + [Num(i)])[|route|];
    case Obj(fields) =>
      InFields(fields, 0, route, p);
      var i :| 0 <= i < |fields| && p in Walk(fields[i].1, route + [fields[i].0]);
      WalkKeys(fields[i].1, route + [fields[i].0], p);
      WalkShape(fields[i].1, route + [fields[i].0], p);
      assert p[|route|] == (route + [fields[i].0])[|route|];
  }

  /** The paths of a document are what normalize accepts: at least one plain key,
      then the leaf; `{}` and `[]` have no paths at all. */
  lemma DenormalizeKeyed(d: Json)
    requires Document(d)
    ensures KeyedPaths(Denormalize(d))
    ensures d == Arr([]) || d == Obj([]) ==> Denormalize(d) == []
  {
  }

  /** The walk from the root: what `Denormalize` promises of its result. */
  lemma WalkPaths(j: Json)
    ensures forall p :: p in Walk(j, []) ==> |p| >= 1
    ensures Document(j) ==> KeyedPaths(Walk(j, []))
  {
    var ps := Walk(j, []);
    forall p | p in ps ensures |p| >= 1 {
      WalkShape(j, [], p);
    }
    if Document(j) {
      forall i | 0 <= i < |ps| ensures KeyedPath(ps[i]) {
        WalkShape(j, [], ps[i]);
        WalkKeys(j, [], ps[i]);
      }
    }
  }

  // ---------------------------------------------------------------------
  // One path per leaf

  /** Soundness: each path leads, through its route, to the leaf it ends with. */
  lemma {:induction false} WalkSound(j: Json, route: seq<Atom>, p: Path)
    requires DistinctNames(j) && p in Walk(j, route)
    ensures |p| > |route| && p[..|route|] == route
    ensures JsonAt(j, p[|route|..|p| - 1]) == Some(Leaf(p[|p| - 1]))
    decreases j
  {
    WalkShape(j, route, p);
    match j
    case Leaf(a) =>
      assert p[|route|..|p| - 1] == [];
    case Arr(items) =>
      InItems(items, 0, route, p);
      var m :| 0 <= m < |items| && p in Walk(items[m], route + [Num(m)]);
      WalkSound(items[m], route + [Num(m)], p);
      WalkShape(items[m], route + [Num(m)], p);
      var r := p[|route|..|p| - 1];
      assert r[0] == p[|route|] == (route + [Num(m)])[|route|];
      assert r[1..] == p[|route + [Num(m)]|..|p| - 1];
    case Obj(fields) =>
      InFields(fields, 0, route, p);
      var m :| 0 <= m < |fields| && p in Walk(fields[m].1, route + [fields[m].0]);
      WalkSound(fields[m].1, route + [fields[m].0], p);
      WalkShape(fields[m].1, route + [fields[m].0], p);
      var r := p[|route|..|p| - 1];
      assert r[0] == p[|route|] == (route + [fields[m].0])[|route|];
      assert r[1..] == p[|route + [fields[m].0]|..|p| - 1];
      FindDistinct(fields, m);
  }

  /** Completeness: every leaf the value holds has its path. */
  lemma {:induction false} WalkComplete(j: Json, route: seq<Atom>, r: seq<Atom>, a: Atom)
    requires JsonAt(j, r) == Some(Leaf(a))
    ensures route + r + [a] in Walk(j, route)
    decreases j
  {
    if r == [] {
      assert route + r + [a] == route + [a];
    } else {
      match j
      case Arr(items) =>
        var m := r[0].n;
        WalkComplete(items[m], route + [Num(m)], r[1..], a);
        assert route + [Num(m)] + r[1..] + [a] == route + r + [a] by { assert r == [r[0]] + r[1..]; }
        InItems(items, 0, route, route + r + [a]);
      case Obj(fields) =>
        var m := Find(fields, r[0]);
        WalkComplete(fields[m].1, route + [fields[m].0], r[1..], a);
        assert route + [fields[m].0] + r[1..] + [a] == route + r + [a] by { assert r == [r[0]] + r[1..]; }
        InFields(fields, 0, route, route + r + [a]);
    }
  }

  /** `denormalize` emits exactly the leaves of a document: a path is in the list
      if and only if its route reaches its leaf. */
  lemma DenormalizeLeaves(d: Json, p: Path)
    requires DistinctNames(d)
    ensures p in Denormalize(d) <==> |p| >= 1 && JsonAt(d, Route(p)) == Some(Leaf(LeafOf(p)))
  {
    if p in Denormalize(d) {
      WalkSound(d, [], p);
      assert p[0..|p| - 1] == Route(p);
    }
    if |p| >= 1 && JsonAt(d, Route(p)) == Some(Leaf(LeafOf(p))) {
      WalkComplete(d, [], Route(p), LeafOf(p));
      assert [] + Route(p) + [LeafOf(p)] == p;
    }
  }

  // ---------------------------------------------------------------------
  // No two paths address the same place

  lemma DivergeAtKey(route: seq<Atom>, p: Path, q: Path)
    requires |p| >= |route| + 2 && |q| >= |route| + 2
    requires p[..|route|] == route && q[..|route|] == route
    requires p[|route|] != q[|route|]
    ensures Apart(p, q)
  {
    var d := |route|;
    assert Route(p)[..d] == p[..d];
    assert Route(q)[..d] == q[..d];
    assert Route(p)[d] == p[d] && Route(q)[d] == q[d];
  }

  lemma ConcatDiverge(xs: seq<Path>, ys: seq<Path>)
    requires PairwiseDiverge(xs) && PairwiseDiverge(ys)
    requires forall x, y :: x in xs && y in ys ==> Apart(x, y)
    ensures PairwiseDiverge(xs + ys)
  {
    var zs := xs + ys;
    assert |zs| == |xs| + |ys|;
    forall a, b | 0 <= a < b < |zs| ensures Apart(zs[a], zs[b]) {
      if b < |xs| {
        assert zs[a] == xs[a] && zs[b] == xs[b];
      } else if a >= |xs| {
        assert zs[a] == ys[a - |xs|] && zs[b] == ys[b - |xs|];
        assert 0 <= a - |xs| < b - |xs| < |ys|;
      } else {
        assert zs[a] == xs[a] && zs[b] == ys[b - |xs|];
        assert zs[a] in xs && zs[b] in ys;
      }
    }
  }

  lemma {:induction false} WalkDiverge(j: Json, route: seq<Atom>)
    requires DistinctNames(j)
    ensures PairwiseDiverge(Walk(j, route))
    decreases j, 1, 0
  {
    match j
    case Leaf(_) =>
    case Arr(items) => ItemsDiverge(items, 0, route);
    case Obj(fields) => FieldsDiverge(fields, 0, route);
  }

  lemma {:induction false} ItemsDiverge(items: seq<Json>, i: nat, route: seq<Atom>)
    requires i <= |items|
    requires forall m :: 0 <= m < |items| ==> DistinctNames(items[m])
    ensures PairwiseDiverge(WalkItems(items, i, route))
    decreases Arr(items), 0, |items| - i
  {
    if i < |items| {
      var xs := Walk(items[i], route + [Num(i)]);
      var ys := WalkItems(items, i + 1, route);
      WalkDiverge(items[i], route + [Num(i)]);
      ItemsDiverge(items, i + 1, route);
      forall x, y | x in xs && y in ys ensures Apart(x, y) {
        WalkShape(items[i], route + [Num(i)], x);
        InItems(items, i + 1, route, y);
        var m :| i + 1 <= m < |items| && y in Walk(items[m], route + [Num(m)]);
        WalkShape(items[m], route + [Num(m)], y);
        assert x[..|route|] == (x[..|route| + 1])[..|route|];
        assert y[..|route|] == (y[..|route| + 1])[..|route|];
        assert x[|route|] == (x[..|route| + 1])[|route|] == Num(i);
        assert y[|route|] == (y[..|route| + 1])[|route|] == Num(m);
        DivergeAtKey(route, x, y);
      }
      ConcatDiverge(xs, ys);
    }
  }

  lemma {:induction false} FieldsDiverge(fields: seq<(Atom, Json)>, i: nat, route: seq<Atom>)
    requires i <= |fields| && Distinct(fields)
    requires forall m :: 0 <= m < |fields| ==> DistinctNames(fields[m].1)
    ensures PairwiseDiverge(WalkFields(fields, i, route))
    decreases Obj(fields), 0, |fields| - i
  {
    if i < |fields| {
      var xs := Walk(fields[i].1, route + [fields[i].0]);
      var ys := WalkFields(fields, i + 1, route);
      WalkDiverge(fields[i].1, route + [fields[i].0]);
      FieldsDiverge(fields, i + 1, route);
      forall x, y | x in xs && y in ys ensures Apart(x, y) {
        WalkShape(fields[i].1, route + [fields[i].0], x);
        InFields(fields, i + 1, route, y);
        var m :| i + 1 <= m < |fields| && y in Walk(fields[m].1, route + [fields[m].0]);
        WalkShape(fields[m].1, route + [fields[m].0], y);
        assert x[..|route|] == (x[..|route| + 1])[..|route|];
        assert y[..|route|] == (y[..|route| + 1])[..|route|];
        assert x[|route|] == (x[..|route| + 1])[|route|] == fields[i].0;
        assert y[|route|] == (y[..|route| + 1])[|route|] == fields[m].0;
        DivergeAtKey(route, x, y);
      }
      ConcatDiverge(xs, ys);
    }
  }

  /** No two paths of a document address the same place, or one inside the other. */
  lemma DenormalizeDiverge(d: Json)
    requires DistinctNames(d)
    ensures PairwiseDiverge(Denormalize(d))
  {
    WalkDiverge(d, []);
  }

  // ---------------------------------------------------------------------
  // Routes compose

  /** Walking under `r1 + r2` is walking under `r2` with `r1` put in front. */
  lemma {:induction false} WalkPrefix(j: Json, r1: seq<Atom>, r2: seq<Atom>)
    ensures Walk(j, r1 + r2) == Prefixed(r1, Walk(j, r2))
    decreases j, 1, 0
  {
    match j
    case Leaf(a) =>
      assert r1 + r2 + [a] == r1 + (r2 + [a]);
    case Arr(items) => ItemsPrefix(items, 0, r1, r2);
    case Obj(fields) => FieldsPrefix(fields, 0, r1, r2);
  }

  lemma {:induction false} ItemsPrefix(items: seq<Json>, i: nat, r1: seq<Atom>, r2: seq<Atom>)
    requires i <= |items|
    ensures WalkItems(items, i, r1 + r2) == Prefixed(r1, WalkItems(items, i, r2))
    decreases Arr(items), 0, |items| - i
  {
    if i < |items| {
      assert r1 + r2 + [Num(i)] == r1 + (r2 + [Num(i)]);
      WalkPrefix(items[i], r1, r2 + [Num(i)]);
      ItemsPrefix(items, i + 1, r1, r2);
      PrefixedConcat(r1, Walk(items[i], r2 + [Num(i)]), WalkItems(items, i + 1, r2));
    }
  }

  lemma {:induction false} FieldsPrefix(fields: seq<(Atom, Json)>, i: nat, r1: seq<Atom>, r2: seq<Atom>)
    requires i <= |fields|
    ensures WalkFields(fields, i, r1 + r2) == Prefixed(r1, WalkFields(fields, i, r2))
    decreases Obj(fields), 0, |fields| - i
  {
    if i < |fields| {
      assert r1 + r2 + [fields[i].0] == r1 + (r2 + [fields[i].0]);
      WalkPrefix(fields[i].1, r1, r2 + [fields[i].0]);
      FieldsPrefix(fields, i + 1, r1, r2);
      PrefixedConcat(r1, Walk(fields[i].1, r2 + [fields[i].0]), WalkFields(fields, i + 1, r2));
    }
  }
}
