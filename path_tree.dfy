/** The auto-vivifying tree that `DictSam.normalize` grows from a path list,
    as a value. A node maps keys to subtrees in insertion order; a leaf holds
    the scalar a path ended with. `Put` stores one path the way the cursor
    walk of jsonsam/jsonsam.py does, and `FoldFrom` stores a whole list. */
module PathTree {
  import opened Wrappers
  import opened Assoc
  import opened JsonValue

  datatype Tree = TLeaf(atom: Atom) | Node(entries: seq<(Atom, Tree)>)

  type Entries = seq<(Atom, Tree)>

  /** The `RuntimeError` raised under `enforce_unique`, naming the offending path. */
  datatype Conflict = PathConflict(path: Path)

  /** Every path has a route of at least one key before its leaf. */
  predicate LongPaths(ps: seq<Path>)
  {
    forall i :: 0 <= i < |ps| ==> |ps[i]| >= 2
  }

  /** The shape normalize keeps: in every node the names are distinct plain
      keys, and every node below the root has a member. */
  predicate Valid(t: Tree)
  {
    match t
    case TLeaf(_) => true
    case Node(es) =>
      Distinct(es) &&
      forall i :: 0 <= i < |es| ==>
        PlainKey(es[i].0) && Valid(es[i].1) && (es[i].1.Node? ==> |es[i].1.entries| > 0)
  }

  /** The key holds a leaf: `not isinstance(cursor[key], dict)`. */
  predicate HoldsLeaf(es: Entries, k: Atom)
  {
    Get(es, k).Some? && Get(es, k).value.TLeaf?
  }

  /** The members of the node the cursor moves to under `k`: the existing node,
      or the fresh node that vivification or leaf replacement puts there. */
  function Below(es: Entries, k: Atom): Entries
  {
    match Get<Atom, Tree>(es, k)
    case Some(Node(sub)) => sub
    case _ => []
  }

  /** One path stored into the members `es` of a node, given its route and leaf.
      `None` is the conflict: under `enforce` some key of the route holds a leaf. */
  function Put(es: Entries, route: seq<Atom>, leaf: Atom, enforce: bool): (r: Option<Entries>)
    requires |route| >= 1
    ensures !enforce ==> r.Some?
    decreases |route|
  {
    var k := route[0];
    if enforce && HoldsLeaf(es, k) then None
    else if |route| == 1 then Some(Assign(es, k, TLeaf(leaf)))
    else
      match Put(Below(es, k), route[1..], leaf, enforce)
      case None => None
      case Some(sub) => Some(Assign(es, k, Node(sub)))
  }

  /** The outer loop of normalize: the paths stored one after another into `es`,
      stopping at the first conflict. */
  function FoldFrom(es: Entries, ps: seq<Path>, enforce: bool): (r: Result<Entries, Conflict>)
    requires LongPaths(ps)
    ensures !enforce ==> r.Ok?
    decreases |ps|
  {
    if ps == [] then Ok(es)
    else
      match Put(es, Route(ps[0]), LeafOf(ps[0]), enforce)
      case None => Err(PathConflict(ps[0]))
      case Some(next) => FoldFrom(next, ps[1..], enforce)
  }

  /** A failed fold names one of the paths it was given. */
  lemma {:induction false} FoldBlames(es: Entries, ps: seq<Path>, enforce: bool)
    requires LongPaths(ps)
    ensures FoldFrom(es, ps, enforce).Err? ==> FoldFrom(es, ps, enforce).error.path in ps
    decreases |ps|
  {
    if ps != [] {
      var put := Put(es, Route(ps[0]), LeafOf(ps[0]), enforce);
      if put.Some? {
        FoldBlames(put.value, ps[1..], enforce);
      }
    }
  }

  // ---------------------------------------------------------------------
  // The cursor: a position along the route

  /** `cursor[route[j]]` once the cursor has walked down `route[..j]`. */
  function At(es: Entries, route: seq<Atom>, j: nat): Option<Tree>
    requires j < |route|
    decreases j
  {
    if j == 0 then Get(es, route[0])
    else
      match Get<Atom, Tree>(es, route[0])
      case Some(Node(sub)) => At(sub, route[1..], j - 1)
      case _ => None
  }

  /** `cursor[route[j]] = v`, a store through the cursor at depth `j`. */
  function SetDeep(es: Entries, route: seq<Atom>, j: nat, v: Tree): Entries
    requires j < |route|
    decreases j
  {
    if j == 0 then Assign(es, route[0], v)
    else
      match Get<Atom, Tree>(es, route[0])
      case Some(Node(sub)) => Assign(es, route[0], Node(SetDeep(sub, route[1..], j - 1, v)))
      case _ => es
  }

  /** The keys `route[..j]` all hold nodes, so the cursor can stand at depth `j`. */
  predicate NodesAlong(es: Entries, route: seq<Atom>, j: nat)
    requires j <= |route|
    decreases j
  {
    j == 0 ||
    match Get<Atom, Tree>(es, route[0])
    case Some(Node(sub)) => NodesAlong(sub, route[1..], j - 1)
    case _ => false
  }

  /** A leaf sits at depth `j` of the route. */
  predicate LeafAt(es: Entries, route: seq<Atom>, j: nat)
    requires j < |route|
  {
    At(es, route, j).Some? && At(es, route, j).value.TLeaf?
  }

  // ---------------------------------------------------------------------
  // Facts the cursor loop of normalize rests on

  /** A node found at depth `j` lets the cursor step down. */
  lemma {:induction false} NodesAlongStep(es: Entries, route: seq<Atom>, j: nat)
    requires j < |route| && NodesAlong(es, route, j)
    requires At(es, route, j).Some? && At(es, route, j).value.Node?
    ensures NodesAlong(es, route, j + 1)
    decreases j
  {
    if j > 0 {
      NodesAlongStep(Get(es, route[0]).value.entries, route[1..], j - 1);
    }
  }

  /** Vivifying a missing key, or smashing a leaf when conflicts are allowed,
      changes nothing that storing the path would not change anyway, and lets
      the cursor step down. */
  lemma {:induction false} VivifyKeepsPut(es: Entries, route: seq<Atom>, j: nat, leaf: Atom, enforce: bool)
    requires j < |route| && NodesAlong(es, route, j)
    requires At(es, route, j).None? || (At(es, route, j).value.TLeaf? && !enforce)
    ensures Put(SetDeep(es, route, j, Node([])), route, leaf, enforce) == Put(es, route, leaf, enforce)
    ensures NodesAlong(SetDeep(es, route, j, Node([])), route, j + 1)
    decreases j
  {
    var k := route[0];
    if j == 0 {
      VivifyHere(es, route, leaf, enforce);
    } else {
      var sub := Get(es, k).value.entries;
      var sub' := SetDeep(sub, route[1..], j - 1, Node([]));
      VivifyKeepsPut(sub, route[1..], j - 1, leaf, enforce);
      var es' := Assign(es, k, Node(sub'));
      assert SetDeep(es, route, j, Node([])) == es';
      assert Below(es', k) == sub' && Below(es, k) == sub;
      var rec := Put(sub, route[1..], leaf, enforce);
      if rec.Some? {
        AssignTwice(es, k, Node(sub'), Node(rec.value));
      }
    }
  }

  /** The first step of VivifyKeepsPut: the key at the top of the route. */
  lemma {:induction false} VivifyHere(es: Entries, route: seq<Atom>, leaf: Atom, enforce: bool)
    requires |route| >= 1
    requires Get(es, route[0]).None? || (Get(es, route[0]).value.TLeaf? && !enforce)
    ensures Put(Assign(es, route[0], Node([])), route, leaf, enforce) == Put(es, route, leaf, enforce)
    ensures NodesAlong(Assign(es, route[0], Node([])), route, 1)
  {
    var k := route[0];
    var es' := Assign(es, k, Node([]));
    assert !HoldsLeaf(es', k) && !(enforce && HoldsLeaf(es, k));
    if |route| == 1 {
      AssignTwice(es, k, Node([]), TLeaf(leaf));
    } else {
      assert Below(es', k) == [] == Below(es, k);
      var rec := Put([], route[1..], leaf, enforce);
      if rec.Some? {
        AssignTwice(es, k, Node([]), Node(rec.value));
      }
    }
  }

  /** With nodes all along the route, storing the path is the store of its leaf
      through the cursor at the last key (`cursor_prev[key] = path[-1]`). */
  lemma {:induction false} PutThroughNodes(es: Entries, route: seq<Atom>, leaf: Atom, enforce: bool)
    requires |route| >= 1 && NodesAlong(es, route, |route|)
    ensures Put(es, route, leaf, enforce) == Some(SetDeep(es, route, |route| - 1, TLeaf(leaf)))
    decreases |route|
  {
    if |route| > 1 {
      PutThroughNodes(Get(es, route[0]).value.entries, route[1..], leaf, enforce);
    }
  }

  /** A leaf on the route makes the enforced store fail. */
  lemma {:induction false} LeafOnRoute(es: Entries, route: seq<Atom>, j: nat, leaf: Atom)
    requires j < |route| && LeafAt(es, route, j)
    ensures Put(es, route, leaf, true).None?
    decreases j
  {
    if j > 0 {
      LeafOnRoute(Get(es, route[0]).value.entries, route[1..], j - 1, leaf);
    }
  }

  // ---------------------------------------------------------------------
  // Properties of one store

  /** Under `enforce_unique` a store fails exactly when some key of the route
      already holds a leaf. */
  lemma {:induction false} PutConflict(es: Entries, route: seq<Atom>, leaf: Atom)
    requires |route| >= 1
    ensures Put(es, route, leaf, true).None? <==> exists j :: 0 <= j < |route| && LeafAt(es, route, j)
    decreases |route|
  {
    var k := route[0];
    if HoldsLeaf(es, k) {
      assert LeafAt(es, route, 0);
    } else if |route| == 1 {
      assert !LeafAt(es, route, 0);
    } else {
      var sub := Below(es, k);
      PutConflict(sub, route[1..], leaf);
      forall j | 1 <= j < |route| ensures LeafAt(es, route, j) == LeafAt(sub, route[1..], j - 1) {
        if !(Get(es, k).Some? && Get(es, k).value.Node?) {
          AtEmpty(route[1..], j - 1);
        }
      }
      if Put(es, route, leaf, true).None? {
        var j' :| 0 <= j' < |route| - 1 && LeafAt(sub, route[1..], j');
        assert LeafAt(es, route, j' + 1);
      }
    }
  }

  /** A fresh node holds nothing at any depth. */
  lemma {:induction false} AtEmpty(route: seq<Atom>, j: nat)
    requires j < |route|
    ensures At([], route, j) == None
  {
    assert Names<Atom, Tree>([]) == {};
  }

  /** Without `enforce_unique` a store never fails, and when the enforced store
      succeeds it builds the same tree. */
  lemma {:induction false} PutEnforced(es: Entries, route: seq<Atom>, leaf: Atom)
    requires |route| >= 1
    ensures Put(es, route, leaf, false).Some?
    ensures Put(es, route, leaf, true).Some? ==> Put(es, route, leaf, true) == Put(es, route, leaf, false)
    decreases |route|
  {
    if |route| > 1 {
      PutEnforced(Below(es, route[0]), route[1..], leaf);
    }
  }

  /** After a store, the leaf sits at the end of the route: the later path wins. */
  lemma {:induction false} PutWrites(es: Entries, route: seq<Atom>, leaf: Atom, enforce: bool)
    requires |route| >= 1 && Put(es, route, leaf, enforce).Some?
    ensures At(Put(es, route, leaf, enforce).value, route, |route| - 1) == Some(TLeaf(leaf))
    decreases |route|
  {
    if |route| > 1 {
      PutWrites(Below(es, route[0]), route[1..], leaf, enforce);
    }
  }

  /** Routes that part after a common first key part after it too. */
  lemma {:induction false} DivergeTail(q: seq<Atom>, route: seq<Atom>)
    requires Diverge(q, route)
    ensures |q| >= 1 && |route| >= 1
    ensures q[0] == route[0] ==> |q| >= 2 && |route| >= 2 && Diverge(q[1..], route[1..])
  {
    var d :| 0 <= d < |q| && d < |route| && q[..d] == route[..d] && q[d] != route[d];
    if q[0] == route[0] {
      assert d >= 1;
      assert q[1..][..d - 1] == q[..d][1..] && route[1..][..d - 1] == route[..d][1..];
      assert q[1..][d - 1] != route[1..][d - 1];
    }
  }

  /** What a route reaches depends only on what its first key holds. */
  lemma {:induction false} AtSameFirst(es: Entries, es': Entries, q: seq<Atom>, j: nat)
    requires j < |q| && Get(es, q[0]) == Get(es', q[0])
    ensures At(es, q, j) == At(es', q, j)
  {
  }

  /** Storing a path of two or more keys stores the rest of it in the node below the first. */
  lemma {:induction false} PutStep(es: Entries, route: seq<Atom>, leaf: Atom, enforce: bool)
    requires |route| >= 2 && Put(es, route, leaf, enforce).Some?
    ensures Put(Below(es, route[0]), route[1..], leaf, enforce).Some?
    ensures Put(es, route, leaf, enforce).value ==
            Assign(es, route[0], Node(Put(Below(es, route[0]), route[1..], leaf, enforce).value))
  {
  }

  /** Below the first key, a route reaches what the rest of it reaches in the node there. */
  lemma {:induction false} AtBelow(es: Entries, q: seq<Atom>, j: nat)
    requires 1 <= j < |q|
    ensures At(es, q, j) == At(Below(es, q[0]), q[1..], j - 1)
  {
    if !(Get(es, q[0]).Some? && Get(es, q[0]).value.Node?) {
      AtEmpty(q[1..], j - 1);
    }
  }

  /** A store leaves alone every route with another first key. */
  lemma {:induction false} PutOtherKey(es: Entries, route: seq<Atom>, leaf: Atom, enforce: bool, q: seq<Atom>)
    requires |route| >= 1 && Put(es, route, leaf, enforce).Some?
    requires |q| >= 1 && q[0] != route[0]
    ensures At(Put(es, route, leaf, enforce).value, q, |q| - 1) == At(es, q, |q| - 1)
  {
    var k := route[0];
    var r := Put(es, route, leaf, enforce).value;
    if |route| == 1 {
      AssignOthers(es, k, TLeaf(leaf));
    } else {
      PutStep(es, route, leaf, enforce);
      AssignOthers(es, k, Node(Put(Below(es, k), route[1..], leaf, enforce).value));
    }
    AtSameFirst(r, es, q, |q| - 1);
  }

  /** A store leaves alone every route that parts from its own. */
  lemma {:induction false} PutKeepsOthers(es: Entries, route: seq<Atom>, leaf: Atom, enforce: bool, q: seq<Atom>)
    requires |route| >= 1 && Put(es, route, leaf, enforce).Some?
    requires Diverge(q, route)
    ensures |q| >= 1
    ensures At(Put(es, route, leaf, enforce).value, q, |q| - 1) == At(es, q, |q| - 1)
    decreases |route|, 1
  {
    DivergeTail(q, route);
    if q[0] != route[0] {
      PutOtherKey(es, route, leaf, enforce, q);
    } else {
      KeepsBelow(es, route, leaf, enforce, q);
    }
  }

  /** Routes that share their first key and part later: the store below that
      key leaves the rest of `q` alone, so the whole store leaves `q` alone. */
  lemma {:induction false} KeepsBelow(es: Entries, route: seq<Atom>, leaf: Atom, enforce: bool, q: seq<Atom>)
    requires |route| >= 2 && |q| >= 2 && q[0] == route[0]
    requires Put(es, route, leaf, enforce).Some? && Diverge(q[1..], route[1..])
    ensures At(Put(es, route, leaf, enforce).value, q, |q| - 1) == At(es, q, |q| - 1)
    decreases |route|, 0
  {
    var k, below, rest := route[0], Below(es, route[0]), route[1..];
    var r := Put(es, route, leaf, enforce).value;
    assert Put(below, rest, leaf, enforce).Some? &&
           r == Assign(es, k, Node(Put(below, rest, leaf, enforce).value)) by {
      PutStep(es, route, leaf, enforce);
    }
    var sub := Put(below, rest, leaf, enforce).value;
    assert Below(r, k) == sub by {
      BelowAssign(es, k, sub);
    }
    PutKeepsOthers(below, rest, leaf, enforce, q[1..]);
    SameBelow(es, r, q, below, sub);
  }

  /** The node just assigned under `k` is what the cursor moves to under `k`. */
  lemma BelowAssign(es: Entries, k: Atom, sub: Entries)
    ensures Below(Assign(es, k, Node(sub)), k) == sub
  {
  }

  /** Two trees whose nodes under `q[0]` agree on the rest of `q` agree on `q`. */
  lemma SameBelow(es: Entries, r: Entries, q: seq<Atom>, below: Entries, sub: Entries)
    requires |q| >= 2 && Below(es, q[0]) == below && Below(r, q[0]) == sub
    requires At(sub, q[1..], |q[1..]| - 1) == At(below, q[1..], |q[1..]| - 1)
    ensures At(r, q, |q| - 1) == At(es, q, |q| - 1)
  {
    AtBelow(r, q, |q| - 1);
    AtBelow(es, q, |q| - 1);
  }

  /** Storing a tree's own route twice conflicts under `enforce_unique`. */
  lemma {:induction false} SameRouteTwice(es: Entries, route: seq<Atom>, leaf: Atom, leaf': Atom, enforce: bool)
    requires |route| >= 1 && Put(es, route, leaf, enforce).Some?
    ensures Put(Put(es, route, leaf, enforce).value, route, leaf', true).None?
  {
    PutWrites(es, route, leaf, enforce);
    LeafOnRoute(Put(es, route, leaf, enforce).value, route, |route| - 1, leaf');
  }

  /** A store keeps the tree's shape: distinct plain names, no empty inner node. */
  lemma {:induction false} PutValid(es: Entries, route: seq<Atom>, leaf: Atom, enforce: bool)
    requires |route| >= 1 && Valid(Node(es))
    requires forall i :: 0 <= i < |route| ==> PlainKey(route[i])
    requires Put(es, route, leaf, enforce).Some?
    ensures Valid(Node(Put(es, route, leaf, enforce).value))
    decreases |route|
  {
    var k := route[0];
    var r := Put(es, route, leaf, enforce).value;
    var v: Tree;
    if |route| == 1 {
      v := TLeaf(leaf);
    } else {
      var sub := Below(es, k);
      assert Valid(Node(sub)) by {
        match Get<Atom, Tree>(es, k)
        case Some(Node(s)) =>
          var i := Find(es, k);
          assert es[i].1 == Node(s);
        case _ =>
      }
      PutValid(sub, route[1..], leaf, enforce);
      v := Node(Put(sub, route[1..], leaf, enforce).value);
    }
    assert r == Assign(es, k, v);
    AssignShape(es, k, v);
    forall i | 0 <= i < |r|
      ensures PlainKey(r[i].0) && Valid(r[i].1) && (r[i].1.Node? ==> |r[i].1.entries| > 0)
    {
      if r[i] != (k, v) {
        var m :| 0 <= m < |es| && es[m] == r[i];
      }
    }
  }

  // ---------------------------------------------------------------------
  // Properties of the whole fold

  /** The first step of a fold that does not stop there. */
  lemma FoldHead(es: Entries, ps: seq<Path>, enforce: bool)
    requires LongPaths(ps) && |ps| > 0
    requires FoldFrom(es, ps, enforce).Ok? || Put(es, Route(ps[0]), LeafOf(ps[0]), enforce).Some?
    ensures Put(es, Route(ps[0]), LeafOf(ps[0]), enforce).Some?
    ensures FoldFrom(es, ps, enforce) == FoldFrom(Put(es, Route(ps[0]), LeafOf(ps[0]), enforce).value, ps[1..], enforce)
  {
  }

  /** Folding a concatenation folds the second list into the first one's result. */
  lemma {:induction false} FoldAppend(es: Entries, ps: seq<Path>, qs: seq<Path>, enforce: bool)
    requires LongPaths(ps) && LongPaths(qs)
    ensures LongPaths(ps + qs)
    ensures FoldFrom(es, ps + qs, enforce) ==
            match FoldFrom(es, ps, enforce)
            case Ok(m) => FoldFrom(m, qs, enforce)
            case Err(c) => Err(c)
    decreases |ps|
  {
    if ps != [] {
      assert (ps + qs)[0] == ps[0] && (ps + qs)[1..] == ps[1..] + qs;
      var next := Put(es, Route(ps[0]), LeafOf(ps[0]), enforce);
      if next.Some? {
        FoldAppend(next.value, ps[1..], qs, enforce);
      }
    } else {
      assert ps + qs == qs;
    }
  }

  /** Without `enforce_unique` the fold never raises; with it, a fold that does
      not raise builds the same tree. */
  lemma {:induction false} FoldEnforced(es: Entries, ps: seq<Path>)
    requires LongPaths(ps)
    ensures FoldFrom(es, ps, false).Ok?
    ensures FoldFrom(es, ps, true).Ok? ==> FoldFrom(es, ps, true) == FoldFrom(es, ps, false)
    decreases |ps|
  {
    if ps != [] {
      PutEnforced(es, Route(ps[0]), LeafOf(ps[0]));
      FoldEnforced(Put(es, Route(ps[0]), LeafOf(ps[0]), false).value, ps[1..]);
    }
  }

  /** The tree the paths build without conflict checks. */
  function Built(es: Entries, ps: seq<Path>): (r: Entries)
    requires LongPaths(ps)
    ensures FoldFrom(es, ps, false) == Ok(r)
  {
    FoldEnforced(es, ps);
    FoldFrom(es, ps, false).value
  }

  /** Path `i` meets a leaf on its route in the tree the earlier paths built. */
  predicate Clash(es: Entries, ps: seq<Path>, i: nat)
    requires LongPaths(ps) && i < |ps|
  {
    Put(Built(es, ps[..i]), Route(ps[i]), LeafOf(ps[i]), true).None?
  }

  lemma {:induction false} FoldShift(es: Entries, ps: seq<Path>, i: nat)
    requires LongPaths(ps) && 0 < |ps| && i < |ps|
    ensures Built(es, ps[..i + 1]) == Built(Built(es, ps[..1]), ps[1..][..i])
  {
    assert ps[..i + 1] == ps[..1] + ps[1..][..i];
    FoldAppend(es, ps[..1], ps[1..][..i], false);
  }

  /** Once the first path is stored, the clashes of the others are their
      clashes in the tree it leaves. */
  lemma {:induction false} ClashShift(es: Entries, ps: seq<Path>)
    requires LongPaths(ps) && |ps| > 0
    requires Put(es, Route(ps[0]), LeafOf(ps[0]), true).Some?
    ensures !Clash(es, ps, 0)
    ensures Put(es, Route(ps[0]), LeafOf(ps[0]), false).Some?
    ensures var next := Put(es, Route(ps[0]), LeafOf(ps[0]), false).value;
      FoldFrom(es, ps, true) == FoldFrom(next, ps[1..], true) &&
      forall i :: 0 <= i < |ps| - 1 ==> Clash(es, ps, i + 1) == Clash(next, ps[1..], i)
  {
    var p := ps[0];
    assert ps[..0] == [];
    assert Built(es, ps[..0]) == es;
    PutEnforced(es, Route(p), LeafOf(p));
    var next := Put(es, Route(p), LeafOf(p), false).value;
    var rest := ps[1..];
    assert ps[..1] == [p] && [p][1..] == [];
    assert FoldFrom(es, [p], false) == FoldFrom(next, [], false);
    assert Built(es, ps[..1]) == next;
    forall i | 0 <= i < |rest| ensures Clash(es, ps, i + 1) == Clash(next, rest, i) {
      FoldShift(es, ps, i);
      assert ps[i + 1] == rest[i];
    }
  }

  /** Under `enforce_unique` the fold raises exactly when some path meets a leaf
      on its route, and the error names the first such path. */
  lemma {:induction false} FoldConflict(es: Entries, ps: seq<Path>)
    requires LongPaths(ps)
    ensures FoldFrom(es, ps, true).Err? <==> exists i :: 0 <= i < |ps| && Clash(es, ps, i)
    ensures FoldFrom(es, ps, true).Err? ==>
      exists i :: 0 <= i < |ps| && Clash(es, ps, i) && FoldFrom(es, ps, true).error == PathConflict(ps[i]) &&
        forall m :: 0 <= m < i ==> !Clash(es, ps, m)
    decreases |ps|, 1
  {
    if ps != [] {
      var p := ps[0];
      if Put(es, Route(p), LeafOf(p), true).None? {
        assert ps[..0] == [];
        assert Built(es, ps[..0]) == es;
        assert Clash(es, ps, 0);
      } else {
        FoldConflictLater(es, ps);
      }
    }
  }

  /** FoldConflict when the first path stores cleanly: the clashes are those of the rest. */
  lemma {:induction false} FoldConflictLater(es: Entries, ps: seq<Path>)
    requires LongPaths(ps) && |ps| > 0
    requires Put(es, Route(ps[0]), LeafOf(ps[0]), true).Some?
    ensures FoldFrom(es, ps, true).Err? <==> exists i :: 0 <= i < |ps| && Clash(es, ps, i)
    ensures FoldFrom(es, ps, true).Err? ==>
      exists i :: 0 <= i < |ps| && Clash(es, ps, i) && FoldFrom(es, ps, true).error == PathConflict(ps[i]) &&
        forall m :: 0 <= m < i ==> !Clash(es, ps, m)
    decreases |ps|, 0
  {
    var p := ps[0];
    ClashShift(es, ps);
    var next := Put(es, Route(p), LeafOf(p), false).value;
    var rest := ps[1..];
    FoldConflict(next, rest);
    if FoldFrom(es, ps, true).Err? {
      var i :| 0 <= i < |rest| && Clash(next, rest, i) && FoldFrom(next, rest, true).error == PathConflict(rest[i]) &&
        forall m :: 0 <= m < i ==> !Clash(next, rest, m);
      assert Clash(es, ps, i + 1) && ps[i + 1] == rest[i];
      forall m | 0 <= m < i + 1 ensures !Clash(es, ps, m) {
        if m > 0 { assert !Clash(next, rest, m - 1); }
      }
    } else {
      forall i | 0 <= i < |ps| ensures !Clash(es, ps, i) {
        if i > 0 { assert !Clash(next, rest, i - 1); }
      }
    }
  }

  /** The fold keeps the tree's shape when every route key is plain. */
  lemma {:induction false} FoldValid(es: Entries, ps: seq<Path>, enforce: bool)
    requires LongPaths(ps) && Valid(Node(es))
    requires KeyedPaths(ps)
    requires FoldFrom(es, ps, enforce).Ok?
    ensures Valid(Node(FoldFrom(es, ps, enforce).value))
    decreases |ps|
  {
    if ps != [] {
      PutValid(es, Route(ps[0]), LeafOf(ps[0]), enforce);
      FoldValid(Put(es, Route(ps[0]), LeafOf(ps[0]), enforce).value, ps[1..], enforce);
    }
  }

  /** A fold leaves alone a route that parts from every path it stores. */
  lemma {:induction false} FoldKeeps(es: Entries, ps: seq<Path>, q: seq<Atom>)
    requires LongPaths(ps) && |q| >= 1
    requires forall i :: 0 <= i < |ps| ==> Diverge(q, Route(ps[i]))
    ensures At(Built(es, ps), q, |q| - 1) == At(es, q, |q| - 1)
    decreases |ps|
  {
    if ps != [] {
      BuiltStep(es, ps);
      PutKeepsOthers(es, Route(ps[0]), LeafOf(ps[0]), false, q);
      FoldKeeps(Put(es, Route(ps[0]), LeafOf(ps[0]), false).value, ps[1..], q);
    }
  }

  /** The first step of the unchecked fold. */
  lemma {:induction false} BuiltStep(es: Entries, ps: seq<Path>)
    requires LongPaths(ps) && |ps| > 0
    ensures Put(es, Route(ps[0]), LeafOf(ps[0]), false).Some?
    ensures Built(es, ps) == Built(Put(es, Route(ps[0]), LeafOf(ps[0]), false).value, ps[1..])
  {
    PutEnforced(es, Route(ps[0]), LeafOf(ps[0]));
  }

  lemma {:induction false} PairwiseTail(ps: seq<Path>)
    requires PairwiseDiverge(ps) && |ps| > 0
    ensures PairwiseDiverge(ps[1..])
  {
    var rest := ps[1..];
    forall a, b | 0 <= a < b < |rest| ensures Apart(rest[a], rest[b]) {
      assert Apart(ps[a + 1], ps[b + 1]);
    }
  }

  /** The leaf of `p` sits at the end of its route. */
  predicate Placed(es: Entries, p: Path)
  {
    |p| >= 2 && At(es, Route(p), |p| - 2) == Some(TLeaf(LeafOf(p)))
  }

  /** The first path's leaf survives the later paths when their routes part from its own. */
  lemma {:induction false} FirstSurvives(es: Entries, ps: seq<Path>)
    requires LongPaths(ps) && |ps| > 0
    requires forall m :: 0 < m < |ps| ==> Apart(ps[0], ps[m])
    ensures Placed(Built(es, ps), ps[0])
  {
    var p, rest := ps[0], ps[1..];
    var route := Route(p);
    var next := Put(es, route, LeafOf(p), false).value;
    assert Built(es, ps) == Built(next, rest) by {
      BuiltStep(es, ps);
    }
    assert At(next, route, |route| - 1) == Some(TLeaf(LeafOf(p))) by {
      PutWrites(es, route, LeafOf(p), false);
    }
    assert forall i :: 0 <= i < |rest| ==> Diverge(route, Route(rest[i])) by {
      ApartFromFirst(ps);
    }
    StaysPut(next, rest, route, TLeaf(LeafOf(p)));
    PlacedAt(Built(es, ps), p, route);
  }

  /** The leaf found at the end of the path's route is the path placed. */
  lemma PlacedAt(es: Entries, p: Path, route: seq<Atom>)
    requires |p| >= 2 && route == Route(p)
    requires At(es, route, |route| - 1) == Some(TLeaf(LeafOf(p)))
    ensures Placed(es, p)
  {
  }

  /** A tree stored at a route stays there through paths whose routes part from it. */
  lemma StaysPut(es: Entries, ps: seq<Path>, route: seq<Atom>, t: Tree)
    requires LongPaths(ps) && |route| >= 1 && At(es, route, |route| - 1) == Some(t)
    requires forall i :: 0 <= i < |ps| ==> Diverge(route, Route(ps[i]))
    ensures At(Built(es, ps), route, |route| - 1) == Some(t)
  {
    FoldKeeps(es, ps, route);
  }

  /** The later paths' routes part from the first one's. */
  lemma ApartFromFirst(ps: seq<Path>)
    requires LongPaths(ps) && |ps| > 0
    requires forall m :: 0 < m < |ps| ==> Apart(ps[0], ps[m])
    ensures forall m :: 0 <= m < |ps[1..]| ==> Diverge(Route(ps[0]), Route(ps[1..][m]))
  {
    var rest := ps[1..];
    forall m | 0 <= m < |rest| ensures Diverge(Route(ps[0]), Route(rest[m])) {
      assert rest[m] == ps[m + 1] && Apart(ps[0], ps[m + 1]);
    }
  }

  /** When the routes pairwise part, every path's leaf ends up at its route. */
  lemma {:induction false} FoldPlaces(es: Entries, ps: seq<Path>)
    requires LongPaths(ps) && PairwiseDiverge(ps)
    ensures forall p :: p in ps ==> Placed(Built(es, ps), p)
    decreases |ps|
  {
    if ps != [] {
      var rest := ps[1..];
      BuiltStep(es, ps);
      var next := Put(es, Route(ps[0]), LeafOf(ps[0]), false).value;
      PairwiseTail(ps);
      FoldPlaces(next, rest);
      FirstSurvives(es, ps);
      assert forall p :: p in ps ==> p == ps[0] || p in rest;
    }
  }
}
