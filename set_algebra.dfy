/** The set operations of `DictSam`: path matching, except and intersect as
    filters of one operand's paths, union as concatenation, and equality.
    Every result is built by the constructor from a path list. */
module SetAlgebra {
  import opened Wrappers
  import opened Assoc
  import opened JsonValue
  import opened Denormalization
  import opened PathTree
  import opened Normalization
  import opened CodecRoundTrip

  // ---------------------------------------------------------------------
  // The constructor

  /** `DictSam(paths, True, enforce_unique)`: the flag is set, the paths are
      normalized, and the value is admitted through a JSON text round trip. */
  function FromPaths(paths: seq<Path>, enforce: bool): (r: Result<Json, Conflict>)
    requires KeyedPaths(paths)
    ensures r.Ok? ==> StringNamed(r.value)
    ensures !enforce ==> r.Ok?
    ensures r.Err? <==> NormalizeSpec(paths, enforce).Err?
  {
    FoldEnforced([], paths);
    match NormalizeSpec(paths, enforce)
    case Err(c) => Err(c)
    case Ok(j) =>
      AdmitStringNames(j);
      Ok(Admit(j))
  }

  /** The constructor as the set operations call it: `DictSam(paths, True)`. */
  method Construct(paths: seq<Path>) returns (r: Json)
    requires KeyedPaths(paths)
    ensures FromPaths(paths, false) == Ok(r)
  {
    var normalized := Normalize(paths, false);
    FoldEnforced([], paths);
    r := Admit(normalized.value);
  }

  // ---------------------------------------------------------------------
  // Matching paths

  /** How many leading components `_cmp_list` compares: the shorter length,
      one less under `ignore_leaves`. */
  function CompareLength(left: Path, right: Path, ignoreLeaves: bool): int
  {
    (if |left| < |right| then |left| else |right|) - (if ignoreLeaves then 1 else 0)
  }

  /** `_cmp_list(left, right)`: the compared components agree pairwise. */
  predicate Matches(left: Path, right: Path, ignoreLeaves: bool): (r: bool)
    ensures left == right ==> r
    ensures !ignoreLeaves && |left| <= |right| ==> (r <==> left == right[..|left|])
  {
    forall i :: 0 <= i < CompareLength(left, right, ignoreLeaves) ==> left[i] == right[i]
  }

  /** Python's `s[:end]`: a negative end counts back from the end of `s`. */
  function SliceTo<T>(s: seq<T>, end: int): (r: seq<T>)
    ensures |r| <= |s| && r == s[..|r|]
    ensures end >= 0 ==> |r| == if end < |s| then end else |s|
    ensures end < 0 ==> |r| == if |s| + end > 0 then |s| + end else 0
  {
    if end >= 0 then (if end < |s| then s[..end] else s)
    else if |s| + end > 0 then s[..|s| + end]
    else []
  }

  /** `_cmp_list`: slice both lists to the compared length, then walk them in
      step and stop at the first difference. */
  method CmpList(left: Path, right: Path, ignoreLeaves: bool) returns (same: bool)
    ensures same <==> Matches(left, right, ignoreLeaves)
  {
    var end := if |left| < |right| then |left| else |right|;
    if ignoreLeaves {
      end := end - 1;
    }
    var l := SliceTo(left, end);
    var r := SliceTo(right, end);
    var steps := if |l| < |r| then |l| else |r|;
    for i := 0 to steps
      invariant forall m :: 0 <= m < i ==> left[m] == right[m]
    {
      if l[i] != r[i] {
        assert l[i] == left[i] && r[i] == right[i];
        return false;
      }
    }
    return true;
  }

  /** Some path of `right` matches `left`. */
  predicate MatchesSome(left: Path, right: seq<Path>, ignoreLeaves: bool)
  {
    exists q :: q in right && Matches(left, q, ignoreLeaves)
  }

  /** `_cmp_lists`: the first path of `right` that matches ends the search. */
  method CmpLists(left: Path, right: seq<Path>, ignoreLeaves: bool) returns (found: bool)
    requires |left| > 0
    ensures found <==> MatchesSome(left, right, ignoreLeaves)
  {
    for i := 0 to |right|
      invariant forall m :: 0 <= m < i ==> !Matches(left, right[m], ignoreLeaves)
    {
      var same := CmpList(left, right[i], ignoreLeaves);
      if same {
        return true;
      }
    }
    return false;
  }

  /** Every path matches itself, and under `ignore_leaves` it matches every
      path of the same length that differs at most in the leaf. */
  lemma MatchesRoute(p: Path, q: Path)
    requires |p| == |q| >= 1 && Route(p) == Route(q)
    ensures Matches(p, p, false) && Matches(p, q, true)
  {
    forall i | 0 <= i < |p| - 1 ensures p[i] == q[i] {
      assert Route(p)[i] == Route(q)[i];
    }
  }

  // ---------------------------------------------------------------------
  // Except and intersect

  /** The paths `_sub_and` keeps, in order: those matching some path of
      `others` for intersect, those matching none for except. */
  function Kept(paths: seq<Path>, others: seq<Path>, except: bool, ignoreLeaves: bool): (r: seq<Path>)
    ensures |r| <= |paths|
    ensures forall i :: 0 <= i < |r| ==> MatchesSome(r[i], others, ignoreLeaves) != except
    decreases |paths|
  {
    if paths == [] then []
    else
      var last := paths[|paths| - 1];
      Kept(paths[..|paths| - 1], others, except, ignoreLeaves) +
        if MatchesSome(last, others, ignoreLeaves) != except then [last] else []
  }

  /** `_sub_and`: both operands denormalized, A's paths filtered, the result
      rebuilt by the constructor. B's paths are only compared, never rebuilt,
      so B may be any value. */
  method SubAnd(a: Json, b: Json, except: bool, ignoreLeaves: bool) returns (r: Json)
    requires Document(a)
    ensures KeyedPaths(Kept(Denormalize(a), Denormalize(b), except, ignoreLeaves))
    ensures FromPaths(Kept(Denormalize(a), Denormalize(b), except, ignoreLeaves), false) == Ok(r)
  {
    var aPaths := Denormalize(a);
    var bPaths := Denormalize(b);
    var outlist := Filter(aPaths, bPaths, except, ignoreLeaves);
    KeptKeyed(aPaths, bPaths, except, ignoreLeaves);
    r := Construct(outlist);
  }

  /** The loop of `_sub_and`: each path of A is compared against all of B's,
      the answer negated for except, and the path appended when it holds. */
  method Filter(paths: seq<Path>, others: seq<Path>, except: bool, ignoreLeaves: bool) returns (outlist: seq<Path>)
    requires forall i :: 0 <= i < |paths| ==> |paths[i]| > 0
    ensures outlist == Kept(paths, others, except, ignoreLeaves)
  {
    outlist := [];
    for i := 0 to |paths|
      invariant outlist == Kept(paths[..i], others, except, ignoreLeaves)
    {
      assert paths[..i + 1][..i] == paths[..i];
      var res := CmpLists(paths[i], others, ignoreLeaves);
      if except {
        res := !res;
      }
      if res {
        outlist := outlist + [paths[i]];
      }
    }
    assert paths[..|paths|] == paths;
  }

  /** `A - B`. */
  method Except(a: Json, b: Json, ignoreLeaves: bool) returns (r: Json)
    requires Document(a)
    ensures KeyedPaths(Kept(Denormalize(a), Denormalize(b), true, ignoreLeaves))
    ensures FromPaths(Kept(Denormalize(a), Denormalize(b), true, ignoreLeaves), false) == Ok(r)
  {
    r := SubAnd(a, b, true, ignoreLeaves);
  }

  /** `A & B`. */
  method Intersect(a: Json, b: Json, ignoreLeaves: bool) returns (r: Json)
    requires Document(a)
    ensures KeyedPaths(Kept(Denormalize(a), Denormalize(b), false, ignoreLeaves))
    ensures FromPaths(Kept(Denormalize(a), Denormalize(b), false, ignoreLeaves), false) == Ok(r)
  {
    r := SubAnd(a, b, false, ignoreLeaves);
  }

  /** A path is kept exactly when it is one of the operand's paths and its
      match against the other operand is what the operation asks for. */
  lemma {:induction false} KeptMembers(paths: seq<Path>, others: seq<Path>, except: bool, ignoreLeaves: bool)
    ensures forall p :: p in Kept(paths, others, except, ignoreLeaves) <==>
      p in paths && MatchesSome(p, others, ignoreLeaves) != except
    decreases |paths|
  {
    if paths != [] {
      var init := paths[..|paths| - 1];
      KeptMembers(init, others, except, ignoreLeaves);
      assert paths == init + [paths[|paths| - 1]];
    }
  }

  /** `xs` is `ys` with some members left out, the rest in their order: `idx`
      says where each member of `xs` stands in `ys`. */
  predicate SubsequenceAt<T(==)>(xs: seq<T>, ys: seq<T>, idx: seq<nat>)
  {
    |idx| == |xs| &&
    (forall i :: 0 <= i < |idx| ==> idx[i] < |ys| && ys[idx[i]] == xs[i]) &&
    (forall i, j :: 0 <= i < j < |idx| ==> idx[i] < idx[j])
  }

  /** The kept paths keep their order. */
  lemma {:induction false} KeptOrder(paths: seq<Path>, others: seq<Path>, except: bool, ignoreLeaves: bool)
    ensures exists idx :: SubsequenceAt(Kept(paths, others, except, ignoreLeaves), paths, idx)
    decreases |paths|
  {
    if paths == [] {
      assert SubsequenceAt(Kept(paths, others, except, ignoreLeaves), paths, []);
    } else {
      var n := |paths| - 1;
      var init := paths[..n];
      KeptOrder(init, others, except, ignoreLeaves);
      var idx :| SubsequenceAt(Kept(init, others, except, ignoreLeaves), init, idx);
      if MatchesSome(paths[n], others, ignoreLeaves) != except {
        assert SubsequenceAt(Kept(paths, others, except, ignoreLeaves), paths, idx + [n]);
      } else {
        assert SubsequenceAt(Kept(paths, others, except, ignoreLeaves), paths, idx);
      }
    }
  }

  /** Except and intersect split the operand's paths: together they hold
      each path exactly as often as the operand does. */
  lemma {:induction false} KeptPartition(paths: seq<Path>, others: seq<Path>, ignoreLeaves: bool)
    ensures multiset(Kept(paths, others, true, ignoreLeaves)) + multiset(Kept(paths, others, false, ignoreLeaves)) == multiset(paths)
    decreases |paths|
  {
    if paths != [] {
      var init := paths[..|paths| - 1];
      KeptPartition(init, others, ignoreLeaves);
      assert paths == init + [paths[|paths| - 1]];
    }
  }

  /** `A - B` and `A & B` split `denormalize(A)`: each path goes to exactly one side. */
  lemma SplitPaths(a: Json, b: Json, ignoreLeaves: bool)
    ensures forall p :: p in Denormalize(a) ==>
      (p in Kept(Denormalize(a), Denormalize(b), true, ignoreLeaves) <==>
       p !in Kept(Denormalize(a), Denormalize(b), false, ignoreLeaves))
  {
    KeptMembers(Denormalize(a), Denormalize(b), true, ignoreLeaves);
    KeptMembers(Denormalize(a), Denormalize(b), false, ignoreLeaves);
  }

  /** The kept paths are paths normalize accepts when the operand's are. */
  lemma KeptKeyed(paths: seq<Path>, others: seq<Path>, except: bool, ignoreLeaves: bool)
    requires KeyedPaths(paths)
    ensures KeyedPaths(Kept(paths, others, except, ignoreLeaves))
  {
    var kept := Kept(paths, others, except, ignoreLeaves);
    KeptMembers(paths, others, except, ignoreLeaves);
    forall i | 0 <= i < |kept| ensures KeyedPath(kept[i]) {
      assert kept[i] in paths;
    }
  }

  /** Except keeps nothing of paths that all match, intersect keeps them all. */
  lemma {:induction false} AllMatch(paths: seq<Path>, others: seq<Path>, ignoreLeaves: bool)
    requires forall i :: 0 <= i < |paths| ==> MatchesSome(paths[i], others, ignoreLeaves)
    ensures Kept(paths, others, true, ignoreLeaves) == []
    ensures Kept(paths, others, false, ignoreLeaves) == paths
    decreases |paths|
  {
    if paths != [] {
      var n := |paths| - 1;
      var init, last := paths[..n], paths[n];
      assert forall i :: 0 <= i < |init| ==> init[i] == paths[i];
      AllMatch(init, others, ignoreLeaves);
      assert MatchesSome(last, others, ignoreLeaves);
      assert init + [last] == paths;
    }
  }

  /** Every path matches itself, so `A - A` keeps nothing and `A & A` keeps everything. */
  lemma SelfMatch(paths: seq<Path>, ignoreLeaves: bool)
    ensures Kept(paths, paths, true, ignoreLeaves) == []
    ensures Kept(paths, paths, false, ignoreLeaves) == paths
  {
    forall i | 0 <= i < |paths| ensures MatchesSome(paths[i], paths, ignoreLeaves) {
      assert Matches(paths[i], paths[i], ignoreLeaves);
    }
    AllMatch(paths, paths, ignoreLeaves);
  }

  /** `A & A == A` and `A - A == {}` for a document without empty nested
      containers, whatever `ignore_leaves` says. */
  lemma SelfOperations(a: Json, ignoreLeaves: bool)
    requires Document(a) && Dense(a) && a != Arr([])
    ensures KeyedPaths(Denormalize(a))
    ensures Kept(Denormalize(a), Denormalize(a), false, ignoreLeaves) == Denormalize(a)
    ensures Kept(Denormalize(a), Denormalize(a), true, ignoreLeaves) == []
    ensures FromPaths(Kept(Denormalize(a), Denormalize(a), false, ignoreLeaves), false) == Ok(a)
    ensures FromPaths(Kept(Denormalize(a), Denormalize(a), true, ignoreLeaves), false) == Ok(Obj([]))
  {
    SelfMatch(Denormalize(a), ignoreLeaves);
    RoundTrip(a, false);
    WellFormedStringNamed(a);
    AdmitStringNames(a);
    NormalizeEmpty(false);
    AdmitStringNames(Obj([]));
  }

  // ---------------------------------------------------------------------
  // Union

  /** `A | B`: A's paths, then B's, rebuilt by the constructor. */
  function Union(a: Json, b: Json): (r: Json)
    requires Document(a) && Document(b)
    ensures KeyedPaths(Denormalize(a) + Denormalize(b))
    ensures FromPaths(Denormalize(a) + Denormalize(b), false) == Ok(r)
  {
    DenormalizeKeyed(a);
    DenormalizeKeyed(b);
    FromPaths(Denormalize(a) + Denormalize(b), false).value
  }

  /** B wins, on the tree: after A's paths and then B's, every leaf of B
      stands at its own route. */
  lemma {:induction false} LaterPathsPlaced(pa: seq<Path>, pb: seq<Path>)
    requires LongPaths(pa) && LongPaths(pb) && PairwiseDiverge(pb)
    ensures LongPaths(pa + pb)
    ensures forall q :: q in pb ==> Placed(Built([], pa + pb), q)
  {
    var none: Entries := [];
    var mid := Built(none, pa);
    FoldAppend(none, pa, pb, false);
    assert Built(none, pa + pb) == Built(mid, pb);
    FoldPlaces(mid, pb);
  }

  /** B wins: in the normalized union every leaf of B stands at its own route,
      whatever A held there. */
  lemma UnionLastWins(a: Json, b: Json)
    requires Document(a) && Document(b)
    ensures KeyedPaths(Denormalize(a) + Denormalize(b))
    ensures NormalizeSpec(Denormalize(a) + Denormalize(b), false).Ok?
    ensures forall q :: q in Denormalize(b) ==>
      |q| >= 2 && JsonAt(NormalizeSpec(Denormalize(a) + Denormalize(b), false).value, Route(q)) == Some(Leaf(LeafOf(q)))
  {
    var pa, pb := Denormalize(a), Denormalize(b);
    DenormalizeKeyed(a);
    DenormalizeKeyed(b);
    WellFormedDistinct(b);
    DenormalizeDiverge(b);
    LaterPathsPlaced(pa, pb);
    var none: Entries := [];
    assert FoldFrom(none, pa + pb, false) == Ok(Built(none, pa + pb));
    forall q | q in pb ensures |q| >= 2 && JsonAt(NormalizeSpec(pa + pb, false).value, Route(q)) == Some(Leaf(LeafOf(q))) {
      PlacedNormalized(pa + pb, q);
    }
  }

  /** A union can hold fewer paths than an operand. B's leaf under `ka` is
      stored after A's two leaves below `ka` and replaces that whole subtree,
      so `{"a": {"b": 1, "c": 2}} | {"a": 5}` is `{"a": 5}`. */
  lemma UnionShrinks(ka: Atom, kb: Atom, kc: Atom, x: Atom, y: Atom, z: Atom)
    requires ka.Str? && kb.Str? && kc.Str? && PlainKey(ka) && PlainKey(kb) && PlainKey(kc) && kb != kc
    ensures var a := Obj([(ka, Obj([(kb, Leaf(x)), (kc, Leaf(y))]))]);
      var b := Obj([(ka, Leaf(z))]);
      Document(a) && Document(b) && |Denormalize(a)| == 2 &&
      Union(a, b) == b && |Denormalize(Union(a, b))| == 1
  {
    var a := Obj([(ka, Obj([(kb, Leaf(x)), (kc, Leaf(y))]))]);
    var b := Obj([(ka, Leaf(z))]);
    assert Document(a) && Document(b) by {
      assert Distinct([(kb, Leaf(x)), (kc, Leaf(y))]);
    }
    ShrinkPathsA(ka, kb, kc, x, y);
    ShrinkPathsB(ka, z);
    var paths := Denormalize(a) + Denormalize(b);
    assert NormalizeSpec(paths, false) == Ok(b) by {
      ShrinkFold(paths, ka, kb, kc, x, y, z);
      RestoredSingle(ka, z);
    }
    assert Admit(b) == b by {
      AdmitStringNames(b);
    }
  }

  /** The paths of A in `UnionShrinks`. */
  lemma ShrinkPathsA(ka: Atom, kb: Atom, kc: Atom, x: Atom, y: Atom)
    ensures Denormalize(Obj([(ka, Obj([(kb, Leaf(x)), (kc, Leaf(y))]))])) == [[ka, kb, x], [ka, kc, y]]
  {
    var fields := [(kb, Leaf(x)), (kc, Leaf(y))];
    var outer := [(ka, Obj(fields))];
    var none: seq<Atom> := [];
    assert WalkFields(fields, 1, [ka]) == [[ka, kc, y]] by {
      WalkMember(fields, 1, [ka]);
      assert [ka] + [kc, y] == [ka, kc, y];
    }
    assert WalkFields(fields, 0, [ka]) == [[ka, kb, x], [ka, kc, y]] by {
      WalkMember(fields, 0, [ka]);
      assert [ka] + [kb, x] == [ka, kb, x];
    }
    assert Walk(Obj(outer), none) == [[ka, kb, x], [ka, kc, y]] by {
      WalkMember(outer, 0, none);
      assert none + [ka] == [ka];
    }
  }

  /** The path of B in `UnionShrinks`. */
  lemma ShrinkPathsB(ka: Atom, z: Atom)
    ensures Denormalize(Obj([(ka, Leaf(z))])) == [[ka, z]]
  {
    var single := [(ka, Leaf(z))];
    var none: seq<Atom> := [];
    WalkMember(single, 0, none);
    assert none + [ka, z] == [ka, z];
  }

  /** The walk of an object from member `i` on. */
  lemma WalkMember(fields: seq<(Atom, Json)>, i: nat, route: seq<Atom>)
    requires i < |fields|
    ensures WalkFields(fields, i, route) ==
      Walk(fields[i].1, route + [fields[i].0]) + WalkFields(fields, i + 1, route)
    ensures i + 1 == |fields| ==> WalkFields(fields, i + 1, route) == []
    ensures fields[i].1.Leaf? ==> Walk(fields[i].1, route + [fields[i].0]) == [route + [fields[i].0, fields[i].1.atom]]
    ensures fields[i].1.Obj? ==> Walk(fields[i].1, route + [fields[i].0]) == WalkFields(fields[i].1.fields, 0, route + [fields[i].0])
  {
    if fields[i].1.Leaf? {
      assert route + [fields[i].0] + [fields[i].1.atom] == route + [fields[i].0, fields[i].1.atom];
    }
  }

  /** The tree the union of `UnionShrinks` builds: only B's leaf is left under `ka`. */
  lemma ShrinkFold(paths: seq<Path>, ka: Atom, kb: Atom, kc: Atom, x: Atom, y: Atom, z: Atom)
    requires paths == [[ka, kb, x], [ka, kc, y]] + [[ka, z]] && kb != kc
    ensures LongPaths(paths)
    ensures FoldFrom([], paths, false) == Ok([(ka, TLeaf(z))])
  {
    var t1: Entries := [(ka, Node([(kb, TLeaf(x))]))];
    var t2: Entries := [(ka, Node([(kb, TLeaf(x)), (kc, TLeaf(y))]))];
    var t3: Entries := [(ka, TLeaf(z))];
    assert Put([], Route(paths[0]), LeafOf(paths[0]), false) == Some(t1) by {
      RouteOfThree(ka, kb, x);
      StoreTwoKeys([], ka, kb, x);
    }
    assert Put(t1, Route(paths[1]), LeafOf(paths[1]), false) == Some(t2) by {
      RouteOfThree(ka, kc, y);
      SecondLeafBelow(ka, kb, kc, x, y);
    }
    assert Put(t2, Route(paths[2]), LeafOf(paths[2]), false) == Some(t3) by {
      assert Route(paths[2]) == [ka] && LeafOf(paths[2]) == z;
      SingleMember(ka, t2[0].1, ka, TLeaf(z));
    }
    FoldThree([], paths, t1, t2, t3);
  }

  /** Three stores that succeed, one after another. */
  lemma FoldThree(es: Entries, ps: seq<Path>, t1: Entries, t2: Entries, t3: Entries)
    requires LongPaths(ps) && |ps| == 3
    requires Put(es, Route(ps[0]), LeafOf(ps[0]), false) == Some(t1)
    requires Put(t1, Route(ps[1]), LeafOf(ps[1]), false) == Some(t2)
    requires Put(t2, Route(ps[2]), LeafOf(ps[2]), false) == Some(t3)
    ensures FoldFrom(es, ps, false) == Ok(t3)
  {
    var rest, last := ps[1..], ps[2..];
    assert rest[0] == ps[1] && rest[1..] == last && last[0] == ps[2] && last[1..] == [];
    FoldHead(es, ps, false);
    FoldHead(t1, rest, false);
    FoldHead(t2, last, false);
  }

  /** A second leaf stored beside the first, below the same key. */
  lemma SecondLeafBelow(ka: Atom, kb: Atom, kc: Atom, x: Atom, y: Atom)
    requires kb != kc
    ensures Put([(ka, Node([(kb, TLeaf(x))]))], [ka, kc], y, false) ==
      Some([(ka, Node([(kb, TLeaf(x)), (kc, TLeaf(y))]))])
  {
    var below: Entries := [(kb, TLeaf(x))];
    var both: Entries := [(kb, TLeaf(x)), (kc, TLeaf(y))];
    SingleMember(ka, Node(below), ka, Node(both));
    assert Below([(ka, Node(below))], ka) == below;
    FindIs(below, kc, 1);
    AssignFresh(below, kc, TLeaf(y));
    assert below + [(kc, TLeaf(y))] == both;
    assert Put(below, [kc], y, false) == Some(both);
    assert [ka, kc][1..] == [kc];
  }

  // ---------------------------------------------------------------------
  // Equality

  /** `__eq__` on the constructor's result: rebuilding a document from its
      paths gives a value equal to it. */
  lemma RebuiltEqual(d: Json)
    requires Document(d) && Dense(d) && d != Arr([])
    ensures KeyedPaths(Denormalize(d))
    ensures FromPaths(Denormalize(d), false).Ok?
    ensures Equal(FromPaths(Denormalize(d), false).value, d)
  {
    RoundTrip(d, false);
    WellFormedStringNamed(d);
    AdmitStringNames(d);
    WellFormedDistinct(d);
    EqualReflexive(d);
  }
}
