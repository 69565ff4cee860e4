/** `normalize(denormalize(D)) == D`: the path codec loses nothing on a
    document without empty nested containers and without integer-literal
    string keys. The only change is at the root: `[]` comes back as `{}`. */
module CodecRoundTrip {
  import opened Wrappers
  import opened Assoc
  import opened JsonValue
  import opened Denormalization
  import opened PathTree
  import opened Normalization

  /** The tree normalize builds for a value: list positions become integer names. */
  function ToTree(j: Json): Tree
  {
    match j
    case Leaf(a) => TLeaf(a)
    case Arr(items) => Node(seq(|items|, i requires 0 <= i < |items| => (Num(i), ToTree(items[i]))))
    case Obj(fields) => Node(seq(|fields|, i requires 0 <= i < |fields| => (fields[i].0, ToTree(fields[i].1))))
  }

  /** A path with `k` in front, stored where `k` holds no leaf, is the path
      stored in the node under `k`. */
  lemma {:induction false} LiftHead(es: Entries, k: Atom, p: Path, enforce: bool)
    requires |p| >= 2 && !HoldsLeaf(es, k)
    ensures Put(es, Route([k] + p), LeafOf([k] + p), enforce) ==
            match Put(Below(es, k), Route(p), LeafOf(p), enforce)
            case None => None
            case Some(sub) => Some(Assign(es, k, Node(sub)))
  {
    assert Route([k] + p) == [k] + Route(p);
    assert ([k] + Route(p))[1..] == Route(p);
    assert LeafOf([k] + p) == LeafOf(p);
  }

  /** Storing paths that all start with a key that holds no leaf stores them
      in the node under that key. */
  lemma {:induction false} Lift(es: Entries, k: Atom, ps: seq<Path>, enforce: bool)
    requires LongPaths(ps) && |ps| > 0 && !HoldsLeaf(es, k)
    requires FoldFrom(Below(es, k), ps, enforce).Ok?
    ensures LongPaths(Prefixed([k], ps))
    ensures FoldFrom(es, Prefixed([k], ps), enforce) == Ok(Assign(es, k, Node(FoldFrom(Below(es, k), ps, enforce).value)))
    decreases |ps|
  {
    var qs := Prefixed([k], ps);
    PrefixedShape(k, ps);
    LiftHead(es, k, ps[0], enforce);
    var s1 := Put(Below(es, k), Route(ps[0]), LeafOf(ps[0]), enforce);
    FoldHead(Below(es, k), ps, enforce);
    var es1 := Assign(es, k, Node(s1.value));
    FoldHead(es, qs, enforce);
    assert Below(es1, k) == s1.value;
    if |ps| == 1 {
      assert qs[1..] == [];
    } else {
      Lift(es1, k, ps[1..], enforce);
      AssignTwice(es, k, Node(s1.value), Node(FoldFrom(s1.value, ps[1..], enforce).value));
    }
  }

  lemma PrefixedShape(k: Atom, ps: seq<Path>)
    requires LongPaths(ps) && |ps| > 0
    ensures LongPaths(Prefixed([k], ps))
    ensures Prefixed([k], ps)[0] == [k] + ps[0]
    ensures Prefixed([k], ps)[1..] == Prefixed([k], ps[1..])
  {
  }

  /** The paths of a container all have a key before the leaf. */
  lemma WalkLong(j: Json, route: seq<Atom>)
    requires j.Arr? || j.Obj? || |route| >= 1
    ensures LongPaths(Walk(j, route))
  {
    forall i | 0 <= i < |Walk(j, route)| ensures |Walk(j, route)[i]| >= 2 {
      WalkShape(j, route, Walk(j, route)[i]);
    }
  }

  /** One member stored under a fresh key: its paths build exactly its tree there. */
  lemma {:induction false} StoreMember(es: Entries, k: Atom, v: Json, enforce: bool)
    requires k !in Names(es) && WellFormed(v) && Dense(v) && NonEmpty(v)
    ensures LongPaths(Walk(v, [k]))
    ensures FoldFrom(es, Walk(v, [k]), enforce) == Ok(es + [(k, ToTree(v))])
    decreases v, 2
  {
    WalkLong(v, [k]);
    AssignFresh(es, k, ToTree(v));
    if v.Leaf? {
      StoreLeaf(es, k, v.atom, enforce);
    } else {
      StoreAll(v, enforce);
      WalkPrefix(v, [k], []);
      assert [k] + [] == [k];
      assert Below(es, k) == [];
      Lift(es, k, Walk(v, []), enforce);
    }
  }

  /** A scalar member stored under a fresh key. */
  lemma StoreLeaf(es: Entries, k: Atom, a: Atom, enforce: bool)
    requires k !in Names(es)
    ensures LongPaths(Walk(Leaf(a), [k]))
    ensures FoldFrom(es, Walk(Leaf(a), [k]), enforce) == Ok(Assign(es, k, TLeaf(a)))
  {
    var p := [k] + [a];
    assert Walk(Leaf(a), [k]) == [p];
    assert Route(p) == [k] && LeafOf(p) == a;
    assert [p][1..] == [];
  }

  /** The paths of a container, stored into an empty tree, build its tree. */
  lemma {:induction false} StoreAll(j: Json, enforce: bool)
    requires (j.Arr? || j.Obj?) && WellFormed(j) && Dense(j)
    ensures LongPaths(Walk(j, []))
    ensures FoldFrom([], Walk(j, []), enforce) == Ok(ToTree(j).entries)
    decreases j, 1
  {
    WalkLong(j, []);
    match j
    case Arr(items) =>
      StoreItems(items, ToTree(j).entries, 0, enforce);
      assert ToTree(j).entries[..0] == [];
    case Obj(fields) =>
      StoreFields(fields, ToTree(j).entries, 0, enforce);
      assert ToTree(j).entries[..0] == [];
  }

  /** Two folds in a row are one fold over both lists. */
  lemma FoldSeq(e0: Entries, ps: seq<Path>, qs: seq<Path>, e1: Entries, e2: Entries, enforce: bool)
    requires LongPaths(ps) && LongPaths(qs)
    requires FoldFrom(e0, ps, enforce) == Ok(e1) && FoldFrom(e1, qs, enforce) == Ok(e2)
    ensures LongPaths(ps + qs)
    ensures FoldFrom(e0, ps + qs, enforce) == Ok(e2)
  {
    FoldAppend(e0, ps, qs, enforce);
  }

  /** The entries normalize builds for a list: position `m` under the integer name `m`. */
  predicate ItemEntries(items: seq<Json>, es: Entries)
  {
    |es| == |items| && forall m :: 0 <= m < |es| ==> es[m] == (Num(m), ToTree(items[m]))
  }

  /** The entries normalize builds for an object: each member under its own name. */
  predicate FieldEntries(fields: seq<(Atom, Json)>, es: Entries)
  {
    |es| == |fields| && forall m :: 0 <= m < |es| ==> es[m] == (fields[m].0, ToTree(fields[m].1))
  }

  /** The list members from `i` on, stored after those before `i`. */
  lemma {:induction false} StoreItems(items: seq<Json>, es: Entries, i: nat, enforce: bool)
    requires i <= |items| && WellFormed(Arr(items)) && Dense(Arr(items)) && ItemEntries(items, es)
    ensures LongPaths(WalkItems(items, i, []))
    ensures FoldFrom(es[..i], WalkItems(items, i, []), enforce) == Ok(es)
    decreases Arr(items), 0, |items| - i
  {
    if i == |items| {
      assert es[..i] == es;
    } else {
      var k := Num(i);
      var head, rest := Walk(items[i], [k]), WalkItems(items, i + 1, []);
      assert [] + [k] == [k];
      assert WalkItems(items, i, []) == head + rest;
      assert WellFormed(items[i]) && Dense(items[i]) && NonEmpty(items[i]);
      StoreItem(items, es, i, enforce);
      StoreItems(items, es, i + 1, enforce);
      FoldSeq(es[..i], head, rest, es[..i + 1], es, enforce);
    }
  }

  /** Member `i` of a list, stored after those before it. */
  lemma StoreItem(items: seq<Json>, es: Entries, i: nat, enforce: bool)
    requires i < |items| && ItemEntries(items, es)
    requires WellFormed(items[i]) && Dense(items[i]) && NonEmpty(items[i])
    ensures LongPaths(Walk(items[i], [Num(i)]))
    ensures FoldFrom(es[..i], Walk(items[i], [Num(i)]), enforce) == Ok(es[..i + 1])
    decreases Arr(items), 0, 0
  {
    FreshItem(items, es, i);
    assert es[i] == (Num(i), ToTree(items[i]));
    StoreMember(es[..i], Num(i), items[i], enforce);
    SliceSnoc(es, i);
  }

  /** The object members from `i` on, stored after those before `i`. */
  lemma {:induction false} StoreFields(fields: seq<(Atom, Json)>, es: Entries, i: nat, enforce: bool)
    requires i <= |fields| && WellFormed(Obj(fields)) && Dense(Obj(fields)) && FieldEntries(fields, es)
    ensures LongPaths(WalkFields(fields, i, []))
    ensures FoldFrom(es[..i], WalkFields(fields, i, []), enforce) == Ok(es)
    decreases Obj(fields), 0, |fields| - i
  {
    if i == |fields| {
      assert es[..i] == es;
    } else {
      var k := fields[i].0;
      var head, rest := Walk(fields[i].1, [k]), WalkFields(fields, i + 1, []);
      assert [] + [k] == [k];
      assert WalkFields(fields, i, []) == head + rest;
      assert WellFormed(fields[i].1) && Dense(fields[i].1) && NonEmpty(fields[i].1);
      StoreField(fields, es, i, enforce);
      StoreFields(fields, es, i + 1, enforce);
      FoldSeq(es[..i], head, rest, es[..i + 1], es, enforce);
    }
  }

  /** Member `i` of an object, stored after those before it: its name is new
      there because an object repeats no name. */
  lemma StoreField(fields: seq<(Atom, Json)>, es: Entries, i: nat, enforce: bool)
    requires i < |fields| && Distinct(fields) && FieldEntries(fields, es)
    requires WellFormed(fields[i].1) && Dense(fields[i].1) && NonEmpty(fields[i].1)
    ensures LongPaths(Walk(fields[i].1, [fields[i].0]))
    ensures FoldFrom(es[..i], Walk(fields[i].1, [fields[i].0]), enforce) == Ok(es[..i + 1])
    decreases Obj(fields), 0, 0
  {
    FreshField(fields, es, i);
    assert es[i] == (fields[i].0, ToTree(fields[i].1));
    StoreMember(es[..i], fields[i].0, fields[i].1, enforce);
    SliceSnoc(es, i);
  }

  lemma SliceSnoc<T>(s: seq<T>, i: nat)
    requires i < |s|
    ensures s[..i] + [s[i]] == s[..i + 1]
  {
  }

  /** List index `i` is new to the entries of the members before it. */
  lemma FreshItem(items: seq<Json>, es: Entries, i: nat)
    requires ItemEntries(items, es) && i < |items|
    ensures Num(i) !in Names(es[..i])
  {
    forall x | x in Names(es[..i]) ensures x != Num(i) {
      var m :| 0 <= m < i && es[..i][m].0 == x;
      assert es[m].0 == Num(m);
    }
  }

  /** In an object without repeated names, member `i`'s name is new to the
      entries of the members before it. */
  lemma FreshField(fields: seq<(Atom, Json)>, es: Entries, i: nat)
    requires FieldEntries(fields, es) && Distinct(fields) && i < |fields|
    ensures fields[i].0 !in Names(es[..i])
  {
    forall x | x in Names(es[..i]) ensures x != fields[i].0 {
      var m :| 0 <= m < i && es[..i][m].0 == x;
      assert es[m].0 == fields[m].0;
    }
  }

  /** A document's tree has the shape normalize keeps, and restoring its lists
      gives the document back; only an empty root list turns into `{}`. */
  lemma {:induction false} RestoreToTree(j: Json)
    requires WellFormed(j) && Dense(j)
    ensures Valid(ToTree(j))
    ensures Restored(ToTree(j)) == if j == Arr([]) then Obj([]) else j
    decreases j
  {
    match j
    case Leaf(_) =>
    case Arr(items) =>
      forall i | 0 <= i < |items| ensures Valid(ToTree(items[i])) && Restored(ToTree(items[i])) == items[i] {
        RestoreToTree(items[i]);
      }
      RestoreItems(items);
    case Obj(fields) =>
      forall i | 0 <= i < |fields| ensures Valid(ToTree(fields[i].1)) && Restored(ToTree(fields[i].1)) == fields[i].1 {
        RestoreToTree(fields[i].1);
      }
      RestoreFields(fields);
  }

  /** A list's tree, its members restored: the indices `0 .. n-1` make a list of length `n` again. */
  lemma RestoreItems(items: seq<Json>)
    requires forall i :: 0 <= i < |items| ==> NonEmpty(items[i])
    requires forall i :: 0 <= i < |items| ==> Valid(ToTree(items[i])) && Restored(ToTree(items[i])) == items[i]
    ensures Valid(ToTree(Arr(items)))
    ensures Restored(ToTree(Arr(items))) == if items == [] then Obj([]) else Arr(items)
  {
    var es := ToTree(Arr(items)).entries;
    assert ItemEntries(items, es);
    ItemsValid(items, es);
    if |items| > 0 {
      ItemsTop(items, es);
      ItemsSlots(items, es);
      assert Restored(Node(es)).items == items;
    }
  }

  /** The tree of a container that is not empty is a node that is not empty. */
  lemma TreeSize(j: Json)
    requires NonEmpty(j)
    ensures ToTree(j).Node? ==> |ToTree(j).entries| > 0
  {
  }

  lemma ItemsValid(items: seq<Json>, es: Entries)
    requires ItemEntries(items, es)
    requires forall i :: 0 <= i < |items| ==> NonEmpty(items[i]) && Valid(ToTree(items[i]))
    ensures Valid(Node(es))
  {
    forall i | 0 <= i < |es| ensures es[i].1.Node? ==> |es[i].1.entries| > 0 {
      TreeSize(items[i]);
    }
  }

  /** The integer names `0 .. n-1` have maximum `n - 1`. */
  lemma ItemsTop(items: seq<Json>, es: Entries)
    requires ItemEntries(items, es) && |es| > 0
    ensures forall i :: 0 <= i < |es| ==> IsKey(es[i].0)
    ensures IntNames(es)
    ensures MaxIndex(es) == |es| - 1
  {
    var top := MaxIndex(es);
    var w :| 0 <= w < |es| && es[w].0.n == top;
    assert es[|es| - 1].0.n <= top;
  }

  /** Slot `n` of the restored list is member `n`. */
  lemma ItemsSlots(items: seq<Json>, es: Entries)
    requires ItemEntries(items, es) && Valid(Node(es))
    requires forall i :: 0 <= i < |items| ==> Restored(ToTree(items[i])) == items[i]
    ensures forall n :: 0 <= n < |items| ==> Slot(es, n) == items[n]
  {
    forall n | 0 <= n < |items| ensures Slot(es, n) == items[n] {
      FindIs(es, Num(n), n);
    }
  }

  /** An object's tree, its members restored: string names keep it an object, in member order. */
  lemma RestoreFields(fields: seq<(Atom, Json)>)
    requires Distinct(fields)
    requires forall i :: 0 <= i < |fields| ==> fields[i].0.Str? && PlainKey(fields[i].0) && NonEmpty(fields[i].1)
    requires forall i :: 0 <= i < |fields| ==> Valid(ToTree(fields[i].1)) && Restored(ToTree(fields[i].1)) == fields[i].1
    ensures Valid(ToTree(Obj(fields)))
    ensures Restored(ToTree(Obj(fields))) == Obj(fields)
  {
    var es := ToTree(Obj(fields)).entries;
    assert forall i :: 0 <= i < |es| ==> es[i] == (fields[i].0, ToTree(fields[i].1));
    assert Valid(ToTree(Obj(fields)));
    if |fields| > 0 {
      assert !IsInt(es[0].0);
    }
    assert Restored(ToTree(Obj(fields))).fields == fields;
  }

  /** The round trip: normalize, with or without `enforce_unique`, rebuilds
      every document from its denormalized paths. */
  lemma RoundTrip(d: Json, enforce: bool)
    requires Document(d) && Dense(d)
    ensures KeyedPaths(Denormalize(d))
    ensures NormalizeSpec(Denormalize(d), enforce) == Ok(if d == Arr([]) then Obj([]) else d)
  {
    DenormalizeKeyed(d);
    StoreAll(d, enforce);
    RestoreToTree(d);
    assert Node(ToTree(d).entries) == ToTree(d);
  }
}
