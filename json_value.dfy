/** JSON values as the path codec sees them (the value model of RFC 8259,
    section 3), paths, and the admission rules for documents. */
module JsonValue {
  import opened Wrappers
  import opened Assoc

  /** A scalar leaf. Numbers are integers here: floating point is not modelled. */
  datatype Atom = Null | Bool(b: bool) | Num(n: int) | Str(s: string)

  /** A JSON value. Object members keep insertion order. A member name is an
      Atom: names read from JSON text are strings, but a freshly normalized
      object may still carry integer names until it is serialized. */
  datatype Json = Leaf(atom: Atom) | Arr(items: seq<Json>) | Obj(fields: seq<(Atom, Json)>)

  /** A denormalized path: the route of keys, then the leaf (a Python list). */
  type Path = seq<Atom>

  /** A route component: an object name or a list index. */
  predicate IsKey(a: Atom)
  {
    a.Str? || (a.Num? && a.n >= 0)
  }

  function Route(p: Path): seq<Atom>
    requires |p| >= 1
  {
    p[..|p| - 1]
  }

  function LeafOf(p: Path): Atom
    requires |p| >= 1
  {
    p[|p| - 1]
  }

  /** Every path of `ps` with `route` in front. */
  function Prefixed(route: seq<Atom>, ps: seq<Path>): (r: seq<Path>)
    ensures |r| == |ps|
    ensures forall i :: 0 <= i < |ps| ==> r[i] == route + ps[i]
  {
    seq(|ps|, i requires 0 <= i < |ps| => route + ps[i])
  }

  lemma PrefixedConcat(route: seq<Atom>, xs: seq<Path>, ys: seq<Path>)
    ensures Prefixed(route, xs + ys) == Prefixed(route, xs) + Prefixed(route, ys)
  {
  }

  /** The two routes part at some position that both have. */
  predicate Diverge(r1: seq<Atom>, r2: seq<Atom>)
  {
    exists d :: 0 <= d < |r1| && d < |r2| && r1[..d] == r2[..d] && r1[d] != r2[d]
  }

  /** The routes of any two paths in the list part somewhere. */
  predicate PairwiseDiverge(ps: seq<Path>)
  {
    forall a, b :: 0 <= a < b < |ps| ==> Apart(ps[a], ps[b])
  }

  /** Two paths whose routes part somewhere. */
  predicate Apart(p: Path, q: Path)
  {
    |p| >= 1 && |q| >= 1 && Diverge(Route(p), Route(q))
  }

  // ---------------------------------------------------------------------
  // Integer-literal strings: what Python's int() accepts (ASCII forms)

  predicate IsSpace(c: char)
  {
    c == ' ' || (9 <= c as int <= 13) || (28 <= c as int <= 31)
  }

  predicate IsDigit(c: char)
  {
    '0' <= c <= '9'
  }

  function TrimLeft(s: string): string
  {
    if |s| > 0 && IsSpace(s[0]) then TrimLeft(s[1..]) else s
  }

  function TrimRight(s: string): string
  {
    if |s| > 0 && IsSpace(s[|s| - 1]) then TrimRight(s[..|s| - 1]) else s
  }

  /** Digits, with single underscores allowed between two digits. */
  predicate DigitGroups(s: string)
  {
    |s| > 0 && IsDigit(s[0]) && IsDigit(s[|s| - 1]) &&
    (forall i :: 0 <= i < |s| ==> IsDigit(s[i]) || s[i] == '_') &&
    (forall i :: 0 <= i < |s| - 1 ==> !(s[i] == '_' && s[i + 1] == '_'))
  }

  /** `int(s)` succeeds: optional blanks, an optional sign, digit groups. */
  predicate IsIntLiteral(s: string)
  {
    var t := TrimRight(TrimLeft(s));
    if |t| > 0 && (t[0] == '+' || t[0] == '-') then DigitGroups(t[1..]) else DigitGroups(t)
  }

  /** `_is_int` on a route key: `int(key)` does not raise ValueError. */
  function IsInt(k: Atom): (r: bool)
    requires IsKey(k)
    ensures k.Num? ==> r
    ensures PlainKey(k) ==> (r <==> k.Num?)
    ensures k.Str? && |k.s| > 0 && (forall i :: 0 <= i < |k.s| ==> IsDigit(k.s[i])) ==> r
  {
    k.Num? || IsIntLiteral(k.s)
  }

  /** A key the codec can take through normalize: not a string that `int()` parses. */
  predicate PlainKey(a: Atom)
  {
    IsKey(a) && !(a.Str? && IsIntLiteral(a.s))
  }

  /** What normalize demands of a path: a leaf after at least one plain key. */
  predicate KeyedPath(p: Path)
  {
    |p| >= 2 && forall i :: 0 <= i < |p| - 1 ==> PlainKey(p[i])
  }

  predicate KeyedPaths(ps: seq<Path>)
  {
    forall i :: 0 <= i < |ps| ==> KeyedPath(ps[i])
  }

  lemma PlainKeyIsInt(k: Atom)
    requires PlainKey(k)
    ensures IsInt(k) <==> k.Num?
  {
  }

  // ---------------------------------------------------------------------
  // Documents

  /** Every object below has distinct string names that are not integer literals. */
  predicate WellFormed(j: Json)
  {
    match j
    case Leaf(_) => true
    case Arr(items) => forall i :: 0 <= i < |items| ==> WellFormed(items[i])
    case Obj(fields) =>
      Distinct(fields) &&
      (forall i :: 0 <= i < |fields| ==> fields[i].0.Str? && PlainKey(fields[i].0)) &&
      (forall i :: 0 <= i < |fields| ==> WellFormed(fields[i].1))
  }

  /** A document: a well-formed value whose root is an object or a list. */
  predicate Document(j: Json)
  {
    (j.Arr? || j.Obj?) && WellFormed(j)
  }

  predicate NonEmpty(j: Json)
  {
    match j
    case Leaf(_) => true
    case Arr(items) => |items| > 0
    case Obj(fields) => |fields| > 0
  }

  /** No empty list or object below the root. */
  predicate Dense(j: Json)
  {
    match j
    case Leaf(_) => true
    case Arr(items) => forall i :: 0 <= i < |items| ==> NonEmpty(items[i]) && Dense(items[i])
    case Obj(fields) => forall i :: 0 <= i < |fields| ==> NonEmpty(fields[i].1) && Dense(fields[i].1)
  }

  // ---------------------------------------------------------------------
  // Admission: json.loads(json.dumps(value))

  function DigitChar(d: nat): char
    requires d < 10
  {
    ('0' as int + d) as char
  }

  /** Decimal rendering of an integer, as `str()` gives it. */
  function Decimal(n: int): string
    decreases if n < 0 then 1 - n else n
  {
    if n < 0 then "-" + Decimal(-n)
    else if n < 10 then [DigitChar(n)]
    else Decimal(n / 10) + [DigitChar(n % 10)]
  }

  /** The member name the JSON encoder writes for a name. */
  function NameText(a: Atom): (r: Atom)
    ensures r.Str?
    ensures a.Str? ==> r == a
  {
    match a
    case Str(_) => a
    case Num(n) => Str(Decimal(n))
    case Bool(b) => Str(if b then "true" else "false")
    case Null => Str("null")
  }

  /** A value after a JSON encode/decode round trip: member names become strings.
      Names that render to the same text are not merged. */
  function Admit(j: Json): (r: Json)
    ensures StringNamed(r)
    ensures j.Arr? ==> r.Arr? && |r.items| == |j.items|
    ensures j.Obj? ==> r.Obj? && |r.fields| == |j.fields|
  {
    match j
    case Leaf(_) => j
    case Arr(items) => Arr(seq(|items|, i requires 0 <= i < |items| => Admit(items[i])))
    case Obj(fields) =>
      Obj(seq(|fields|, i requires 0 <= i < |fields| => (NameText(fields[i].0), Admit(fields[i].1))))
  }

  /** Every member name is a string. */
  predicate StringNamed(j: Json)
  {
    match j
    case Leaf(_) => true
    case Arr(items) => forall i :: 0 <= i < |items| ==> StringNamed(items[i])
    case Obj(fields) =>
      (forall i :: 0 <= i < |fields| ==> fields[i].0.Str?) &&
      (forall i :: 0 <= i < |fields| ==> StringNamed(fields[i].1))
  }

  /** The round trip yields string names only, and leaves a string-named value as it is. */
  lemma {:induction false} AdmitStringNames(j: Json)
    ensures StringNamed(Admit(j))
    ensures StringNamed(j) ==> Admit(j) == j
  {
    match j
    case Leaf(_) =>
    case Arr(items) =>
      forall i | 0 <= i < |items| ensures StringNamed(Admit(items[i])) && (StringNamed(j) ==> Admit(items[i]) == items[i]) {
        AdmitStringNames(items[i]);
      }
      if StringNamed(j) { assert Admit(j).items == items; }
    case Obj(fields) =>
      forall i | 0 <= i < |fields| ensures StringNamed(Admit(fields[i].1)) && (StringNamed(j) ==> Admit(fields[i].1) == fields[i].1) {
        AdmitStringNames(fields[i].1);
      }
      if StringNamed(j) { assert Admit(j).fields == fields; }
  }

  lemma {:induction false} WellFormedStringNamed(j: Json)
    requires WellFormed(j)
    ensures StringNamed(j)
  {
    match j
    case Leaf(_) =>
    case Arr(items) =>
      forall i | 0 <= i < |items| ensures StringNamed(items[i]) { WellFormedStringNamed(items[i]); }
    case Obj(fields) =>
      forall i | 0 <= i < |fields| ensures StringNamed(fields[i].1) { WellFormedStringNamed(fields[i].1); }
  }

  // ---------------------------------------------------------------------
  // Structural equality (Python ==): lists by position, objects by name

  predicate Equal(a: Json, b: Json): (r: bool)
    ensures a.Leaf? ==> (r <==> b == a)
    ensures r ==> (a.Arr? <==> b.Arr?) && (a.Obj? <==> b.Obj?)
    ensures r && a.Arr? ==> |a.items| == |b.items|
    ensures r && a.Obj? ==> Names(a.fields) == Names(b.fields)
    decreases a
  {
    match a
    case Leaf(x) => b == Leaf(x)
    case Arr(xs) =>
      b.Arr? && |xs| == |b.items| &&
      forall i :: 0 <= i < |xs| ==> Equal(xs[i], b.items[i])
    case Obj(fs) =>
      b.Obj? && Names(fs) == Names(b.fields) &&
      forall i :: 0 <= i < |fs| ==>
        var m := Get(b.fields, fs[i].0); m.Some? && Equal(fs[i].1, m.value)
  }

  /** Objects without repeated names, all the way down. */
  predicate DistinctNames(j: Json)
  {
    match j
    case Leaf(_) => true
    case Arr(items) => forall i :: 0 <= i < |items| ==> DistinctNames(items[i])
    case Obj(fields) => Distinct(fields) && forall i :: 0 <= i < |fields| ==> DistinctNames(fields[i].1)
  }

  lemma {:induction false} WellFormedDistinct(j: Json)
    requires WellFormed(j)
    ensures DistinctNames(j)
  {
    match j
    case Leaf(_) =>
    case Arr(items) =>
      forall i | 0 <= i < |items| ensures DistinctNames(items[i]) { WellFormedDistinct(items[i]); }
    case Obj(fields) =>
      forall i | 0 <= i < |fields| ensures DistinctNames(fields[i].1) { WellFormedDistinct(fields[i].1); }
  }

  lemma {:induction false} EqualReflexive(a: Json)
    requires DistinctNames(a)
    ensures Equal(a, a)
  {
    match a
    case Leaf(_) =>
    case Arr(xs) =>
      forall i | 0 <= i < |xs| ensures Equal(xs[i], xs[i]) { EqualReflexive(xs[i]); }
    case Obj(fs) =>
      forall i | 0 <= i < |fs| ensures Get(fs, fs[i].0) == Some(fs[i].1) && Equal(fs[i].1, fs[i].1) {
        FindDistinct(fs, i);
        EqualReflexive(fs[i].1);
      }
  }

  lemma {:induction false} EqualSymmetric(a: Json, b: Json)
    requires DistinctNames(a) && DistinctNames(b)
    requires Equal(a, b)
    ensures Equal(b, a)
  {
    match a
    case Leaf(_) =>
    case Arr(xs) =>
      forall i | 0 <= i < |xs| ensures Equal(b.items[i], xs[i]) { EqualSymmetric(xs[i], b.items[i]); }
    case Obj(fs) =>
      var gs := b.fields;
      forall j | 0 <= j < |gs|
        ensures var m := Get(fs, gs[j].0); m.Some? && Equal(gs[j].1, m.value)
      {
        assert gs[j].0 in Names(fs);
        var i := Find(fs, gs[j].0);
        FindDistinct(fs, i);
        FindDistinct(gs, j);
        EqualSymmetric(fs[i].1, gs[j].1);
      }
  }
}
