# jsonsam path codec and set algebra, in Dafny

jsonsam ("JSON split and merge") turns a JSON document into a flat list of
paths and rebuilds a document from such a list. Each path is a list of the
object names and list indices from the root down to one scalar, with the
scalar itself last. `DictSam.denormalize` flattens a document and
`DictSam.normalize` rebuilds one. On the path lists, `DictSam` defines:

- except (`-`) and intersect (`&`): keep A's paths that match none, or some, of B's;
- union (`|`): A's paths followed by B's;
- equality (`==`): compare the rebuilt documents.

`JsonSam` writes a path list as a text file with one JSON-encoded path per
line, and reads such a file back.

This project models that core:

- JSON values and paths (`JsonValue`), and Python's insertion-ordered dicts
  as association lists (`Assoc`).
- `denormalize` as a recursive function (`Denormalization`).
- The auto-vivifying tree `normalize` grows, as a value, with one store
  (`Put`) and the fold over a path list (`FoldFrom`) (`PathTree`).
- `normalize` itself, as two nested loops (`Normalization`). They walk a
  cursor down each route, vivify missing keys, and smash a leaf in the way
  or, under `enforce_unique`, raise. The loops are proved equal to the fold.
  `_restore_lists` is a recursive method that fills a `[None] * (max + 1)`
  array.
- The round trip `normalize(denormalize(D)) == D` (`CodecRoundTrip`).
- The constructor's admission, `_cmp_list`, `_cmp_lists`, `_sub_and`, the
  operators and equality (`SetAlgebra`).
- The line framing of `_write_denormed`, the per-line parse with its retry
  in `_load_data`, and the flag that keeps all input files in one form
  (`DenormText`).

Integers are unbounded, as in Python. Object names are `Atom`s. A freshly
normalized object may carry integer names, and the constructor's
`json.loads(json.dumps(...))` turns them into strings (`Admit`). The class
attributes `enforce_unique` and `ignore_leaves` are parameters. The
operators build their result with `DictSam(paths, True)`, and that call
resets `enforce_unique` to `False` (jsonsam/jsonsam.py:42), so the set
operations normalize with the flag off.

## Model

| member | source | states |
|---|---|---|
| Assoc.AssignOthers | jsonsam/jsonsam.py:98-101 | a dict store `d[k] = v` changes no key other than `k` |
| Assoc.AssignTwice | jsonsam/jsonsam.py:98-101 | a second store under the same key replaces the first, in place |
| JsonValue.IsInt | jsonsam/jsonsam.py:156-163 | `_is_int` holds for every integer and for every non-empty run of ASCII digits; on a plain route key it holds exactly for list indices |
| JsonValue.PlainKeyIsInt | jsonsam/jsonsam.py:156-163 | on a route key that is not an integer-literal string, `_is_int` holds exactly for list indices |
| JsonValue.Admit | jsonsam/jsonsam.py:52 | after `json.loads(json.dumps(...))` every member name is a string; a list keeps its length, and an object keeps its number of members when no two of its names render to the same text |
| JsonValue.AdmitStringNames | jsonsam/jsonsam.py:52 | after the JSON round trip every member name is a string; a value that already has only string names passes unchanged |
| JsonValue.Equal | jsonsam/jsonsam.py:221-222 | two scalars are `==` exactly when they are the same scalar; `==` values are both lists of one length or both objects with the same names |
| JsonValue.EqualReflexive | jsonsam/jsonsam.py:221-222 | Python `==` on documents is reflexive |
| JsonValue.EqualSymmetric | jsonsam/jsonsam.py:221-222 | Python `==` on documents is symmetric |
| Denormalization.Denormalize | jsonsam/jsonsam.py:59-80 | every path holds at least its scalar; every path of a document is one `normalize` accepts |
| Denormalization.WalkShape | jsonsam/jsonsam.py:64-75 | every path starts with the current route; below a list it continues with an index of that list, below an object with one of its names |
| Denormalization.WalkKeys | jsonsam/jsonsam.py:64-75 | below a well-formed value, every key `helper` appends is a plain key |
| Denormalization.DenormalizeKeyed | jsonsam/jsonsam.py:59-80 | every path of a document is one `normalize` accepts: at least one key, then the leaf; `{}` and `[]` have no paths |
| Denormalization.WalkSound | jsonsam/jsonsam.py:64-75 | each emitted path leads, through its keys, to the scalar it ends with |
| Denormalization.WalkComplete | jsonsam/jsonsam.py:64-75 | every scalar reachable in the value has its path in the output |
| Denormalization.DenormalizeLeaves | jsonsam/jsonsam.py:59-80 | a path is in `denormalize(D)` if and only if its route reaches its leaf in `D` |
| Denormalization.DenormalizeDiverge | jsonsam/jsonsam.py:59-80 | no two paths of a document share a route, or have one route inside the other |
| Denormalization.WalkPrefix | jsonsam/jsonsam.py:64-75 | walking under `r1 + r2` gives the walk under `r2` with `r1` put in front of every path |
| PathTree.Put | jsonsam/jsonsam.py:92-101 | with `enforce_unique` off, storing one path never raises |
| PathTree.FoldFrom | jsonsam/jsonsam.py:89-102 | with `enforce_unique` off, the loop over the paths never raises |
| PathTree.FoldBlames | jsonsam/jsonsam.py:89-102 | when the loop raises, the path the error names is one of the paths it was given |
| PathTree.VivifyKeepsPut | jsonsam/jsonsam.py:93-98 | vivifying a missing key, or smashing a leaf with the flag off, changes nothing the store of the path would not, and lets the cursor step down |
| PathTree.PutThroughNodes | jsonsam/jsonsam.py:99-101 | with nodes all along the route, the store is `cursor_prev[key] = path[-1]` at the last key |
| PathTree.LeafOnRoute | jsonsam/jsonsam.py:93-96 | a leaf at any key along the route makes the store raise under `enforce_unique` |
| PathTree.PutEnforced | jsonsam/jsonsam.py:92-101 | with the flag off a store never raises; with it on, a store that does not raise builds the same tree |
| PathTree.PutConflict | jsonsam/jsonsam.py:92-96 | under `enforce_unique`, a store raises if and only if some key along the route already holds a leaf |
| PathTree.PutWrites | jsonsam/jsonsam.py:92-101 | after a store, the path's leaf sits at the end of its route |
| PathTree.PutKeepsOthers | jsonsam/jsonsam.py:92-101 | a store leaves unchanged what stands at any route that parts from its own |
| PathTree.SameRouteTwice | jsonsam/jsonsam.py:92-96 | storing the same route a second time raises under `enforce_unique`, whatever the leaves |
| PathTree.PutValid | jsonsam/jsonsam.py:92-101 | a store keeps the tree's shape: distinct plain names per node, no empty node below the root |
| PathTree.FoldAppend | jsonsam/jsonsam.py:89-102 | storing `ps + qs` is storing `qs` into the tree `ps` built, unless `ps` raised |
| PathTree.FoldEnforced | jsonsam/jsonsam.py:89-102 | with the flag off the fold never raises; with it on, a fold that does not raise builds the same tree |
| PathTree.FoldConflict | jsonsam/jsonsam.py:89-102 | under `enforce_unique` the fold raises if and only if some path meets a leaf on its route, and the error names the first such path |
| PathTree.FoldValid | jsonsam/jsonsam.py:89-102 | the fold keeps the tree's shape |
| PathTree.FoldKeeps | jsonsam/jsonsam.py:89-102 | a route that parts from every stored path keeps what it held |
| PathTree.FirstSurvives | jsonsam/jsonsam.py:89-102 | a path's leaf survives later paths whose routes part from its own |
| PathTree.FoldPlaces | jsonsam/jsonsam.py:89-102 | when the routes pairwise part, every path's leaf ends up at its route |
| Normalization.BuildTree | jsonsam/jsonsam.py:88-102 | the loop over the paths, with the cursor reset to the root after each path, builds the fold's tree or raises the fold's conflict |
| Normalization.StorePath | jsonsam/jsonsam.py:90-101 | the cursor walk down one route (vivify, smash a leaf or raise, then store the leaf under the last key) gives exactly the store `Put` |
| Normalization.CursorStep | jsonsam/jsonsam.py:93-100 | one cursor step keeps nodes along the walked prefix and does not change what the store of the path gives |
| Normalization.IndexNames | jsonsam/jsonsam.py:137-139 | in a node whose names all pass `_is_int`, every name is a list index, so `max(keys)` is defined |
| Normalization.Restored | jsonsam/jsonsam.py:126-154 | a tree is restored to a scalar exactly when it is a leaf; a node becomes a list only when it has members and every name passes `_is_int`; a node restored to an object keeps one member per name |
| Normalization.RestoreLists | jsonsam/jsonsam.py:126-154 | `_restore_lists` computes the restored value of the tree |
| Normalization.RestoreList | jsonsam/jsonsam.py:136-139 | the list branch computes the restored list of an all-index node |
| Normalization.FillSlots | jsonsam/jsonsam.py:142-153 | after the loop, slot `n` holds the restored member with index `n`, and `None` where no member has that index |
| Normalization.RestoreObject | jsonsam/jsonsam.py:140-153 | the object branch computes the restored object of any other node |
| Normalization.RestoredList | jsonsam/jsonsam.py:136-153 | a node whose names are all indices becomes a list of length `max + 1` with each member at its index and `None` in every gap |
| Normalization.RestoredObject | jsonsam/jsonsam.py:136-153 | any other node becomes an object with the same names in the same order, each member restored |
| Normalization.RestoredAt | jsonsam/jsonsam.py:126-154 | restoring keeps every leaf at its route: at its index in a list, under its name in an object |
| Normalization.NormalizeSpec | jsonsam/jsonsam.py:82-103 | with `enforce_unique` off `normalize` never raises; its result is a list or an object; it raises only under `enforce_unique`, naming one of the given paths |
| Normalization.Normalize | jsonsam/jsonsam.py:82-103 | `normalize` builds the tree and restores its lists, or raises the fold's conflict |
| Normalization.PlacedNormalized | jsonsam/jsonsam.py:82-103 | a leaf the fold placed at its route is at that route in the normalized value |
| Normalization.NormalizePlaces | jsonsam/jsonsam.py:82-103 | when the routes pairwise part, `normalize` puts every path's leaf at its route |
| Normalization.NormalizeEmpty | jsonsam/jsonsam.py:136-141 | `normalize([])` is `{}`, with or without `enforce_unique` |
| Normalization.SameRouteExample | jsonsam/jsonsam.py:92-96 | two paths with the same route raise under `enforce_unique`, naming the second path |
| Normalization.SameRouteLastWins | jsonsam/jsonsam.py:97-101 | the same two paths with the flag off: the second leaf wins |
| Normalization.SubtreeOverwriteExample | jsonsam/jsonsam.py:92-101 | a leaf stored where a subtree stands replaces the subtree even under `enforce_unique`, which checks only the keys along the route |
| CodecRoundTrip.StoreAll | jsonsam/jsonsam.py:59-102 | storing all the paths of a container into an empty tree builds that container's tree, with or without the flag |
| CodecRoundTrip.RestoreToTree | jsonsam/jsonsam.py:126-154 | restoring the tree of a value gives the value back; only an empty root list becomes `{}` |
| CodecRoundTrip.RoundTrip | jsonsam/jsonsam.py:59-103 | `normalize(denormalize(D)) == D` for every document without empty nested containers, with or without the flag; `[]` comes back as `{}` |
| SetAlgebra.FromPaths | jsonsam/jsonsam.py:41-52 | `DictSam(paths, True)` yields a value with string names only; with the flag off it never raises; it raises exactly when `normalize` does |
| SetAlgebra.Construct | jsonsam/jsonsam.py:41-52 | the constructor as the operators call it |
| SetAlgebra.Matches | jsonsam/jsonsam.py:165-178 | every path matches itself; without `ignore_leaves`, a path matches one at least as long exactly when it is a prefix of it |
| SetAlgebra.CmpList | jsonsam/jsonsam.py:165-178 | `_cmp_list` is true if and only if the two paths agree on every position below the shorter length, or one position fewer under `ignore_leaves` |
| SetAlgebra.CmpLists | jsonsam/jsonsam.py:180-192 | `_cmp_lists` is true if and only if some path of the list matches |
| SetAlgebra.MatchesRoute | jsonsam/jsonsam.py:165-178 | every path matches itself; under `ignore_leaves` it matches every path with the same route |
| SetAlgebra.Kept | jsonsam/jsonsam.py:199-205 | no more paths are kept than A has, and each kept path matches B or not as the mode asks |
| SetAlgebra.Filter | jsonsam/jsonsam.py:197-205 | the loop appending to `outlist` builds exactly the kept paths, in A's order |
| SetAlgebra.SubAnd | jsonsam/jsonsam.py:194-207 | `_sub_and` rebuilds, through the constructor, A's paths that match none of B's (except) or some of B's (intersect), in A's order; B may be any value |
| SetAlgebra.Except | jsonsam/jsonsam.py:212-213 | `A - B` is `_sub_and` in its except mode, for any B |
| SetAlgebra.Intersect | jsonsam/jsonsam.py:215-216 | `A & B` is `_sub_and` in its intersect mode, for any B |
| SetAlgebra.KeptMembers | jsonsam/jsonsam.py:199-205 | a path is kept if and only if it is one of A's paths and its match against B is what the operation asks for |
| SetAlgebra.KeptOrder | jsonsam/jsonsam.py:199-205 | the kept paths are a subsequence of A's paths |
| SetAlgebra.KeptPartition | jsonsam/jsonsam.py:199-205 | except and intersect split A's paths: together they hold each path exactly as often as A does |
| SetAlgebra.SplitPaths | jsonsam/jsonsam.py:194-216 | each path of A is in exactly one of `A - B` and `A & B` before rebuilding |
| SetAlgebra.KeptKeyed | jsonsam/jsonsam.py:199-207 | the kept paths are ones the constructor accepts |
| SetAlgebra.AllMatch | jsonsam/jsonsam.py:199-205 | when every path of A matches B, except keeps nothing and intersect keeps everything |
| SetAlgebra.SelfMatch | jsonsam/jsonsam.py:194-207 | `A - A` keeps no path and `A & A` keeps all of them |
| SetAlgebra.SelfOperations | jsonsam/jsonsam.py:194-216 | for a document without empty nested containers, `A & A` is `A` and `A - A` is `{}`, whatever `ignore_leaves` says |
| SetAlgebra.Union | jsonsam/jsonsam.py:218-219 | the union of A and B is the constructor applied to A's paths followed by B's, and it never raises |
| SetAlgebra.LaterPathsPlaced | jsonsam/jsonsam.py:89-102 | after A's paths and then B's, every leaf of B stands at its route in the tree |
| SetAlgebra.UnionLastWins | jsonsam/jsonsam.py:218-219 | B wins: in the normalized union every leaf of B is at its own route, whatever A held there |
| SetAlgebra.UnionShrinks | jsonsam/jsonsam.py:218-219 | union is not inflationary: for plain string names with `kb != kc`, the union of `{ka: {kb: x, kc: y}}` and `{ka: z}` is `{ka: z}`, one path where A had two, because B's leaf at the shorter route replaces A's subtree |
| SetAlgebra.RebuiltEqual | jsonsam/jsonsam.py:221-222 | a document rebuilt by the constructor from its own paths is `==` to it |
| DenormText.SplitJoin | jsonsam/jsonsam.py:305 | splitting newline-joined lines on `'\n'` gives the lines back when none holds a newline |
| DenormText.TerminatedJoin | jsonsam/jsonsam.py:339-343 | the loop's text is the joined lines plus one newline, so dropping the last character gives the joined lines |
| DenormText.Framed | jsonsam/jsonsam.py:336-346 | no paths give the empty text, one path gives `_` and its encoding, more paths give their encodings joined by newlines |
| DenormText.WriteDenormed | jsonsam/jsonsam.py:336-346 | the writer's text is the encoded paths joined by newlines, with `_` in front of a single path |
| DenormText.FramedShape | jsonsam/jsonsam.py:339-346 | one line per path, no trailing newline, and the text starts with `_` exactly when there is exactly one path |
| DenormText.ParsePrefix | jsonsam/jsonsam.py:305-311 | a parse of the first `n` pieces that succeeds gives at most `n` paths; empty pieces are skipped, so pieces that are all empty give no paths |
| DenormText.LoadLines | jsonsam/jsonsam.py:305-311 | the per-line loop skips empty pieces, retries a failed line without its first character, and fails as soon as a line fails both ways |
| DenormText.ParseStops | jsonsam/jsonsam.py:307-311 | once a line fails both ways, the load stays failed |
| DenormText.ParseEncoded | jsonsam/jsonsam.py:305-308 | lines the encoder wrote decode back to their paths |
| DenormText.FramedRoundTrip | jsonsam/jsonsam.py:305-346 | loading the written text gives back the paths it was written from; a single path comes back through the retry without its `_` |
| DenormText.InputForm | jsonsam/jsonsam.py:288-317 | `denormed_input` is `None` before the first file and then that file's form; it raises at the first file of the other form, and at no other |

## Left out

- Command-line handling, file reading and writing, and the messages printed
  (jsonsam/jsonsam.py:239-276, 324-335, 348-400) are I/O. The text written
  by `_write_denormed` is modelled; the file write is not.
- The detection of a file's form in `_load_data` (jsonsam/jsonsam.py:292-304)
  is left out: whether the whole text parses as one JSON value is not
  modelled. `InputForm` takes each file's form as given, and the per-line
  loop is modelled from the failed whole-file parse on.
- The `str()`-keyed sort of the loaded paths (jsonsam/jsonsam.py:322) is left
  out. The order of the paths matters to normalize in several ways. It
  decides which leaf wins a shared route. It decides whether
  `enforce_unique` raises at all: `[["a",2],["a","b",1]]` raises, while the
  reverse order gives `{"a": 2}`. It decides which path the error names. It
  also decides the member order of the rebuilt objects. The model keeps the
  paths in the order it is given them.
- `random_dict_pick` (jsonsam/jsonsam.py:105-116) and jsonsam/randdict.py use
  randomness and are left out.
- The fallback of `denormalize(data)` to `self._data` when `data` is falsy
  (jsonsam/jsonsam.py:76-79) is left out. The operators always call it
  without an argument. In `_load_data`, a file holding `{}` or `[]` would
  reach `self._data` before the constructor has set it.
- `None` as the constructor's data, and the `TypeError` for other root
  types (jsonsam/jsonsam.py:43-44), are left out: every modelled value is a
  `Document`.
- The JSON encoder and decoder are parameters. `DenormText` assumes only
  that the encoder writes one line starting with `[`, and that the decoder
  inverts it and rejects an encoded path with `_` in front. A decoding
  error is `None`.
- Floating-point numbers, and Python's `1 == True`, are not modelled: numbers
  are integers, and a boolean is never equal to a number.
- `IsIntLiteral` follows Python's `int()` on ASCII text only. Unicode digits
  and non-ASCII whitespace are not modelled.
- Normalization.Normalize: requires every route key to be a plain key. A
  string key that `int()` parses, a negative integer, a boolean or `null`
  as a route key makes the source's `max(keys)`, list indexing or `int()`
  raise (jsonsam/jsonsam.py:139, 147-148, 160) or gives a different value.
  These inputs are reachable. Once an operation rebuilds the plain JSON
  object `{"0": 1}`, `_restore_lists` raises a `TypeError` at line 139.
  Chained operations reach them too. With A = `{"x": {"b": 1}}` and
  B = `{"x": [5]}`, `A | B` is `{"x": {"b": 1, "0": 5}}`, and subtracting
  `{"x": {"b": 1}}` from it raises at lines 147-148. The model leaves out
  these `TypeError` paths and the mixed values they come from. An operand
  whose paths are rebuilt must be a `Document`: A in `-` and `&`, both
  operands in `|`. No lemma shows that an operation's result is again a
  `Document`: `FromPaths` promises only string member names. The exclusion
  also drops mixed nodes the source handles without error: in
  `{"0": 1, "a": 2}` the name `"a"` fails `_is_int`, so `_restore_lists`
  takes the object branch (jsonsam/jsonsam.py:137-141, 145-150), never calls
  `max`, and rebuilds the same object. Such a value is not a `Document` here
  either, so `A - B` and `A & B` with it as A are not modelled.
- JsonValue.Admit: keeps every member of an object even when two names
  render to the same text. Python's `json.loads` keeps one member per name,
  so `{0: 1, "0": 2}` comes back as `{"0": 2}`, while `Admit` gives two
  members both named `"0"`. The source reaches this when a union mixes a list
  index with an integer-literal string name, as in A = `{"x": [5]}` and
  B = `{"x": {"0": 7, "a": 1}}`. The model applies `Admit` only to trees
  built from keyed paths, whose names are distinct plain keys; the merge of
  colliding names is not modelled.
- Normalization.StorePath: requires a path of at least two elements, which
  the source asserts (jsonsam/jsonsam.py:90).
- Normalization.StorePath: the `defaultdict` tree is a value and the cursor
  is a depth along the route. Aliasing between the cursor and the tree is
  not modelled.
- SetAlgebra.UnionLastWins: stated on the normalized value before the JSON
  admission of the constructor (`Admit`), not on the union the source
  returns. `Admit` turns every integer name of an object into a string. When
  the union mixes A's names and B's list indices in one node, that node
  stays an object. B's path `["x", 0, 5]` then no longer holds in the
  admitted union, and in the source `(A | B)["x"][0]` is a `KeyError`. The
  lemma promises only that B's leaves stand at their routes before
  admission.
- SetAlgebra.Union: a union is not promised to hold at least as many paths
  as either operand, because the source does not keep that promise. A leaf
  of B at a shorter route replaces the whole subtree A has there
  (`cursor_prev[key] = path[-1]`, jsonsam/jsonsam.py:101), so
  `{"a": {"b": 1, "c": 2}} | {"a": 5}` is `{"a": 5}`. `UnionShrinks` proves
  this for every such pair.
- CodecRoundTrip.RoundTrip: `normalize(denormalize(D)) == D`, and with it
  the idempotence of `normalize` after `denormalize`, is proved only for
  documents without empty nested containers (`Dense`). For other documents
  the first round changes the value: an empty container inside an object
  disappears, and one inside a list becomes `None` when a later member of
  the list holds a leaf. That a second round then changes nothing is not
  proved.
- SetAlgebra.CmpLists: requires a non-empty path, as the source's
  `left[0]` does (jsonsam/jsonsam.py:188).
- The class attributes `enforce_unique` and `ignore_leaves`
  (jsonsam/jsonsam.py:39-42, 54-57) are parameters. They are not shared
  state across instances.
