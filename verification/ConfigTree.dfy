/** Expansion of a whole parsed configuration, in place (`expand_value` in
    src/config/env.rs). */
module ConfigTree {
  import opened Basics
  import opened Env

  /** A parsed TOML value. A table is its keys and, in the same order, its
      values; numbers, dates and booleans are opaque. */
  datatype Toml =
    | Text(s: bytes)
    | Array(items: seq<Toml>)
    | Table(keys: seq<bytes>, values: seq<Toml>)
    | Scalar(id: int)

  type Outcome = Option<EnvError>

  /** The tree after the walk and the error that stopped it, if any. What was
      already replaced stays replaced. */
  function ExpandTree(v: Toml, lookup: Lookup): (Toml, Outcome) {
    match v
    case Text(s) =>
      (match Expand(s, lookup)
       case Ok(t) => (Text(t), None)
       case Err(e) => (v, Some(e)))
    case Array(items) =>
      var (done, e) := ExpandAll(items, lookup);
      (Array(done), e)
    case Table(keys, values) =>
      var (done, e) := ExpandAll(values, lookup);
      (Table(keys, done), e)
    case Scalar(_) => (v, None)
  }

  function ExpandAll(vs: seq<Toml>, lookup: Lookup): (r: (seq<Toml>, Outcome))
    ensures |r.0| == |vs|
  {
    if vs == [] then ([], None)
    else
      var (head, e) := ExpandTree(vs[0], lookup);
      if e.Some? then ([head] + vs[1..], e)
      else
        var (rest, e') := ExpandAll(vs[1..], lookup);
        ([head] + rest, e')
  }

  // ---------------------------------------------------------------- meaning

  /** The strings of a tree, in the order of the walk. */
  function Leaves(v: Toml): seq<bytes> {
    match v
    case Text(s) => [s]
    case Array(items) => AllLeaves(items)
    case Table(_, values) => AllLeaves(values)
    case Scalar(_) => []
  }

  function AllLeaves(vs: seq<Toml>): seq<bytes> {
    if vs == [] then [] else Leaves(vs[0]) + AllLeaves(vs[1..])
  }

  /** Same tree up to the contents of its strings. */
  predicate SameShape(v: Toml, w: Toml) {
    match (v, w)
    case (Text(_), Text(_)) => true
    case (Array(a), Array(b)) => SameShapes(a, b)
    case (Table(k, a), Table(l, b)) => k == l && SameShapes(a, b)
    case (Scalar(i), Scalar(j)) => i == j
    case _ => false
  }

  predicate SameShapes(vs: seq<Toml>, ws: seq<Toml>) {
    if vs == [] || ws == [] then vs == ws
    else SameShape(vs[0], ws[0]) && SameShapes(vs[1..], ws[1..])
  }

  /** Expansion of a plain list of strings up to the first one that fails. */
  function ExpandLeaves(leaves: seq<bytes>, lookup: Lookup): (seq<bytes>, Outcome) {
    if leaves == [] then ([], None)
    else
      match Expand(leaves[0], lookup)
      case Err(e) => (leaves, Some(e))
      case Ok(t) =>
        var (rest, e) := ExpandLeaves(leaves[1..], lookup);
        ([t] + rest, e)
  }

  lemma {:induction false} ExpandLeavesAppend(a: seq<bytes>, b: seq<bytes>, lookup: Lookup)
    ensures var (a', e) := ExpandLeaves(a, lookup);
            var (b', e') := ExpandLeaves(b, lookup);
            ExpandLeaves(a + b, lookup) == if e.Some? then (a' + b, e) else (a' + b', e')
  {
    hide Expand;
    if a == [] {
      var b' := ExpandLeaves(b, lookup).0;
      assert [] + b == b && [] + b' == b';
    } else {
      assert (a + b)[1..] == a[1..] + b;
      ExpandLeavesAppend(a[1..], b, lookup);
      match Expand(a[0], lookup)
      case Err(_) =>
      case Ok(t) =>
        var rest := ExpandLeaves(a[1..], lookup).0;
        var b' := ExpandLeaves(b, lookup).0;
        assert [t] + (rest + b) == [t] + rest + b;
        assert [t] + (rest + b') == [t] + rest + b';
    }
  }

  lemma {:induction false} SameShapesRefl(vs: seq<Toml>)
    ensures SameShapes(vs, vs)
    decreases vs, 0
  {
    if vs != [] {
      SameShapeRefl(vs[0]);
      SameShapesRefl(vs[1..]);
    }
  }

  lemma {:induction false} SameShapeRefl(v: Toml)
    ensures SameShape(v, v)
    decreases v, 1
  {
    match v
    case Array(items) => SameShapesRefl(items);
    case Table(_, values) => SameShapesRefl(values);
    case _ =>
  }

  /** Walking the tree expands its strings one after the other until the first
      failure and touches nothing else: keys, order and other values stay. */
  lemma {:induction false} ExpandTreeExact(v: Toml, lookup: Lookup)
    ensures var (w, e) := ExpandTree(v, lookup);
            SameShape(v, w) && (Leaves(w), e) == ExpandLeaves(Leaves(v), lookup)
    decreases v, 1
  {
    hide Expand;
    match v
    case Text(s) => OneLeaf(s, lookup);
    case Array(items) => ExpandAllExact(items, lookup);
    case Table(_, values) => ExpandAllExact(values, lookup);
    case Scalar(_) =>
  }

  lemma {:induction false} ExpandAllExact(vs: seq<Toml>, lookup: Lookup)
    ensures var (ws, e) := ExpandAll(vs, lookup);
            SameShapes(vs, ws) && (AllLeaves(ws), e) == ExpandLeaves(AllLeaves(vs), lookup)
    decreases vs, 0
  {
    hide ExpandTree, ExpandLeaves;
    if vs == [] {
      NoLeaves(lookup);
    } else {
      ExpandTreeExact(vs[0], lookup);
      ExpandLeavesAppend(Leaves(vs[0]), AllLeaves(vs[1..]), lookup);
      SameShapesRefl(vs[1..]);
      ExpandAllExact(vs[1..], lookup);
      var (head, e) := ExpandTree(vs[0], lookup);
      assert ([head] + vs[1..])[1..] == vs[1..];
      var rest := ExpandAll(vs[1..], lookup).0;
      assert ([head] + rest)[1..] == rest;
    }
  }

  lemma OneLeaf(s: bytes, lookup: Lookup)
    ensures ExpandLeaves([s], lookup) ==
            match Expand(s, lookup)
            case Ok(t) => ([t], None)
            case Err(e) => ([s], Some(e))
  {
    hide Expand;
    NoLeaves(lookup);
    assert [s][1..] == [];
    if Expand(s, lookup).Ok? {
      assert [Expand(s, lookup).value] + [] == [Expand(s, lookup).value];
    }
  }

  lemma NoLeaves(lookup: Lookup)
    ensures ExpandLeaves([], lookup) == ([], None)
  {
  }

  /** Position of the first string that does not expand. */
  function FirstFailure(leaves: seq<bytes>, lookup: Lookup): (k: nat)
    ensures k <= |leaves|
  {
    if leaves == [] || Expand(leaves[0], lookup).Err? then 0 else 1 + FirstFailure(leaves[1..], lookup)
  }

  /** Before the first failing string every string is replaced by its expansion;
      that string and all later ones are left alone, and its error is reported. */
  lemma {:induction false} ExpandLeavesExact(leaves: seq<bytes>, lookup: Lookup)
    ensures var (after, e) := ExpandLeaves(leaves, lookup);
            var k := FirstFailure(leaves, lookup);
            && |after| == |leaves|
            && (forall i | 0 <= i < k :: Expand(leaves[i], lookup) == Ok(after[i]))
            && (forall i | k <= i < |leaves| :: after[i] == leaves[i])
            && (e.None? <==> k == |leaves|)
            && (e.Some? ==> Expand(leaves[k], lookup) == Err(e.value))
  {
    hide Expand;
    if leaves != [] && Expand(leaves[0], lookup).Ok? {
      ExpandLeavesExact(leaves[1..], lookup);
    }
  }

  // ---------------------------------------------------------------- the walk

  class Document {
    var root: Toml

    constructor (root: Toml)
      ensures this.root == root
    {
      this.root := root;
    }

    /** Replaces the strings of the document where they stand. */
    method ExpandInPlace(lookup: Lookup) returns (error: Outcome)
      modifies this
      ensures (root, error) == ExpandTree(old(root), lookup)
    {
      root, error := ExpandValue(root, lookup);
    }
  }

  method ExpandValue(v: Toml, lookup: Lookup) returns (w: Toml, error: Outcome)
    ensures (w, error) == ExpandTree(v, lookup)
    decreases v, 1
  {
    match v
    case Text(s) =>
      if DOLLAR !in s {
        NoDollarNoChange(s, lookup);
        return v, None;
      }
      var r := ExpandString(s, lookup);
      match r {
        case Ok(t) => return Text(t), None;
        case Err(e) => return v, Some(e);
      }
    case Array(items) =>
      var done, e := ExpandItems(items, lookup);
      return Array(done), e;
    case Table(keys, values) =>
      var done, e := ExpandItems(values, lookup);
      return Table(keys, done), e;
    case Scalar(_) => return v, None;
  }

  lemma NoDollarNoChange(s: bytes, lookup: Lookup)
    requires DOLLAR !in s
    ensures Expand(s, lookup) == Ok(s)
  {
    hide Scan;
    ScanPlain(s, [], 0, lookup);
    ScanNothing(|s|, lookup);
    assert s + [] == s;
  }

  /** The loop over the items of an array or the values of a table. */
  method ExpandItems(items: seq<Toml>, lookup: Lookup) returns (done: seq<Toml>, error: Outcome)
    ensures (done, error) == ExpandAll(items, lookup)
    decreases items, 0
  {
    hide ExpandTree, ExpandAll;
    done := items;
    var i := 0;
    assert items[0..] == items && done[..0] + ExpandAll(items, lookup).0 == ExpandAll(items, lookup).0;
    while i < |items|
      invariant 0 <= i <= |items| == |done|
      invariant done[i..] == items[i..]
      invariant ExpandAll(items, lookup) ==
                (done[..i] + ExpandAll(items[i..], lookup).0, ExpandAll(items[i..], lookup).1)
    {
      ExpandAllStep(items, i, lookup);
      var item, e := ExpandValue(items[i], lookup);
      ghost var before := done[..i];
      done := done[i := item];
      assert done[i + 1..] == items[i + 1..];
      if e.Some? {
        assert done == before + ([item] + items[i + 1..]);
        return done, e;
      }
      ghost var rest := ExpandAll(items[i + 1..], lookup).0;
      assert before + ([item] + rest) == done[..i + 1] + rest;
      i := i + 1;
    }
    NothingToExpand(lookup);
    assert done[..i] + [] == done;
    error := None;
  }

  lemma ExpandAllStep(items: seq<Toml>, i: nat, lookup: Lookup)
    requires i < |items|
    ensures var (head, e) := ExpandTree(items[i], lookup);
            var (rest, e') := ExpandAll(items[i + 1..], lookup);
            ExpandAll(items[i..], lookup) ==
            if e.Some? then ([head] + items[i + 1..], e) else ([head] + rest, e')
  {
    hide ExpandTree;
    assert items[i..][0] == items[i] && items[i..][1..] == items[i + 1..];
  }

  lemma NothingToExpand(lookup: Lookup)
    ensures ExpandAll([], lookup) == ([], None)
  {
  }
}
