/**
 Walks over the radix trees that hold the entries, during which visited keys are deleted. A delete
 folds an only child into its node, and the walk then goes on with the edges of that child.
 */
module RadixWalks {
  import opened Bitmaps

  datatype Tree = Tree(prefix: string, leaf: Option<string>, edges: seq<Tree>)

  function Own(t: Tree): (keys: seq<string>) {
    if t.leaf.Some? then [t.leaf.value] else []
  }

  /** The keys below some edges, in the order of a walk that deletes nothing. */
  function Leaves(ts: seq<Tree>): (keys: seq<string>) {
    if ts == [] then [] else Own(ts[0]) + Leaves(ts[0].edges) + Leaves(ts[1..])
  }

  predicate Deletes(t: Tree, del: string -> bool) {
    t.leaf.Some? && del(t.leaf.value)
  }

  /** The keys visited by a walk that deletes those of `del` as it meets them. */
  function Walk(ts: seq<Tree>, del: string -> bool): (keys: seq<string>) {
    if ts == [] then []
    else
      Own(ts[0]) + Walk(Below(ts[0], del), del) + Walk(ts[1..], del)
  }

  /** No deleted key sits right above another key with nothing beside it. */
  predicate NoFold(ts: seq<Tree>, del: string -> bool) {
    ts == [] ||
    (!Folds(ts[0], del) && NoFold(ts[0].edges, del) && NoFold(ts[1..], del))
  }

  /** The edges the walk goes on with after a node. */
  function Below(t: Tree, del: string -> bool): (ts: seq<Tree>) {
    if Deletes(t, del) && |t.edges| == 1 then t.edges[0].edges else t.edges
  }

  /** The key that is folded away at a node, if there is one. */
  predicate Folds(t: Tree, del: string -> bool) {
    Deletes(t, del) && |t.edges| == 1 && t.edges[0].leaf.Some?
  }

  lemma BelowLeaves(t: Tree, del: string -> bool)
    ensures Folds(t, del) ==> |Leaves(Below(t, del))| < |Leaves(t.edges)|
    ensures !Folds(t, del) ==> Leaves(Below(t, del)) == Leaves(t.edges)
    ensures NoFold(t.edges, del) ==> NoFold(Below(t, del), del)
    ensures !Folds(t, del) && NoFold(Below(t, del), del) ==> NoFold(t.edges, del)
  {
    if Deletes(t, del) && |t.edges| == 1 {
      var child := t.edges[0];
      assert t.edges[1..] == [];
      assert Leaves(t.edges) == Own(child) + Leaves(child.edges) + [];
    }
  }

  /** The walk visits every key exactly when no key is folded away. */
  lemma {:induction false} VisitsAllIff(ts: seq<Tree>, del: string -> bool)
    ensures |Walk(ts, del)| <= |Leaves(ts)|
    ensures Walk(ts, del) == Leaves(ts) <==> NoFold(ts, del)
    ensures |Walk(ts, del)| == |Leaves(ts)| ==> NoFold(ts, del)
  {
    if ts != [] {
      var t := ts[0];
      VisitsAllIff(ts[1..], del);
      VisitsAllIff(Below(t, del), del);
      BelowLeaves(t, del);
      assert Walk(ts, del) == Own(t) + Walk(Below(t, del), del) + Walk(ts[1..], del);
      assert Leaves(ts) == Own(t) + Leaves(t.edges) + Leaves(ts[1..]);
      assert NoFold(ts, del) <==> !Folds(t, del) && NoFold(t.edges, del) && NoFold(ts[1..], del);
      hide *;
    }
  }

  // ----- paths ----------------------------------------------------------------

  /** Every node adds to the path above it, and its key is the whole path. */
  ghost predicate Spells(ts: seq<Tree>, path: string) {
    ts == [] ||
    (&& ts[0].prefix != ""
     && (ts[0].leaf.Some? ==> ts[0].leaf.value == path + ts[0].prefix)
     && Spells(ts[0].edges, path + ts[0].prefix)
     && Spells(ts[1..], path))
  }

  /** No key is a proper prefix of another. */
  ghost predicate PrefixFree(keys: seq<string>) {
    forall x, y :: x in keys && y in keys ==> !(x < y)
  }

  lemma {:induction false} PrefixFreeNoFold(ts: seq<Tree>, path: string, del: string -> bool)
    requires Spells(ts, path) && PrefixFree(Leaves(ts))
    ensures NoFold(ts, del)
  {
    if ts != [] {
      var t := ts[0];
      Parts(ts);
      PrefixFreeNoFold(t.edges, path + t.prefix, del);
      PrefixFreeNoFold(ts[1..], path, del);
      if Folds(t, del) {
        FoldBreaks(ts, path, del);
      }
    }
  }

  /** A key that is folded away has the deleted key as a proper prefix. */
  lemma FoldBreaks(ts: seq<Tree>, path: string, del: string -> bool)
    requires Spells(ts, path) && ts != [] && Folds(ts[0], del)
    ensures !PrefixFree(Leaves(ts))
  {
    var t := ts[0];
    var x, y := t.leaf.value, t.edges[0].leaf.value;
    Parts(ts);
    Parts(t.edges);
    assert x in Own(t) && y in Own(t.edges[0]);
    assert x < y;
  }

  lemma Parts(ts: seq<Tree>)
    requires ts != []
    ensures forall x :: x in Own(ts[0]) || x in Leaves(ts[0].edges) || x in Leaves(ts[1..]) ==> x in Leaves(ts)
  {
    assert Leaves(ts) == Own(ts[0]) + Leaves(ts[0].edges) + Leaves(ts[1..]);
  }

  /** While no key is a proper prefix of another, a walk visits every key, whatever it deletes. */
  lemma PrefixFreeVisitsAll(ts: seq<Tree>, path: string, del: string -> bool)
    requires Spells(ts, path) && PrefixFree(Leaves(ts))
    ensures Walk(ts, del) == Leaves(ts)
  {
    PrefixFreeNoFold(ts, path, del);
    VisitsAllIff(ts, del);
  }

  /** A deleted key with one longer key below it: the longer key is not visited. */
  lemma LongerKeySkipped(x: string, more: string, del: string -> bool)
    requires x != "" && more != "" && del(x)
    ensures
      var ts := [Tree(x, Some(x), [Tree(more, Some(x + more), [])])];
      Spells(ts, "") && Leaves(ts) == [x, x + more] && Walk(ts, del) == [x]
  {
    var child := Tree(more, Some(x + more), []);
    var ts := [Tree(x, Some(x), [child])];
    assert ts[1..] == [] && [child][1..] == [] && "" + x == x;
    assert Spells([child], x);
    assert Leaves([child]) == [x + more];
    assert Below(ts[0], del) == [];
  }

  // ----- every key once -------------------------------------------------------

  /** The edges of a node begin with different letters. */
  ghost predicate Branches(ts: seq<Tree>) {
    ts == [] ||
    (&& (forall t :: t in ts[1..] ==> t.prefix != "" && ts[0].prefix != "" && t.prefix[0] != ts[0].prefix[0])
     && Branches(ts[0].edges)
     && Branches(ts[1..]))
  }

  ghost predicate Once(keys: seq<string>) {
    forall i, j :: 0 <= i < j < |keys| ==> keys[i] != keys[j]
  }

  /** A key below some edges goes on with the first letter of one of them. */
  lemma {:induction false} LeafGoesOn(ts: seq<Tree>, path: string, x: string)
    requires Spells(ts, path) && x in Leaves(ts)
    ensures path < x && exists t :: t in ts && t.prefix != "" && t.prefix[0] == x[|path|]
  {
    var t := ts[0];
    assert Leaves(ts) == Own(t) + Leaves(t.edges) + Leaves(ts[1..]);
    assert t in ts;
    if x in Own(t) {
      assert x == path + t.prefix;
    } else if x in Leaves(t.edges) {
      LeafGoesOn(t.edges, path + t.prefix, x);
      assert x[..|path + t.prefix|] == path + t.prefix;
    } else {
      LeafGoesOn(ts[1..], path, x);
    }
  }

  lemma OnceConcat(a: seq<string>, b: seq<string>)
    requires Once(a) && Once(b) && forall x :: x in a ==> x !in b
    ensures Once(a + b)
  {
    forall i, j | 0 <= i < j < |a + b| ensures (a + b)[i] != (a + b)[j] {
      if i < |a| <= j {
        assert a[i] in a && b[j - |a|] in b;
      }
    }
  }

  /** A tree has every key once. */
  lemma {:induction false} LeavesOnce(ts: seq<Tree>, path: string)
    requires Spells(ts, path) && Branches(ts)
    ensures Once(Leaves(ts))
  {
    if ts != [] {
      var t, rest := ts[0], Leaves(ts[1..]);
      var below := Leaves(t.edges);
      LeavesOnce(t.edges, path + t.prefix);
      LeavesOnce(ts[1..], path);
      forall x | x in Own(t) ensures x !in below {
        if x in below {
          LeafGoesOn(t.edges, path + t.prefix, x);
          assert false;
        }
      }
      OnceConcat(Own(t), below);
      forall x | x in Own(t) + below ensures x !in rest {
        FirstLetter(ts, path, x);
        if x in rest {
          LeafGoesOn(ts[1..], path, x);
          assert false;
        }
      }
      OnceConcat(Own(t) + below, rest);
    }
  }

  lemma FirstLetter(ts: seq<Tree>, path: string, x: string)
    requires ts != [] && Spells(ts, path) && x in Own(ts[0]) + Leaves(ts[0].edges)
    ensures path < x && ts[0].prefix != "" && x[|path|] == ts[0].prefix[0]
  {
    var t := ts[0];
    if x !in Own(t) {
      LeafGoesOn(t.edges, path + t.prefix, x);
      assert x[..|path + t.prefix|] == path + t.prefix;
    }
  }

  /** So while no key is a proper prefix of another, a walk visits every key exactly once, whatever it deletes. */
  lemma WalkOnce(ts: seq<Tree>, path: string, del: string -> bool)
    requires Spells(ts, path) && Branches(ts) && PrefixFree(Leaves(ts))
    ensures Walk(ts, del) == Leaves(ts) && Once(Walk(ts, del))
  {
    PrefixFreeVisitsAll(ts, path, del);
    LeavesOnce(ts, path);
  }
}
