/**
 * `build_category_tree` (flaskr/functions.py): the flat list of category
 * rows becomes a forest. The source keys a dictionary by `str(id)`; since
 * `str` is injective on integers, the model keys it by the id itself. The
 * nested node dictionaries share their `children` lists by reference, so a
 * node is modelled by its id, and its children list is one entry of a map
 * from id to the ids appended to it.
 */
module CategoryTree {
  import opened Wrappers
  import opened Checks

  /** A row of the flat category list. */
  datatype Category = Category(id: int, parentId: Option<int>, name: string)

  /** `if cat["parentId"]:` is true: the parent id is neither null nor 0. */
  predicate HasParent(c: Category) {
    c.parentId.Some? && c.parentId.value != 0
  }

  /**
   * The forest: the root ids in order, every node's row, and every node's
   * children list (its entry in `children`).
   */
  datatype Forest = Forest(roots: seq<int>, nodes: map<int, Category>, children: map<int, seq<int>>)

  /** The dictionary's keys, in the order of the first row with each id. */
  function KeyOrder(flat: seq<Category>): (keys: seq<int>)
    ensures NoDup(keys)
    ensures forall k :: k in keys <==> k in LastRows(flat)
    decreases |flat|
  {
    if flat == [] then []
    else
      var init := KeyOrder(flat[..|flat| - 1]);
      var id := flat[|flat| - 1].id;
      if id in init then init
      else
        assert NoDup(init + [id]) by {
          forall i, j | 0 <= i < j < |init + [id]| ensures (init + [id])[i] != (init + [id])[j] {
            if j == |init| { assert (init + [id])[i] == init[i]; }
          }
        }
        init + [id]
  }

  /**
   * The keys follow the rows: for two keys, some row with the earlier key
   * comes before every row with the later one.
   */
  lemma {:induction false} KeyOrderFollowsRows(flat: seq<Category>, i: nat, j: nat)
    requires i < j < |KeyOrder(flat)|
    ensures exists a :: (0 <= a < |flat| && flat[a].id == KeyOrder(flat)[i] &&
                         forall b :: 0 <= b <= a ==> flat[b].id != KeyOrder(flat)[j])
    decreases |flat|
  {
    var init := flat[..|flat| - 1];
    var prev := KeyOrder(init);
    var id := flat[|flat| - 1].id;
    assert forall b :: 0 <= b < |init| ==> init[b] == flat[b];
    if j < |prev| {
      assert KeyOrder(flat)[i] == prev[i] && KeyOrder(flat)[j] == prev[j];
      KeyOrderFollowsRows(init, i, j);
    } else {
      assert KeyOrder(flat) == prev + [id] && prev[i] in prev;
      var a :| 0 <= a < |init| && init[a].id == prev[i];
      assert forall b :: 0 <= b < |init| ==> init[b].id != id;
    }
  }

  /** The dictionary's values: for each id, the last row with that id. */
  function LastRows(flat: seq<Category>): (nodes: map<int, Category>)
    ensures forall k :: k in nodes <==> exists i :: 0 <= i < |flat| && flat[i].id == k
    ensures forall k :: k in nodes ==> nodes[k] in flat && nodes[k].id == k
    decreases |flat|
  {
    if flat == [] then map[]
    else
      var init := flat[..|flat| - 1];
      var r := LastRows(init)[flat[|flat| - 1].id := flat[|flat| - 1]];
      assert forall i :: 0 <= i < |init| ==> init[i] == flat[i];
      assert forall c :: c in init ==> c in flat;
      r
  }

  /** The roots among `keys`, in order. */
  function RootsIn(keys: seq<int>, nodes: map<int, Category>): seq<int>
    requires forall k :: k in keys ==> k in nodes
    decreases |keys|
  {
    if keys == [] then []
    else
      var last := keys[|keys| - 1];
      RootsIn(keys[..|keys| - 1], nodes) + (if HasParent(nodes[last]) then [] else [last])
  }

  /** The ids among `keys` whose node names `p` as its parent, in order. */
  function ChildrenIn(keys: seq<int>, nodes: map<int, Category>, p: int): seq<int>
    requires forall k :: k in keys ==> k in nodes
    decreases |keys|
  {
    if keys == [] then []
    else
      var last := keys[|keys| - 1];
      ChildrenIn(keys[..|keys| - 1], nodes, p) +
        (if HasParent(nodes[last]) && nodes[last].parentId.value == p then [last] else [])
  }

  /** One more key: its node joins the roots or its parent's children, and no other list. */
  lemma PrefixStep(keys: seq<int>, nodes: map<int, Category>, j: nat)
    requires forall k :: k in keys ==> k in nodes
    requires j < |keys|
    ensures keys[j] in nodes
    ensures var c := nodes[keys[j]];
      RootsIn(keys[..j + 1], nodes) == RootsIn(keys[..j], nodes) + (if HasParent(c) then [] else [keys[j]])
    ensures var c := nodes[keys[j]];
      forall p :: ChildrenIn(keys[..j + 1], nodes, p) ==
        ChildrenIn(keys[..j], nodes, p) + (if HasParent(c) && c.parentId.value == p then [keys[j]] else [])
  {
    var prefix := keys[..j + 1];
    assert prefix[..j] == keys[..j] && prefix[j] == keys[j];
    forall p ensures ChildrenIn(prefix, nodes, p) == ChildrenIn(keys[..j], nodes, p) +
      (if HasParent(nodes[keys[j]]) && nodes[keys[j]].parentId.value == p then [keys[j]] else [])
    {
    }
  }

  /** A node whose parent is a node joins that parent's list, and no other. */
  lemma ChildAppended(children: map<int, seq<int>>, keys: seq<int>, nodes: map<int, Category>, j: nat)
    requires forall k :: k in keys ==> k in nodes
    requires j < |keys| && children.Keys == nodes.Keys && keys[j] in nodes
    requires forall p :: p in children ==> children[p] == ChildrenIn(keys[..j], nodes, p)
    requires HasParent(nodes[keys[j]]) && nodes[keys[j]].parentId.value in nodes
    ensures var pid := nodes[keys[j]].parentId.value;
      var next := children[pid := children[pid] + [keys[j]]];
      next.Keys == nodes.Keys && forall p :: p in next ==> next[p] == ChildrenIn(keys[..j + 1], nodes, p)
  {
    PrefixStep(keys, nodes, j);
  }

  /** A node without a parent node joins no children list. */
  lemma ChildrenKept(children: map<int, seq<int>>, keys: seq<int>, nodes: map<int, Category>, j: nat)
    requires forall k :: k in keys ==> k in nodes
    requires j < |keys| && children.Keys == nodes.Keys && keys[j] in nodes
    requires forall p :: p in children ==> children[p] == ChildrenIn(keys[..j], nodes, p)
    requires !HasParent(nodes[keys[j]]) || nodes[keys[j]].parentId.value !in nodes
    ensures forall p :: p in children ==> children[p] == ChildrenIn(keys[..j + 1], nodes, p)
  {
    PrefixStep(keys, nodes, j);
  }

  /** A children map that agrees with `ChildrenIn` on every node is the one `TreeOf` describes. */
  lemma ChildrenMapEq(children: map<int, seq<int>>, keys: seq<int>, nodes: map<int, Category>)
    requires forall k :: k in keys ==> k in nodes
    requires children.Keys == nodes.Keys
    requires forall p :: p in children ==> children[p] == ChildrenIn(keys, nodes, p)
    ensures children == ChildrenMap(keys, nodes)
  {
  }

  /** The forest the function builds from `flat`. */
  function TreeOf(flat: seq<Category>): Forest {
    var keys := KeyOrder(flat);
    var nodes := LastRows(flat);
    Forest(RootsIn(keys, nodes), nodes, ChildrenMap(keys, nodes))
  }

  /** Every node's children list. */
  function ChildrenMap(keys: seq<int>, nodes: map<int, Category>): map<int, seq<int>>
    requires forall k :: k in keys ==> k in nodes
  {
    map p | p in nodes :: ChildrenIn(keys, nodes, p)
  }

  /**
   * The dictionary comprehension of `build_category_tree`: one entry per id,
   * the last row winning, each with an empty children list.
   */
  method IndexCategories(flat: seq<Category>)
    returns (keys: seq<int>, nodes: map<int, Category>, children: map<int, seq<int>>)
    ensures keys == KeyOrder(flat) && nodes == LastRows(flat)
    ensures children.Keys == nodes.Keys && forall k :: k in children ==> children[k] == []
  {
    keys := [];
    nodes := map[];
    children := map[];
    var i := 0;
    while i < |flat|
      invariant 0 <= i <= |flat|
      invariant keys == KeyOrder(flat[..i]) && nodes == LastRows(flat[..i])
      invariant children.Keys == nodes.Keys && forall k :: k in children ==> children[k] == []
    {
      var c := flat[i];
      assert flat[..i + 1][..i] == flat[..i] && flat[..i + 1][i] == c;
      if c.id !in nodes {
        keys := keys + [c.id];
      }
      nodes := nodes[c.id := c];
      children := children[c.id := []];
      i := i + 1;
    }
    assert flat[..|flat|] == flat;
  }

  /**
   * `build_category_tree`: index the rows by id, then walk the index once,
   * appending each node to its parent's children when that parent exists,
   * or to the roots when it has no parent.
   */
  method BuildCategoryTree(flat: seq<Category>) returns (forest: Forest)
    ensures forest == TreeOf(flat)
  {
    var keys, nodes, children := IndexCategories(flat);
    var roots: seq<int> := [];
    var j := 0;
    while j < |keys|
      invariant 0 <= j <= |keys|
      invariant forall k :: k in keys ==> k in nodes
      invariant roots == RootsIn(keys[..j], nodes)
      invariant children.Keys == nodes.Keys
      invariant forall p :: p in children ==> children[p] == ChildrenIn(keys[..j], nodes, p)
    {
      var id := keys[j];
      var c := nodes[id];
      PrefixStep(keys, nodes, j);
      if HasParent(c) {
        var pid := c.parentId.value;
        if pid in nodes {
          ChildAppended(children, keys, nodes, j);
          children := children[pid := children[pid] + [id]];
        } else {
          ChildrenKept(children, keys, nodes, j);
        }
      } else {
        ChildrenKept(children, keys, nodes, j);
        roots := roots + [id];
      }
      j := j + 1;
    }
    assert keys[..|keys|] == keys;
    ChildrenMapEq(children, keys, nodes);
    forest := Forest(roots, nodes, children);
  }

  /** The roots among `keys` are its keys without a parent, in key order. */
  lemma {:induction false} RootsInFacts(keys: seq<int>, nodes: map<int, Category>)
    requires forall k :: k in keys ==> k in nodes
    ensures forall x :: x in RootsIn(keys, nodes) <==> x in keys && !HasParent(nodes[x])
    ensures IsSubseq(RootsIn(keys, nodes), keys)
    decreases |keys|
  {
    if keys != [] {
      var init := keys[..|keys| - 1];
      var last := keys[|keys| - 1];
      RootsInFacts(init, nodes);
      assert keys == init + [last];
      assert forall x :: x in keys <==> x in init || x == last;
      if HasParent(nodes[last]) {
        assert RootsIn(keys, nodes) == RootsIn(init, nodes);
        SubseqExtend(RootsIn(init, nodes), init, last);
      } else {
        SubseqExtend(RootsIn(init, nodes), init, last);
      }
    }
  }

  /** The children of `p` among `keys` are its keys whose node names `p`, in key order. */
  lemma {:induction false} ChildrenInFacts(keys: seq<int>, nodes: map<int, Category>, p: int)
    requires forall k :: k in keys ==> k in nodes
    ensures forall x :: x in ChildrenIn(keys, nodes, p) <==>
      x in keys && HasParent(nodes[x]) && nodes[x].parentId.value == p
    ensures IsSubseq(ChildrenIn(keys, nodes, p), keys)
    decreases |keys|
  {
    if keys != [] {
      var init := keys[..|keys| - 1];
      var last := keys[|keys| - 1];
      ChildrenInFacts(init, nodes, p);
      assert keys == init + [last];
      assert forall x :: x in keys <==> x in init || x == last;
      if HasParent(nodes[last]) && nodes[last].parentId.value == p {
        SubseqExtend(ChildrenIn(init, nodes, p), init, last);
      } else {
        assert ChildrenIn(keys, nodes, p) == ChildrenIn(init, nodes, p);
        SubseqExtend(ChildrenIn(init, nodes, p), init, last);
      }
    }
  }

  /** The roots are exactly the nodes whose parent id is null or 0, each once, in input order. */
  lemma TreeRoots(flat: seq<Category>)
    ensures var t := TreeOf(flat);
      && (forall x :: x in t.roots <==> x in t.nodes && !HasParent(t.nodes[x]))
      && IsSubseq(t.roots, KeyOrder(flat)) && NoDup(t.roots)
  {
    RootsInFacts(KeyOrder(flat), LastRows(flat));
    SubseqNoDup(TreeOf(flat).roots, KeyOrder(flat));
  }

  /**
   * A node is in the children list of `p` exactly when its parent id is `p`
   * (and `p` is a node), each once, in input order.
   */
  lemma TreeChildren(flat: seq<Category>, p: int)
    requires p in TreeOf(flat).nodes
    ensures var t := TreeOf(flat);
      && p in t.children
      && (forall x :: x in t.children[p] <==>
           x in t.nodes && HasParent(t.nodes[x]) && t.nodes[x].parentId.value == p)
      && IsSubseq(t.children[p], KeyOrder(flat)) && NoDup(t.children[p])
  {
    ChildrenInFacts(KeyOrder(flat), LastRows(flat), p);
    SubseqNoDup(TreeOf(flat).children[p], KeyOrder(flat));
  }

  /** A category whose parent id names no category appears neither among the roots nor in any children list. */
  lemma OrphanNowhere(flat: seq<Category>, x: int)
    requires var t := TreeOf(flat);
      x in t.nodes && HasParent(t.nodes[x]) && t.nodes[x].parentId.value !in t.nodes
    ensures var t := TreeOf(flat);
      x !in t.roots && forall p :: p in t.children ==> x !in t.children[p]
  {
    TreeRoots(flat);
    forall p | p in TreeOf(flat).children ensures x !in TreeOf(flat).children[p] {
      TreeChildren(flat, p);
    }
  }

  /**
   * Every node sits in exactly one place: among the roots, in the children
   * of its parent, or (an orphan) nowhere; never in two lists.
   */
  lemma AtMostOnce(flat: seq<Category>, x: int)
    ensures var t := TreeOf(flat);
      && (x in t.roots ==> forall p :: p in t.children ==> x !in t.children[p])
      && (forall p, q :: p in t.children && q in t.children && x in t.children[p] && x in t.children[q] ==> p == q)
      && (x in t.nodes && HasParent(t.nodes[x]) && t.nodes[x].parentId.value in t.nodes ==>
           x in t.children[t.nodes[x].parentId.value])
  {
    var t := TreeOf(flat);
    TreeRoots(flat);
    forall p | p in t.children ensures x in t.children[p] <==>
      x in t.nodes && HasParent(t.nodes[x]) && t.nodes[x].parentId.value == p
    {
      TreeChildren(flat, p);
    }
  }

  /** With a repeated id, the node holds the last row with that id. */
  lemma {:induction false} LaterRowWins(flat: seq<Category>, i: nat)
    requires i < |flat|
    requires forall j :: i < j < |flat| ==> flat[j].id != flat[i].id
    ensures flat[i].id in LastRows(flat) && LastRows(flat)[flat[i].id] == flat[i]
    decreases |flat|
  {
    var init := flat[..|flat| - 1];
    if i < |flat| - 1 {
      assert init[i] == flat[i];
      LaterRowWins(init, i);
    }
  }

  /** The ids of the rows, in input order. */
  function RowIds(flat: seq<Category>): (ids: seq<int>)
    ensures |ids| == |flat| && forall i :: 0 <= i < |flat| ==> ids[i] == flat[i].id
    decreases |flat|
  {
    if flat == [] then [] else RowIds(flat[..|flat| - 1]) + [flat[|flat| - 1].id]
  }

  predicate UniqueIds(flat: seq<Category>) {
    forall i, j :: 0 <= i < j < |flat| ==> flat[i].id != flat[j].id
  }

  /** The ids of the rows without a parent, in input order. */
  function RootRowIds(flat: seq<Category>): seq<int>
    decreases |flat|
  {
    if flat == [] then []
    else
      var last := flat[|flat| - 1];
      RootRowIds(flat[..|flat| - 1]) + (if HasParent(last) then [] else [last.id])
  }

  /** The ids of the rows whose parent id is `p`, in input order. */
  function ChildRowIds(flat: seq<Category>, p: int): seq<int>
    decreases |flat|
  {
    if flat == [] then []
    else
      var last := flat[|flat| - 1];
      ChildRowIds(flat[..|flat| - 1], p) + (if HasParent(last) && last.parentId.value == p then [last.id] else [])
  }

  /** With distinct ids, the keys are the rows' ids in input order. */
  lemma {:induction false} KeyOrderOfUnique(flat: seq<Category>)
    requires UniqueIds(flat)
    ensures KeyOrder(flat) == RowIds(flat)
    decreases |flat|
  {
    if flat != [] {
      var init := flat[..|flat| - 1];
      assert UniqueIds(init) by {
        forall i, j | 0 <= i < j < |init| ensures init[i].id != init[j].id {
          assert init[i] == flat[i] && init[j] == flat[j];
        }
      }
      KeyOrderOfUnique(init);
    }
  }

  /** The part of the tree the first `m` rows contribute, with distinct ids. */
  lemma {:induction false} PrefixOfUnique(flat: seq<Category>, m: nat, p: int)
    requires UniqueIds(flat) && m <= |flat|
    ensures forall k :: k in RowIds(flat[..m]) ==> k in LastRows(flat)
    ensures RootsIn(RowIds(flat[..m]), LastRows(flat)) == RootRowIds(flat[..m])
    ensures ChildrenIn(RowIds(flat[..m]), LastRows(flat), p) == ChildRowIds(flat[..m], p)
    decreases m
  {
    var ids := RowIds(flat[..m]);
    forall k | k in ids ensures k in LastRows(flat) {
      var i :| 0 <= i < |ids| && ids[i] == k;
      assert flat[..m][i] == flat[i];
      LaterRowWins(flat, i);
    }
    if m > 0 {
      PrefixOfUnique(flat, m - 1, p);
      var prefix := flat[..m];
      assert prefix[..m - 1] == flat[..m - 1];
      assert prefix[m - 1] == flat[m - 1];
      LaterRowWins(flat, m - 1);
      assert ids[..m - 1] == RowIds(flat[..m - 1]);
    }
  }

  /**
   * With distinct ids, the roots are the ids of the parentless rows in input
   * order, and the children of a node are the ids of the rows naming it.
   */
  lemma TreeOfUnique(flat: seq<Category>, p: int)
    requires UniqueIds(flat)
    ensures TreeOf(flat).roots == RootRowIds(flat)
    ensures p in TreeOf(flat).children ==> TreeOf(flat).children[p] == ChildRowIds(flat, p)
  {
    KeyOrderOfUnique(flat);
    PrefixOfUnique(flat, |flat|, p);
    assert flat[..|flat|] == flat;
  }
}
