/**
  Bento nodes in memory: objects with a name, attributes, a parent link and a
  list of child nodes, as the parser and the tree operations update them.  A
  ghost map from nodes to trees says what the closed part of the heap holds.
 */
module BentoNodes {
  import opened BentoText

  class BentoNode {
    var name: string
    var attributes: seq<TextAttribute>
    var parent: BentoNode?
    var children: seq<BentoNode>

    constructor (name: string)
      ensures this.name == name && attributes == [] && parent == null && children == []
    {
      this.name := name;
      attributes, parent, children := [], null, [];
    }

    method AddAttribute(a: TextAttribute)
      modifies this`attributes
      ensures attributes == old(attributes) + [a]
    {
      attributes := attributes + [a];
    }

    method AddChildNode(node: BentoNode)
      modifies this`children, node`parent
      ensures children == old(children) + [node] && node.parent == this
    {
      node.parent := this;
      children := children + [node];
    }
  }

  type Trees = map<BentoNode, TextNode>

  predicate Distinct<T(==)>(s: seq<T>) { forall i, j :: 0 <= i < j < |s| ==> s[i] != s[j] }

  /** The fields of `n` and its first `k` children are those of `t`, and the children point back at `n`. */
  ghost predicate Shows(n: BentoNode, k: int, t: TextNode, trees: Trees)
    reads n, trees.Keys
  {
    && 0 <= k <= |n.children| && |t.children| == k
    && n.name == t.name && n.attributes == t.attributes
    && Distinct(n.children)
    && forall i :: 0 <= i < k ==>
         n.children[i] in trees && trees[n.children[i]] == t.children[i] && n.children[i].parent == n
  }

  /** Every node of the map is the root of a complete tree, the one the map says. */
  ghost predicate Forest(trees: Trees)
    reads trees.Keys
  {
    forall n :: n in trees ==> Shows(n, |n.children|, trees[n], trees)
  }

  /** A node that shows a tree over the forest extends the forest. */
  lemma ForestGrows(trees: Trees, n: BentoNode, tree: TextNode)
    requires Forest(trees) && n !in trees && Shows(n, |n.children|, tree, trees)
    ensures Forest(trees[n := tree])
  {
    var grown := trees[n := tree];
    forall m | m in grown
      ensures Shows(m, |m.children|, grown[m], grown)
    {
      assert m != n ==> Shows(m, |m.children|, trees[m], trees);
    }
  }

  lemma TreeShown(trees: Trees, n: BentoNode)
    requires Forest(trees) && n in trees
    ensures Shows(n, |n.children|, trees[n], trees)
  {
  }

  lemma AllShown(trees: Trees)
    requires forall n :: n in trees ==> Shows(n, |n.children|, trees[n], trees)
    ensures Forest(trees)
  {
  }

  lemma NoTrees()
    ensures Forest(map[])
  {
  }

  // ----- Copying ----------------------------------------------------------

  /** The copy constructor: a tree of new nodes that holds the same tree, each child linked to its new parent. */
  method CopyNode(original: BentoNode, ghost trees: Trees) returns (copy: BentoNode, ghost copies: Trees)
    requires Forest(trees) && original in trees
    ensures fresh(copy) && copy.parent == null
    ensures forall n :: n in copies ==> fresh(n)
    ensures Forest(copies) && copy in copies && copies[copy] == trees[original]
    decreases trees[original]
  {
    hide Forest;
    copy := new BentoNode(original.name);
    copy.attributes := original.attributes;
    copies := map[];
    NoTrees();
    ghost var tree := trees[original];
    TreeShown(trees, original);
    var i := 0;
    while i < |original.children|
      invariant 0 <= i <= |original.children| == |tree.children|
      invariant copy.parent == null && copy !in copies && Shows(copy, i, tree.(children := tree.children[..i]), copies)
      invariant |copy.children| == i
      invariant Forest(copies) && forall n :: n in copies ==> fresh(n)
    {
      ghost var more;
      var child;
      child, more := CopyNode(original.children[i], trees);
      CopyChild(copy, child, tree, i, copies, more);
      copies := copies + more;
      i := i + 1;
    }
    assert tree.children[..i] == tree.children;
    ForestGrows(copies, copy, tree);
    copies := copies[copy := tree];
  }

  method CopyChild(copy: BentoNode, child: BentoNode, ghost tree: TextNode, ghost i: nat, ghost copies: Trees,
                   ghost more: Trees)
    requires i < |tree.children| && |copy.children| == i
    requires copy !in copies && copy !in more && copies.Keys !! more.Keys
    requires Shows(copy, i, tree.(children := tree.children[..i]), copies)
    requires Forest(copies) && Forest(more) && child in more && child.parent == null && more[child] == tree.children[i]
    modifies copy`children, child`parent
    ensures Forest(copies + more)
    ensures copy.children == old(copy.children) + [child]
    ensures Shows(copy, i + 1, tree.(children := tree.children[..i + 1]), copies + more)
  {
    assert Shows(child, |child.children|, more[child], more);
    copy.children := copy.children + [child];
    child.parent := copy;
    ghost var all := copies + more;
    forall n | n in all
      ensures Shows(n, |n.children|, all[n], all)
    {
      if n in copies {
        assert old(Shows(n, |n.children|, copies[n], copies));
      } else {
        assert old(Shows(n, |n.children|, more[n], more));
      }
    }
    assert tree.children[..i + 1] == tree.children[..i] + [tree.children[i]];
  }

  // ----- Adopting and orphaning -------------------------------------------

  /** `orphanNodes`: let go of the children without destroying them. */
  method OrphanNodes(node: BentoNode)
    modifies node`children, (set c | c in node.children)`parent
    ensures node.children == []
    ensures forall i :: 0 <= i < |old(node.children)| ==> old(node.children)[i].parent == null
  {
    var i := 0;
    while i < |node.children|
      invariant 0 <= i <= |node.children|
      invariant node.children == old(node.children)
      invariant forall j :: 0 <= j < i ==> node.children[j].parent == null
      modifies (set c | c in node.children)`parent
    {
      node.children[i].parent := null;
      i := i + 1;
    }
    node.children := [];
  }

  /** Points the parent link of every child at its new owner. */
  method LinkChildren(node: BentoNode)
    modifies (set c | c in node.children)`parent
    ensures forall i :: 0 <= i < |node.children| ==> node.children[i].parent == node
  {
    var i := 0;
    while i < |node.children|
      invariant 0 <= i <= |node.children|
      invariant forall j :: 0 <= j < i ==> node.children[j].parent == node
    {
      node.children[i].parent := node;
      i := i + 1;
    }
  }

  /** Whether `x` is `m` or stands somewhere below it. */
  ghost predicate InTree(m: BentoNode, x: BentoNode, trees: Trees)
    requires Forest(trees) && m in trees
    reads trees.Keys
    decreases trees[m]
  {
    x == m || exists i :: 0 <= i < |m.children| && InTree(m.children[i], x, trees)
  }

  function Emptied(t: TextNode): TextNode { t.(attributes := [], children := []) }

  /** The tree below `m` after `target` has taken over what `node` had. */
  ghost function Updated(m: BentoNode, target: BentoNode, node: BentoNode, trees: Trees): TextNode
    requires Forest(trees) && m in trees && node in trees
    reads trees.Keys
    decreases trees[m], 0
  {
    if m == node then Emptied(trees[node])
    else if m == target then trees[node]
    else trees[m].(children := UpdatedAll(m.children, trees[m].children, target, node, trees))
  }

  ghost function UpdatedAll(ms: seq<BentoNode>, ts: seq<TextNode>, target: BentoNode, node: BentoNode,
                            trees: Trees): (r: seq<TextNode>)
    requires Forest(trees) && node in trees
    requires |ms| == |ts| && forall i :: 0 <= i < |ms| ==> ms[i] in trees && trees[ms[i]] == ts[i]
    ensures |r| == |ms| && forall i :: 0 <= i < |ms| ==> r[i] == Updated(ms[i], target, node, trees)
    reads trees.Keys
    decreases ts, 1
  {
    if ms == [] then []
    else [Updated(ms[0], target, node, trees)] + UpdatedAll(ms[1..], ts[1..], target, node, trees)
  }

  /** The forest after the adoption: `node` is empty, `target` has its tree, and all trees around them follow. */
  ghost function Adopted(target: BentoNode, node: BentoNode, trees: Trees): Trees
    requires Forest(trees) && node in trees
    reads trees.Keys
  {
    map m | m in trees.Keys + {target} :: if m in trees then Updated(m, target, node, trees) else trees[node]
  }

  /** The tree of a node below another one is smaller. */
  lemma {:induction false} BelowIsSmaller(m: BentoNode, x: BentoNode, trees: Trees)
    requires Forest(trees) && m in trees && InTree(m, x, trees)
    ensures x in trees && (x == m || trees[x] < trees[m])
    decreases trees[m]
  {
    TreeShown(trees, m);
    if x != m {
      var i :| 0 <= i < |m.children| && InTree(m.children[i], x, trees);
      BelowIsSmaller(m.children[i], x, trees);
    }
  }

  /** A tree that holds neither of the two nodes stays as it is. */
  lemma {:induction false} Untouched(m: BentoNode, target: BentoNode, node: BentoNode, trees: Trees)
    requires Forest(trees) && m in trees && node in trees
    requires !InTree(m, node, trees) && !InTree(m, target, trees)
    ensures Updated(m, target, node, trees) == trees[m]
    decreases trees[m]
  {
    TreeShown(trees, m);
    forall i | 0 <= i < |m.children|
      ensures Updated(m.children[i], target, node, trees) == trees[m].children[i]
    {
      Untouched(m.children[i], target, node, trees);
    }
    assert UpdatedAll(m.children, trees[m].children, target, node, trees) == trees[m].children;
  }

  /** What `node` hands over holds neither `node` nor a node outside its tree. */
  lemma ChildrenUntouched(target: BentoNode, node: BentoNode, trees: Trees)
    requires Forest(trees) && node in trees && !InTree(node, target, trees)
    ensures forall i :: 0 <= i < |node.children| ==>
              node.children[i] in trees && Updated(node.children[i], target, node, trees) == trees[node.children[i]]
  {
    TreeShown(trees, node);
    forall i | 0 <= i < |node.children|
      ensures Updated(node.children[i], target, node, trees) == trees[node.children[i]]
    {
      var c := node.children[i];
      if InTree(c, node, trees) {
        BelowIsSmaller(c, node, trees);
        assert false;
      }
      Untouched(c, target, node, trees);
    }
  }

  /** A child of one node of the forest is no child of another. */
  lemma OneParent(trees: Trees, n: BentoNode, m: BentoNode, i: nat)
    requires Forest(trees) && n in trees && m in trees && n != m && i < |m.children|
    ensures m.children[i] !in n.children
  {
    TreeShown(trees, n);
    TreeShown(trees, m);
  }

  /** A node that takes no part keeps its children, of which each shows its tree of the forest afterwards. */
  lemma AroundAdoption(m: BentoNode, target: BentoNode, node: BentoNode, trees: Trees)
    requires Forest(trees) && node in trees && m in trees && m != node && m != target
    ensures var after := Adopted(target, node, trees); Shows(m, |m.children|, after[m], after)
    ensures forall i :: 0 <= i < |m.children| ==> m.children[i] !in node.children
  {
    TreeShown(trees, m);
    forall i | 0 <= i < |m.children| ensures m.children[i] !in node.children { OneParent(trees, node, m, i); }
  }

  /**
    What another node of the forest shows of its children afterwards: the
    source as an emptied child of the same name, the target with the source's
    tree, and a child around neither of them as before.
   */
  lemma ChildAfterwards(p: BentoNode, i: nat, target: BentoNode, node: BentoNode, trees: Trees)
    requires Forest(trees) && node in trees && p in trees && p != node && p != target && i < |p.children|
    ensures var child, before, shown := p.children[i], trees[p].children, Adopted(target, node, trees)[p].children;
            && |shown| == |before| == |p.children|
            && (child == node ==> shown[i] == Emptied(before[i]))
            && (child == target != node ==> shown[i] == trees[node])
            && (child in trees && !InTree(child, node, trees) && !InTree(child, target, trees) ==>
                  shown[i] == before[i])
  {
    TreeShown(trees, p);
    var child := p.children[i];
    if !InTree(child, node, trees) && !InTree(child, target, trees) {
      Untouched(child, target, node, trees);
    }
  }

  lemma SourceEmptied(target: BentoNode, node: BentoNode, trees: Trees)
    requires Forest(trees) && node in trees
    ensures var after := Adopted(target, node, trees);
            node in after && after[node] == Emptied(trees[node]) && node.name == trees[node].name
  {
    TreeShown(trees, node);
  }

  /** The children that change hands show the trees that the target has afterwards. */
  lemma HandedOver(target: BentoNode, node: BentoNode, trees: Trees)
    requires Forest(trees) && node in trees && target != node && !InTree(node, target, trees)
    ensures var after := Adopted(target, node, trees);
            && target in after && after[target] == trees[node]
            && node.name == trees[node].name && node.attributes == trees[node].attributes
            && |node.children| == |trees[node].children| && Distinct(node.children)
            && forall i :: 0 <= i < |node.children| ==>
                 node.children[i] in after && after[node.children[i]] == trees[node].children[i]
  {
    TreeShown(trees, node);
    ChildrenUntouched(target, node, trees);
  }

  /** The steps of `adoptFrom`. */
  method TakeOver(target: BentoNode, node: BentoNode)
    modifies target`name, target`attributes, target`children, node`attributes, node`children
    modifies (set c | c in node.children)`parent
    ensures node.attributes == [] && node.children == [] && node.name == target.name == old(node.name)
    ensures target != node ==> target.attributes == old(node.attributes) && target.children == old(node.children)
    ensures forall i :: 0 <= i < |target.children| ==> target.children[i].parent == target
  {
    target.attributes := [];
    target.children := [];
    target.name := node.name;
    target.attributes := node.attributes;
    target.children := node.children;
    node.attributes := [];
    OrphanNodes(node);
    LinkChildren(target);
  }

  /**
    `adoptFrom`: drop what `target` has, take over everything `node` has and
    leave `node` empty.  A node below `target` would be destroyed first.
   */
  method AdoptFrom(target: BentoNode, node: BentoNode, ghost trees: Trees)
    requires Forest(trees) && node in trees
    requires target in trees && target != node ==> !InTree(target, node, trees)
    modifies target`name, target`attributes, target`children, node`attributes, node`children
    modifies (set c | c in node.children)`parent
    ensures node.attributes == [] && node.children == [] && node.name == target.name == old(node.name)
    ensures target != node ==> target.attributes == old(node.attributes) && target.children == old(node.children)
    ensures forall i :: 0 <= i < |target.children| ==> target.children[i].parent == target
    ensures target == node || !old(InTree(node, target, trees)) ==> Forest(old(Adopted(target, node, trees)))
  {
    hide Forest, InTree, Updated, UpdatedAll;
    ghost var after := Adopted(target, node, trees);
    ghost var apart := target == node || !InTree(node, target, trees);
    SourceEmptied(target, node, trees);
    if apart && target != node {
      HandedOver(target, node, trees);
    }
    forall m | m in trees && m != node && m != target
      ensures m.name == after[m].name && m.attributes == after[m].attributes
      ensures |m.children| == |after[m].children| && Distinct(m.children)
      ensures forall i :: 0 <= i < |m.children| ==>
                && m.children[i] in after && after[m.children[i]] == after[m].children[i]
                && m.children[i].parent == m && m.children[i] !in node.children
    {
      AroundAdoption(m, target, node, trees);
    }
    TakeOver(target, node);
    if apart {
      forall m | m in after
        ensures Shows(m, |m.children|, after[m], after)
      {
      }
      AllShown(after);
    }
  }
}
