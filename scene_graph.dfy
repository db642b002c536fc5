/**
 * The host scene graph as the renaming walk sees it: a GameObject with its
 * Transform, reduced to a mutable `name` and the ordered list of child nodes.
 * The walk never re-parents anything, so the child list and the footprint are
 * constants; only `name` can change.
 */
module SceneGraph {

  class Node {
    /** GameObject.name, the only thing the walk writes. */
    var name: string
    /** The children of this node's Transform, in enumeration order. */
    const children: seq<Node>
    /** Every node of the subtree rooted here, this one included. */
    ghost const Repr: set<Node>

    /**
     * The subtree is a tree: each child's subtree lies inside this one and
     * does not contain this node, sibling subtrees are disjoint, and every
     * node of the footprint is this node or belongs to some child's subtree.
     */
    ghost predicate Valid()
      decreases Repr
    {
      && this in Repr
      && (forall i :: 0 <= i < |children| ==>
            && children[i].Repr <= Repr
            && this !in children[i].Repr
            && children[i].Valid())
      && (forall i, j :: 0 <= i < j < |children| ==> children[i].Repr !! children[j].Repr)
      && (forall n :: n in Repr ==> n == this || exists i :: 0 <= i < |children| && n in children[i].Repr)
    }

    /** A node named `name` whose children are the given, pairwise disjoint, trees. */
    constructor (name: string, children: seq<Node>)
      requires forall i :: 0 <= i < |children| ==> children[i].Valid()
      requires forall i, j :: 0 <= i < j < |children| ==> children[i].Repr !! children[j].Repr
      ensures Valid()
      ensures this.name == name && this.children == children
      ensures forall i :: 0 <= i < |children| ==> children[i].Repr < Repr
    {
      this.name := name;
      this.children := children;
      this.Repr := {this} + set i, n | 0 <= i < |children| && n in children[i].Repr :: n;
    }
  }
}
