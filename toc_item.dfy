/**
 * The mutable table-of-contents node the source allocates: an entry with an
 * ordered list of children and a back-pointer to the node it was added to.
 */
module TocItems {
  import opened Wrappers

  class TocItem {
    var id: string
    var text: string
    var dataHref: Option<string>
    var children: seq<TocItem>
    var parent: TocItem?

    /**
     * `new TocItem(params)`: an absent id or text becomes '', dataHref is
     * taken as given, and the node starts with no children and no parent.
     * `new TocItem()` is this constructor with every parameter absent.
     */
    constructor (id: Option<string>, text: Option<string>, dataHref: Option<string>)
      ensures this.id == id.GetOr("") && this.text == text.GetOr("") && this.dataHref == dataHref
      ensures children == [] && parent == null
    {
      this.id := id.GetOr("");
      this.text := text.GetOr("");
      this.dataHref := dataHref;
      children := [];
      parent := null;
    }

    /**
     * `add(item)`: a node that already has a parent is refused (the source
     * throws) and nothing changes; otherwise the node's parent becomes this
     * node and it is appended as the last child, earlier children staying as
     * they were. Returns whether the node was attached.
     */
    method Add(item: TocItem) returns (attached: bool)
      modifies this, item
      ensures attached <==> old(item.parent) == null
      ensures !attached ==> unchanged(this) && unchanged(item)
      ensures attached ==> item.parent == this && children == old(children) + [item]
      ensures attached && item != this ==>
                parent == old(parent) && item.children == old(item.children)
      ensures id == old(id) && text == old(text) && dataHref == old(dataHref)
      ensures item.id == old(item.id) && item.text == old(item.text) && item.dataHref == old(item.dataHref)
    {
      if item.parent != null {
        return false;
      }
      item.parent := this;
      children := children + [item];
      return true;
    }
  }

  /**
   * A node is attached at most once: after `first.Add(item)` succeeds, a
   * second `Add` of the same node, to any node, is refused and leaves that
   * node as it was.
   */
  method AddTwice(first: TocItem, second: TocItem, item: TocItem) returns (once: bool, twice: bool)
    requires item.parent == null
    modifies first, second, item
    ensures once && !twice
    ensures item.parent == first
    ensures second != first && second != item ==> unchanged(second)
  {
    once := first.Add(item);
    twice := second.Add(item);
  }
}
