/** Items as a graph: what the sweep, the deletion and the ancestor walk look at. */
module ItemTree {
  import opened Options
  import opened Tables

  datatype Node = Node(kind: Kind, parent: Option<nat>, deleted: bool)

  type Tree = map<nat, Node>

  predicate IsChild(items: Tree, child: nat, parent: nat) {
    child in items && items[child].parent == Some(parent)
  }

  predicate Live(items: Tree, id: nat) {
    id in items && !items[id].deleted
  }

  function Dead(items: Tree): set<nat> {
    set id | id in items && items[id].deleted
  }

  /** The foreign key on parent_id. */
  predicate ParentsExist(items: Tree) {
    forall id :: id in items && items[id].parent.Some? ==> items[id].parent.value in items
  }

  /** The same items with the same links and kinds; only the deletion marks may differ. */
  predicate SameShape(a: Tree, b: Tree) {
    a.Keys == b.Keys && forall id :: id in a ==> b[id] == a[id].(deleted := b[id].deleted)
  }
}
