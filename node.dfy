/**
  The tree's heap node: three links, a colour, a key and a value.
  Keys are plain integers compared by `Compare`, which stands for the
  `compareTo` of the key type.
 */
module TreeNode {

  /** Colours are booleans, as in the class they model. */
  const RED: bool := false
  const BLACK: bool := true

  /** The sign convention of `compareTo`: negative, zero or positive. */
  function Compare(a: int, b: int): (c: int)
    ensures c < 0 <==> a < b
    ensures c == 0 <==> a == b
    ensures c > 0 <==> a > b
  {
    if a < b then -1 else if a == b then 0 else 1
  }

  class Node<V> {
    var parent: Node?<V>
    var left: Node?<V>
    var right: Node?<V>
    var color: bool
    /** No code of the tree ever writes a key once the node exists. */
    const key: int
    var value: V

    /** A new node is RED, childless, and hangs under the given parent. */
    constructor (key: int, value: V, parent: Node?<V>)
      ensures this.key == key && this.value == value && this.parent == parent
      ensures color == RED && left == null && right == null
    {
      this.parent := parent;
      this.left := null;
      this.right := null;
      this.color := RED;
      this.key := key;
      this.value := value;
    }
  }
}
