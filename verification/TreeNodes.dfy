/** The elements of the search trees, with the links that RB_ENTRY adds; a splay tree uses the first two. */
module TreeNodes {
  datatype Side = L | R

  function Opp(s: Side): Side {
    if s == L then R else L
  }

  class Node {
    const key: int
    var left: Node?
    var right: Node?
    var parent: Node?
    var red: bool

    constructor (key: int)
      ensures this.key == key
    {
      this.key := key;
    }

    function Get(s: Side): Node?
      reads this
    {
      if s == L then left else right
    }
  }
}
