/** Blocks of consecutive bits or addresses, as the allocators hand them out. */
module Blocks {

  datatype Block = Block(start: nat, size: nat)

  predicate In(b: Block, a: int) {
    b.start <= a < b.start + b.size
  }

  function Sizes(blocks: seq<Block>): nat {
    if blocks == [] then 0 else Sizes(blocks[..|blocks|-1]) + blocks[|blocks|-1].size
  }
}
