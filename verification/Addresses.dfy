module Addresses {
  /** The linear address of a basic block, load offset included (bb_rel). */
  type Addr = int
}
