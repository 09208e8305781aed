/** Names and entries of directories, for blocks of records and for the tree of directories. */
module DirNames {
  newtype byte = x: int | 0 <= x < 256

  type Name = seq<byte>

  /** What a live record means: a name bound to an inode. */
  datatype Entry = Entry(name: Name, inode: nat)

  const DOT: Name := [46]
  const DOTDOT: Name := [46, 46]

  /** ext4_is_dots. */
  predicate IsDots(name: Name) { name == DOT || name == DOTDOT }
}
