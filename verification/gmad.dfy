/** The addon record and its node tree, as the codec sees them. */
module GmadFormat {
  import opened Bytes

  /** The highest archive version the codec reads, and the one it writes. */
  const Version: byte := 3

  /** 'G', 'M', 'A', 'D'. */
  const Magic: Bytes := [0x47, 0x4D, 0x41, 0x44]

  /** A node of the addon tree: its full path (ancestor names from the root,
      each preceded by '/'), whether it is a container (a directory), and, for a
      file, its bytes. */
  datatype Node = Node(path: Bytes, isContainer: bool, content: Bytes)

  /** An addon: its metadata, whether the encoder writes checksums, the path of
      its root node, and the nodes below the root in the tree's iteration order
      (depth first, children in insertion order). */
  datatype Gmad = Gmad(
    name: Bytes,
    description: Bytes,
    author: Bytes,
    doCrc: bool,
    rootPath: Bytes,
    nodes: seq<Node>)

  /** The path of a child called `name` added under the node at `parentPath`. */
  function ChildPath(parentPath: Bytes, name: Bytes): Bytes {
    parentPath + [SLASH] + name
  }
}
