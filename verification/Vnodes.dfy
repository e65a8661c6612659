/** The objects shared by the VFS and tmpfs: include/fs/vnode.h, include/fs/tmpfs.h, include/fs/mount.h and
    the error numbers of include/kernel/errno.h. */
module Vnodes {
  import opened Words

  const EPERM := 1
  const ENOENT := 2
  const EBADF := 9
  const ENOMEM := 12
  const EACCES := 13
  const EEXIST := 17
  const ENODEV := 19
  const ENOTDIR := 20
  const EINVAL := 22
  const EMFILE := 24
  const ENOSPC := 28
  const ENOSYS := 38
  const ENOTEMPTY := 39  // used by tmpfs_unlink, but not defined in errno.h

  const VFS_MAX_NAME: nat := 255
  const TMPFS_MAX_NAME: nat := 64
  const OPEN_MAX: nat := 32

  // size_t to ssize_t
  function ToSsize(n: nat): int {
    var m: int := n % SIZE_LIMIT;
    if m < 0x8000_0000 then m else m - SIZE_LIMIT
  }

  class Vnode {
    var isDir: bool
    var name: string
    var refcount: nat
    var tmpfsOps: bool  // ops points to tmpfs_ops, or is NULL
    var inode: Inode?   // private_data
    var mountedHere: Mount?
    var parent: Vnode?

    // vnode_alloc
    constructor ()
      ensures isDir && name == "" && refcount == 1 && !tmpfsOps
      ensures inode == null && mountedHere == null && parent == null
    {
      isDir, name, refcount := true, "", 1;
      tmpfsOps, inode, mountedHere, parent := false, null, null, null;
    }
  }

  class Mount {
    const mountpoint: Vnode
    const root: Vnode

    constructor (mountpoint: Vnode, root: Vnode)
      ensures this.mountpoint == mountpoint && this.root == root
    {
      this.mountpoint := mountpoint;
      this.root := root;
    }
  }

  class Inode {
    var isDir: bool
    var name: string
    var size: nat
    var data: array?<Byte>
    var parent: Inode?
    var firstChild: Inode?
    var nextSibling: Inode?
    var vnode: Vnode?

    constructor (isDir: bool, parent: Inode?)
      ensures this.isDir == isDir && this.parent == parent && name == "" && size == 0
      ensures data == null && firstChild == null && nextSibling == null && vnode == null
    {
      this.isDir, this.parent := isDir, parent;
      name, size, data := "", 0, null;
      firstChild, nextSibling, vnode := null, null, null;
    }
  }
}
