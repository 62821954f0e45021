/** Permissions on block nodes and the default .bdrv_child_perm() implementations of block.c. */
module BlockPerms {
  datatype Perm = ConsistentRead | Write | WriteUnchanged | Resize

  type Perms = set<Perm>

  const BLK_PERM_ALL: Perms := {ConsistentRead, Write, WriteUnchanged, Resize}
  const DEFAULT_PERM_PASSTHROUGH: Perms := {ConsistentRead, Write, WriteUnchanged, Resize}
  const DEFAULT_PERM_UNCHANGED: Perms := BLK_PERM_ALL - DEFAULT_PERM_PASSTHROUGH

  lemma AllPerms(s: Perms)
    ensures s <= BLK_PERM_ALL
  {
    forall p | p in s ensures p in BLK_PERM_ALL {
      match p case ConsistentRead => case Write => case WriteUnchanged => case Resize =>
    }
  }

  datatype Role = Data | Metadata | Filtered | Cow | Primary

  /** What a user of a node takes for itself and what it leaves to the other users. */
  datatype Use = Use(perm: Perms, shared: Perms)

  /** `a` asks for no more and leaves no less than `b`. */
  predicate Weaker(a: Use, b: Use) {
    a.perm <= b.perm && b.shared <= a.shared
  }

  /** The flags of a node the default functions look at: bdrv_is_writable, BDRV_O_NO_IO,
      BDRV_O_INACTIVE. */
  datatype Flags = Flags(writable: bool, noIo: bool, inactive: bool)

  /** bdrv_filter_default_perms */
  function FilterPerms(u: Use): Use {
    Use(u.perm * DEFAULT_PERM_PASSTHROUGH, (u.shared * DEFAULT_PERM_PASSTHROUGH) + DEFAULT_PERM_UNCHANGED)
  }

  /** bdrv_default_perms_for_cow */
  function CowPerms(f: Flags, u: Use): Use {
    var shared := if Write in u.shared then {Write, Resize} else {};
    var shared := shared + {ConsistentRead, WriteUnchanged};
    Use(u.perm * {ConsistentRead}, if f.inactive then shared + {Write, Resize} else shared)
  }

  function MetadataPerms(f: Flags, u: Use): Use {
    var perm := if f.writable then u.perm + {Write, Resize} else u.perm;
    Use(if f.noIo then perm else perm + {ConsistentRead}, u.shared - {Write, Resize})
  }

  function DataPerms(u: Use): Use {
    var perm := if WriteUnchanged in u.perm then u.perm + {Write} else u.perm;
    Use(if Write in perm then perm + {Resize} else perm, u.shared - {Resize})
  }

  /** bdrv_default_perms_for_storage */
  function StoragePerms(f: Flags, role: set<Role>, u: Use): Use {
    var u := FilterPerms(u);
    var u := if Metadata in role then MetadataPerms(f, u) else u;
    var u := if Data in role then DataPerms(u) else u;
    if f.inactive then u.(shared := u.shared + {Write, Resize}) else u
  }

  /** The roles bdrv_default_perms asserts. */
  predicate RoleOk(role: set<Role>) {
    if Filtered in role then role !! {Data, Metadata, Cow}
    else if Cow in role then role !! {Data, Metadata}
    else Metadata in role || Data in role
  }

  /** bdrv_default_perms */
  function DefaultPerms(f: Flags, role: set<Role>, u: Use): Use
    requires RoleOk(role)
  {
    if Filtered in role then FilterPerms(u)
    else if Cow in role then CowPerms(f, u)
    else StoragePerms(f, role, u)
  }

  /** Loosening what the parents of a node need loosens what the node needs from its children. */
  lemma DefaultPermsMonotone(f: Flags, role: set<Role>, u: Use, v: Use)
    requires RoleOk(role) && Weaker(u, v)
    ensures Weaker(DefaultPerms(f, role, u), DefaultPerms(f, role, v))
  {
  }

  /** What the children are asked for: a backing file is never written, a node that is written
      has a data child that may be written and resized, and nobody else may resize a data child
      or write a metadata child of an active node. */
  lemma DefaultPermsMeaning(f: Flags, role: set<Role>, u: Use)
    requires RoleOk(role)
    ensures var d := DefaultPerms(f, role, u);
            && (Cow in role && Filtered !in role ==> d.perm <= {ConsistentRead})
            && (Cow in role && Filtered !in role ==> (ConsistentRead in d.perm <==> ConsistentRead in u.perm))
            && (Filtered in role ==> d.perm == u.perm && d.shared == u.shared)
            && (Data in role && ({Write, WriteUnchanged} * u.perm != {}) ==> {Write, Resize} <= d.perm)
            && (Data in role && !f.inactive ==> Resize !in d.shared)
            && (Metadata in role && !f.inactive ==> d.shared !! {Write, Resize})
            && (Metadata in role && f.writable ==> {Write, Resize} <= d.perm)
            && (!f.writable && {Write, WriteUnchanged} * u.perm == {} ==> Write !in d.perm)
            && (f.inactive && Filtered !in role ==> {Write, Resize} <= d.shared)
            && (Filtered !in role ==> u.perm * {ConsistentRead} <= d.perm)
  {
    forall p: Perm ensures p in BLK_PERM_ALL && p in DEFAULT_PERM_PASSTHROUGH {
      match p case ConsistentRead => case Write => case WriteUnchanged => case Resize =>
    }
    assert FilterPerms(u) == u;
    forall p | p in {Write, WriteUnchanged} && p in u.perm ensures p in {Write, WriteUnchanged} * u.perm {
    }
  }
}
