/** The far side: a tree of files and directories and a server that answers SFTP requests about it, one at a time in
    the order they were sent (section 6.1 of draft-ietf-secsh-filexfer-02). What a server is free to decide, such as
    which requests it declines and which permission bits it grants, is a parameter. */
module RemoteFs {
  import opened Prelude
  import opened Wire
  import opened Codec

  type Path = Bytes

  const SLASH: Byte := 47
  const DOT: Byte := 46
  const ROOT: Path := [SLASH]

  const TYPE_UNIT: nat := 0x1000
  const PERMISSION_UNIT: nat := 0x200
  const DIRECTORY: nat := 4
  const REGULAR: nat := 8
  const SYMLINK: nat := 10

  /** The permission, setuid, setgid and sticky bits; the type is the constructor. */
  type Bits = b: nat | b < 0x1000

  datatype Node = Dir(bits: Bits) | File(bits: Bits, contents: Bytes) | Link(bits: Bits)

  datatype Fs = Fs(nodes: map<Path, Node>, handles: map<Bytes, Path>)

  datatype Refusal = Refusal(code: U32, message: Bytes)

  /** `refuse` may depend on which request it is; a refusal is never the OK code. `batch` is what a directory handle
      yields next, or nothing at the end of the listing. */
  datatype Server = Server(
    refuse: (nat, Op) -> Option<Refusal>,
    dirBits: (Path, U32) -> Bits,
    fileBits: (Path, U32) -> Bits,
    setBits: (Path, U32) -> Bits,
    handleFor: nat -> Bytes,
    batch: (nat, Bytes) -> Option<seq<NameEntry>>)

  ghost predicate RefusesHonestly(server: Server) {
    forall n, op :: server.refuse(n, op).Some? ==> server.refuse(n, op).value.code != OK
  }

  datatype Answer =
    | Said(code: U32, message: Bytes)
    | Opened(handle: Bytes)
    | Looked(attrs: Attrs)
    | Listed(entries: seq<NameEntry>)

  const DONE: Answer := Said(OK, [])

  function ToReply(id: U32, answer: Answer): (reply: Reply)
    ensures reply.id == id
  {
    match answer
    case Said(code, message) => Status(id, code, message)
    case Opened(handle) => Handle(id, handle)
    case Looked(attrs) => AttrsReply(id, attrs)
    case Listed(entries) => Name(id, entries)
  }

  // ---------- Paths (`clift-core/src/domain/remote_path.rs`) ----------

  predicate DotComponentAt(p: Path, i: nat)
    requires i < |p|
  {
    || (i + 1 < |p| && p[i + 1] == DOT && (i + 2 == |p| || p[i + 2] == SLASH))
    || (i + 2 < |p| && p[i + 1] == DOT && p[i + 2] == DOT && (i + 3 == |p| || p[i + 3] == SLASH))
  }

  predicate IsControl(b: Byte) {
    b < 32 || b == 127
  }

  predicate IsRemotePath(p: Path) {
    && p != [] && p[0] == SLASH
    && (forall i :: 0 <= i < |p| ==> !IsControl(p[i]))
    && (forall i :: 0 <= i < |p| && p[i] == SLASH ==> !DotComponentAt(p, i))
    && (forall i :: 0 <= i < |p| - 1 && p[i] == SLASH ==> p[i + 1] != SLASH)
    && (|p| > 1 ==> p[|p| - 1] != SLASH)
  }

  /** `rfind('/')` */
  function LastSlash(p: Path): (cut: Option<nat>)
    ensures cut.Some? ==> cut.value < |p| && p[cut.value] == SLASH && SLASH !in p[cut.value + 1..]
    ensures cut.None? ==> SLASH !in p
  {
    if p == [] then None
    else if p[|p| - 1] == SLASH then Some(|p| - 1)
    else
      assert p == p[..|p| - 1] + [p[|p| - 1]];
      LastSlash(p[..|p| - 1])
  }

  /** The parent of an absolute path, or nothing for the root. */
  function ParentOf(p: Path): (parent: Option<Path>)
    ensures parent.Some? ==> |parent.value| < |p| && IsRemotePath(parent.value)
  {
    if p == ROOT then None else
      match LastSlash(p)
      case None => None
      case Some(cut) =>
        var parent := if cut == 0 then ROOT else p[..cut];
        if IsRemotePath(parent) && |parent| < |p| then Some(parent) else None
  }

  /** The parent of a path other than the root is always a path itself: reparsing it never fails. */
  lemma ParentIsAPath(p: Path)
    requires IsRemotePath(p) && p != ROOT
    ensures ParentOf(p).Some?
  {
    var cut := LastSlash(p).value;
    if cut > 0 {
      var parent := p[..cut];
      forall i | 0 <= i < |parent| && parent[i] == SLASH ensures !DotComponentAt(parent, i) {
        assert p[i] == SLASH && !DotComponentAt(p, i);
      }
      assert p[cut - 1] != SLASH by {
        assert p[cut - 1 + 1] == SLASH;
      }
    }
  }

  // ---------- What the server does ----------

  function AttrsOf(node: Node): Attrs {
    match node
    case Dir(bits) => Attrs(None, Some(DIRECTORY * TYPE_UNIT + bits), None)
    case File(bits, contents) =>
      var size := if |contents| < 0x1_0000_0000_0000_0000 then Some(|contents|) else None;
      Attrs(size, Some(REGULAR * TYPE_UNIT + bits), None)
    case Link(bits) => Attrs(None, Some(SYMLINK * TYPE_UNIT + bits), None)
  }

  function WithBits(node: Node, bits: Bits): Node {
    match node
    case Dir(_) => Dir(bits)
    case File(_, contents) => File(bits, contents)
    case Link(_) => Link(bits)
  }

  predicate ParentIsDir(nodes: map<Path, Node>, p: Path) {
    ParentOf(p).Some? && ParentOf(p).value in nodes && nodes[ParentOf(p).value].Dir?
  }

  predicate HasChild(nodes: map<Path, Node>, p: Path) {
    exists q :: q in nodes && ParentOf(q) == Some(p)
  }

  /** Bytes written at an offset; a gap before them reads as zeros. */
  function Overlay(contents: Bytes, offset: nat, data: Bytes): Bytes {
    if offset > |contents| then contents + seq(offset - |contents|, _ => 0) + data
    else contents[..offset] + data + if offset + |data| < |contents| then contents[offset + |data|..] else []
  }

  function Perform(server: Server, n: nat, fs: Fs, op: Op): (Fs, Answer) {
    match op
    case Lstat(path) =>
      (fs, if path in fs.nodes then Looked(AttrsOf(fs.nodes[path])) else Said(NO_SUCH_FILE, []))
    case Fstat(handle) =>
      (fs, if handle in fs.handles && fs.handles[handle] in fs.nodes
           then Looked(AttrsOf(fs.nodes[fs.handles[handle]])) else Said(FAILURE, []))
    case Mkdir(path, mode) =>
      if path in fs.nodes then (fs, Said(FAILURE, []))
      else if !ParentIsDir(fs.nodes, path) then (fs, Said(NO_SUCH_FILE, []))
      else (fs.(nodes := fs.nodes[path := Dir(server.dirBits(path, mode))]), DONE)
    case Setstat(path, mode) =>
      if path !in fs.nodes then (fs, Said(NO_SUCH_FILE, []))
      else (fs.(nodes := fs.nodes[path := WithBits(fs.nodes[path], server.setBits(path, mode))]), DONE)
    case Fsetstat(handle, mode) =>
      if handle !in fs.handles || fs.handles[handle] !in fs.nodes then (fs, Said(FAILURE, []))
      else
        var path := fs.handles[handle];
        (fs.(nodes := fs.nodes[path := WithBits(fs.nodes[path], server.setBits(path, mode))]), DONE)
    case OpenNew(path, mode) =>
      if path in fs.nodes || server.handleFor(n) in fs.handles then (fs, Said(FAILURE, []))
      else if !ParentIsDir(fs.nodes, path) then (fs, Said(NO_SUCH_FILE, []))
      else (Fs(fs.nodes[path := File(server.fileBits(path, mode), [])], fs.handles[server.handleFor(n) := path]),
            Opened(server.handleFor(n)))
    case Write(handle, offset, data) =>
      if handle !in fs.handles || fs.handles[handle] !in fs.nodes || !fs.nodes[fs.handles[handle]].File?
      then (fs, Said(FAILURE, []))
      else
        var path := fs.handles[handle];
        var File(bits, contents) := fs.nodes[path];
        (fs.(nodes := fs.nodes[path := File(bits, Overlay(contents, offset, data))]), DONE)
    case Close(handle) =>
      if handle !in fs.handles then (fs, Said(FAILURE, [])) else (fs.(handles := fs.handles - {handle}), DONE)
    case Remove(path) =>
      if path !in fs.nodes then (fs, Said(NO_SUCH_FILE, []))
      else if fs.nodes[path].Dir? then (fs, Said(FAILURE, []))
      else (fs.(nodes := fs.nodes - {path}), DONE)
    case Rmdir(path) =>
      if path !in fs.nodes then (fs, Said(NO_SUCH_FILE, []))
      else if !fs.nodes[path].Dir? || HasChild(fs.nodes, path) then (fs, Said(FAILURE, []))
      else (fs.(nodes := fs.nodes - {path}), DONE)
    case Rename(from, to) =>
      if from !in fs.nodes then (fs, Said(NO_SUCH_FILE, []))
      else if to in fs.nodes || fs.nodes[from].Dir? then (fs, Said(FAILURE, []))
      else if !ParentIsDir(fs.nodes, to) then (fs, Said(NO_SUCH_FILE, []))
      else (fs.(nodes := (fs.nodes - {from})[to := fs.nodes[from]]), DONE)
    case Opendir(path) =>
      if path !in fs.nodes then (fs, Said(NO_SUCH_FILE, []))
      else if !fs.nodes[path].Dir? || server.handleFor(n) in fs.handles then (fs, Said(FAILURE, []))
      else (fs.(handles := fs.handles[server.handleFor(n) := path]), Opened(server.handleFor(n)))
    case Readdir(handle) =>
      if handle !in fs.handles then (fs, Said(FAILURE, []))
      else
        (match server.batch(n, handle)
         case None => (fs, Said(EOF, []))
         case Some(entries) => (fs, Listed(entries)))
    case Realpath(_) => (fs, Said(FAILURE, []))
  }

  function Serve(server: Server, n: nat, fs: Fs, op: Op): (Fs, Answer) {
    match server.refuse(n, op)
    case Some(refusal) => (fs, Said(refusal.code, refusal.message))
    case None => Perform(server, n, fs, op)
  }
}
