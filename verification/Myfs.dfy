/**
 * The name tree of course_design/myfs_kernel.c: creating files and directories in a file system
 * that starts as an empty root. The environment decides, call by call, whether the lookup and the
 * inode allocation succeed. Inodes and directory entries are the class's mutable tables.
 */
module Myfs {
  import opened Common

  type Ino = nat

  const ROOT: Ino := 0

  /** A mode word: `kind` is its S_IFMT nibble, `bits` the twelve bits below. */
  datatype Mode = Mode(kind: bv4, bits: nat)

  const S_IFDIR: bv4 := 4
  const S_IFREG: bv4 := 8

  datatype Fops = Unset | SimpleDir | Given(table: nat)

  datatype Inode = Inode(mode: Mode, nlink: nat, fops: Fops, data: Option<nat>)

  /** A dentry is known by its parent and its name. */
  datatype Key = Key(parent: Ino, name: string)

  datatype Fs = Fs(inodes: map<Ino, Inode>, entries: map<Key, Ino>, next: Ino)

  datatype Errno = EPERM | EFAULT | LookupError(code: nat)

  /** What the kernel does for one call: whether lookup_one_len fails, and whether new_inode succeeds. */
  datatype Env = Env(lookup: Option<nat>, alloc: bool)

  predicate IsDirMode(mode: Mode)
  {
    mode.kind == S_IFDIR
  }

  predicate IsDir(fs: Fs, i: Ino)
  {
    i in fs.inodes && IsDirMode(fs.inodes[i].mode)
  }

  // ---- what one creation does ----

  /** `mode | kind` */
  function WithKind(mode: Mode, kind: bv4): Mode
  {
    mode.(kind := mode.kind | kind)
  }

  /** myfs_mkdir and myfs_creat add the type bit of their kind to the caller's mode. */
  function FinalMode(mode: Mode): Mode
  {
    if IsDirMode(mode) then WithKind(mode, S_IFDIR) else WithKind(mode, S_IFREG)
  }

  lemma FinalModeKeepsKind(mode: Mode)
    ensures IsDirMode(FinalMode(mode)) <==> IsDirMode(mode)
    ensures FinalMode(mode).bits == mode.bits
    ensures FinalMode(mode).kind == if mode.kind == S_IFDIR then S_IFDIR else mode.kind | S_IFREG
  {
  }

  /** A fresh inode has one link; a directory gets a second for its own ".". */
  function NewInode(mode: Mode): Inode
  {
    if IsDirMode(mode) then Inode(mode, 2, SimpleDir, None) else Inode(mode, 1, Unset, None)
  }

  function Dress(inode: Inode, data: Option<nat>, fops: Option<nat>): Inode
  {
    inode.(data := if data.Some? then data else inode.data,
           fops := if fops.Some? then Given(fops.value) else inode.fops)
  }

  datatype Request = Request(name: string, mode: Mode, parent: Option<Ino>, data: Option<nat>, fops: Option<nat>)

  /** A null parent means the root. */
  function KeyOf(req: Request): Key
  {
    Key(if req.parent.Some? then req.parent.value else ROOT, req.name)
  }

  /** The caller passes null or a directory it was handed earlier. */
  predicate Parent(fs: Fs, parent: Option<Ino>)
  {
    var p := if parent.Some? then parent.value else ROOT;
    p < fs.next && IsDir(fs, p)
  }

  predicate Willing(mounted: bool, req: Request, env: Env)
  {
    (req.parent.Some? || mounted) && env.lookup.None? && env.alloc
  }

  function Add(fs: Fs, req: Request): Fs
    requires KeyOf(req).parent in fs.inodes
  {
    var key := KeyOf(req);
    var parent := fs.inodes[key.parent];
    var linked := if IsDirMode(req.mode) then parent.(nlink := parent.nlink + 1) else parent;
    Fs(fs.inodes[fs.next := Dress(NewInode(FinalMode(req.mode)), req.data, req.fops)][key.parent := linked],
       fs.entries[key := fs.next], fs.next + 1)
  }

  /** Setting the private data and the operations afterwards is the same as creating the inode with them. */
  lemma DressAfter(fs: Fs, req: Request)
    requires Parent(fs, req.parent)
    ensures var bare := Add(fs, req.(data := None, fops := None));
      Add(fs, req) == bare.(inodes := bare.inodes[fs.next := Dress(bare.inodes[fs.next], req.data, req.fops)])
  {
  }

  /** A creation adds one entry when the environment lets it and the name is free, and else changes nothing. */
  function Create(fs: Fs, mounted: bool, req: Request, env: Env): (Fs, Option<Ino>)
    requires KeyOf(req).parent in fs.inodes
  {
    if Willing(mounted, req, env) && KeyOf(req) !in fs.entries then (Add(fs, req), Some(fs.next)) else (fs, None)
  }

  // ---- the module's functions ----

  class Module {
    var mounted: bool
    var inodes: map<Ino, Inode>
    var entries: map<Key, Ino>
    var next: Ino

    function State(): Fs
      reads this
    {
      Fs(inodes, entries, next)
    }

    /** What simple_fill_super leaves: an empty root directory with two links. */
    constructor (mounted: bool)
      ensures this.mounted == mounted && State() == Fresh()
      ensures entries == map[] && inodes == map[ROOT := Inode(Mode(S_IFDIR, 0x1ED), 2, SimpleDir, None)]
    {
      this.mounted := mounted;
      inodes, entries, next := map[ROOT := NewInode(Mode(S_IFDIR, 0x1ED))], map[], ROOT + 1;
    }

    method GetInode(mode: Mode, alloc: bool) returns (r: Option<Ino>)
      modifies this
      ensures mounted == old(mounted) && entries == old(entries)
      ensures !alloc ==> r == None && State() == old(State())
      ensures alloc ==> r == Some(old(next)) && next == old(next) + 1
                        && inodes == old(inodes)[old(next) := NewInode(mode)]
    {
      if !alloc {
        return None;
      }
      var inode := Inode(mode, 1, Unset, None);
      if mode.kind == S_IFDIR {
        inode := inode.(fops := SimpleDir);
        inode := inode.(nlink := inode.nlink + 1);
      }
      r := Some(next);
      inodes := inodes[next := inode];
      next := next + 1;
    }

    method Mknod(dentry: Key, mode: Mode, alloc: bool) returns (err: Option<Errno>)
      modifies this
      ensures mounted == old(mounted)
      ensures err == None <==> dentry !in old(entries) && alloc
      ensures err != None ==> err == Some(EPERM) && State() == old(State())
      ensures err == None ==> State() == Fs(old(inodes)[old(next) := NewInode(mode)],
                                            old(entries)[dentry := old(next)], old(next) + 1)
    {
      if dentry in entries {
        return Some(EPERM);
      }
      var inode := GetInode(mode, alloc);
      err := Some(EPERM);
      if inode.Some? {
        entries := entries[dentry := inode.value];
        err := None;
      }
    }

    method Mkdir(dir: Ino, dentry: Key, mode: Mode, alloc: bool) returns (err: Option<Errno>)
      requires dir in inodes && dir < next
      modifies this
      ensures mounted == old(mounted)
      ensures err == None <==> dentry !in old(entries) && alloc
      ensures err != None ==> err == Some(EPERM) && State() == old(State())
      ensures err == None ==>
        var parent := old(inodes)[dir];
        var made := old(inodes)[old(next) := NewInode(WithKind(mode, S_IFDIR))];
        State() == Fs(made[dir := parent.(nlink := parent.nlink + 1)],
                      old(entries)[dentry := old(next)], old(next) + 1)
    {
      err := Mknod(dentry, WithKind(mode, S_IFDIR), alloc);
      if err == None {
        inodes := inodes[dir := inodes[dir].(nlink := inodes[dir].nlink + 1)];
      }
    }

    method Creat(dentry: Key, mode: Mode, alloc: bool) returns (err: Option<Errno>)
      modifies this
      ensures mounted == old(mounted)
      ensures err == None <==> dentry !in old(entries) && alloc
      ensures err != None ==> err == Some(EPERM) && State() == old(State())
      ensures err == None ==> State() == Fs(old(inodes)[old(next) := NewInode(WithKind(mode, S_IFREG))],
                                            old(entries)[dentry := old(next)], old(next) + 1)
    {
      err := Mknod(dentry, WithKind(mode, S_IFREG), alloc);
    }

    method CreatByName(name: string, mode: Mode, parent: Option<Ino>, env: Env)
      returns (err: Option<Errno>, dentry: Option<Key>)
      requires Parent(State(), parent)
      modifies this
      ensures mounted == old(mounted)
      ensures var req := Request(name, mode, parent, None, None);
        && State() == Create(old(State()), mounted, req, env).0
        && (err == None <==> Create(old(State()), mounted, req, env).1.Some?)
      ensures var key := Key(if parent.Some? then parent.value else ROOT, name);
        err == None ==>
          dentry == Some(key) && key !in old(entries) && entries == old(entries)[key := old(next)]
      ensures err == Some(EFAULT) <==> parent.None? && !mounted
      ensures err.Some? && err.value.LookupError? <==> (parent.Some? || mounted) && env.lookup.Some?
      ensures err.Some? && err.value.LookupError? ==> err.value.code == env.lookup.value
      ensures err == Some(EPERM) <==>
        && (parent.Some? || mounted) && env.lookup.None?
        && (Key(if parent.Some? then parent.value else ROOT, name) in old(entries) || !env.alloc)
    {
      err, dentry := None, None;
      var above := parent;
      if above.None? {
        if mounted {
          above := Some(ROOT);
        }
      }
      if above.None? {
        return Some(EFAULT), None;
      }
      if env.lookup.None? {
        dentry := Some(Key(above.value, name));
        if mode.kind == S_IFDIR {
          err := Mkdir(above.value, dentry.value, mode, env.alloc);
        } else {
          err := Creat(dentry.value, mode, env.alloc);
        }
      } else {
        err := Some(LookupError(env.lookup.value));
      }
    }

    /** The dentry returned stands for the new inode; null on any failure. */
    method CreatFile(req: Request, env: Env) returns (dentry: Option<Ino>)
      requires Parent(State(), req.parent)
      modifies this
      ensures mounted == old(mounted)
      ensures (State(), dentry) == Create(old(State()), mounted, req, env)
      ensures var key := Key(if req.parent.Some? then req.parent.value else ROOT, req.name);
        if (req.parent.Some? || mounted) && env.lookup.None? && env.alloc && key !in old(entries) then
          dentry == Some(old(next)) && entries == old(entries)[key := old(next)]
        else
          dentry == None && State() == old(State())
    {
      var err, made := CreatByName(req.name, req.mode, req.parent, env);
      if err != None {
        return None;
      }
      dentry := Some(entries[made.value]);
      var inode := inodes[dentry.value];
      if req.data.Some? {
        inode := inode.(data := req.data);
      }
      if req.fops.Some? {
        inode := inode.(fops := Given(req.fops.value));
      }
      inodes := inodes[dentry.value := inode];
      DressAfter(old(State()), req);
    }

    /** S_IFDIR | S_IRWXU | S_IRUGO */
    method CreatDir(name: string, parent: Option<Ino>, env: Env) returns (dentry: Option<Ino>)
      requires Parent(State(), parent)
      modifies this
      ensures mounted == old(mounted)
      ensures (State(), dentry) == Create(old(State()), mounted, Request(name, DIR_MODE, parent, None, None), env)
    {
      dentry := CreatFile(Request(name, DIR_MODE, parent, None, None), env);
    }
  }

  const DIR_MODE: Mode := Mode(S_IFDIR, 0x1E4)

  function Fresh(): Fs
  {
    Fs(map[ROOT := NewInode(Mode(S_IFDIR, 0x1ED))], map[], ROOT + 1)
  }

  // ---- the namespace is a tree ----

  /** The entries of directory i that are themselves directories. */
  function Subdirs(fs: Fs, i: Ino): set<Key>
  {
    set k | k in fs.entries && k.parent == i && IsDir(fs, fs.entries[k])
  }

  /** Every entry lies in a directory older than the inode it names, and every inode but the root is named. */
  ghost predicate Grounded(fs: Fs)
  {
    && IsDir(fs, ROOT)
    && (forall i :: i in fs.inodes ==> i < fs.next)
    && (forall k :: k in fs.entries ==>
          IsDir(fs, k.parent) && fs.entries[k] in fs.inodes && k.parent < fs.entries[k])
    && (forall i {:trigger Named(fs, i)} :: i in fs.inodes && i != ROOT ==> Named(fs, i))
  }

  ghost predicate Named(fs: Fs, i: Ino)
  {
    exists k :: k in fs.entries && fs.entries[k] == i
  }

  /** No two entries name the same inode. */
  ghost predicate NoSharing(fs: Fs)
  {
    forall k, m :: k in fs.entries && m in fs.entries && fs.entries[k] == fs.entries[m] ==> k == m
  }

  predicate LinkCount(fs: Fs, i: Ino)
    requires i in fs.inodes
  {
    fs.inodes[i].nlink == if IsDir(fs, i) then 2 + |Subdirs(fs, i)| else 1
  }

  ghost predicate Tree(fs: Fs)
  {
    Grounded(fs) && NoSharing(fs) && forall i :: i in fs.inodes ==> LinkCount(fs, i)
  }

  lemma FreshTree()
    ensures Tree(Fresh())
  {
    assert Subdirs(Fresh(), ROOT) == {};
  }

  /** `after` is `fs` with one more inode, named by `key`, and its parent's link count raised for a directory. */
  ghost predicate OneMore(fs: Fs, after: Fs, key: Key, dir: bool)
  {
    && key !in fs.entries && IsDir(fs, key.parent)
    && after.entries == fs.entries[key := fs.next] && after.next == fs.next + 1
    && after.inodes.Keys == fs.inodes.Keys + {fs.next}
    && (forall i :: i in fs.inodes ==> (IsDir(after, i) <==> IsDir(fs, i)))
    && (forall i :: i in fs.inodes ==>
          after.inodes[i].nlink == fs.inodes[i].nlink + if dir && i == key.parent then 1 else 0)
    && (IsDir(after, fs.next) <==> dir)
    && after.inodes[fs.next].nlink == if dir then 2 else 1
  }

  lemma AddIsOneMore(fs: Fs, req: Request)
    requires fs.next !in fs.inodes && Parent(fs, req.parent) && KeyOf(req) !in fs.entries
    ensures OneMore(fs, Add(fs, req), KeyOf(req), IsDirMode(req.mode))
  {
    FinalModeKeepsKind(req.mode);
  }

  lemma OneMoreGrounded(fs: Fs, after: Fs, key: Key, dir: bool)
    requires Grounded(fs) && OneMore(fs, after, key, dir)
    ensures Grounded(after)
  {
    forall i | i in after.inodes && i != ROOT
      ensures Named(after, i)
    {
      if i == fs.next {
        assert after.entries[key] == i;
      } else {
        assert Named(fs, i);
        var k :| k in fs.entries && fs.entries[k] == i;
        assert k in after.entries && after.entries[k] == i;
      }
    }
  }

  lemma OneMoreNoSharing(fs: Fs, after: Fs, key: Key, dir: bool)
    requires Grounded(fs) && NoSharing(fs) && OneMore(fs, after, key, dir)
    ensures NoSharing(after)
  {
    assert forall k :: k in fs.entries ==> fs.entries[k] < fs.next;
  }

  lemma OneMoreSubdirs(fs: Fs, after: Fs, key: Key, dir: bool, i: Ino)
    requires Grounded(fs) && OneMore(fs, after, key, dir)
    ensures Subdirs(after, i) == if dir && i == key.parent then Subdirs(fs, i) + {key} else Subdirs(fs, i)
  {
  }

  lemma NoSubdirsYet(fs: Fs)
    requires Grounded(fs)
    ensures Subdirs(fs, fs.next) == {}
  {
  }

  lemma LinksFollow(fs: Fs, after: Fs, key: Key, dir: bool, i: Ino)
    requires OneMore(fs, after, key, dir) && i in after.inodes
    requires Subdirs(after, i) == if dir && i == key.parent then Subdirs(fs, i) + {key} else Subdirs(fs, i)
    requires if i == fs.next then i !in fs.inodes && Subdirs(fs, i) == {} else LinkCount(fs, i)
    ensures LinkCount(after, i)
  {
    assert key !in Subdirs(fs, i);
  }

  lemma OneMoreLinks(fs: Fs, after: Fs, key: Key, dir: bool, i: Ino)
    requires Grounded(fs) && OneMore(fs, after, key, dir) && i in after.inodes
    requires i in fs.inodes ==> LinkCount(fs, i)
    ensures LinkCount(after, i)
  {
    OneMoreSubdirs(fs, after, key, dir, i);
    NoSubdirsYet(fs);
    LinksFollow(fs, after, key, dir, i);
  }

  lemma AddKeepsTree(fs: Fs, req: Request)
    requires Tree(fs) && Parent(fs, req.parent) && KeyOf(req) !in fs.entries
    ensures Tree(Add(fs, req))
  {
    var after, key, dir := Add(fs, req), KeyOf(req), IsDirMode(req.mode);
    AddIsOneMore(fs, req);
    OneMoreGrounded(fs, after, key, dir);
    OneMoreNoSharing(fs, after, key, dir);
    forall i | i in after.inodes
      ensures LinkCount(after, i)
    {
      OneMoreLinks(fs, after, key, dir, i);
    }
  }

  // ---- one path to every inode ----

  function Resolve(fs: Fs, path: seq<string>): Option<Ino>
  {
    if path == [] then Some(ROOT) else
      match Resolve(fs, path[..|path| - 1])
      case None => None
      case Some(dir) =>
        var key := Key(dir, path[|path| - 1]);
        if key in fs.entries then Some(fs.entries[key]) else None
  }

  lemma {:induction false} PathTo(fs: Fs, i: Ino) returns (path: seq<string>)
    requires Grounded(fs) && i in fs.inodes
    ensures Resolve(fs, path) == Some(i)
    decreases i
  {
    if i == ROOT {
      path := [];
    } else {
      assert Named(fs, i);
      var k :| k in fs.entries && fs.entries[k] == i;
      var above := PathTo(fs, k.parent);
      path := above + [k.name];
      assert path[..|path| - 1] == above;
    }
  }

  /** The last component of a path that resolves is an entry naming the inode, which is not the root. */
  lemma LastComponent(fs: Fs, path: seq<string>) returns (key: Key)
    requires Grounded(fs) && path != [] && Resolve(fs, path).Some?
    ensures Resolve(fs, path[..|path| - 1]) == Some(key.parent) && key.name == path[|path| - 1]
    ensures key in fs.entries && fs.entries[key] == Resolve(fs, path).value != ROOT
  {
    key := Key(Resolve(fs, path[..|path| - 1]).value, path[|path| - 1]);
  }

  lemma {:induction false} PathUnique(fs: Fs, p: seq<string>, q: seq<string>)
    requires Grounded(fs) && NoSharing(fs) && Resolve(fs, p).Some? && Resolve(fs, p) == Resolve(fs, q)
    ensures p == q
  {
    if p == [] {
      if q != [] {
        var _ := LastComponent(fs, q);
      }
    } else {
      var k := LastComponent(fs, p);
      if q != [] {
        var m := LastComponent(fs, q);
        PathUnique(fs, p[..|p| - 1], q[..|q| - 1]);
        assert p == p[..|p| - 1] + [k.name] && q == q[..|q| - 1] + [m.name];
      }
    }
  }

  lemma ResolveStep(fs: Fs, path: seq<string>, name: string)
    ensures Resolve(fs, path + [name]) ==
      if Resolve(fs, path).Some? && Key(Resolve(fs, path).value, name) in fs.entries
      then Some(fs.entries[Key(Resolve(fs, path).value, name)]) else None
  {
    assert (path + [name])[..|path|] == path;
  }

  /** `after` has one entry more than `fs`: `key`, for a new inode, in the directory that `above` leads to. */
  ghost predicate OneEntryMore(fs: Fs, after: Fs, key: Key, above: seq<string>)
  {
    && key !in fs.entries && key.parent != fs.next && after.entries == fs.entries[key := fs.next]
    && (forall k :: k in fs.entries ==> k.parent != fs.next)
    && (forall path :: Resolve(fs, path) == Some(key.parent) <==> path == above)
  }

  lemma CreateIsOneEntry(fs: Fs, req: Request, above: seq<string>)
    requires Tree(fs) && Parent(fs, req.parent) && KeyOf(req) !in fs.entries
    requires Resolve(fs, above) == Some(KeyOf(req).parent)
    ensures OneEntryMore(fs, Add(fs, req), KeyOf(req), above)
  {
    forall path | Resolve(fs, path) == Some(KeyOf(req).parent)
      ensures path == above
    {
      PathUnique(fs, path, above);
    }
  }

  /** Paths that do not lead to the new entry resolve as they did. */
  lemma {:induction false} OtherPaths(fs: Fs, after: Fs, key: Key, above: seq<string>, path: seq<string>)
    requires OneEntryMore(fs, after, key, above) && path != above + [key.name]
    ensures Resolve(after, path) == Resolve(fs, path)
    decreases |path|, 0
  {
    if path != [] {
      var q, last := path[..|path| - 1], path[|path| - 1];
      assert path == q + [last];
      ResolveStep(fs, q, last);
      ResolveStep(after, q, last);
      if q == above + [key.name] {
        NewPath(fs, after, key, above);
      } else {
        OtherPaths(fs, after, key, above, q);
      }
    }
  }

  lemma {:induction false} NewPath(fs: Fs, after: Fs, key: Key, above: seq<string>)
    requires OneEntryMore(fs, after, key, above)
    ensures Resolve(fs, above + [key.name]) == None
    ensures Resolve(after, above + [key.name]) == Some(fs.next)
    decreases |above|, 1
  {
    ResolveStep(fs, above, key.name);
    ResolveStep(after, above, key.name);
    OtherPaths(fs, after, key, above, above);
  }

  /**
   * What a creation does to the paths: on success the parent's path followed by the requested name, which
   * led nowhere, leads to the new inode, and every other path leads where it did; on failure all do. A
   * creation the environment lets through fails only because the path is taken.
   */
  lemma CreatedPath(fs: Fs, mounted: bool, req: Request, env: Env, above: seq<string>)
    requires Tree(fs) && Parent(fs, req.parent)
    requires Resolve(fs, above) == Some(if req.parent.Some? then req.parent.value else ROOT)
    ensures var (after, made) := Create(fs, mounted, req, env);
      var path := above + [req.name];
      && (made.Some? <==> Willing(mounted, req, env) && Resolve(fs, path) == None)
      && (made.Some? ==> Resolve(after, path) == made && made.value !in fs.inodes)
      && forall other :: made.None? || other != path ==> Resolve(after, other) == Resolve(fs, other)
  {
    var (after, made) := Create(fs, mounted, req, env);
    ResolveStep(fs, above, req.name);
    if made.Some? {
      CreateIsOneEntry(fs, req, above);
      NewPath(fs, after, KeyOf(req), above);
      forall other | other != above + [req.name]
        ensures Resolve(after, other) == Resolve(fs, other)
      {
        OtherPaths(fs, after, KeyOf(req), above, other);
      }
    }
  }

  // ---- creation scripts ----

  /** The parent a command names: null, or whatever an earlier command returned, null included. */
  datatype ParentRef = Null | ResultOf(index: nat)

  datatype Command = Command(
    name: string, mode: Mode, parent: ParentRef, data: Option<nat>, fops: Option<nat>, env: Env)

  /** A command hands on only what an earlier directory creation returned. */
  predicate WellFormed(script: seq<Command>)
  {
    forall k :: 0 <= k < |script| && script[k].parent.ResultOf? ==>
      script[k].parent.index < k && IsDirMode(script[script[k].parent.index].mode)
  }

  /** What a command came to: the pair it asked for, whether the environment let it, and what it returned. */
  datatype Attempt = Attempt(key: Key, willing: bool, made: Option<Ino>)

  function RequestAt(log: seq<Attempt>, c: Command): Request
    requires c.parent.ResultOf? ==> c.parent.index < |log|
  {
    Request(c.name, c.mode, if c.parent.Null? then None else log[c.parent.index].made, c.data, c.fops)
  }

  /** What was returned stands for an existing inode of the kind that was asked for. */
  ghost predicate ResultsFit(script: seq<Command>, fs: Fs, log: seq<Attempt>)
  {
    && |log| == |script|
    && forall k :: 0 <= k < |script| && log[k].made.Some? ==>
         log[k].made.value in fs.inodes && (IsDir(fs, log[k].made.value) <==> IsDirMode(script[k].mode))
  }

  lemma CreateKeepsTree(fs: Fs, mounted: bool, req: Request, env: Env)
    requires Tree(fs) && Parent(fs, req.parent)
    ensures var (after, made) := Create(fs, mounted, req, env);
      && Tree(after)
      && (forall i :: i in fs.inodes ==> i in after.inodes && (IsDir(after, i) <==> IsDir(fs, i)))
      && (made.Some? ==> made.value in after.inodes && (IsDir(after, made.value) <==> IsDirMode(req.mode)))
  {
    if KeyOf(req) !in fs.entries {
      AddKeepsTree(fs, req);
      AddIsOneMore(fs, req);
    }
  }

  /** One command of a script. */
  function Do(mounted: bool, fs: Fs, log: seq<Attempt>, c: Command): (Fs, seq<Attempt>)
    requires c.parent.ResultOf? ==> c.parent.index < |log|
    requires KeyOf(RequestAt(log, c)).parent in fs.inodes
  {
    var req := RequestAt(log, c);
    var (after, made) := Create(fs, mounted, req, c.env);
    (after, log + [Attempt(KeyOf(req), Willing(mounted, req, c.env), made)])
  }

  /** Every command in turn, from an empty root. */
  function RunScript(mounted: bool, script: seq<Command>): (r: (Fs, seq<Attempt>))
    requires WellFormed(script)
    ensures |r.1| == |script| && ROOT in r.0.inodes
    ensures forall k :: 0 <= k < |script| && r.1[k].made.Some? ==> r.1[k].made.value in r.0.inodes
  {
    if script == [] then (Fresh(), []) else
      var (fs, log) := RunScript(mounted, script[..|script| - 1]);
      Do(mounted, fs, log, script[|script| - 1])
  }

  lemma ParentFits(script: seq<Command>, fs: Fs, log: seq<Attempt>)
    requires WellFormed(script) && script != []
    requires Grounded(fs) && ResultsFit(script[..|script| - 1], fs, log)
    ensures Parent(fs, RequestAt(log, script[|script| - 1]).parent)
  {
  }

  lemma ResultsStayFit(script: seq<Command>, fs: Fs, log: seq<Attempt>, after: Fs, attempt: Attempt)
    requires script != [] && ResultsFit(script[..|script| - 1], fs, log)
    requires forall i :: i in fs.inodes ==> i in after.inodes && (IsDir(after, i) <==> IsDir(fs, i))
    requires attempt.made.Some? ==>
      attempt.made.value in after.inodes && (IsDir(after, attempt.made.value) <==> IsDirMode(script[|script| - 1].mode))
    ensures ResultsFit(script, after, log + [attempt])
  {
  }

  /**
   * Every script, whatever fails on the way, leaves a tree; a null parent or a returned one is always a
   * directory in it.
   */
  lemma {:induction false} ScriptKeepsTree(mounted: bool, script: seq<Command>)
    requires WellFormed(script)
    ensures Tree(RunScript(mounted, script).0)
    ensures ResultsFit(script, RunScript(mounted, script).0, RunScript(mounted, script).1)
  {
    if script == [] {
      FreshTree();
    } else {
      var (fs, log) := RunScript(mounted, script[..|script| - 1]);
      var last := script[|script| - 1];
      ScriptKeepsTree(mounted, script[..|script| - 1]);
      ParentFits(script, fs, log);
      CreateKeepsTree(fs, mounted, RequestAt(log, last), last.env);
      var (after, all) := Do(mounted, fs, log, last);
      ResultsStayFit(script, fs, log, after, all[|log|]);
    }
  }

  /** Attempt k is willing, and no earlier willing attempt asked for the same pair. */
  predicate FirstOfItsName(log: seq<Attempt>, k: nat)
    requires k < |log|
  {
    log[k].willing && forall j :: 0 <= j < k && log[j].key == log[k].key ==> !log[j].willing
  }

  ghost predicate Decided(fs: Fs, log: seq<Attempt>)
  {
    && (forall k :: 0 <= k < |log| ==> (log[k].made.Some? <==> FirstOfItsName(log, k)))
    && (forall k :: 0 <= k < |log| && log[k].made.Some? ==>
          log[k].key in fs.entries && fs.entries[log[k].key] == log[k].made.value)
    && (forall k :: 0 <= k < |log| && log[k].willing ==> log[k].key in fs.entries)
    && (forall e :: e in fs.entries ==> Made(log, e))
  }

  ghost predicate Made(log: seq<Attempt>, e: Key)
  {
    exists k :: 0 <= k < |log| && log[k].made.Some? && log[k].key == e
  }

  /** An inode is what a command asked for; its link count is the tree's business. */
  predicate AsAsked(c: Command, inode: Inode)
  {
    var dir := c.mode.kind == S_IFDIR;
    && inode.mode == Mode(if dir then S_IFDIR else c.mode.kind | S_IFREG, c.mode.bits) && inode.data == c.data
    && inode.fops == if c.fops.Some? then Given(c.fops.value) else if dir then SimpleDir else Unset
  }

  ghost predicate ContentsAsAsked(script: seq<Command>, fs: Fs, log: seq<Attempt>)
    requires |log| == |script|
  {
    forall k :: 0 <= k < |script| && log[k].made.Some? ==>
      log[k].made.value in fs.inodes && AsAsked(script[k], fs.inodes[log[k].made.value])
  }

  lemma ContentsStay(script: seq<Command>, fs: Fs, log: seq<Attempt>, mounted: bool)
    requires WellFormed(script) && script != [] && |log| == |script| - 1
    requires ContentsAsAsked(script[..|script| - 1], fs, log)
    requires fs.next !in fs.inodes && KeyOf(RequestAt(log, script[|script| - 1])).parent in fs.inodes
    ensures var (after, all) := Do(mounted, fs, log, script[|script| - 1]);
      ContentsAsAsked(script, after, all)
  {
    var n := |script| - 1;
    FinalModeKeepsKind(script[n].mode);
    var (after, all) := Do(mounted, fs, log, script[n]);
    forall k | 0 <= k < n && log[k].made.Some?
      ensures log[k].made.value in after.inodes && AsAsked(script[k], after.inodes[log[k].made.value])
    {
      assert AsAsked(script[..n][k], fs.inodes[log[k].made.value]);
    }
  }

  /**
   * The final tree is decided by the first willing command of each pair: that command succeeds, all
   * later ones on the pair fail, the entries are exactly the successes, and behind each entry is the
   * inode its command asked for, whatever came later.
   */
  lemma {:induction false} FirstCreationWins(mounted: bool, script: seq<Command>)
    requires WellFormed(script)
    ensures Decided(RunScript(mounted, script).0, RunScript(mounted, script).1)
    ensures ContentsAsAsked(script, RunScript(mounted, script).0, RunScript(mounted, script).1)
  {
    if script != [] {
      var before := script[..|script| - 1];
      FirstCreationWins(mounted, before);
      var (fs, log) := RunScript(mounted, before);
      DecidedStep(mounted, fs, log, script[|script| - 1]);
      FreshNumber(mounted, before);
      ContentsStay(script, fs, log, mounted);
    }
  }

  lemma FreshNumber(mounted: bool, script: seq<Command>)
    requires WellFormed(script)
    ensures RunScript(mounted, script).0.next !in RunScript(mounted, script).0.inodes
  {
    ScriptKeepsTree(mounted, script);
  }

  /** A name is free exactly when no attempt on it was willing. */
  lemma FreeMeansFirst(fs: Fs, log: seq<Attempt>, key: Key)
    requires Decided(fs, log)
    ensures key !in fs.entries <==> forall j :: 0 <= j < |log| && log[j].key == key ==> !log[j].willing
  {
    if key in fs.entries {
      assert Made(log, key);
    }
  }

  lemma StandingKept(log: seq<Attempt>, all: seq<Attempt>, k: nat)
    requires log <= all && k < |log|
    ensures FirstOfItsName(all, k) <==> FirstOfItsName(log, k)
    ensures log[k].made.Some? ==> Made(all, log[k].key)
  {
    assert forall j :: 0 <= j <= k ==> all[j] == log[j];
  }

  lemma EntriesMade(log: seq<Attempt>, all: seq<Attempt>, entries: map<Key, Ino>, after: map<Key, Ino>)
    requires log < all && |all| == |log| + 1
    requires forall e :: e in entries ==> Made(log, e)
    requires forall e :: e in after && e !in entries ==> all[|log|].made.Some? && all[|log|].key == e
    ensures forall e :: e in after ==> Made(all, e)
  {
    forall e | e in after
      ensures Made(all, e)
    {
      if e in entries {
        assert Made(log, e);
        var k :| 0 <= k < |log| && log[k].made.Some? && log[k].key == e;
        StandingKept(log, all, k);
      } else {
        assert all[|log|].made.Some? && all[|log|].key == e;
      }
    }
  }

  lemma DecidedStep(mounted: bool, fs: Fs, log: seq<Attempt>, c: Command)
    requires c.parent.ResultOf? ==> c.parent.index < |log|
    requires KeyOf(RequestAt(log, c)).parent in fs.inodes && Decided(fs, log)
    ensures Decided(Do(mounted, fs, log, c).0, Do(mounted, fs, log, c).1)
  {
    var (after, all) := Do(mounted, fs, log, c);
    FreeMeansFirst(fs, log, all[|log|].key);
    forall k | 0 <= k < |log|
      ensures FirstOfItsName(all, k) <==> FirstOfItsName(log, k)
    {
      StandingKept(log, all, k);
    }
    EntriesMade(log, all, fs.entries, after.entries);
  }

  predicate Follows(mounted: bool, c: Command, log: seq<Attempt>, k: nat)
    requires k < |log| && (c.parent.ResultOf? ==> c.parent.index < |log|)
  {
    var req := RequestAt(log, c);
    log[k].key == KeyOf(req) && (log[k].willing <==> Willing(mounted, req, c.env))
  }

  /**
   * The log says what the script said: names in order, parents as returned or the root, willingness from
   * the environment.
   */
  lemma {:induction false} LogFollowsScript(mounted: bool, script: seq<Command>, k: nat)
    requires WellFormed(script) && k < |script|
    ensures Follows(mounted, script[k], RunScript(mounted, script).1, k)
    ensures var log, c := RunScript(mounted, script).1, script[k];
      var parent := if c.parent.Null? then None else log[c.parent.index].made;
      && log[k].key == Key(if parent.Some? then parent.value else ROOT, c.name)
      && (log[k].willing <==> (parent.Some? || mounted) && c.env.lookup.None? && c.env.alloc)
  {
    var log := RunScript(mounted, script[..|script| - 1]).1;
    assert log < RunScript(mounted, script).1;
    if k < |script| - 1 {
      LogFollowsScript(mounted, script[..|script| - 1], k);
      FollowsLonger(mounted, script[k], log, RunScript(mounted, script).1, k);
    }
  }

  lemma FollowsLonger(mounted: bool, c: Command, log: seq<Attempt>, all: seq<Attempt>, k: nat)
    requires log <= all && k < |log| && (c.parent.ResultOf? ==> c.parent.index < |log|) && Follows(mounted, c, log, k)
    ensures Follows(mounted, c, all, k)
  {
  }

  // ---- module initialisation ----

  const FILE_MODE: Mode := Mode(S_IFREG, 0x1A4)
  const READ_ONLY: Mode := Mode(S_IFREG, 0x124)
  const FILE_OPERATIONS: nat := 0

  function MakeDir(name: string, env: Env): Command
  {
    Command(name, DIR_MODE, Null, None, None, env)
  }

  function MakeFile(name: string, mode: Mode, dir: nat, env: Env): Command
  {
    Command(name, mode, ResultOf(dir), None, Some(FILE_OPERATIONS), env)
  }

  /** The creations of myfs_init; `envs[k]` is what befalls the k-th. */
  function InitScript(envs: seq<Env>): (script: seq<Command>)
    requires |envs| == 6
    ensures WellFormed(script)
  {
    [MakeDir("First", envs[0]), MakeFile("one", FILE_MODE, 0, envs[1]), MakeFile("two", READ_ONLY, 0, envs[2]),
     MakeDir("Second", envs[3]), MakeFile("one", FILE_MODE, 3, envs[4]), MakeFile("two", FILE_MODE, 3, envs[5])]
  }

  /** The k-th command of a script, run on what the commands before it left. */
  lemma NextCommand(mounted: bool, script: seq<Command>, k: nat)
    requires WellFormed(script) && k < |script|
    ensures var (fs, log) := RunScript(mounted, script[..k]);
      var req := RequestAt(log, script[k]);
      && Parent(fs, req.parent)
      && RunScript(mounted, script[..k + 1]).0 == Create(fs, mounted, req, script[k].env).0
      && (forall j :: 0 <= j < k ==> RunScript(mounted, script[..k + 1]).1[j] == log[j])
      && RunScript(mounted, script[..k + 1]).1[k].made == Create(fs, mounted, req, script[k].env).1
  {
    var now := script[..k + 1];
    assert now[..k] == script[..k];
    var (fs, log) := RunScript(mounted, script[..k]);
    ScriptKeepsTree(mounted, script[..k]);
    ParentFits(now, fs, log);
    DoAppends(mounted, fs, log, script[k]);
  }

  lemma DoAppends(mounted: bool, fs: Fs, log: seq<Attempt>, c: Command)
    requires c.parent.ResultOf? ==> c.parent.index < |log|
    requires KeyOf(RequestAt(log, c)).parent in fs.inodes
    ensures var (after, all) := Do(mounted, fs, log, c);
      && |all| == |log| + 1 && (forall j :: 0 <= j < |log| ==> all[j] == log[j])
      && (after, all[|log|].made) == Create(fs, mounted, RequestAt(log, c), c.env)
  {
  }

  const ALL_WELL: Env := Env(None, true)

  /** A command that meets no obstacle enters its name under its parent. */
  lemma Succeeds(script: seq<Command>, k: nat, dir: Ino)
    requires WellFormed(script) && k < |script| && script[k].env == ALL_WELL
    requires var made := RunScript(true, script[..k]).1;
      if script[k].parent.Null? then dir == ROOT else made[script[k].parent.index].made == Some(dir)
    requires Key(dir, script[k].name) !in RunScript(true, script[..k]).0.entries
    ensures var fs, c := RunScript(true, script[..k]).0, script[k];
      var after := RunScript(true, script[..k + 1]);
      && after.0 == Add(fs, Request(c.name, c.mode, if c.parent.Null? then None else Some(dir), c.data, c.fops))
      && after.1[k].made == Some(fs.next)
  {
    NextCommand(true, script, k);
  }

  function File(bits: nat): Inode
  {
    Inode(Mode(8, bits), 1, Given(FILE_OPERATIONS), None)
  }

  function WithDir(fs: Fs, name: string): Fs
    requires ROOT in fs.inodes
  {
    Fs(fs.inodes[ROOT := fs.inodes[ROOT].(nlink := fs.inodes[ROOT].nlink + 1)]
                [fs.next := Inode(Mode(4, 0x1E4), 2, SimpleDir, None)],
       fs.entries[Key(ROOT, name) := fs.next], fs.next + 1)
  }

  function WithFile(fs: Fs, dir: Ino, name: string, bits: nat): Fs
  {
    Fs(fs.inodes[fs.next := File(bits)], fs.entries[Key(dir, name) := fs.next], fs.next + 1)
  }

  lemma AddDirectory(fs: Fs, name: string)
    requires ROOT in fs.inodes && fs.next !in fs.inodes
    ensures Add(fs, Request(name, DIR_MODE, None, None, None)) == WithDir(fs, name)
  {
  }

  lemma AddFile(fs: Fs, dir: Ino, name: string, mode: Mode)
    requires dir in fs.inodes && fs.next !in fs.inodes && mode.kind == S_IFREG
    ensures Add(fs, Request(name, mode, Some(dir), None, Some(FILE_OPERATIONS)))
         == WithFile(fs, dir, name, mode.bits)
  {
  }

  lemma DirStep(script: seq<Command>, k: nat, name: string)
    requires WellFormed(script) && k < |script| && script[k] == MakeDir(name, ALL_WELL)
    requires Key(ROOT, name) !in RunScript(true, script[..k]).0.entries
    ensures var fs, r := RunScript(true, script[..k]).0, RunScript(true, script[..k + 1]);
      r.1[k].made == Some(fs.next) && r.0 == WithDir(fs, name)
  {
    FreshNumber(true, script[..k]);
    Succeeds(script, k, ROOT);
    AddDirectory(RunScript(true, script[..k]).0, name);
  }

  lemma FileStep(script: seq<Command>, k: nat, name: string, mode: Mode, d: nat, dir: Ino)
    requires WellFormed(script) && d < k < |script| && script[k] == MakeFile(name, mode, d, ALL_WELL)
    requires mode.kind == S_IFREG && RunScript(true, script[..k]).1[d].made == Some(dir)
    requires Key(dir, name) !in RunScript(true, script[..k]).0.entries
    ensures var fs, r := RunScript(true, script[..k]).0, RunScript(true, script[..k + 1]);
      r.1[d].made == Some(dir) && r.0 == WithFile(fs, dir, name, mode.bits)
  {
    FreshNumber(true, script[..k]);
    Succeeds(script, k, dir);
    NextCommand(true, script, k);
    AddFile(RunScript(true, script[..k]).0, dir, name, mode);
  }

  lemma NoneInside(mounted: bool, script: seq<Command>, name: string)
    requires WellFormed(script)
    ensures var fs := RunScript(mounted, script).0; Key(fs.next, name) !in fs.entries && ROOT < fs.next
  {
    ScriptKeepsTree(mounted, script);
  }

  /** A new directory in the root and two files in it. */
  function OneDirectoryMore(fs: Fs, name: string, bits: nat): Fs
    requires ROOT in fs.inodes
  {
    WithFile(WithFile(WithDir(fs, name), fs.next, "one", 0x1A4), fs.next, "two", bits)
  }

  lemma NamesFree(fs: Fs, name: string)
    requires ROOT in fs.inodes && ROOT < fs.next
    requires Key(fs.next, "one") !in fs.entries && Key(fs.next, "two") !in fs.entries
    ensures var f1 := WithDir(fs, name);
      Key(fs.next, "one") !in f1.entries && Key(fs.next, "two") !in WithFile(f1, fs.next, "one", 0x1A4).entries
  {
    assert "one"[0] != "two"[0];
  }

  lemma InitHalf(script: seq<Command>, k: nat, name: string, mode: Mode)
    requires WellFormed(script) && k + 3 <= |script| && mode.kind == S_IFREG
    requires script[k] == MakeDir(name, ALL_WELL) && script[k + 1] == MakeFile("one", FILE_MODE, k, ALL_WELL)
    requires script[k + 2] == MakeFile("two", mode, k, ALL_WELL)
    requires Key(ROOT, name) !in RunScript(true, script[..k]).0.entries
    ensures RunScript(true, script[..k + 3]).0 == OneDirectoryMore(RunScript(true, script[..k]).0, name, mode.bits)
  {
    var fs := RunScript(true, script[..k]).0;
    NoneInside(true, script[..k], "one");
    NoneInside(true, script[..k], "two");
    NamesFree(fs, name);
    DirStep(script, k, name);
    FileStep(script, k + 1, "one", FILE_MODE, k, fs.next);
    FileStep(script, k + 2, "two", mode, k, fs.next);
  }

  /** The six creations of init, with nothing in their way. */
  lemma InitWhole(script: seq<Command>)
    requires WellFormed(script) && |script| == 6
    requires script[0] == MakeDir("First", ALL_WELL) && script[1] == MakeFile("one", FILE_MODE, 0, ALL_WELL)
    requires script[2] == MakeFile("two", READ_ONLY, 0, ALL_WELL) && script[3] == MakeDir("Second", ALL_WELL)
    requires script[4] == MakeFile("one", FILE_MODE, 3, ALL_WELL)
    requires script[5] == MakeFile("two", FILE_MODE, 3, ALL_WELL)
    ensures RunScript(true, script).0 ==
      OneDirectoryMore(OneDirectoryMore(Fresh(), "First", 0x124), "Second", 0x1A4)
  {
    assert script[..0] == [] && script[..6] == script;
    InitHalf(script, 0, "First", READ_ONLY);
    assert "First"[0] != "Second"[0];
    InitHalf(script, 3, "Second", FILE_MODE);
  }

  lemma FirstDirectory(half: Fs)
    requires half == OneDirectoryMore(Fresh(), "First", 0x124)
    ensures half.next == 4
    ensures half.entries == map[Key(ROOT, "First") := 1, Key(1, "one") := 2, Key(1, "two") := 3]
    ensures half.inodes == map[ROOT := Inode(Mode(4, 0x1ED), 3, SimpleDir, None),
                               1 := Inode(Mode(4, 0x1E4), 2, SimpleDir, None), 2 := File(0x1A4), 3 := File(0x124)]
  {
  }

  lemma SecondDirectory(half: Fs)
    requires ROOT in half.inodes && half.next == 4
    ensures var fs := OneDirectoryMore(half, "Second", 0x1A4);
      && fs.entries == half.entries[Key(ROOT, "Second") := 4][Key(4, "one") := 5][Key(4, "two") := 6]
      && fs.inodes == half.inodes[ROOT := half.inodes[ROOT].(nlink := half.inodes[ROOT].nlink + 1)]
                                 [4 := Inode(Mode(4, 0x1E4), 2, SimpleDir, None)]
                                 [5 := File(0x1A4)][6 := File(0x1A4)]
  {
  }

  lemma BothDirectories(fs: Fs)
    requires fs == OneDirectoryMore(OneDirectoryMore(Fresh(), "First", 0x124), "Second", 0x1A4)
    ensures fs.entries == map[Key(ROOT, "First") := 1, Key(1, "one") := 2, Key(1, "two") := 3,
                              Key(ROOT, "Second") := 4, Key(4, "one") := 5, Key(4, "two") := 6]
    ensures fs.inodes == map[ROOT := Inode(Mode(4, 0x1ED), 4, SimpleDir, None),
                             1 := Inode(Mode(4, 0x1E4), 2, SimpleDir, None), 2 := File(0x1A4), 3 := File(0x124),
                             4 := Inode(Mode(4, 0x1E4), 2, SimpleDir, None), 5 := File(0x1A4), 6 := File(0x1A4)]
  {
    var half := OneDirectoryMore(Fresh(), "First", 0x124);
    FirstDirectory(half);
    SecondDirectory(half);
  }

  /**
   * What init leaves when nothing fails: two directories with two files each, all in place under their
   * names; only First/two is read-only.
   */
  lemma InitTree(script: seq<Command>)
    requires script == InitScript(seq(6, _ => ALL_WELL))
    ensures var fs := RunScript(true, script).0;
      && fs.entries == map[Key(ROOT, "First") := 1, Key(1, "one") := 2, Key(1, "two") := 3,
                           Key(ROOT, "Second") := 4, Key(4, "one") := 5, Key(4, "two") := 6]
      && fs.inodes == map[ROOT := Inode(Mode(4, 0x1ED), 4, SimpleDir, None),
                          1 := Inode(Mode(4, 0x1E4), 2, SimpleDir, None), 2 := File(0x1A4), 3 := File(0x124),
                          4 := Inode(Mode(4, 0x1E4), 2, SimpleDir, None), 5 := File(0x1A4), 6 := File(0x1A4)]
  {
    InitWhole(script);
    BothDirectories(RunScript(true, script).0);
  }

  /**
   * myfs_init. When registration fails the creations still run, with nothing mounted; when only the
   * mount fails they do not. A failed directory's null parent sends its files to the root. The value
   * returned is that of register_filesystem, so a failed mount is reported as success.
   */
  method MyfsInit(registration: int, mounts: bool, envs: seq<Env>) returns (m: Module, retval: int)
    requires |envs| == 6
    ensures fresh(m) && m.mounted == (registration == 0 && mounts)
    ensures m.State() ==
      if registration == 0 && !mounts then Fresh() else RunScript(m.mounted, InitScript(envs)).0
    ensures retval == registration
    ensures retval == 0 && !m.mounted <==> registration == 0 && !mounts
  {
    retval := registration;
    m := new Module(retval == 0 && mounts);
    if retval == 0 {
      if !mounts {
        return;
      }
    }
    ghost var script := InitScript(envs);
    assert script[..6] == script;
    var pslot := InitDirectory(m, "First", READ_ONLY, script, 0, envs[0], envs[1], envs[2]);
    pslot := InitDirectory(m, "Second", FILE_MODE, script, 3, envs[3], envs[4], envs[5]);
  }

  /** One directory of myfs_init and the two files in it. */
  method InitDirectory(m: Module, name: string, secondMode: Mode, ghost script: seq<Command>, ghost k: nat,
                       env0: Env, env1: Env, env2: Env)
    returns (pslot: Option<Ino>)
    requires WellFormed(script) && k + 3 <= |script| && m.State() == RunScript(m.mounted, script[..k]).0
    requires script[k] == MakeDir(name, env0) && script[k + 1] == MakeFile("one", FILE_MODE, k, env1)
    requires script[k + 2] == MakeFile("two", secondMode, k, env2)
    modifies m
    ensures m.mounted == old(m.mounted) && m.State() == RunScript(m.mounted, script[..k + 3]).0
  {
    NextCommand(m.mounted, script, k);
    pslot := m.CreatDir(name, None, env0);
    var _ := RunCommand(m, Request("one", FILE_MODE, pslot, None, Some(FILE_OPERATIONS)), env1, script, k + 1);
    var _ := RunCommand(m, Request("two", secondMode, pslot, None, Some(FILE_OPERATIONS)), env2, script, k + 2);
  }

  /** One call of myfs_creat_file, as the k-th command of a script. */
  method RunCommand(m: Module, req: Request, env: Env, ghost script: seq<Command>, ghost k: nat)
    returns (dentry: Option<Ino>)
    requires WellFormed(script) && k < |script| && m.State() == RunScript(m.mounted, script[..k]).0
    requires req == RequestAt(RunScript(m.mounted, script[..k]).1, script[k]) && env == script[k].env
    modifies m
    ensures m.mounted == old(m.mounted) && m.State() == RunScript(m.mounted, script[..k + 1]).0
    ensures forall j :: 0 <= j < k ==>
      RunScript(m.mounted, script[..k + 1]).1[j] == RunScript(m.mounted, script[..k]).1[j]
    ensures RunScript(m.mounted, script[..k + 1]).1[k].made == dentry
  {
    NextCommand(m.mounted, script, k);
    dentry := m.CreatFile(req, env);
  }
}
