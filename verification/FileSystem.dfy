/**
 * The quota-bounded virtual filesystem: four maps and a directory set that have
 * to stay in step, with limits on their sizes and on the sum of all contents.
 *
 * Main results: `RunStaysWithin` (the limits hold after any sequence of
 * operations), `RefusalsLeaveNoTrace` (a run is the same without what was refused),
 * and when renaming keeps the content (`RenameKeepsContentExactlyWhen`,
 * `MoveKeepsContentExactlyWhen`).
 * Paths are taken as already resolved and cleaned.
 */
module FileSystem {
  import opened Utf8
  import opened Wrappers
  import Maps

  const MAX_FILES := 512
  const MAX_DIRS := 256
  const MAX_TOTAL_BYTES := 512 * 1024
  const DEFAULT_MODE := 0x1A4  // 0644

  datatype Meta = Meta(size: int, modTime: int, kind: string)
  const NO_META := Meta(0, 0, "")

  /** `dynamic` holds what the generated files under /proc and /dev/null read as. */
  datatype Fs = Fs(
    files: map<string, bytes>,
    meta: map<string, Meta>,
    modes: map<string, nat>,
    attrs: map<string, string>,
    dirs: set<string>,
    dynamic: map<string, bytes>)

  // ----- the sum of all contents --------------------------------------------------

  function Size(content: bytes): nat { |content| }

  ghost function TotalBytes(m: map<string, bytes>): nat { Maps.Sum(m, Size) }

  lemma TotalUpdated(m: map<string, bytes>, k: string, v: bytes)
    ensures TotalBytes(m[k := v]) == TotalBytes(m) - |Content(m, k)| + |v|
  {
    Maps.SumUpdated(m, Size, k, v);
  }

  /** A missing entry reads as empty, as in Go. */
  function Content(m: map<string, bytes>, k: string): bytes { if k in m then m[k] else [] }
  function MetaOf(fs: Fs, k: string): Meta { if k in fs.meta then fs.meta[k] else NO_META }
  function ModeOf(fs: Fs, k: string): nat { if k in fs.modes then fs.modes[k] else 0 }
  function AttrsOf(fs: Fs, k: string): string { if k in fs.attrs then fs.attrs[k] else "" }

  predicate Immutable(fs: Fs, target: string) { 'i' in AttrsOf(fs, target) }

  // ----- operations on values -----------------------------------------------------

  /** `Kind` names the kind of a file from its path and stored content; `now` is the clock. */
  type Kind = (string, bytes) -> string

  ghost predicate CanStore(fs: Fs, target: string, stored: bytes) {
    TotalBytes(fs.files) - |Content(fs.files, target)| + |stored| <= MAX_TOTAL_BYTES
  }

  ghost predicate Accepts(fs: Fs, target: string, content: bytes) {
    && !Immutable(fs, target)
    && (target in fs.files || |fs.files| < MAX_FILES)
    && CanStore(fs, target, Limit(content))
  }

  function Stored(fs: Fs, target: string, content: bytes, now: int, kind: Kind): Fs {
    fs.(files := fs.files[target := Limit(content)],
        meta := fs.meta[target := Meta(|content|, now, kind(target, Limit(content)))],
        modes := if ModeOf(fs, target) == 0 then fs.modes[target := DEFAULT_MODE] else fs.modes)
  }

  ghost function SetFile(fs: Fs, target: string, content: bytes, now: int, kind: Kind): (Fs, bool) {
    if Accepts(fs, target, content) then (Stored(fs, target, content, now, kind), true) else (fs, false)
  }

  ghost function AppendFile(fs: Fs, target: string, content: bytes, now: int, kind: Kind): (Fs, bool) {
    SetFile(fs, target, Content(fs.files, target) + content, now, kind)
  }

  function DeleteFile(fs: Fs, target: string): Fs {
    fs.(files := fs.files - {target}, meta := fs.meta - {target},
        modes := fs.modes - {target}, attrs := fs.attrs - {target})
  }

  function SetDir(fs: Fs, target: string): (Fs, bool) {
    if target in fs.dirs then (fs, true)
    else if |fs.dirs| >= MAX_DIRS then (fs, false)
    else (fs.(dirs := fs.dirs + {target}), true)
  }

  function ReadFile(fs: Fs, target: string): Option<bytes> {
    if target in fs.dynamic then Some(fs.dynamic[target])
    else if target in fs.files then Some(fs.files[target]) else None
  }

  /** The SFTP rename: write the new file, copy its attributes, delete the old one. */
  ghost function Rename(fs: Fs, from: string, to: string, now: int, kind: Kind): (Fs, bool) {
    match ReadFile(fs, from)
    case None => (fs, false)
    case Some(content) =>
      var (written, ok) := SetFile(fs, to, content, now, kind);
      if !ok then (fs, false) else
      var moved := written.(
        meta := written.meta[to := MetaOf(fs, from)],
        modes := written.modes[to := ModeOf(fs, from)],
        attrs := written.attrs[to := AttrsOf(fs, from)]);
      (DeleteFile(moved, from), true)
  }

  /** The shell's `mv`, which keeps the fresh attributes. */
  ghost function Move(fs: Fs, from: string, to: string, now: int, kind: Kind): (Fs, bool) {
    if from !in fs.files then (fs, false) else
    var (written, ok) := SetFile(fs, to, fs.files[from], now, kind);
    if ok then (DeleteFile(written, from), true) else (fs, false)
  }

  // ----- the imperative filesystem ---------------------------------------------------

  class VirtualWorld {
    var files: map<string, bytes>
    var fileMeta: map<string, Meta>
    var fileModes: map<string, nat>
    var fileAttrs: map<string, string>
    var dirs: set<string>
    const dynamic: map<string, bytes>
    const inferKind: Kind

    function View(): Fs
      reads this
    {
      Fs(files, fileMeta, fileModes, fileAttrs, dirs, dynamic)
    }

    method StorageBytes() returns (total: nat)
      ensures total == TotalBytes(files)
    {
      total := 0;
      var seen: map<string, bytes> := map[];
      var todo := files.Keys;
      while todo != {}
        invariant todo <= files.Keys && seen == map k | k in files && k !in todo :: files[k]
        invariant total == TotalBytes(seen)
        decreases |todo|
      {
        var k :| k in todo;
        todo := todo - {k};
        TotalUpdated(seen, k, files[k]);
        total := total + |files[k]|;
        seen := seen[k := files[k]];
      }
      assert seen == files;
    }

    method CanStoreVirtualContent(target: string, stored: bytes) returns (ok: bool)
      ensures ok == CanStore(View(), target, stored)
    {
      var total := StorageBytes();
      var current := if target in files then |files[target]| else 0;
      ok := total - current + |stored| <= MAX_TOTAL_BYTES;
    }

    method SetVirtualDir(target: string) returns (ok: bool)
      modifies this`dirs
      ensures (View(), ok) == SetDir(old(View()), target)
      ensures ok == (target in old(dirs) || |old(dirs)| < 256)
      ensures dirs == if ok then old(dirs) + {target} else old(dirs)
    {
      if target in dirs {
        return true;
      }
      if |dirs| >= MAX_DIRS {
        return false;
      }
      dirs := dirs + {target};
      return true;
    }

    method SetVirtualFile(target: string, content: bytes, now: int) returns (ok: bool)
      modifies this`files, this`fileMeta, this`fileModes
      ensures (View(), ok) == SetFile(old(View()), target, content, now, inferKind)
      ensures ok ==>
        && files == old(files)[target := Limit(content)]
        && fileMeta == old(fileMeta)[target := Meta(|content|, now, inferKind(target, Limit(content)))]
        && fileModes == if target in old(fileModes) && old(fileModes)[target] != 0 then old(fileModes)
             else old(fileModes)[target := 420]
    {
      if target in fileAttrs && 'i' in fileAttrs[target] {
        return false;
      }
      if target !in files && |files| >= MAX_FILES {
        return false;
      }
      var stored := LimitVirtualContent(content);
      var fits := CanStoreVirtualContent(target, stored);
      if !fits {
        return false;
      }
      files := files[target := stored];
      fileMeta := fileMeta[target := Meta(|content|, now, inferKind(target, stored))];
      if target !in fileModes || fileModes[target] == 0 {
        fileModes := fileModes[target := DEFAULT_MODE];
      }
      return true;
    }

    method AppendVirtualFile(target: string, content: bytes, now: int) returns (ok: bool)
      modifies this`files, this`fileMeta, this`fileModes
      ensures (View(), ok) == AppendFile(old(View()), target, content, now, inferKind)
      ensures ok ==> files == old(files)[
        target := Limit((if target in old(files) then old(files)[target] else []) + content)]
    {
      if target in fileAttrs && 'i' in fileAttrs[target] {
        return false;
      }
      var previous := if target in files then files[target] else [];
      if target !in files && |files| >= MAX_FILES {
        return false;
      }
      var combined := previous + content;
      var stored := LimitVirtualContent(combined);
      var fits := CanStoreVirtualContent(target, stored);
      if !fits {
        return false;
      }
      files := files[target := stored];
      fileMeta := fileMeta[target := Meta(|combined|, now, inferKind(target, stored))];
      if target !in fileModes || fileModes[target] == 0 {
        fileModes := fileModes[target := DEFAULT_MODE];
      }
      return true;
    }

    method DeleteVirtualFile(target: string)
      modifies this`files, this`fileMeta, this`fileModes, this`fileAttrs
      ensures View() == DeleteFile(old(View()), target)
      ensures files == old(files) - {target} && fileMeta == old(fileMeta) - {target}
      ensures fileModes == old(fileModes) - {target} && fileAttrs == old(fileAttrs) - {target}
    {
      files := files - {target};
      fileMeta := fileMeta - {target};
      fileModes := fileModes - {target};
      fileAttrs := fileAttrs - {target};
    }

    /** The rename request of the SFTP server. */
    method RenameVirtualFile(from: string, to: string, now: int) returns (ok: bool)
      modifies this`files, this`fileMeta, this`fileModes, this`fileAttrs
      ensures (View(), ok) == Rename(old(View()), from, to, now, inferKind)
    {
      hide Accepts, Limit, MetaOf, ModeOf, AttrsOf;
      var content := ReadFile(View(), from);
      if content == None {
        return false;
      }
      var meta, mode, attrs := MetaOf(View(), from), ModeOf(View(), from), AttrsOf(View(), from);
      ok := SetVirtualFile(to, content.value, now);
      if ok {
        fileMeta := fileMeta[to := meta];
        fileModes := fileModes[to := mode];
        fileAttrs := fileAttrs[to := attrs];
        DeleteVirtualFile(from);
      }
    }

    /** The shell's `mv`. */
    method MoveVirtualFile(from: string, to: string, now: int) returns (ok: bool)
      modifies this`files, this`fileMeta, this`fileModes, this`fileAttrs
      ensures (View(), ok) == Move(old(View()), from, to, now, inferKind)
    {
      if from !in files {
        return false;
      }
      ok := SetVirtualFile(to, files[from], now);
      if ok {
        DeleteVirtualFile(from);
      }
    }
  }

  // ----- the quotas, over whole runs ---------------------------------------------------

  ghost predicate Within(fs: Fs) {
    && |fs.files| <= MAX_FILES && |fs.dirs| <= MAX_DIRS
    && (forall k | k in fs.files :: |fs.files[k]| <= MAX_FILE_BYTES)
    && TotalBytes(fs.files) <= MAX_TOTAL_BYTES
    && fs.meta.Keys == fs.files.Keys
  }

  datatype Op =
    | Set(target: string, content: bytes, now: int)
    | Append(target: string, content: bytes, now: int)
    | Delete(target: string)
    | Mkdir(target: string)
    | Rmdir(target: string)
    | Chmod(target: string, mode: nat)
    | Chattr(target: string, attrs: string)
    | SftpRename(from: string, to: string, now: int)
    | ShellMove(from: string, to: string, now: int)

  ghost function Apply(fs: Fs, op: Op, kind: Kind): (Fs, bool) {
    match op
    case Set(target, content, now) => SetFile(fs, target, content, now, kind)
    case Append(target, content, now) => AppendFile(fs, target, content, now, kind)
    case Delete(target) => (DeleteFile(fs, target), true)
    case Mkdir(target) => SetDir(fs, target)
    case Rmdir(target) => if target in fs.dirs then (fs.(dirs := fs.dirs - {target}), true) else (fs, false)
    case Chmod(target, mode) =>
      if target in fs.files then (fs.(modes := fs.modes[target := mode]), true) else (fs, false)
    case Chattr(target, attrs) => (fs.(attrs := fs.attrs[target := attrs]), true)
    case SftpRename(from, to, now) => Rename(fs, from, to, now, kind)
    case ShellMove(from, to, now) => Move(fs, from, to, now, kind)
  }

  ghost function Run(fs: Fs, ops: seq<Op>, kind: Kind): Fs {
    if ops == [] then fs else Apply(Run(fs, ops[..|ops| - 1], kind), ops[|ops| - 1], kind).0
  }

  lemma SetStaysWithin(fs: Fs, target: string, content: bytes, now: int, kind: Kind)
    requires Within(fs)
    ensures Within(SetFile(fs, target, content, now, kind).0)
  {
    hide TotalBytes, Limit;
    LimitMeaning(content);
    if Accepts(fs, target, content) {
      TotalUpdated(fs.files, target, Limit(content));
      Maps.CountUpdated(fs.files, target, Limit(content));
    }
  }

  lemma DeleteStaysWithin(fs: Fs, target: string)
    requires Within(fs)
    ensures Within(DeleteFile(fs, target))
  {
    hide Maps.Sum;
    Maps.Removed(fs.files, Size, target);
  }

  lemma MoveStaysWithin(fs: Fs, from: string, to: string, now: int, kind: Kind)
    requires Within(fs)
    ensures Within(Move(fs, from, to, now, kind).0)
  {
    hide SetFile, DeleteFile, Within;
    if from in fs.files {
      SetStaysWithin(fs, to, fs.files[from], now, kind);
      DeleteStaysWithin(SetFile(fs, to, fs.files[from], now, kind).0, from);
    }
  }

  lemma RenameStaysWithin(fs: Fs, from: string, to: string, now: int, kind: Kind)
    requires Within(fs)
    ensures Within(Rename(fs, from, to, now, kind).0)
  {
    hide DeleteFile, Within, Accepts, Limit;
    var content := ReadFile(fs, from);
    if content.Some? && Accepts(fs, to, content.value) {
      SetStaysWithin(fs, to, content.value, now, kind);
      var written := Stored(fs, to, content.value, now, kind);
      var moved := written.(
        meta := written.meta[to := MetaOf(fs, from)],
        modes := written.modes[to := ModeOf(fs, from)],
        attrs := written.attrs[to := AttrsOf(fs, from)]);
      AttributesStayWithin(written, moved, to);
      DeleteStaysWithin(moved, from);
    }
  }

  /** Overwriting the attributes of an existing file touches no limit. */
  lemma AttributesStayWithin(fs: Fs, fs': Fs, target: string)
    requires Within(fs) && target in fs.files && fs'.files == fs.files && fs'.dirs == fs.dirs
    requires fs'.meta.Keys == fs.meta.Keys + {target}
    ensures Within(fs')
  {
    hide TotalBytes;
    assert fs'.meta.Keys == fs.meta.Keys;
  }

  lemma ApplyStaysWithin(fs: Fs, op: Op, kind: Kind)
    requires Within(fs)
    ensures Within(Apply(fs, op, kind).0)
  {
    hide TotalBytes, SetFile, DeleteFile, Rename, Move;
    match op
    case Set(target, content, now) => SetStaysWithin(fs, target, content, now, kind);
    case Append(target, content, now) => SetStaysWithin(fs, target, Content(fs.files, target) + content, now, kind);
    case Delete(target) => DeleteStaysWithin(fs, target);
    case SftpRename(from, to, now) => RenameStaysWithin(fs, from, to, now, kind);
    case ShellMove(from, to, now) => MoveStaysWithin(fs, from, to, now, kind);
    case _ =>
  }

  /** Every limit holds after every sequence of operations, and files and metadata stay in step. */
  lemma {:induction false} RunStaysWithin(fs: Fs, ops: seq<Op>, kind: Kind)
    requires Within(fs)
    ensures Within(Run(fs, ops, kind))
    ensures var r := Run(fs, ops, kind);
      && |r.files| <= 512 && |r.dirs| <= 256 && TotalBytes(r.files) <= 524288 && r.meta.Keys == r.files.Keys
      && forall k | k in r.files :: |r.files[k]| <= 16384
  {
    hide Apply, TotalBytes;
    if ops != [] {
      RunStaysWithin(fs, ops[..|ops| - 1], kind);
      ApplyStaysWithin(Run(fs, ops[..|ops| - 1], kind), ops[|ops| - 1], kind);
    }
  }

  /** A refused operation changes nothing at all. */
  lemma RefusedChangesNothing(fs: Fs, op: Op, kind: Kind)
    requires !Apply(fs, op, kind).1
    ensures Apply(fs, op, kind).0 == fs
  {}

  /** A write or an append is accepted iff the file is not immutable and the limits allow it. */
  lemma AcceptedExactlyWhen(fs: Fs, target: string, content: bytes, now: int, kind: Kind)
    ensures var prior := if target in fs.files then fs.files[target] else [];
      && (SetFile(fs, target, content, now, kind).1 <==>
            && !(target in fs.attrs && 'i' in fs.attrs[target])
            && (target in fs.files || |fs.files| < 512)
            && TotalBytes(fs.files) - |prior| + |Limit(content)| <= 524288)
      && AppendFile(fs, target, content, now, kind) == SetFile(fs, target, prior + content, now, kind)
  {
    hide TotalBytes, Limit;
  }

  /** Appending twice is appending once what belongs together. */
  lemma AppendsJoin(fs: Fs, target: string, a: bytes, b: bytes, now: int, kind: Kind)
    requires AppendFile(fs, target, a, now, kind).1
    requires |Content(fs.files, target)| + |a| + |b| <= 16384
    ensures var twice := AppendFile(AppendFile(fs, target, a, now, kind).0, target, b, now, kind);
      var joined := AppendFile(fs, target, a + b, now, kind);
      twice.1 == joined.1 && (twice.1 ==> twice.0 == joined.0)
  {
    hide Maps.Sum;
    var prior := Content(fs.files, target);
    LimitKeeps(prior + a);
    LimitKeeps(prior + a + b);
    assert prior + a + b == prior + (a + b);
    TotalUpdated(fs.files, target, prior + a);
    var once := AppendFile(fs, target, a, now, kind).0;
    assert Content(once.files, target) == prior + a;
    assert once.files[target := prior + (a + b)] == fs.files[target := prior + (a + b)];
    var meta := Meta(|prior + a + b|, now, kind(target, prior + (a + b)));
    assert once.meta[target := meta] == fs.meta[target := meta];
  }

  /** The operations of a run that were not refused. */
  ghost function Effective(fs: Fs, ops: seq<Op>, kind: Kind): seq<Op> {
    if ops == [] then []
    else
      var front, op := ops[..|ops| - 1], ops[|ops| - 1];
      Effective(fs, front, kind) + if Apply(Run(fs, front, kind), op, kind).1 then [op] else []
  }

  /** A run ends in the same state without its refused operations. */
  lemma {:induction false} RefusalsLeaveNoTrace(fs: Fs, ops: seq<Op>, kind: Kind)
    ensures Run(fs, Effective(fs, ops, kind), kind) == Run(fs, ops, kind)
  {
    hide Apply;
    if ops != [] {
      var front, op := ops[..|ops| - 1], ops[|ops| - 1];
      var kept := Effective(fs, front, kind);
      RefusalsLeaveNoTrace(fs, front, kind);
      if Apply(Run(fs, front, kind), op, kind).1 {
        assert (kept + [op])[..|kept|] == kept;
      } else {
        RefusedChangesNothing(Run(fs, front, kind), op, kind);
        assert kept + [] == kept;
      }
    }
  }

  /**
   * A file renamed by SFTP is found under its new name with its content and
   * attributes, and nothing else changes - unless both names are the same path,
   * in which case the file is gone.
   */
  lemma RenameKeepsContentExactlyWhen(fs: Fs, from: string, to: string, now: int, kind: Kind)
    requires Within(fs) && from in fs.files && from !in fs.dynamic
    requires Rename(fs, from, to, now, kind).1
    ensures var after := Rename(fs, from, to, now, kind).0;
      && (to in after.files && after.files[to] == fs.files[from] <==> from != to)
      && from !in after.files
      && (from != to ==> after == fs.(
            files := (fs.files - {from})[to := fs.files[from]],
            meta := (fs.meta - {from})[to := fs.meta[from]],
            modes := (fs.modes - {from})[to := ModeOf(fs, from)],
            attrs := (fs.attrs - {from})[to := AttrsOf(fs, from)]))
  {
    hide Accepts, Limit, ModeOf, AttrsOf, TotalBytes;
    LimitKeeps(fs.files[from]);
    if from != to {
      Swapped(fs.files, from, to, fs.files[from]);
      Swapped(fs.meta, from, to, MetaOf(fs, from));
      Swapped(fs.modes, from, to, ModeOf(fs, from));
      Swapped(fs.attrs, from, to, AttrsOf(fs, from));
    }
  }

  /** When the two moves are accepted, and what a renamed generated file leaves behind: its content as a plain file. */
  lemma MovedExactlyWhen(fs: Fs, from: string, to: string, now: int, kind: Kind)
    ensures Move(fs, from, to, now, kind).1 <==>
      from in fs.files && SetFile(fs, to, fs.files[from], now, kind).1
    ensures from in fs.dynamic ==>
      Rename(fs, from, to, now, kind).1 == SetFile(fs, to, fs.dynamic[from], now, kind).1
    ensures from !in fs.dynamic ==>
      (Rename(fs, from, to, now, kind).1 <==> from in fs.files && SetFile(fs, to, fs.files[from], now, kind).1)
    ensures from in fs.dynamic && from != to && Rename(fs, from, to, now, kind).1 ==>
      Rename(fs, from, to, now, kind).0.files == fs.files[to := Limit(fs.dynamic[from])] - {from}
  {
    hide Accepts, Limit;
  }

  lemma LimitKeeps(content: bytes)
    requires |content| <= MAX_FILE_BYTES
    ensures Limit(content) == content
  {}

  /** Storing under the new key, whatever was there, then deleting the old one. */
  lemma Swapped<V>(m: map<string, V>, from: string, to: string, v: V)
    requires from != to
    ensures m[to := v] - {from} == (m - {from})[to := v]
  {}

  /** The same for `mv`, which keeps the mode of an existing target and dates the file anew. */
  lemma MoveKeepsContentExactlyWhen(fs: Fs, from: string, to: string, now: int, kind: Kind)
    requires Within(fs) && Move(fs, from, to, now, kind).1
    ensures var after := Move(fs, from, to, now, kind).0;
      && (to in after.files && after.files[to] == fs.files[from] <==> from != to)
      && from !in after.files
      && (from != to ==> after == fs.(
            files := (fs.files - {from})[to := fs.files[from]],
            meta := (fs.meta - {from})[to := Meta(|fs.files[from]|, now, kind(to, fs.files[from]))],
            modes := (if ModeOf(fs, to) == 0 then (fs.modes - {from})[to := DEFAULT_MODE] else fs.modes - {from}),
            attrs := fs.attrs - {from}))
  {
    hide Accepts, Limit, ModeOf, TotalBytes;
    LimitKeeps(fs.files[from]);
    if from != to {
      Swapped(fs.files, from, to, fs.files[from]);
      Swapped(fs.meta, from, to, Meta(|fs.files[from]|, now, kind(to, fs.files[from])));
      Swapped(fs.modes, from, to, DEFAULT_MODE);
    }
  }

  /** `mv /a /a` and the SFTP rename of `/a` to `/a` on a machine with that one file: both succeed. */
  lemma OntoItselfDeletes(now: int, kind: Kind)
    ensures var fs := Fs(map["/a" := [1]], map["/a" := Meta(1, 0, "")], map[], map[], {}, map[]);
      && Rename(fs, "/a", "/a", now, kind).1 && Rename(fs, "/a", "/a", now, kind).0.files == map[]
      && Move(fs, "/a", "/a", now, kind).1 && Move(fs, "/a", "/a", now, kind).0.files == map[]
  {
    var files: map<string, bytes> := map["/a" := [1]];
    assert TotalBytes(files) == 1 by {
      Maps.SumWithout(files, Size, "/a");
      assert files - {"/a"} == map[];
    }
    assert Limit([1]) == [1];
    assert files["/a" := [1]] - {"/a"} == map[];
  }
}
