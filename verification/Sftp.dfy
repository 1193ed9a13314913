/**
 * The SFTP server's write handles and its packet codec.
 *
 * A handle keeps the first 16384 bytes of the file in a buffer, the size reached,
 * and the bytes fed to the running hash. `AcceptedExactlyWhen` says which writes it
 * takes, `BufferIsSparseFile` compares the buffer with the last-write-wins file for
 * writes in any order, `ReportedHashIsOfStoredExactlyWhen` says when the hash is that
 * of the stored bytes, and `ChunkingDoesNotMatter` and `UploadIsStored` follow a
 * sequential upload to the stored file.
 */
module Sftp {
  import opened Endian
  import opened Utf8
  import opened Wrappers
  import FileSystem

  const MAX_UPLOAD_BYTES: int := 64 * 1024 * 1024
  const TWO_63: int := 0x8000_0000_0000_0000

  type u32 = x: int | 0 <= x < 0x1_0000_0000
  type u64 = x: int | 0 <= x < 2 * TWO_63

  /** `int64(offset)`, which is `int(offset)` too. */
  function Signed(offset: u64): int { if offset < TWO_63 then offset else offset - 2 * TWO_63 }

  /** `int64(offset) + int64(len(data))`, which wraps. */
  function End(offset: u64, data: bytes): int {
    (Signed(offset) + |data| + TWO_63) % (2 * TWO_63) - TWO_63
  }

  // ----- one handle as a value -----------------------------------------------------

  datatype Handle = Handle(data: bytes, total: int, hashed: bytes, nextOffset: int)

  /** What opening gives: the old content, or nothing after truncation. */
  function Opened(content: bytes): Handle { Handle(content, |content|, [], 0) }

  function Min(a: int, b: int): int { if a < b then a else b }

  function Zeros(n: nat): bytes { seq(n, _ => 0 as byte) }

  function Grown(data: bytes, need: int): bytes {
    if |data| < need then data + Zeros(need - |data|) else data
  }

  /** The write into the 16384-byte window; an empty write before its start does nothing. */
  function WindowWrite(data: bytes, at: int, d: bytes): bytes {
    if at < 0 || at >= MAX_FILE_BYTES then data else
    var grown := Grown(data, Min(at + |d|, MAX_FILE_BYTES));
    var n := Min(|d|, MAX_FILE_BYTES - at);
    if n > 0 then grown[..at] + d[..n] + grown[at + n..] else grown
  }

  lemma WindowBeyond(data: bytes, at: int, d: bytes)
    ensures at < 0 || at >= MAX_FILE_BYTES ==> WindowWrite(data, at, d) == data
  {}

  /** A negative slice bound makes the session's goroutine panic. */
  datatype Reply = Refused | Done | Panicked

  function ReplyTo(offset: u64, d: bytes): Reply {
    if End(offset, d) > MAX_UPLOAD_BYTES then Refused
    else if Signed(offset) < 0 && d != [] then Panicked
    else Done
  }

  predicate Accepted(offset: u64, d: bytes) { ReplyTo(offset, d) == Done }

  /**
   * A write is accepted iff it ends within 64 MiB - or so far out that its end wraps
   * around; of the offsets that turn negative only empty writes are.
   */
  lemma AcceptedExactlyWhen(offset: u64, d: bytes)
    requires |d| < TWO_63
    ensures Accepted(offset, d) <==>
      if offset < TWO_63 then offset + |d| <= 67108864 || offset + |d| >= TWO_63 else d == []
  {}

  /** One byte at the last positive offset is accepted and dropped. */
  lemma FarWriteIsDropped(h: Handle, x: byte)
    requires 0 <= h.nextOffset <= h.total <= MAX_UPLOAD_BYTES
    ensures Accepted(TWO_63 - 1, [x]) && Written(h, TWO_63 - 1, [x]) == h
  {}

  function Written(h: Handle, offset: u64, d: bytes): Handle {
    if !Accepted(offset, d) then h else
    var sequential := offset == h.nextOffset;
    Handle(
      WindowWrite(h.data, Signed(offset), d),
      if End(offset, d) > h.total then End(offset, d) else h.total,
      if sequential then h.hashed + d else h.hashed,
      if sequential then h.nextOffset + |d| else h.nextOffset)
  }

  /** The bytes whose hash is reported when the handle is closed. */
  function DigestInput(h: Handle): bytes { if h.nextOffset == h.total then h.hashed else h.data }

  class VirtualSFTPHandle {
    var data: bytes
    var total: int
    var hashed: bytes
    var nextOffset: int

    function View(): Handle
      reads this
    {
      Handle(data, total, hashed, nextOffset)
    }

    constructor (content: bytes)
      ensures View() == Opened(content)
    {
      data, total, hashed, nextOffset := content, |content|, [], 0;
    }

    method WriteWindow(offset: int, d: bytes)
      requires 0 <= offset < MAX_FILE_BYTES
      modifies this`data
      ensures data == WindowWrite(old(data), offset, d)
    {
      var need := offset + |d|;
      if need > MAX_FILE_BYTES {
        need := MAX_FILE_BYTES;
      }
      if |data| < need {
        data := data + Zeros(need - |data|);
      }
      var n := |d|;
      if offset + n > MAX_FILE_BYTES {
        n := MAX_FILE_BYTES - offset;
      }
      if n > 0 {
        data := data[..offset] + d[..n] + data[offset + n..];
      }
    }

    /** A panic ends the session, and the handle with it. */
    method Write(offset: u64, d: bytes) returns (reply: Reply)
      modifies this
      ensures reply == ReplyTo(offset, d)
      ensures !reply.Panicked? ==> View() == Written(old(View()), offset, d)
    {
      WindowBeyond(data, Signed(offset), d);
      hide WindowWrite, End;
      var end := End(offset, d);
      if end > MAX_UPLOAD_BYTES {
        return Refused;
      }
      if Signed(offset) < MAX_FILE_BYTES {
        if Signed(offset) < 0 {
          if d != [] {
            return Panicked;
          }
        } else {
          WriteWindow(Signed(offset), d);
        }
      }
      if offset == nextOffset {
        hashed := hashed + d;
        nextOffset := nextOffset + |d|;
      }
      if end > total {
        total := end;
      }
      return Done;
    }

    /** Closing a write handle stores the window and records the full size. */
    method Close(world: FileSystem.VirtualWorld, path: string, now: int) returns (stored: bool)
      modifies world`files, world`fileMeta, world`fileModes
      ensures (world.View(), stored) == Closed(old(world.View()), path, View(), now, world.inferKind)
    {
      stored := world.SetVirtualFile(path, data, now);
      if stored {
        var meta := world.fileMeta[path];
        world.fileMeta := world.fileMeta[path := meta.(size := total)];
      }
    }
  }

  ghost function Closed(fs: FileSystem.Fs, path: string, h: Handle, now: int, kind: FileSystem.Kind)
      : (FileSystem.Fs, bool)
  {
    var (after, ok) := FileSystem.SetFile(fs, path, h.data, now, kind);
    if ok then (after.(meta := after.meta[path := after.meta[path].(size := h.total)]), true) else (fs, false)
  }

  // ----- writes in any order -------------------------------------------------------

  datatype Write = Write(offset: u64, data: bytes)

  predicate Covers(w: Write, i: nat) { w.offset <= i < w.offset + |w.data| }

  function ByteOf(w: Write, i: nat): byte
    requires Covers(w, i)
  {
    w.data[i - w.offset]
  }

  function WrittenAll(h: Handle, ws: seq<Write>): Handle {
    if ws == [] then h
    else Written(WrittenAll(h, ws[..|ws| - 1]), ws[|ws| - 1].offset, ws[|ws| - 1].data)
  }

  function Padded(data: bytes, i: nat): byte { if i < |data| then data[i] else 0 }

  /** Byte `i` of the file the accepted writes describe: the last one that covers it wins. */
  function SparseByte(content: bytes, ws: seq<Write>, i: nat): byte {
    if ws == [] then Padded(content, i) else
    var w := ws[|ws| - 1];
    if Accepted(w.offset, w.data) && Covers(w, i) then ByteOf(w, i)
    else SparseByte(content, ws[..|ws| - 1], i)
  }

  lemma WindowByte(data: bytes, offset: int, d: bytes, i: nat)
    requires i < MAX_FILE_BYTES && (offset >= 0 || d == [])
    ensures Padded(WindowWrite(data, offset, d), i) ==
      if offset <= i < offset + |d| then d[i - offset] else Padded(data, i)
  {
    if 0 <= offset < MAX_FILE_BYTES {
      var grown := Grown(data, Min(offset + |d|, MAX_FILE_BYTES));
      assert Padded(grown, i) == Padded(data, i);
    }
  }

  /** Within the window the buffer is the sparse file, whatever the order of the writes. */
  lemma {:induction false} BufferIsSparseFile(content: bytes, ws: seq<Write>, i: nat)
    requires i < 16384
    ensures Padded(WrittenAll(Opened(content), ws).data, i) == SparseByte(content, ws, i)
  {
    if ws != [] {
      var front, w := ws[..|ws| - 1], ws[|ws| - 1];
      BufferIsSparseFile(content, front, i);
      if Accepted(w.offset, w.data) {
        WindowByte(WrittenAll(Opened(content), front).data, Signed(w.offset), w.data, i);
      }
    }
  }

  // ----- sequential uploads ----------------------------------------------------------

  function Concat(chunks: seq<bytes>): bytes {
    if chunks == [] then [] else Concat(chunks[..|chunks| - 1]) + chunks[|chunks| - 1]
  }

  /** Each chunk is written where the previous one ended. */
  function Sequential(chunks: seq<bytes>): seq<Write>
    requires |Concat(chunks)| < TWO_63
  {
    if chunks == [] then []
    else Sequential(chunks[..|chunks| - 1]) + [Write(|Concat(chunks[..|chunks| - 1])|, chunks[|chunks| - 1])]
  }

  function Window(content: bytes): bytes { content[..Min(|content|, MAX_FILE_BYTES)] }

  /** The handle after a sequential upload depends on the content, not on its chunks. */
  lemma {:induction false} ChunkingDoesNotMatter(chunks: seq<bytes>)
    requires |Concat(chunks)| <= MAX_UPLOAD_BYTES
    ensures var content := Concat(chunks);
      WrittenAll(Opened([]), Sequential(chunks)) == Handle(Window(content), |content|, content, |content|)
  {
    hide Written;
    if chunks != [] {
      var front, d := chunks[..|chunks| - 1], chunks[|chunks| - 1];
      var before := Concat(front);
      ChunkingDoesNotMatter(front);
      var ws := Sequential(chunks);
      assert ws[..|ws| - 1] == Sequential(front) && ws[|ws| - 1] == Write(|before|, d);
      ChunkAppended(before, d);
    }
  }

  lemma ChunkAppended(before: bytes, d: bytes)
    requires |before + d| <= MAX_UPLOAD_BYTES
    ensures Written(Handle(Window(before), |before|, before, |before|), |before|, d)
         == Handle(Window(before + d), |before + d|, before + d, |before + d|)
  {
    hide Window, WindowWrite;
    EndWithin(|before|, d);
    WindowAppend(before, d);
  }

  lemma EndWithin(offset: u64, d: bytes)
    requires offset + |d| <= MAX_UPLOAD_BYTES
    ensures End(offset, d) == offset + |d| && Accepted(offset, d)
  {}

  lemma WindowAppend(before: bytes, d: bytes)
    requires |before| < TWO_63
    ensures WindowWrite(Window(before), |before|, d) == Window(before + d)
  {
    if |before| < MAX_FILE_BYTES {
      assert Window(before) == before;
      var n := Min(|d|, MAX_FILE_BYTES - |before|);
      assert Window(before + d) == before + d[..n];
    } else {
      assert Window(before + d) == Window(before);
    }
  }

  /**
   * A sequential upload that is stored leaves the first 16384 bytes under the path,
   * the full size in the metadata, and reports the hash of the whole content.
   */
  lemma UploadIsStored(fs: FileSystem.Fs, path: string, chunks: seq<bytes>, now: int, kind: FileSystem.Kind)
    requires |Concat(chunks)| <= MAX_UPLOAD_BYTES
    ensures var h := WrittenAll(Opened([]), Sequential(chunks));
      && DigestInput(h) == Concat(chunks)
      && var (after, stored) := Closed(fs, path, h, now, kind);
         if stored
         then after.files == fs.files[path := Window(Concat(chunks))]
           && path in after.meta && after.meta[path].size == |Concat(chunks)|
         else after == fs
  {
    hide Limit, Concat, Sequential, WrittenAll;
    ChunkingDoesNotMatter(chunks);
    WindowIsKept(Concat(chunks));
  }

  /** The window is within the size limit of a file, so storing it cuts nothing. */
  lemma WindowIsKept(content: bytes)
    ensures Limit(Window(content)) == Window(content)
  {}

  // ----- the reported hash ---------------------------------------------------------------

  /** What every write keeps: how far the hash has come, and how far the window is filled. */
  ghost predicate InStep(h: Handle) {
    && 0 <= h.nextOffset == |h.hashed| <= h.total <= MAX_UPLOAD_BYTES
    && Min(h.nextOffset, MAX_FILE_BYTES) <= |h.data| <= Min(h.total, MAX_FILE_BYTES)
  }

  lemma WriteKeepsStep(h: Handle, offset: u64, d: bytes)
    requires InStep(h) && |d| <= MAX_PACKET
    ensures InStep(Written(h, offset, d))
  {
    hide WindowWrite, End;
    AcceptedExactlyWhen(offset, d);
    WindowSize(h.data, Signed(offset), d);
    if Accepted(offset, d) {
      if offset + |d| <= MAX_UPLOAD_BYTES { EndWithin(offset, d); } else { EndBeyond(offset, d); }
    }
  }

  lemma EndBeyond(offset: u64, d: bytes)
    requires Accepted(offset, d) && offset + |d| > MAX_UPLOAD_BYTES && |d| <= MAX_PACKET
    ensures End(offset, d) < 0 && offset > MAX_UPLOAD_BYTES && (Signed(offset) < 0 || Signed(offset) >= MAX_FILE_BYTES)
  {}

  lemma WindowSize(data: bytes, at: int, d: bytes)
    ensures |WindowWrite(data, at, d)| ==
      if 0 <= at < MAX_FILE_BYTES && |data| < Min(at + |d|, MAX_FILE_BYTES) then Min(at + |d|, MAX_FILE_BYTES)
      else |data|
  {}

  lemma {:induction false} RunKeepsStep(content: bytes, ws: seq<Write>)
    requires |content| <= MAX_FILE_BYTES && forall w | w in ws :: |w.data| <= MAX_PACKET
    ensures InStep(WrittenAll(Opened(content), ws))
  {
    hide Written, InStep;
    if ws == [] {
      OpenedInStep(content);
    } else {
      var front, w := ws[..|ws| - 1], ws[|ws| - 1];
      assert w in ws;
      RunKeepsStep(content, front);
      WriteKeepsStep(WrittenAll(Opened(content), front), w.offset, w.data);
    }
  }

  lemma OpenedInStep(content: bytes)
    requires |content| <= MAX_FILE_BYTES
    ensures InStep(Opened(content))
  {}

  /** How many bytes come in order: from writes that start where the last such one ended. */
  function InOrder(ws: seq<Write>): nat {
    if ws == [] then 0 else
    var n, w := InOrder(ws[..|ws| - 1]), ws[|ws| - 1];
    if Accepted(w.offset, w.data) && w.offset == n then n + |w.data| else n
  }

  /** Write `k` is one of them. */
  predicate InSequence(ws: seq<Write>, k: nat)
    requires k < |ws|
  {
    Accepted(ws[k].offset, ws[k].data) && ws[k].offset == InOrder(ws[..k])
  }

  /** The size the file reaches; an accepted write beyond the limit does not count. */
  function Reach(content: bytes, ws: seq<Write>): nat {
    if ws == [] then |content| else
    var size, w := Reach(content, ws[..|ws| - 1]), ws[|ws| - 1];
    var end := w.offset + |w.data|;
    if Accepted(w.offset, w.data) && size < end <= MAX_UPLOAD_BYTES then end else size
  }

  /** What the writes in order brought is what the file holds in the end. */
  ghost predicate NothingOverwritten(content: bytes, ws: seq<Write>) {
    forall k: nat, i: nat | k < |ws| && InSequence(ws, k) && Covers(ws[k], i) ::
      ByteOf(ws[k], i) == SparseByte(content, ws, i)
  }

  lemma {:induction false} HandleOfWrites(content: bytes, ws: seq<Write>)
    requires |content| <= MAX_FILE_BYTES && forall w | w in ws :: |w.data| <= MAX_PACKET
    ensures var h := WrittenAll(Opened(content), ws);
      h.nextOffset == InOrder(ws) && h.total == Reach(content, ws) && InStep(h)
  {
    hide Accepted, End, WindowWrite;
    RunKeepsStep(content, ws);
    if ws != [] {
      var w := ws[|ws| - 1];
      assert w in ws;
      HandleOfWrites(content, ws[..|ws| - 1]);
      if Accepted(w.offset, w.data) { EndOfAccepted(w.offset, w.data); }
    }
  }

  lemma EndOfAccepted(offset: u64, d: bytes)
    requires Accepted(offset, d) && |d| <= MAX_PACKET
    ensures if offset + |d| <= MAX_UPLOAD_BYTES then End(offset, d) == offset + |d| else End(offset, d) < 0
  {
    if offset + |d| <= MAX_UPLOAD_BYTES { EndWithin(offset, d); } else { EndBeyond(offset, d); }
  }

  /** The write in order that brought byte `i`. */
  lemma {:induction false} WhoBrought(ws: seq<Write>, i: nat) returns (k: nat)
    requires i < InOrder(ws)
    ensures k < |ws| && InSequence(ws, k) && Covers(ws[k], i)
  {
    hide Accepted;
    var n := |ws| - 1;
    if i < InOrder(ws[..n]) {
      k := WhoBrought(ws[..n], i);
      assert ws[..n][..k] == ws[..k];
    } else {
      k := n;
    }
  }

  /** The hash is fed what the writes in order bring. */
  lemma {:induction false} HashedByte(content: bytes, ws: seq<Write>, k: nat, i: nat)
    requires |content| <= MAX_FILE_BYTES && forall w | w in ws :: |w.data| <= MAX_PACKET
    requires k < |ws| && InSequence(ws, k) && Covers(ws[k], i)
    ensures var hashed := WrittenAll(Opened(content), ws).hashed;
      |hashed| == InOrder(ws) && i < |hashed| && hashed[i] == ByteOf(ws[k], i)
  {
    hide Accepted, End, WindowWrite;
    var n := |ws| - 1;
    HandleOfWrites(content, ws);
    HandleOfWrites(content, ws[..n]);
    if k < n {
      assert ws[..n][..k] == ws[..k];
      HashedByte(content, ws[..n], k, i);
    }
  }

  /**
   * The hash reported at the end is that of the bytes stored iff the writes in order
   * do not reach to the end of the file, or the file fits the window and no later
   * write changed what they brought.
   */
  lemma ReportedHashIsOfStoredExactlyWhen(content: bytes, ws: seq<Write>)
    requires |content| <= MAX_FILE_BYTES && forall w | w in ws :: |w.data| <= MAX_PACKET
    ensures var h := WrittenAll(Opened(content), ws);
      && InOrder(ws) <= Reach(content, ws)
      && (DigestInput(h) == h.data <==>
            || InOrder(ws) < Reach(content, ws)
            || (Reach(content, ws) <= MAX_FILE_BYTES && NothingOverwritten(content, ws)))
  {
    hide WrittenAll, SparseByte, InOrder, Reach, Accepted;
    HandleOfWrites(content, ws);
    var h := WrittenAll(Opened(content), ws);
    if h.nextOffset == h.total {
      forall i | 0 <= i < |h.data| ensures h.data[i] == SparseByte(content, ws, i) {
        BufferIsSparseFile(content, ws, i);
      }
      HashedIsCurrent(content, ws);
      if h.total <= MAX_FILE_BYTES && NothingOverwritten(content, ws) { assert h.hashed == h.data; }
    }
  }

  lemma HashedIsCurrent(content: bytes, ws: seq<Write>)
    requires |content| <= MAX_FILE_BYTES && forall w | w in ws :: |w.data| <= MAX_PACKET
    ensures var hashed := WrittenAll(Opened(content), ws).hashed;
      (forall i: nat | i < |hashed| :: hashed[i] == SparseByte(content, ws, i)) <==> NothingOverwritten(content, ws)
  {
    hide WrittenAll, SparseByte, InSequence, Covers, InOrder;
    HandleOfWrites(content, ws);
    var hashed := WrittenAll(Opened(content), ws).hashed;
    if NothingOverwritten(content, ws) {
      forall i: nat | i < |hashed| ensures hashed[i] == SparseByte(content, ws, i) {
        var k := WhoBrought(ws, i);
        HashedByte(content, ws, k, i);
      }
    }
    if forall i: nat | i < |hashed| :: hashed[i] == SparseByte(content, ws, i) {
      forall k: nat, i: nat | k < |ws| && InSequence(ws, k) && Covers(ws[k], i)
        ensures ByteOf(ws[k], i) == SparseByte(content, ws, i)
      {
        HashedByte(content, ws, k, i);
      }
    }
  }

  /** A byte written twice at offset 0: the second is stored, the hash of the first is reported. */
  lemma RewriteKeepsOldHash()
    ensures var h := WrittenAll(Opened([]), [Write(0, [1]), Write(0, [2])]);
      h.data == [2] && DigestInput(h) == [1]
  {
    var ws := [Write(0, [1]), Write(0, [2])];
    assert ws[..1] == [Write(0, [1])] && [Write(0, [1])][..0] == [];
    assert WrittenAll(Opened([]), []) == Opened([]);
    assert WrittenAll(Opened([]), [Write(0, [1])]) == Handle([1], 1, [1], 1);
  }

  // ----- the wire format ---------------------------------------------------------------

  function U32(v: u32): (b: bytes)
    ensures |b| == 4
  {
    BigEndian(v, 4)
  }

  function FromU32(b: bytes): u32
    requires |b| == 4
  {
    FromBigEndianInverse(b);
    Powers();
    FromBigEndian(b)
  }

  lemma U32Inverse(v: u32)
    ensures FromU32(U32(v)) == v
  {
    Powers();
    BigEndianInverse(v, 4);
  }

  lemma FromU32Inverse(b: bytes)
    requires |b| == 4
    ensures U32(FromU32(b)) == b
  {
    FromBigEndianInverse(b);
  }

  function U64(v: u64): bytes { BigEndian(v, 8) }

  function FromU64(b: bytes): u64
    requires |b| == 8
  {
    FromBigEndianInverse(b);
    Powers();
    FromBigEndian(b)
  }

  /** `sftpPutString`: a length (of which 32 bits are kept) and the bytes. */
  function Str(s: bytes): bytes { U32(|s| % 0x1_0000_0000) + s }

  method PutU32(b: bytes, v: u32) returns (b': bytes)
    ensures b' == b + U32(v)
  {
    b' := b + U32(v);
  }

  method PutU64(b: bytes, v: u64) returns (b': bytes)
    ensures b' == b + U64(v)
  {
    b' := b + U64(v);
  }

  method PutString(b: bytes, s: bytes) returns (b': bytes)
    ensures b' == b + Str(s)
  {
    b' := PutU32(b, |s| % 0x1_0000_0000);
    b' := b' + s;
  }

  method GetU32(b: bytes, off: nat) returns (v: u32, off': nat, ok: bool)
    requires off <= |b|
    ensures ok <==> off + 4 <= |b|
    ensures off' == if ok then off + 4 else off
    ensures ok ==> U32(v) == b[off..off'] && v == FromU32(b[off..off'])
  {
    hide U32, FromU32;
    if off + 4 > |b| {
      return 0, off, false;
    }
    v := FromU32(b[off..off + 4]);
    FromU32Inverse(b[off..off + 4]);
    return v, off + 4, true;
  }

  method GetU64(b: bytes, off: nat) returns (v: u64, off': nat, ok: bool)
    requires off <= |b|
    ensures ok <==> off + 8 <= |b|
    ensures off' == if ok then off + 8 else off
    ensures ok ==> U64(v) == b[off..off'] && v == FromU64(b[off..off'])
  {
    if off + 8 > |b| {
      return 0, off, false;
    }
    v := FromU64(b[off..off + 8]);
    FromBigEndianInverse(b[off..off + 8]);
    return v, off + 8, true;
  }

  /** On failure the length may already have been consumed. */
  method GetString(b: bytes, off: nat) returns (s: bytes, off': nat, ok: bool)
    requires off <= |b|
    ensures off <= off' <= |b| && (ok ==> |s| < 0x1_0000_0000 && Str(s) == b[off..off'])
    ensures ok <==> exists t: bytes :: StandsAtFront(t, b[off..])
  {
    hide U32, FromU32;
    var n, mid, got := GetU32(b, off);
    if !got || n > |b| - mid {
      StringNeedsRoom(b, off);
      return [], mid, false;
    }
    s := b[mid..mid + n];
    assert b[off..mid + n] == b[off..mid] + s;
    assert StandsAtFront(s, b[off..]) by { assert b[off..][..4 + n] == b[off..mid + n]; }
    return s, mid + n, true;
  }

  /** The field `t` begins the bytes `b`. */
  ghost predicate StandsAtFront(t: bytes, b: bytes) {
    |t| < 0x1_0000_0000 && 4 + |t| <= |b| && Str(t) == b[..4 + |t|]
  }

  lemma FrontLength(t: bytes, b: bytes)
    requires StandsAtFront(t, b)
    ensures b[..4] == U32(|t|) && FromU32(b[..4]) == |t| && b[4..4 + |t|] == t
  {
    hide FromU32;
    U32Inverse(|t|);
    assert b[..4] == Str(t)[..4] && b[4..4 + |t|] == Str(t)[4..];
  }

  /** A field written in front of anything is the only one that can be read there. */
  lemma StringReadsBack(s: bytes, rest: bytes, t: bytes)
    requires |s| < 0x1_0000_0000 && StandsAtFront(t, Str(s) + rest)
    ensures t == s
  {
    hide U32, FromU32;
    var b := Str(s) + rest;
    assert b[..4 + |s|] == Str(s);
    FrontLength(s, b);
    FrontLength(t, b);
  }

  lemma StringNeedsRoom(b: bytes, off: nat)
    requires off <= |b|
    ensures (exists t: bytes :: StandsAtFront(t, b[off..])) ==>
      off + 4 <= |b| && FromU32(b[off..off + 4]) <= |b| - off - 4
  {
    hide U32, FromU32;
    forall t: bytes | StandsAtFront(t, b[off..])
      ensures off + 4 <= |b| && FromU32(b[off..off + 4]) <= |b| - off - 4
    {
      FrontLength(t, b[off..]);
      assert b[off..][..4] == b[off..off + 4];
    }
  }

  // ----- packets --------------------------------------------------------------------------

  const MAX_PACKET := 0x10_0000

  method WritePacket(payload: bytes) returns (wire: bytes)
    ensures wire == Str(payload)
  {
    wire := U32(|payload| % 0x1_0000_0000);
    wire := wire + payload;
  }

  /** One packet from the front of the stream, with what is left of it. */
  function ReadPacket(stream: bytes): Option<(bytes, bytes)> {
    if |stream| < 4 then None else
    var n := FromU32(stream[..4]);
    if n == 0 || n > MAX_PACKET || 4 + n > |stream| then None
    else Some((stream[4..4 + n], stream[4 + n..]))
  }

  method SftpReadPacket(stream: bytes) returns (packet: bytes, rest: bytes, ok: bool)
    ensures ReadPacket(stream) == if ok then Some((packet, rest)) else None
  {
    if |stream| < 4 {
      return [], stream, false;
    }
    var n := FromU32(stream[..4]);
    if n == 0 || n > MAX_PACKET {
      return [], stream[4..], false;
    }
    if 4 + n > |stream| {
      return [], [], false;
    }
    return stream[4..4 + n], stream[4 + n..], true;
  }

  function Frames(packets: seq<bytes>): bytes {
    if packets == [] then [] else Str(packets[0]) + Frames(packets[1..])
  }

  /** A written packet is read back, and nothing after it is touched, iff its size is allowed. */
  lemma PacketReadsBackExactlyWhen(p: bytes, rest: bytes)
    requires |p| < 0x1_0000_0000
    ensures ReadPacket(Str(p) + rest) == Some((p, rest)) <==> 1 <= |p| <= 1048576
  {
    hide U32, FromU32;
    var stream := Str(p) + rest;
    assert stream[..4] == U32(|p|);
    U32Inverse(|p|);
    assert stream[4..4 + |p|] == p && stream[4 + |p|..] == rest;
  }

  function ReadAll(stream: bytes): seq<bytes>
    decreases |stream|
  {
    match ReadPacket(stream)
    case None => []
    case Some((p, rest)) => [p] + ReadAll(rest)
  }

  /** A stream of packets decodes to those packets in order. */
  lemma {:induction false} PacketsReadBack(packets: seq<bytes>)
    requires forall p | p in packets :: 1 <= |p| <= MAX_PACKET
    ensures ReadAll(Frames(packets)) == packets
  {
    hide ReadPacket, Str;
    if packets == [] {
      assert ReadPacket([]) == None by { NoPacket(); }
    } else {
      assert packets[0] in packets;
      PacketReadsBackExactlyWhen(packets[0], Frames(packets[1..]));
      PacketsReadBack(packets[1..]);
    }
  }

  lemma NoPacket()
    ensures ReadPacket([]) == None
  {}
}
