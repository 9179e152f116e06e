/** Descriptors: `sys_open`, `sys_close`, `sys_lseek`, `sys_read` and `sys_write` of `fs/file.c`. */
module Descriptors {
  import opened FsBytes
  import opened FsDisk
  import opened FsVolume
  import opened Dirents
  import opened DirVolume
  import opened Namespace
  import opened FileSystem
  import opened OpenFiles

  datatype Whence = SeekSet | SeekCur | SeekEnd

  /** Where a seek leads, or -1 outside the file. */
  function Sought(pos: nat, size: nat, offset: int, whence: Whence): (p: int)
    ensures p == -1 || 0 <= p <= size
  {
    var p := match whence
      case SeekSet => offset
      case SeekCur => pos + offset
      case SeekEnd => size + offset;
    if p < 0 || p > size then -1 else p
  }

  class Table {
    const files: Files
    var slots: seq<Slot>
    var fds: seq<int>

    constructor (files: Files)
      requires files.Ready() && VolShape(files.Image())
      ensures this.files == files && Valid()
      ensures forall k | 0 <= k < |slots| :: slots[k] == Unused
      ensures forall fd | 0 <= fd < |fds| :: fds[fd] == -1
    {
      this.files := files;
      slots := seq(FILE_TABLE_SIZE, i => Unused);
      fds := seq(MAX_FILES_OPEN_PER_PROC, i => -1);
      new;
      hide StoreReady, StoreImage;
      forall i | 0 <= i < INODE_CNT ensures Holders(slots, i) == 0 { NoHolders(slots, i); }
    }

    ghost predicate Valid()
      reads this, files.store
    {
      files.Ready() && SlotsOk(files.Image(), slots) && FdsOk(slots, fds)
    }

    function At(fd: int): Slot
      requires Usable(slots, fds, fd)
      reads this
    {
      slots[fds[fd]]
    }

    /** The slot of `fd` with another position, the rest as it is. */
    function Moved(fd: int, pos: nat): seq<Slot>
      requires Usable(slots, fds, fd) && At(fd).Slot?
      reads this
    {
      slots[fds[fd] := At(fd).(pos := pos)]
    }

    /** A descriptor of a file or directory, not of a device. */
    ghost predicate OnFile(fd: int)
      requires Valid()
      reads this, files.store
      ensures OnFile(fd) ==> Usable(slots, fds, fd) && At(fd).Slot? && VolShape(files.Image()) && At(fd).ino < INODE_CNT
    {
      if Usable(slots, fds, fd) && At(fd).Slot? && At(fd).ftype != FT_CHR then
        SlotFacts(files.Image(), slots, fds[fd]); true
      else false
    }

    ghost function Bytes(fd: int): seq<Byte>
      requires Valid() && OnFile(fd)
      reads this, files.store
    {
      files.Image().files[At(fd).ino]
    }

    /** The file still has a name, and the position is not behind its end. */
    ghost predicate Writable(fd: int)
      requires Valid() && OnFile(fd)
      reads this, files.store
    {
      files.Image().marks[At(fd).ino] && At(fd).pos <= |Bytes(fd)|
    }

    ghost function Wrote(fd: int, buf: seq<Byte>): (Vol, int)
      requires Valid() && OnFile(fd) && Writable(fd)
      reads this, files.store
    {
      WriteVol(files.Image(), At(fd).ino, buf, At(fd).pos)
    }

    // ----- opening and closing

    /** The search of `get_free_slot`. */
    method FreeSlot() returns (k: nat)
      ensures k == FirstFree(slots)
    {
      k := 0;
      while k != |slots| && slots[k] != Unused
        invariant k <= |slots| && forall j | 0 <= j < k :: slots[j] != Unused
        decreases |slots| - k
      {
        k := k + 1;
      }
    }

    /** `free_fd_alloc`. */
    method FreeFd() returns (fd: nat)
      ensures fd == FirstFd(fds)
    {
      fd := 0;
      while fd != |fds| && fds[fd] != -1
        invariant fd <= |fds| && forall j | 0 <= j < fd :: fds[j] != -1
        decreases |fds| - fd
      {
        fd := fd + 1;
      }
    }

    method SysOpen(path: seq<Byte>, ghost t: Tree) returns (r: Ret)
      requires Valid() && path != [] && NsOk(files.Image(), t) && files.held == {}
      modifies this`slots, this`fds, files.store, files`held
      ensures Valid() && (r != Hung ==> files.held == {})
      ensures After(files.Image(), slots, fds, r) == OpenFile(old(files.Image()), old(slots), old(fds), path)
      ensures OpenOutcome(old(files.Image()), old(slots), old(fds), path, After(files.Image(), slots, fds, r))
    {
      hide SlotsOk, FdsOk, StoreReady, StoreImage, Lookedup, NsOk, FirstFree, FirstFd, OpenOutcome;
      ghost var v := files.Image();
      NamedFacts(v, t, path);
      EntryTypes(v, t, path);
      NsWalkable(v, t);
      TableSizes(v, slots, fds);
      OpenKeeps(v, slots, fds, path);
      OpenDoes(v, t, slots, fds, path);
      var l := files.PathPrase(path, Dirs(t));
      match l
      case Hangs(_) => r := Hung;
      case NotADirectory => r := Done(FILE_ISNT_EXIST);
      case Absent(_, _) => r := Done(FILE_ISNT_EXIST);
      case Present(_, e) =>
        var fd := FreeFd();
        if fd == MAX_FILES_OPEN_PER_PROC {
          return Done(FDS_FULL);
        }
        if e.ftype != FT_CHR {
          files.Open(e.ino);
        }
        var k := FreeSlot();
        if k == FILE_TABLE_SIZE {
          return Done(FILE_TABLE_FULL);
        }
        slots := slots[k := Slot(e.ino, if e.ftype == FT_CHR then 1 else 0, e.ftype)];
        fds := fds[fd := k];
        r := Done(fd);
    }

    /** `sys_close`; its ASSERT holds, since a descriptor leads to a slot in use. */
    method SysClose(fd: int) returns (r: int)
      requires Valid() && files.held == {}
      modifies this`slots, this`fds, files.store
      ensures Valid()
      ensures After(files.Image(), slots, fds, Done(r)) == CloseFile(old(files.Image()), old(slots), old(fds), fd)
      ensures CloseOutcome(old(files.Image()), old(slots), old(fds), fd, After(files.Image(), slots, fds, Done(r)))
    {
      hide SlotsOk, StoreReady, StoreImage, CloseOutcome;
      ghost var v := files.Image();
      CloseDoes(v, slots, fds, fd);
      CloseKeeps(v, slots, fds, fd);
      if fd < 0 || fd >= MAX_FILES_OPEN_PER_PROC || fds[fd] < 0 || fds[fd] >= FILE_TABLE_SIZE {
        SizesOf(v, slots);
        return FD_INVALID;
      }
      SizesOf(v, slots);
      var k := fds[fd];
      SlotFacts(v, slots, k);
      var s := slots[k];
      assert s != Unused;
      var clear := true;
      if s.ftype == FT_CHR {
        s := s.(pos := s.pos - 1);
        clear := s.pos == 0;
      } else {
        var closed := files.Close(s.ino);
      }
      slots := slots[k := if clear then Unused else s];
      fds := fds[fd := -1];
      r := 0;
    }

    // ----- positions

    /** A position inside the file, or -1 and nothing changed; a device has no position. */
    method SysLseek(fd: int, offset: int, whence: Whence) returns (r: int)
      requires Valid()
      modifies this`slots
      ensures Valid()
      ensures old(OnFile(fd)) && whence == SeekSet ==> r == if 0 <= offset <= old(|Bytes(fd)|) then offset else -1
      ensures old(OnFile(fd)) && whence == SeekCur ==>
                r == if 0 <= old(At(fd).pos) + offset <= old(|Bytes(fd)|) then old(At(fd).pos) + offset else -1
      ensures old(OnFile(fd)) && whence == SeekEnd ==>
                r == if 0 <= old(|Bytes(fd)|) + offset <= old(|Bytes(fd)|) then old(|Bytes(fd)|) + offset else -1
      ensures if old(OnFile(fd)) then
                r >= -1 && slots == if r == -1 then old(slots) else old(slots)[fds[fd] := old(At(fd)).(pos := r)]
              else slots == old(slots) && r == if old(Usable(slots, fds, fd)) then 0 else FD_INVALID
    {
      hide SlotsOk, StoreReady, StoreImage;
      SizesOf(files.Image(), slots);
      if fd < 0 || fd >= MAX_FILES_OPEN_PER_PROC || fds[fd] < 0 || fds[fd] >= FILE_TABLE_SIZE {
        return FD_INVALID;
      }
      SlotFacts(files.Image(), slots, fds[fd]);
      if slots[fds[fd]].ftype != FT_REG && slots[fds[fd]].ftype != FT_DIR {
        return 0;
      }
      r := SeekSlot(fds[fd], offset, whence);
    }

    method SeekSlot(k: nat, offset: int, whence: Whence) returns (r: int)
      requires Valid() && k < |slots| && slots[k].Slot? && slots[k].ftype != FT_CHR && slots[k].ino < INODE_CNT
      modifies this`slots
      ensures Valid()
      ensures r == old(Sought(slots[k].pos, |files.Image().files[slots[k].ino]|, offset, whence))
      ensures slots == if r == -1 then old(slots) else old(slots)[k := old(slots[k]).(pos := r)]
    {
      hide SlotsOk, StoreReady, StoreImage;
      var s := slots[k];
      SlotFacts(files.Image(), slots, k);
      var size := files.Size(s.ino);
      r := Sought(s.pos, size, offset, whence);
      if r != -1 {
        SlotMoved(files.Image(), files.Image(), slots, k, r);
        slots := slots[k := s.(pos := r)];
      }
    }

    /** The bytes from the position on, and the position behind them.  A device delivers what is typed. */
    method SysRead(fd: int, count: nat, typed: seq<Byte>) returns (r: int, buf: seq<Byte>)
      requires Valid() && count > 0 && |typed| == count
      modifies this`slots
      ensures Valid()
      ensures if old(OnFile(fd)) then
                && buf == old(Slice(Bytes(fd), At(fd).pos, count)) && r == |buf|
                && slots == old(Moved(fd, At(fd).pos + |Slice(Bytes(fd), At(fd).pos, count)|))
              else if old(Usable(slots, fds, fd)) then r == count && buf == typed && slots == old(slots)
              else r == FD_INVALID && buf == [] && slots == old(slots)
    {
      hide Slice, SlotsOk, StoreReady, StoreImage;
      SizesOf(files.Image(), slots);
      if fd < 0 || fd >= MAX_FILES_OPEN_PER_PROC || fds[fd] < 0 || fds[fd] >= FILE_TABLE_SIZE {
        return FD_INVALID, [];
      }
      SlotFacts(files.Image(), slots, fds[fd]);
      if slots[fds[fd]].ftype == FT_CHR {
        return count, typed;
      }
      r, buf := ReadSlot(fds[fd], count);
    }

    method ReadSlot(k: nat, count: nat) returns (r: int, buf: seq<Byte>)
      requires Valid() && k < |slots| && slots[k].Slot? && slots[k].ftype != FT_CHR && slots[k].ino < INODE_CNT && count > 0
      modifies this`slots
      ensures Valid()
      ensures buf == old(Slice(files.Image().files[slots[k].ino], slots[k].pos, count)) && r == |buf|
      ensures slots == old(slots)[k := old(slots[k]).(pos := old(slots[k]).pos + |buf|)]
    {
      hide Slice, SlotsOk, StoreReady, StoreImage;
      var s := slots[k];
      SlotFacts(files.Image(), slots, k);
      buf := files.Read(s.ino, count, s.pos);
      SlotMoved(files.Image(), files.Image(), slots, k, s.pos + |buf|);
      r := |buf|;
      slots := slots[k := s.(pos := s.pos + |buf|)];
    }

    /** `buf` goes to the position of a regular file; a directory is not written, a device takes all of it. */
    method SysWrite(fd: int, buf: seq<Byte>) returns (r: int)
      requires Valid() && buf != [] && (OnFile(fd) && At(fd).ftype == FT_REG ==> Writable(fd))
      modifies this`slots, files.store
      ensures Valid()
      ensures if old(OnFile(fd) && At(fd).ftype == FT_REG) then
                && (files.Image(), r) == old(Wrote(fd, buf))
                && slots == if r < 0 then old(slots) else old(Moved(fd, At(fd).pos + |buf|))
              else slots == old(slots) && files.Image() == old(files.Image())
                   && r == if old(OnFile(fd)) then 0 else if old(Usable(slots, fds, fd)) then |buf| else FD_INVALID
    {
      hide SlotsOk, WriteVol, StoreReady, StoreImage;
      SizesOf(files.Image(), slots);
      if fd < 0 || fd >= MAX_FILES_OPEN_PER_PROC || fds[fd] < 0 || fds[fd] >= FILE_TABLE_SIZE {
        return FD_INVALID;
      }
      SlotFacts(files.Image(), slots, fds[fd]);
      var ftype := slots[fds[fd]].ftype;
      r := 0;
      if ftype == FT_REG {
        r := WriteSlot(fds[fd], buf);
      } else if ftype == FT_CHR {
        r := |buf|;
      }
    }

    method WriteSlot(k: nat, buf: seq<Byte>) returns (r: int)
      requires Valid() && k < |slots| && slots[k].Slot? && slots[k].ftype == FT_REG && slots[k].ino < INODE_CNT
      requires VolShape(files.Image()) && buf != []
      requires files.Image().marks[slots[k].ino] && slots[k].pos <= |files.Image().files[slots[k].ino]|
      modifies this`slots, files.store
      ensures Valid()
      ensures (files.Image(), r) == old(WriteVol(files.Image(), slots[k].ino, buf, slots[k].pos))
      ensures slots == if r < 0 then old(slots) else old(slots[k := slots[k].(pos := slots[k].pos + |buf|)])
    {
      hide SlotsOk, WriteVol, StoreReady, StoreImage;
      ghost var v := files.Image();
      var s := slots[k];
      SlotFacts(v, slots, k);
      r := files.Write(s.ino, buf, s.pos);
      WriteLength(v, s.ino, buf, s.pos);
      SlotMoved(v, files.Image(), slots, k, s.pos + |buf|);
      if r > 0 {
        slots := slots[k := s.(pos := s.pos + r)];
      }
    }
  }

  lemma SizesOf(v: Vol, slots: seq<Slot>)
    requires SlotsOk(v, slots)
    ensures |slots| == FILE_TABLE_SIZE && VolShape(v)
  {
  }

  lemma TableSizes(v: Vol, slots: seq<Slot>, fds: seq<int>)
    requires SlotsOk(v, slots) && FdsOk(slots, fds)
    ensures |slots| == FILE_TABLE_SIZE && |fds| == MAX_FILES_OPEN_PER_PROC && VolShape(v)
  {
  }

  /** An entry names a file, a directory or a device. */
  lemma EntryTypes(v: Vol, t: Tree, path: seq<Byte>)
    requires NsOk(v, t) && path != []
    ensures EntryFound(v, path)
  {
    LookupFacts(v, t, path);
    NamedFacts(v, t, path);
  }

  lemma WriteLength(v: Vol, i: nat, buf: seq<Byte>, offset: nat)
    requires VolShape(v) && i < INODE_CNT && offset <= |v.files[i]|
    ensures var p := WriteVol(v, i, buf, offset); VolShape(p.0) && p.0.opens == v.opens && (p.1 < 0 || p.1 == |buf|)
  {
  }

  // ----- a file read and written through a position

  lemma SliceBytes(c: seq<Byte>, pos: nat, count: nat)
    requires pos <= |c|
    ensures |Slice(c, pos, count)| == if count <= |c| - pos then count else |c| - pos
    ensures Slice(c, pos, count) == c[pos..pos + |Slice(c, pos, count)|]
  {
  }

  /** What a descriptor just opened delivers is the beginning of the file the path names. */
  method OpenThenRead(table: Table, path: seq<Byte>, count: nat, typed: seq<Byte>, ghost t: Tree)
    returns (r: Ret, n: int, buf: seq<Byte>)
    requires table.Valid() && path != [] && NsOk(table.files.Image(), t) && table.files.held == {}
    requires count > 0 && |typed| == count
    modifies table`slots, table`fds, table.files.store, table.files`held
    ensures r.Done? && r.code >= 0 ==>
              var (v, l) := (old(table.files.Image()), Lookedup(old(table.files.Image()), path));
              && l.Present? && n == |buf|
              && (if l.entry.ftype == FT_CHR then buf == typed
                  else l.entry.ino < |v.files| && buf <= v.files[l.entry.ino] && (n == count || n == |v.files[l.entry.ino]|))
  {
    hide SlotsOk, FdsOk, StoreReady, StoreImage, Slice, Lookedup, NsOk, OpenOutcome;
    r := table.SysOpen(path, t);
    n, buf := 0, [];
    if r.Done? && r.code >= 0 {
      OpenedOnFile(table, old(table.files.Image()), t, old(table.slots), old(table.fds), path, r);
      n, buf := table.SysRead(r.code, count, typed);
      if table.OnFile(r.code) { SliceBytes(table.Bytes(r.code), 0, count); }
    }
  }

  lemma OpenedOnFile(table: Table, v: Vol, t: Tree, slots: seq<Slot>, fds: seq<int>, path: seq<Byte>, r: Ret)
    requires table.Valid() && path != [] && NsOk(v, t) && r.Done? && r.code >= 0
    requires OpenOutcome(v, slots, fds, path, After(table.files.Image(), table.slots, table.fds, r))
    ensures var l := Lookedup(v, path);
      && l.Present? && Usable(table.slots, table.fds, r.code) && |v.files| == INODE_CNT
      && table.At(r.code) == Slot(l.entry.ino, if l.entry.ftype == FT_CHR then 1 else 0, l.entry.ftype)
      && (table.OnFile(r.code) <==> l.entry.ftype != FT_CHR)
      && (table.OnFile(r.code) ==> table.Bytes(r.code) == v.files[l.entry.ino])
  {
    NsShape(v, t);
    hide SlotsOk, Lookedup, NsOk, StoreReady, StoreImage;
  }

  /** A seek to `offset` and a read: the bytes of the file from there on. */
  method ReadFrom(table: Table, fd: int, offset: nat, count: nat, typed: seq<Byte>) returns (n: int, buf: seq<Byte>)
    requires table.Valid() && table.OnFile(fd) && offset <= |table.Bytes(fd)| && count > 0 && |typed| == count
    modifies table`slots
    ensures n == |buf| == if count <= old(|table.Bytes(fd)|) - offset then count else old(|table.Bytes(fd)|) - offset
    ensures buf == old(table.Bytes(fd))[offset..offset + |buf|]
    ensures Usable(table.slots, table.fds, fd) && table.At(fd) == old(table.At(fd)).(pos := offset + |buf|)
  {
    hide SlotsOk, StoreReady, StoreImage, Slice;
    SizesOf(table.files.Image(), table.slots);
    var p := table.SysLseek(fd, offset, SeekSet);
    n, buf := table.SysRead(fd, count, typed);
    SliceBytes(table.Bytes(fd), offset, count);
  }

  /** A seek to `tail` bytes before the end and a read of at least as many: the last bytes of the file. */
  method ReadTail(table: Table, fd: int, tail: nat, count: nat, typed: seq<Byte>) returns (n: int, buf: seq<Byte>)
    requires table.Valid() && table.OnFile(fd) && tail <= |table.Bytes(fd)| && count >= tail && count > 0 && |typed| == count
    modifies table`slots
    ensures n == |buf| == tail && buf == old(table.Bytes(fd))[old(|table.Bytes(fd)|) - tail..]
  {
    hide SlotsOk, StoreReady, StoreImage, Slice;
    SizesOf(table.files.Image(), table.slots);
    var back: int := tail;
    var p := table.SysLseek(fd, -back, SeekEnd);
    n, buf := table.SysRead(fd, count, typed);
    SliceBytes(table.Bytes(fd), |table.Bytes(fd)| - tail, count);
  }

  /** A write, a seek back over what was written, and a read: the bytes written. */
  method WriteThenRead(table: Table, fd: int, buf: seq<Byte>) returns (r: int, n: int, got: seq<Byte>)
    requires table.Valid() && table.OnFile(fd) && table.At(fd).ftype == FT_REG && table.Writable(fd) && buf != []
    modifies table`slots, table.files.store
    ensures r >= 0 ==> r == n == |buf| && got == buf
  {
    hide SlotsOk, StoreReady, StoreImage, Slice, WriteVol, Sought;
    ghost var v, s := table.files.Image(), table.At(fd);
    SizesOf(v, table.slots);
    r := table.SysWrite(fd, buf);
    n, got := 0, [];
    if r >= 0 {
      WriteLength(v, s.ino, buf, s.pos);
      WriteSeekRead(v, s, buf);
      SizesOf(table.files.Image(), table.slots);
      var p := table.SysLseek(fd, -|buf|, SeekCur);
      n, got := table.SysRead(fd, |buf|, buf);
    }
  }

  /** A write that succeeds leaves the position inside the file; seeking back and reading gives the bytes written. */
  lemma WriteSeekRead(v: Vol, s: Slot, buf: seq<Byte>)
    requires s.Slot? && VolShape(v) && s.ino < INODE_CNT && s.pos <= |v.files[s.ino]| && buf != []
    requires WriteVol(v, s.ino, buf, s.pos).1 >= 0
    ensures var c := WriteVol(v, s.ino, buf, s.pos).0.files[s.ino];
      var after := s.(pos := s.pos + |buf|);
      && after.pos <= |c| && Sought(after.pos, |c|, -|buf|, SeekCur) == s.pos && Slice(c, s.pos, |buf|) == buf
      && Slice(c, 0, s.pos) == Slice(v.files[s.ino], 0, s.pos)
      && (if s.pos + |buf| <= |v.files[s.ino]| then
            |c| == |v.files[s.ino]| && c[s.pos + |buf|..] == v.files[s.ino][s.pos + |buf|..]
          else |c| == s.pos + |buf|)
  {
    var was := v.files[s.ino];
    var c := Overwrite(was, buf, s.pos);
    assert c[s.pos..s.pos + |buf|] == buf;
    assert c[..s.pos] == was[..s.pos];
  }

  function Concat(chunks: seq<seq<Byte>>): (r: seq<Byte>)
  {
    if chunks == [] then [] else chunks[0] + Concat(chunks[1..])
  }

  /** Reading with any buffer sizes until nothing comes: the pieces read from a position on. */
  function ReadAll(c: seq<Byte>, pos: nat, counts: seq<nat>): (r: seq<seq<Byte>>)
    decreases |counts|
  {
    if counts == [] then []
    else [Slice(c, pos, counts[0])] + ReadAll(c, pos + |Slice(c, pos, counts[0])|, counts[1..])
  }

  function Sum(counts: seq<nat>): nat {
    if counts == [] then 0 else counts[0] + Sum(counts[1..])
  }

  /** Whatever the buffer sizes, the pieces together are one slice of the file: nothing is skipped or read twice. */
  lemma {:induction false} ReadsAreOneSlice(c: seq<Byte>, pos: nat, counts: seq<nat>)
    ensures Concat(ReadAll(c, pos, counts)) == Slice(c, pos, Sum(counts))
    decreases |counts|
  {
    if counts != [] {
      var first := Slice(c, pos, counts[0]);
      ReadsAreOneSlice(c, pos + |first|, counts[1..]);
      assert ReadAll(c, pos, counts)[1..] == ReadAll(c, pos + |first|, counts[1..]);
      SliceSplit(c, pos, counts[0], Sum(counts[1..]));
      hide Slice;
    }
  }

  lemma SliceSplit(c: seq<Byte>, pos: nat, a: nat, b: nat)
    ensures Slice(c, pos, a) + Slice(c, pos + |Slice(c, pos, a)|, b) == Slice(c, pos, a + b)
  {
  }
}
