/** Descriptor tables and the reference counts of open files: sysfile.c, file.c, posix/close.c, and the copies of a
    table that fork makes and the closing that exit does.  The outcomes of the lookup, of opening an inode, of making a
    pipe and of closing an inode are parameters. */
module FdTable {
  import opened Common

  const NFILE := 16

  class File {
    var refs: int
    var freed: bool

    constructor ()
      ensures refs == 1 && !freed
    {
      refs, freed := 1, false;
    }
  }

  type Table = seq<File?>

  function Hit(x: File?, f: File): nat {
    if x == f then 1 else 0
  }

  function InTable(t: Table, f: File): nat {
    if t == [] then 0 else InTable(t[..|t| - 1], f) + Hit(t[|t| - 1], f)
  }

  /** How many slots of all tables name a file. */
  function Slots(ts: seq<Table>, f: File): nat {
    if ts == [] then 0 else Slots(ts[..|ts| - 1], f) + InTable(ts[|ts| - 1], f)
  }

  lemma {:induction false} InTableUpdate(t: Table, fd: nat, g: File?, f: File)
    requires fd < |t|
    ensures InTable(t[fd := g], f) + Hit(t[fd], f) == InTable(t, f) + Hit(g, f)
  {
    var n := |t| - 1;
    if fd < n {
      assert t[fd := g][..n] == t[..n][fd := g];
      InTableUpdate(t[..n], fd, g, f);
    } else {
      assert t[fd := g][..n] == t[..n];
    }
  }

  lemma {:induction false} SlotsUpdate(ts: seq<Table>, p: nat, fd: nat, g: File?, f: File)
    requires p < |ts| && fd < |ts[p]|
    ensures Slots(ts[p := ts[p][fd := g]], f) + Hit(ts[p][fd], f) == Slots(ts, f) + Hit(g, f)
  {
    var n, us := |ts| - 1, ts[p := ts[p][fd := g]];
    if p < n {
      assert us[..n] == ts[..n][p := ts[p][fd := g]];
      SlotsUpdate(ts[..n], p, fd, g, f);
    } else {
      assert us[..n] == ts[..n];
      InTableUpdate(ts[p], fd, g, f);
    }
  }

  /** A file no slot names. */
  lemma {:induction false} NotInTable(t: Table, f: File)
    requires f !in t
    ensures InTable(t, f) == 0
  {
    if t == [] {
    } else {
      NotInTable(t[..|t| - 1], f);
    }
  }

  lemma {:induction false} Unnamed(ts: seq<Table>, f: File)
    requires forall p :: 0 <= p < |ts| ==> f !in ts[p]
    ensures Slots(ts, f) == 0
  {
    if ts == [] {
    } else {
      Unnamed(ts[..|ts| - 1], f);
      NotInTable(ts[|ts| - 1], f);
    }
  }

  lemma {:induction false} NamedInTable(t: Table, fd: nat, f: File)
    requires fd < |t| && t[fd] == f
    ensures InTable(t, f) > 0
  {
    if fd == |t| - 1 {
    } else {
      NamedInTable(t[..|t| - 1], fd, f);
    }
  }

  lemma {:induction false} Named(ts: seq<Table>, p: nat, fd: nat, f: File)
    requires p < |ts| && fd < |ts[p]| && ts[p][fd] == f
    ensures Slots(ts, f) > 0
  {
    if p < |ts| - 1 {
      Named(ts[..|ts| - 1], p, fd, f);
    } else {
      NamedInTable(ts[p], fd, f);
    }
  }

  ghost predicate AllTaken(t: Table, n: int) {
    forall k :: 0 <= k < n && k < |t| ==> t[k] != null
  }

  ghost predicate TwoFree(t: Table) {
    exists a, b :: 0 <= a < b < |t| && t[a] == null && t[b] == null
  }

  predicate SlotTaken(before: seq<Table>, after: seq<Table>, p: nat, fd: nat, f: File) {
    p < |before| && fd < |before[p]| && before[p][fd] == null && after == before[p := before[p][fd := f]]
  }

  /** The two lowest free slots were taken, and no other changed. */
  ghost predicate TwoTaken(before: seq<Table>, after: seq<Table>, p: nat, fd0: nat, f0: File, fd1: nat, f1: File) {
    && p < |before| && fd0 < fd1 < |before[p]| && before[p][fd0] == null && before[p][fd1] == null
    && after == before[p := before[p][fd0 := f0][fd1 := f1]]
    && forall k :: 0 <= k < fd1 && k != fd0 ==> before[p][k] != null
  }

  lemma TwoSteps(before: seq<Table>, mid: seq<Table>, after: seq<Table>, p: nat, fd0: nat, f0: File, fd1: nat, f1: File)
    requires SlotTaken(before, mid, p, fd0, f0) && AllTaken(before[p], fd0)
    requires SlotTaken(mid, after, p, fd1, f1) && AllTaken(mid[p], fd1)
    ensures TwoTaken(before, after, p, fd0, f0, fd1, f1)
  {
    forall k | 0 <= k < fd1 && k != fd0 ensures before[p][k] != null {
      assert mid[p][k] == before[p][k];
    }
  }

  class System {
    var tables: seq<Table>
    ghost var files: set<File>

    constructor ()
      ensures Valid() && tables == [seq(NFILE, _ => null)] && files == {}
    {
      tables, files := [seq(NFILE, _ => null)], {};
    }

    ghost predicate Shaped()
      reads this
    {
      forall p :: 0 <= p < |tables| ==>
        |tables[p]| == NFILE && forall fd :: 0 <= fd < NFILE && tables[p][fd] != null ==> tables[p][fd] in files
    }

    /** A file counts the slots that name it, and is freed exactly when there are none. */
    ghost predicate Counted(f: File)
      reads this, f
    {
      (if f.freed then 0 else f.refs) == Slots(tables, f) && (f.freed <==> Slots(tables, f) == 0)
    }

    ghost predicate Valid()
      reads this, files
    {
      Shaped() && forall f :: f in files ==> Counted(f)
    }

    /** What the tables count after one slot changes. */
    twostate predicate SlotChanged(p: nat, fd: nat, new g: File?)
      reads this
    {
      && p < |old(tables)| && fd < |old(tables)[p]|
      && tables == old(tables)[p := old(tables)[p][fd := g]]
      && forall f :: f in files ==> Slots(tables, f) + Hit(old(tables)[p][fd], f) == Slots(old(tables), f) + Hit(g, f)
    }

    method SetSlot(p: nat, fd: nat, g: File?)
      requires Shaped() && p < |tables| && fd < NFILE && (g != null ==> g in files)
      modifies this`tables
      ensures Shaped() && SlotChanged(p, fd, g)
    {
      forall f | f in files
        ensures Slots(tables[p := tables[p][fd := g]], f) + Hit(tables[p][fd], f) == Slots(tables, f) + Hit(g, f)
      {
        SlotsUpdate(tables, p, fd, g, f);
      }
      tables := tables[p := tables[p][fd := g]];
    }

    /** The lowest free slot takes the file. */
    method FdAlloc(p: nat, file: File) returns (fd: int)
      requires Shaped() && p < |tables| && file in files
      modifies this`tables
      ensures Shaped()
      ensures fd == -EMFILE || 0 <= fd < NFILE
      ensures fd == -EMFILE ==> tables == old(tables) && null !in tables[p]
      ensures 0 <= fd ==> old(tables)[p][fd] == null && SlotChanged(p, fd, file) && AllTaken(old(tables)[p], fd)
    {
      fd := 0;
      while fd < NFILE
        invariant 0 <= fd <= NFILE && AllTaken(tables[p], fd) && tables == old(tables)
      {
        if tables[p][fd] == null {
          SetSlot(p, fd, file);
          return;
        }
        fd := fd + 1;
      }
      fd := -EMFILE;
    }

    /** Drops a reference, and frees the file with the last one; the result is that of closing the inode then. */
    method Drop(file: File, iclose: int) returns (err: int)
      requires !file.freed
      modifies file
      ensures file.refs == old(file.refs) - 1 && (file.freed <==> file.refs <= 0)
      ensures err == if file.freed then iclose else 0
    {
      file.refs := file.refs - 1;
      if file.refs > 0 {
        return 0;
      }
      file.freed := true;
      err := iclose;
    }

    predicate IsOpen(p: nat, fd: int)
      reads this
    {
      p < |tables| && 0 <= fd < |tables[p]| && tables[p][fd] != null
    }

    /** A new file, counted for the slot it has not got yet. */
    method FileAlloc() returns (file: File)
      requires Shaped()
      modifies this`files
      ensures Shaped() && fresh(file) && files == old(files) + {file} && file.refs == 1 && !file.freed
      ensures Slots(tables, file) == 0
    {
      file := new File();
      assert forall p :: 0 <= p < |tables| ==> file !in tables[p];
      Unnamed(tables, file);
      files := files + {file};
    }

    method OpenFile(p: nat, lookup: int, iopen: int) returns (fd: int)
      requires Valid() && p < |tables| && lookup <= 0 && iopen <= 0
      modifies this
      ensures Valid() && fresh(files - old(files)) && |tables| == |old(tables)|
      ensures fd == if lookup != 0 then lookup else if iopen != 0 then iopen
                    else if null !in old(tables)[p] then -EMFILE else fd
      ensures lookup == 0 && iopen == 0 && null in old(tables)[p] ==>
                && IsOpen(p, fd) && SlotTaken(old(tables), tables, p, fd, tables[p][fd])
                && fresh(tables[p][fd]) && tables[p][fd].refs == 1 && AllTaken(old(tables)[p], fd)
      ensures lookup != 0 || iopen != 0 || null !in old(tables)[p] ==> tables == old(tables)
    {
      var file := FileAlloc();
      if lookup != 0 {
        file.freed := true;
        return lookup;
      }
      if iopen != 0 {
        file.freed := true;
        return iopen;
      }
      fd := FdAlloc(p, file);
      if fd < 0 {
        file.freed := true;
      }
    }

    method Dup(p: nat, fd: int) returns (fd1: int)
      requires Valid() && p < |tables|
      modifies this`tables, files
      ensures Valid() && |tables| == |old(tables)|
      ensures !old(IsOpen(p, fd)) ==> fd1 == -EBADF && tables == old(tables)
      ensures old(IsOpen(p, fd)) && null !in old(tables)[p] ==> fd1 == -EMFILE && tables == old(tables)
      ensures old(IsOpen(p, fd)) && null in old(tables)[p] ==>
                && 0 <= fd1 && SlotTaken(old(tables), tables, p, fd1, old(tables)[p][fd])
                && AllTaken(old(tables)[p], fd1) && old(tables)[p][fd].refs == old(tables[p][fd].refs) + 1
    {
      if fd < 0 || fd >= NFILE || tables[p][fd] == null {
        return -EBADF;
      }
      var file: File := tables[p][fd];
      Named(tables, p, fd, file);
      fd1 := FdAlloc(p, file);
      if fd1 >= 0 {
        file.refs := file.refs + 1;
      }
    }

    method Close(p: nat, fd: int, iclose: int) returns (err: int)
      requires Valid() && p < |tables|
      modifies this`tables, files
      ensures Valid() && |tables| == |old(tables)|
      ensures !old(IsOpen(p, fd)) ==> err == -EBADF && tables == old(tables)
      ensures old(IsOpen(p, fd)) ==>
                && tables == old(tables)[p := old(tables)[p][fd := null]]
                && err == (if old(tables)[p][fd].freed then iclose else 0)
    {
      if fd < 0 || fd >= NFILE || tables[p][fd] == null {
        return -EBADF;
      }
      var file: File := tables[p][fd];
      Named(tables, p, fd, file);
      err := Drop(file, iclose);
      SetSlot(p, fd, null);
    }

    /** Counts are right but for `fs`, new files without a slot. */
    ghost predicate ValidBut(fs: set<File>)
      reads this, files
    {
      && Shaped() && fs <= files && (forall f :: f in files - fs ==> Counted(f))
      && forall f :: f in fs ==> f.refs == 1 && !f.freed && Slots(tables, f) == 0
    }

    /** Gives a new file a slot. */
    method Place(p: nat, f: File, ghost fs: set<File>) returns (fd: int)
      requires ValidBut(fs) && f in fs && p < |tables|
      modifies this`tables
      ensures fd == -EMFILE || 0 <= fd < NFILE
      ensures fd == -EMFILE ==> tables == old(tables) && null !in tables[p]
      ensures 0 <= fd ==>
                ValidBut(fs - {f}) && SlotTaken(old(tables), tables, p, fd, f) && AllTaken(old(tables)[p], fd)
    {
      fd := FdAlloc(p, f);
      if fd >= 0 {
        forall g | g in files - (fs - {f}) ensures Counted(g) {
          assert g == f || g in files - fs;
        }
      }
    }

    /** Puts two new files in two slots, or neither. */
    method PlaceBoth(p: nat, f0: File, f1: File, made: int) returns (err: int, fd0: int, fd1: int)
      requires ValidBut({f0, f1}) && f0 != f1 && p < |tables| && made <= 0
      modifies this`tables
      ensures |tables| == |old(tables)|
      ensures err == 0 ==> ValidBut({}) && 0 <= fd0 && 0 <= fd1 && TwoTaken(old(tables), tables, p, fd0, f0, fd1, f1)
      ensures err != 0 ==> tables == old(tables)
      ensures err == if TwoFree(old(tables)[p]) then made else -EMFILE
    {
      err, fd1 := 0, 0;
      fd0 := Place(p, f0, {f0, f1});
      if fd0 < 0 {
        return fd0, fd0, fd1;
      }
      assert {f0, f1} - {f0} == {f1} && {f1} - {f1} == {};
      ghost var mid := tables;
      fd1 := Place(p, f1, {f1});
      if fd1 < 0 {
        SetSlot(p, fd0, null);
        assert tables[p] == old(tables[p]);
        return fd1, fd0, fd1;
      }
      if made != 0 {
        SetSlot(p, fd0, null);
        SetSlot(p, fd1, null);
        assert tables[p] == old(tables[p]);
        return made, fd0, fd1;
      }
      TwoSteps(old(tables), mid, tables, p, fd0, f0, fd1, f1);
    }

    /** Two new files in two slots, or none. */
    method OpenPipe(p: nat, made: int) returns (err: int, fd0: int, fd1: int)
      requires Valid() && p < |tables| && made <= 0
      modifies this
      ensures Valid() && fresh(files - old(files)) && |tables| == |old(tables)|
      ensures err == 0 ==>
                && IsOpen(p, fd0) && IsOpen(p, fd1) && tables[p][fd0] != tables[p][fd1]
                && fresh(tables[p][fd0]) && fresh(tables[p][fd1])
                && TwoTaken(old(tables), tables, p, fd0, tables[p][fd0], fd1, tables[p][fd1])
      ensures err != 0 ==> tables == old(tables)
      ensures err == if TwoFree(old(tables)[p]) then made else -EMFILE
    {
      var f0 := FileAlloc();
      var f1 := FileAlloc();
      err, fd0, fd1 := PlaceBoth(p, f0, f1, made);
      if err != 0 {
        f0.freed, f1.freed := true, true;
      }
    }

    /** The last reference to the replaced file goes and closing its inode fails. */
    predicate Torn(p: nat, fd1: int, fd2: int, iclose: int)
      reads this, if IsOpen(p, fd2) then {tables[p][fd2]} else {}
    {
      && IsOpen(p, fd1) && IsOpen(p, fd2) && tables[p][fd1] != tables[p][fd2] && tables[p][fd2].refs == 1
      && iclose != 0
    }

    /** Counts stay right exactly unless the call is torn; then the slot goes on naming a freed file. */
    method Dup2(p: nat, fd1: int, fd2: int, iclose: int) returns (r: int)
      requires Valid() && p < |tables|
      modifies this`tables, files
      ensures |tables| == |old(tables)| && (Valid() <==> !old(Torn(p, fd1, fd2, iclose)))
      ensures old(Torn(p, fd1, fd2, iclose)) ==> r == iclose && tables == old(tables) && tables[p][fd2].freed
      ensures !(old(IsOpen(p, fd1)) && 0 <= fd2 < NFILE) ==> r == -EBADF && tables == old(tables)
      ensures old(IsOpen(p, fd1)) && 0 <= fd2 < NFILE && !old(Torn(p, fd1, fd2, iclose)) ==>
                r == fd2 && tables == old(tables)[p := old(tables)[p][fd2 := old(tables)[p][fd1]]]
    {
      if fd1 < 0 || fd1 >= NFILE || tables[p][fd1] == null {
        return -EBADF;
      }
      if fd2 < 0 || fd2 >= NFILE {
        return -EBADF;
      }
      var f1: File := tables[p][fd1];
      Named(tables, p, fd1, f1);
      if f1 == tables[p][fd2] {
        assert tables[p][fd2 := f1] == tables[p];
        return fd2;
      }
      if tables[p][fd2] != null {
        var f2: File := tables[p][fd2];
        Named(tables, p, fd2, f2);
        var err := Drop(f2, iclose);
        if err != 0 {
          assert f2 in files && !Counted(f2);
          return err;
        }
      }
      f1.refs := f1.refs + 1;
      SetSlot(p, fd2, f1);
      r := fd2;
    }

    /** The table a child gets. */
    method Fork(p: nat)
      requires Valid() && p < |tables|
      modifies this`tables, files
      ensures Valid() && tables == old(tables) + [old(tables)[p]]
    {
      AddTable();
      var q := |tables| - 1;
      for i := 0 to NFILE
        invariant Valid() && q == |tables| - 1 == |old(tables)| && tables[..q] == old(tables)
        invariant forall k :: 0 <= k < NFILE ==> tables[q][k] == if k < i then tables[p][k] else null
      {
        if tables[p][i] != null {
          var file: File := tables[p][i];
          Named(tables, p, i, file);
          file.refs := file.refs + 1;
          SetSlot(q, i, file);
        }
      }
      assert tables[q] == tables[p];
    }

    method AddTable()
      requires Valid()
      modifies this`tables
      ensures Valid() && tables == old(tables) + [seq(NFILE, _ => null)]
    {
      var empty: Table := seq(NFILE, _ => null);
      forall f | f in files ensures Slots(tables + [empty], f) == Slots(tables, f) {
        NotInTable(empty, f);
        assert (tables + [empty])[..|tables|] == tables;
      }
      tables := tables + [empty];
    }

    /** Closes every slot of a process; each outcome of closing an inode is given. */
    method Exit(p: nat, iclose: seq<int>)
      requires Valid() && p < |tables| && |iclose| == NFILE
      modifies this`tables, files
      ensures Valid() && tables == old(tables)[p := seq(NFILE, _ => null)]
    {
      for fd := 0 to NFILE
        invariant Valid() && |tables| == |old(tables)|
        invariant forall q :: 0 <= q < |tables| && q != p ==> tables[q] == old(tables)[q]
        invariant forall k :: 0 <= k < fd ==> tables[p][k] == null
      {
        var err := Close(p, fd, iclose[fd]);
      }
      assert tables[p] == seq(NFILE, _ => null);
    }
  }

  /** Two open files, and one replaced by the other while closing its inode fails: a slot is left on a freed file. */
  method TornExample(iclose: int) returns (s: System)
    requires iclose != 0
    ensures !s.Valid() && s.IsOpen(0, 1) && s.tables[0][1].freed
  {
    s := new System();
    ghost var t := s.tables[0];
    assert t[0] == null;
    var fd0 := s.OpenFile(0, 0, 0);
    t := s.tables[0];
    assert t[1] == null;
    var fd1 := s.OpenFile(0, 0, 0);
    var r := s.Dup2(0, 0, 1, iclose);
  }

  datatype Call =
    | DoOpen(p: nat, lookup: int, iopen: int)
    | DoPipe(p: nat, made: int)
    | DoDup(p: nat, fd: int)
    | DoDup2(p: nat, fd1: int, fd2: int, iclose: int)
    | DoClose(p: nat, fd: int, iclose: int)
    | DoFork(p: nat)
    | DoExit(p: nat, closed: seq<int>)

  /** Any run of calls by any processes keeps the counts, up to the first torn `dup2`. */
  method Run(s: System, calls: seq<Call>) returns (torn: bool)
    requires s.Valid()
    modifies s, s.files
    ensures !torn ==> s.Valid()
    ensures torn ==> !s.Valid()
  {
    for i := 0 to |calls|
      invariant s.Valid() && fresh(s.files - old(s.files))
    {
      var c := calls[i];
      if c.p < |s.tables| {
        match c
        case DoOpen(p, lookup, iopen) =>
          if lookup <= 0 && iopen <= 0 {
            var fd := s.OpenFile(p, lookup, iopen);
          }
        case DoPipe(p, made) =>
          if made <= 0 {
            var err, fd0, fd1 := s.OpenPipe(p, made);
          }
        case DoDup(p, fd) =>
          var fd1 := s.Dup(p, fd);
        case DoDup2(p, fd1, fd2, iclose) =>
          torn := s.Torn(p, fd1, fd2, iclose);
          var r := s.Dup2(p, fd1, fd2, iclose);
          if torn {
            return;
          }
        case DoClose(p, fd, iclose) =>
          var err := s.Close(p, fd, iclose);
        case DoFork(p) =>
          s.Fork(p);
        case DoExit(p, closed) =>
          if |closed| == NFILE {
            s.Exit(p, closed);
          }
      }
    }
    torn := false;
  }
}
