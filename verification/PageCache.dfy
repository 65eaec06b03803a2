/** The page cache of mapping.c over the tree of btree.c, and the page-wise read of inode_helpers.c. */
module PageCache {
  import opened BTree
  import opened Common

  const PAGESZ := 0x1000

  /** Where a page starts in the file; offsets are 32 bits wide. */
  function Offset(pgno: nat): nat {
    pgno * PAGESZ % WORD
  }

  /** The bytes of a file in one page, filled up with zeros. */
  function PageOf(file: seq<byte>, offset: nat): (p: seq<byte>)
    ensures |p| == PAGESZ
  {
    seq(PAGESZ, i requires 0 <= i => if offset + i < |file| then file[offset + i] else 0)
  }

  class Page {
    var bytes: seq<byte>
    var valid: bool
    ghost const pgno: nat

    constructor (ghost pgno: nat)
      ensures bytes == seq(PAGESZ, _ => 0) && !valid && this.pgno == pgno
    {
      bytes, valid, this.pgno := seq(PAGESZ, _ => 0), false, pgno;
    }
  }

  class Mapping {
    const file: seq<byte>
    const tree: BTree<Page>
    var nrpages: int
    ghost var pages: set<Page>
    ghost var repr: set<object>

    constructor (file: seq<byte>)
      requires |file| < WORD
      ensures Valid() && this.file == file && fresh(repr)
      ensures Cached() == map[]
    {
      this.file, nrpages, pages := file, 0, {};
      tree := new BTree();
      repr := {tree};
    }

    ghost function Cached(): map<nat, Page>
      reads this, tree
    {
      tree.Contents()
    }

    /** A valid page holds the bytes of the file at its offset; any page is zero behind the end of the file. */
    ghost predicate Filled(p: Page)
      reads p
    {
      if p.valid then Offset(p.pgno) <= |file| && p.bytes == PageOf(file, Offset(p.pgno))
      else |p.bytes| == PAGESZ && forall i :: 0 <= i < PAGESZ && |file| <= Offset(p.pgno) + i ==> p.bytes[i] == 0
    }

    ghost predicate AllFilled(ps: set<Page>)
      reads ps
    {
      forall p :: p in ps ==> Filled(p)
    }

    /** Every cached page is the page of its number. */
    ghost predicate Named(c: map<nat, Page>, ps: set<Page>) {
      forall k :: k in c ==> c[k] in ps && c[k].pgno == k
    }

    ghost predicate Valid()
      reads this, repr
    {
      && tree in repr && tree.cells.Keys <= repr && pages <= repr && this !in repr
      && var sound := tree.Valid();
      sound && |file| < WORD && nrpages == tree.count && Named(Cached(), pages) && AllFilled(pages)
    }

    /** The driver: copies what the file has at the offset, at most `size` bytes, to the front of the page; a failing
        driver stops `short` bytes before that. */
    method DriverRead(p: Page, offset: nat, size: nat, short: nat) returns (got: nat)
      requires |p.bytes| == PAGESZ && size <= PAGESZ
      modifies p`bytes
      ensures got == Delivered(offset, size, short)
      ensures p.bytes == (if got == 0 then [] else file[offset..offset + got]) + old(p.bytes)[got..]
    {
      got := Delivered(offset, size, short);
      p.bytes := (if got == 0 then [] else file[offset..offset + got]) + p.bytes[got..];
    }

    function Delivered(offset: nat, size: nat, short: nat): (got: nat)
      ensures got > 0 ==> offset + got <= |file| && got <= size
    {
      if offset <= |file| && short <= Min(size, |file| - offset) then Min(size, |file| - offset) - short else 0
    }

    ghost predicate HasValid(pgno: int)
      reads this, tree, Cached().Values
    {
      pgno in Cached() && Cached()[pgno].valid
    }

    /** A new page, not in the tree yet. */
    method AllocPage(ghost pgno: nat) returns (page: Page)
      requires Valid()
      modifies this`pages, this`repr
      ensures Valid() && pages == old(pages) + {page} && repr == old(repr) + {page} && fresh(page)
      ensures page.pgno == pgno && !page.valid
    {
      page := new Page(pgno);
      pages, repr := pages + {page}, repr + {page};
    }

    /** Puts a page in the tree. */
    method AddPage(page: Page, pgno: nat)
      requires Valid() && pgno !in Cached() && page in pages && page.pgno == pgno
      modifies this, tree, tree.cells.Keys
      ensures Valid() && pages == old(pages) && fresh(repr - old(repr))
      ensures Cached() == old(Cached())[pgno := page]
    {
      var err := tree.Insert(pgno, page);
      nrpages := nrpages + 1;
      repr := repr + tree.cells.Keys;
    }

    /** The page in the tree, or a new one put there. */
    method Find(pgno: nat) returns (page: Page)
      requires Valid()
      modifies this, tree, tree.cells.Keys
      ensures Valid() && page in pages && fresh(repr - old(repr))
      ensures pgno in Cached() && Cached()[pgno] == page
      ensures Cached() == if pgno in old(Cached()) then old(Cached()) else old(Cached())[pgno := page]
      ensures page.valid == old(HasValid(pgno))
    {
      var err, found := tree.Search(pgno);
      if found.Some? {
        page := found.value;
      } else {
        page := AllocPage(pgno);
        AddPage(page, pgno);
      }
    }

    /** Reads a page from the file, with the count the driver must answer with. */
    method Fill(page: Page, pgno: nat, short: nat) returns (ok: bool)
      requires page.pgno == pgno && |file| < WORD && !page.valid && Filled(page)
      modifies page
      ensures ok <==> Offset(pgno) == |file| || (Offset(pgno) < |file| && short == 0)
      ensures page.valid == ok && Filled(page)
    {
      var offset := Offset(pgno);
      var readSize := Min(PAGESZ, (|file| - offset) % WORD);
      if readSize != 0 {
        var got := DriverRead(page, offset, readSize, short);
        if got != readSize {
          return false;
        }
      }
      page.valid := true;
      ok := true;
    }

    /** The page for a number: from the tree, or a new one put there; read from the file unless valid. */
    method GetPage(pgno: int, short: nat) returns (err: int, page: Page?)
      requires Valid()
      modifies this, repr
      ensures Valid() && fresh(repr - old(repr))
      ensures err == if pgno < 0 then -EINVAL else 0
      ensures page != null <==>
                && 0 <= pgno && |file| > 0
                && (old(HasValid(pgno)) || Offset(pgno) == |file| || (Offset(pgno) < |file| && short == 0))
      ensures page != null ==>
                && pgno in Cached() && Cached()[pgno] == page && page.valid
                && page.bytes == PageOf(file, Offset(pgno))
      ensures forall k :: k in old(Cached()) ==> k in Cached() && Cached()[k] == old(Cached()[k])
    {
      if pgno < 0 {
        return -EINVAL, null;
      }
      if |file| == 0 {
        return 0, null;
      }
      var p := Find(pgno);
      page := p;
      if !p.valid {
        var ok := Fill(p, pgno, short);
        if !ok {
          page := null;
        }
      }
      err := 0;
    }

    method FreePage(pgno: int) returns (err: int)
      requires Valid()
      modifies this, tree, tree.cells.Keys
      ensures Valid() && repr == old(repr)
      ensures err == if pgno < 0 then -EINVAL else if pgno in old(Cached()) then 0 else -ENOENT
      ensures Cached() == if pgno < 0 then old(Cached()) else old(Cached()) - {pgno}
    {
      if pgno < 0 {
        return -EINVAL;
      }
      var found;
      err, found := tree.Search(pgno);
      tree.Delete(pgno);
      nrpages := if found.Some? then nrpages - 1 else nrpages;
    }

    /** Copies from the page that holds `pos`: as far as the page, the file and the room in the buffer go. */
    method ReadPage(pos: nat, pgno: nat, buf: array<byte>, dest: nat, sz: nat) returns (size: nat)
      requires Valid() && pos < |file| && pgno == PageNo(pos) && dest <= sz <= buf.Length && buf !in repr
      modifies this, repr, buf
      ensures Valid() && fresh(repr - old(repr))
      ensures size == InPage(file, pos, sz - dest)
      ensures Spliced(file, pos, dest, size, old(buf[..]), buf[..])
    {
      var err, page := GetPage(pgno, 0);
      size := Min(PAGESZ, sz - dest);
      size := Min(size, |file| - pos);
      size := Min(PAGESZ - pos % PAGESZ, size);
      PageSlice(file, pos, size);
      CopyOut(buf, dest, page.bytes[pos % PAGESZ..pos % PAGESZ + size]);
    }

    method ReadMore(start: nat, i: nat, pgno: nat, buf: array<byte>, dest: nat, sz: nat, ghost orig: seq<byte>)
        returns (size: nat)
      requires Valid() && sz <= buf.Length && buf !in repr
      requires i < NPages(sz) && dest == Progress(file, start, sz, i) && pgno == PageNo(start) + i
      requires start + dest < |file| && Copied(file, start, dest, orig, buf[..])
      modifies this, repr, buf
      ensures Valid() && fresh(repr - old(repr))
      ensures dest + size == Progress(file, start, sz, i + 1) && Copied(file, start, dest + size, orig, buf[..])
    {
      StepInPage(file, start, sz, i);
      size := ReadPage(start + dest, pgno, buf, dest, sz);
      SplicedCopied(file, start, dest, size, orig, old(buf[..]), buf[..]);
    }

    /** Reads at `start` into the buffer, page by page; -1 if a page is still due when the file has ended. */
    method Read(start: nat, buf: array<byte>, sz: nat) returns (ret: int)
      requires Valid() && start < WORD && sz <= buf.Length && buf !in repr
      modifies this, repr, buf
      ensures Valid() && fresh(repr - old(repr))
      ensures Copied(file, start, Reach(file, start, sz, NPages(sz)), old(buf[..]), buf[..])
      ensures ret == if AtEnd(file, start, sz) then -1 else Reach(file, start, sz, NPages(sz))
    {
      var pos, pgno, dest := start, PageNo(start), 0;
      var npages := NPages(sz);
      var i := 0;
      ret := 0;
      while i < npages
        invariant 0 <= i <= npages && pgno == PageNo(start) + i
        invariant dest == ret == Progress(file, start, sz, i) && pos == start + dest
        invariant i > 0 ==> start + Progress(file, start, sz, i - 1) < |file|
        invariant Valid() && fresh(repr - old(repr))
        invariant Copied(file, start, dest, old(buf[..]), buf[..])
      {
        if pos >= |file| {
          EndReached(file, start, sz, i);
          return -1;
        }
        var size := ReadMore(start, i, pgno, buf, dest, sz, old(buf[..]));
        pos := pos + size;
        dest := dest + size;
        ret := ret + size;
        i, pgno := i + 1, pgno + 1;
      }
      AllDue(file, start, sz);
    }
  }

  function PageNo(pos: nat): nat {
    pos / PAGESZ
  }

  lemma PageSlice(file: seq<byte>, pos: nat, size: nat)
    requires pos % PAGESZ + size <= PAGESZ && pos + size <= |file| < WORD && pos < |file|
    ensures PageOf(file, Offset(pos / PAGESZ))[pos % PAGESZ..pos % PAGESZ + size] == file[pos..pos + size]
  {
  }

  /** The buffer starts with the `n` bytes of the file at `start`, and is otherwise as it was. */
  ghost predicate Copied(file: seq<byte>, start: nat, n: nat, orig: seq<byte>, buf: seq<byte>) {
    && n <= |orig| == |buf| && (n > 0 ==> start + n <= |file|)
    && (forall j :: 0 <= j < n ==> buf[j] == file[start + j]) && (forall j :: n <= j < |orig| ==> buf[j] == orig[j])
  }

  ghost predicate Spliced(file: seq<byte>, pos: nat, dest: nat, size: nat, before: seq<byte>, after: seq<byte>) {
    && pos + size <= |file| && dest + size <= |before|
    && after == before[..dest] + file[pos..pos + size] + before[dest + size..]
  }

  lemma SplicedCopied(file: seq<byte>, start: nat, dest: nat, size: nat,
      orig: seq<byte>, before: seq<byte>, after: seq<byte>)
    requires Copied(file, start, dest, orig, before) && Spliced(file, start + dest, dest, size, before, after)
    ensures Copied(file, start, dest + size, orig, after)
  {
  }

  /** What one page gives from `pos` on, with `room` left. */
  function InPage(file: seq<byte>, pos: nat, room: nat): nat
    requires pos <= |file|
  {
    Min(Min(room, |file| - pos), PAGESZ - pos % PAGESZ)
  }

  function NPages(len: nat): nat {
    len / PAGESZ + (if len % PAGESZ != 0 then 1 else 0)
  }

  /** How many bytes are copied once `i` pages are done, one page after the other. */
  function Progress(file: seq<byte>, start: nat, sz: nat, i: nat): (n: nat)
    ensures n <= sz
  {
    if i == 0 then 0
    else
      var n := Progress(file, start, sz, i - 1);
      if start + n < |file| then n + InPage(file, start + n, sz - n) else n
  }

  /** The same in one formula: the room, the file or the pages run out first. */
  function Reach(file: seq<byte>, start: nat, sz: nat, i: nat): nat {
    if i == 0 || start >= |file| then 0
    else Min(Min(sz, |file| - start), i * PAGESZ - start % PAGESZ)
  }

  lemma {:induction false} ProgressIsReach(file: seq<byte>, start: nat, sz: nat, i: nat)
    requires i <= NPages(sz)
    ensures Progress(file, start, sz, i) == Reach(file, start, sz, i)
  {
    if i > 1 {
      ProgressIsReach(file, start, sz, i - 1);
      Aligned(start, i - 1);
      EarlierPages(sz, i - 1);
    } else {
      Aligned(start, 0);
    }
  }

  /** The end of the page that is `i` pages on. */
  lemma Aligned(start: nat, i: nat)
    ensures i > 0 ==> start % PAGESZ < i * PAGESZ && (start + (i * PAGESZ - start % PAGESZ)) % PAGESZ == 0
  {
    assert start + (i * PAGESZ - start % PAGESZ) == PAGESZ * (start / PAGESZ + i);
  }

  lemma EarlierPages(sz: nat, i: nat)
    requires i < NPages(sz)
    ensures i * PAGESZ < sz
  {
  }

  /** The file ends before the last page is due. */
  predicate AtEnd(file: seq<byte>, start: nat, sz: nat) {
    sz > 0 && (start >= |file| || |file| - start <= (NPages(sz) - 1) * PAGESZ - start % PAGESZ)
  }

  /** A read of two pages from a file of one page copies that page and answers -1. */
  lemma EndAfterCopy(file: seq<byte>)
    requires |file| == PAGESZ
    ensures AtEnd(file, 0, 2 * PAGESZ) && Reach(file, 0, 2 * PAGESZ, NPages(2 * PAGESZ)) == PAGESZ
  {
  }

  /** Before every page the position lies in that page, with room left. */
  lemma StepInPage(file: seq<byte>, start: nat, sz: nat, i: nat)
    requires i < NPages(sz) && start + Progress(file, start, sz, i) < |file|
    ensures PageNo(start + Progress(file, start, sz, i)) == PageNo(start) + i
  {
    ProgressIsReach(file, start, sz, i);
  }

  /** Once the file has ended there is nothing more to copy. */
  lemma EndReached(file: seq<byte>, start: nat, sz: nat, i: nat)
    requires i < NPages(sz) && start + Progress(file, start, sz, i) >= |file|
    ensures Progress(file, start, sz, i) == Reach(file, start, sz, NPages(sz)) && AtEnd(file, start, sz)
  {
    ProgressIsReach(file, start, sz, i);
  }

  lemma AllDue(file: seq<byte>, start: nat, sz: nat)
    requires NPages(sz) > 0 ==> start + Progress(file, start, sz, NPages(sz) - 1) < |file|
    ensures !AtEnd(file, start, sz)
    ensures Progress(file, start, sz, NPages(sz)) == Reach(file, start, sz, NPages(sz))
  {
    ProgressIsReach(file, start, sz, NPages(sz));
    if NPages(sz) > 0 {
      ProgressIsReach(file, start, sz, NPages(sz) - 1);
    }
  }

  method CopyOut(buf: array<byte>, at: nat, src: seq<byte>)
    requires at + |src| <= buf.Length
    modifies buf
    ensures buf[..] == old(buf[..])[..at] + src + old(buf[..])[at + |src|..]
  {
    for i := 0 to |src|
      invariant buf[..] == old(buf[..])[..at] + src[..i] + old(buf[..])[at + i..]
    {
      buf[at + i] := src[i];
    }
  }
}
