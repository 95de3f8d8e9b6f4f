/** The page cache of an inode (kernel/fs/icache.c:61-188). */
module PageCache {
  import opened CMemory

  const PG: nat := 4096
  const ENOMEM := -12
  const END_OF_FILE := -1

  /** What iread_data gives for a page: up to a page of bytes, or a negative error. */
  datatype Load = Loaded(bytes: seq<byte>) | Failed(err: int)

  predicate Sensible(l: Load) {
    match l
    case Loaded(b) => |b| <= PG
    case Failed(e) => e < 0
  }

  /** The byte of the backing store at off; zero where the store has none. */
  function Stored(store: nat -> Load, off: nat): byte {
    var l := store(off / PG);
    if l.Loaded? && off % PG < |l.bytes| then l.bytes[off % PG] else 0
  }

  /** The file as seen through the cache: the last byte written, else the stored one. */
  function View(store: nat -> Load, written: map<nat, byte>, off: nat): byte {
    if off in written then written[off] else Stored(store, off)
  }

  /** Bytes d written at off, over w. */
  function Overlay(w: map<nat, byte>, off: nat, d: seq<byte>): map<nat, byte>
    decreases d
  {
    if d == [] then w else Overlay(w[off := d[0]], off + 1, d[1..])
  }

  lemma {:induction false} OverlayKeys(w: map<nat, byte>, off: nat, d: seq<byte>, k: nat)
    ensures k in Overlay(w, off, d) <==> k in w || off <= k < off + |d|
    decreases d
  {
    if d != [] {
      OverlayKeys(w[off := d[0]], off + 1, d[1..], k);
    }
  }

  /** A write is seen where it went and nowhere else. */
  lemma {:induction false} ViewOverlay(store: nat -> Load, w: map<nat, byte>, off: nat, d: seq<byte>, k: nat)
    ensures View(store, Overlay(w, off, d), k) == if off <= k < off + |d| then d[k - off] else View(store, w, k)
    decreases d
  {
    if d != [] {
      ViewOverlay(store, w[off := d[0]], off + 1, d[1..], k);
    }
  }

  lemma {:induction false} OverlayTwice(w: map<nat, byte>, off: nat, a: seq<byte>, b: seq<byte>)
    ensures Overlay(Overlay(w, off, a), off + |a|, b) == Overlay(w, off, a + b)
    decreases a
  {
    if a == [] {
      assert a + b == b;
    } else {
      OverlayTwice(w[off := a[0]], off + 1, a[1..], b);
      assert (a + b)[1..] == a[1..] + b;
    }
  }

  /** Page q holds the offsets q * PG + i. */
  lemma PageOf(q: nat, i: nat)
    requires i < PG
    ensures (q * PG + i) / PG == q && (q * PG + i) % PG == i
  {
  }

  /** The rest of a request that ends within the page of offset lies in that page. */
  lemma SamePage(offset: nat, left: nat)
    requires 0 < left <= PG - offset % PG
    ensures (offset + left - 1) / PG == offset / PG
  {
    PageOf(offset / PG, offset % PG + left - 1);
  }

  lemma NextPage(offset: nat)
    ensures (offset + (PG - offset % PG)) / PG == offset / PG + 1
  {
    PageOf(offset / PG + 1, 0);
  }

  lemma SamePageOrLater(offset: nat, last: nat)
    requires offset <= last
    ensures offset / PG <= last / PG
  {
  }

  /** A write within page p reaches only offsets of page p. */
  lemma WithinPage(p: nat, at: nat, n: nat, q: nat, i: nat)
    requires at + n <= PG && i < PG
    ensures p * PG + at <= q * PG + i < p * PG + at + n <==> q == p && at <= i < at + n
  {
  }

  /** How many of the pages lo, ..., lo + n - 1 are not among keys. */
  ghost function Absent(keys: set<nat>, lo: nat, n: nat): nat {
    if n == 0 then 0 else Absent(keys, lo, n - 1) + if lo + n - 1 in keys then 0 else 1
  }

  ghost function PagesFrom(lo: nat, n: nat): set<nat> {
    if n == 0 then {} else PagesFrom(lo, n - 1) + {lo + n - 1}
  }

  lemma {:induction false} InPagesFrom(lo: nat, n: nat, p: nat)
    ensures p in PagesFrom(lo, n) <==> lo <= p < lo + n
  {
    if n > 0 {
      InPagesFrom(lo, n - 1, p);
    }
  }

  /** The number of pages that a request for sz bytes at off touches. */
  function Span(off: nat, sz: nat): nat {
    if sz == 0 then 0 else
      SamePageOrLater(off, off + sz - 1);
      (off + sz - 1) / PG + 1 - off / PG
  }

  /** A page that can be had if there is a frame for it: it can be copied, and is in the cache or in the store; a write can
      also have one past the end of the file. */
  ghost predicate Usable(store: nat -> Load, p: nat, keys: set<nat>, fit: nat -> bool, writing: bool) {
    fit(p) && (p in keys || store(p).Loaded? || (writing && store(p).err == END_OF_FILE))
  }

  /** Pages lo, ..., lo + n - 1 can all be had with the pages keys in the cache and so many free frames. */
  ghost predicate Obtainable(store: nat -> Load, lo: nat, n: nat, keys: set<nat>, frames: nat, fit: nat -> bool,
                             writing: bool)
  {
    Absent(keys, lo, n) <= frames && AllUsable(store, lo, n, keys, fit, writing)
  }

  ghost predicate AllUsable(store: nat -> Load, lo: nat, n: nat, keys: set<nat>, fit: nat -> bool, writing: bool) {
    n > 0 ==> AllUsable(store, lo, n - 1, keys, fit, writing) && Usable(store, lo + n - 1, keys, fit, writing)
  }

  lemma {:induction false} AllUsableMeans(store: nat -> Load, lo: nat, n: nat, keys: set<nat>, fit: nat -> bool, writing: bool)
    ensures AllUsable(store, lo, n, keys, fit, writing) <==>
              forall p {:trigger Usable(store, p, keys, fit, writing)} ::
                lo <= p < lo + n ==> Usable(store, p, keys, fit, writing)
  {
    if n > 0 {
      AllUsableMeans(store, lo, n - 1, keys, fit, writing);
    }
  }

  lemma {:induction false} NotObtainable(store: nat -> Load, lo: nat, i: nat, n: nat, keys: set<nat>, frames: nat,
                                         fit: nat -> bool, writing: bool)
    requires i <= n && !Obtainable(store, lo, i, keys, frames, fit, writing)
    ensures !Obtainable(store, lo, n, keys, frames, fit, writing)
    decreases n
  {
    if i < n {
      NotObtainable(store, lo, i, n - 1, keys, frames, fit, writing);
    }
  }

  /** How much of a request is left for the page of offset. */
  function Part(offset: nat, left: nat): (size: nat)
    ensures left > 0 ==> 0 < size <= left && offset % PG + size <= PG
  {
    if PG - offset % PG < left then PG - offset % PG else left
  }

  /** With total bytes done, a request is at its page n. */
  ghost predicate Reached(off: nat, sz: nat, total: nat, n: nat) {
    if total < sz then (off + total) / PG == off / PG + n else n == Span(off, sz)
  }

  /** One turn of the loops: page n of the request is done, and the next turn is at page n + 1. */
  lemma Turn(off: nat, sz: nat, total: nat, n: nat)
    requires total < sz && Reached(off, sz, total, n)
    ensures n + 1 <= Span(off, sz) && Reached(off, sz, total + Part(off + total, sz - total), n + 1)
    ensures off + total == (off / PG + n) * PG + (off + total) % PG
  {
    var offset, left := off + total, sz - total;
    SamePageOrLater(offset, off + sz - 1);
    if PG - offset % PG < left {
      NextPage(offset);
    } else {
      SamePage(offset, left);
    }
  }

  class Cache {
    const store: nat -> Load
    var pages: map<nat, seq<byte>>
    var frames: nat
    ghost var written: map<nat, byte>

    /** icache_alloc, for a file with the given contents and a number of free page frames. */
    constructor (store: nat -> Load, frames: nat)
      requires forall p :: Sensible(store(p))
      ensures Valid() && this.store == store && written == map[]
    {
      this.store, this.frames, pages, written := store, frames, map[], map[];
    }

    ghost predicate PageOk(p: nat)
      requires p in pages
      reads this`pages, this`written
    {
      |pages[p]| == PG && forall i: nat {:trigger pages[p][i]} :: i < PG ==> pages[p][i] == View(store, written, p * PG + i)
    }

    ghost predicate Valid()
      reads this`pages, this`written
    {
      && (forall p :: Sensible(store(p)))
      && (forall p {:trigger PageOk(p)} :: p in pages ==> PageOk(p))
      && (forall off {:trigger off in written} :: off in written ==> off / PG in pages)
    }

    /** The bytes are those that the view of the file shows from off on. */
    ghost predicate Shows(off: nat, bytes: seq<byte>)
      reads this`written
    {
      forall i: nat {:trigger bytes[i]} :: i < |bytes| ==> bytes[i] == View(store, written, off + i)
    }

    /** icache_getpage: the page is in the cache afterwards, unless the store, the allocator, the copy into the page or the
        index fails.  fit: the pages that can be copied and entered in the index. */
    method GetPage(p: nat, fit: nat -> bool) returns (err: int)
      requires Valid()
      modifies this`pages, this`frames
      ensures Valid()
      ensures err == 0 <==> p in old(pages) || (old(frames) > 0 && store(p).Loaded? && fit(p))
      ensures err == 0 ==> pages.Keys == old(pages).Keys + {p} && (p in old(pages) ==> pages == old(pages))
      ensures err == 0 ==> frames == old(frames) - if p in old(pages) then 0 else 1
      ensures err != 0 ==> pages == old(pages) && frames == old(frames)
      ensures err != 0 ==> err == if frames > 0 && store(p).Failed? then store(p).err else ENOMEM
    {
      if p in pages {
        return 0;
      }
      if frames == 0 {
        return ENOMEM;
      }
      frames := frames - 1;
      var l := store(p);
      if l.Failed? {
        frames := frames + 1;
        return l.err;
      }
      if !fit(p) {
        frames := frames + 1;
        return ENOMEM;
      }
      Install(p, l.bytes);
      return 0;
    }

    /** A zeroed frame with the stored bytes copied into it becomes page p. */
    method Install(p: nat, bytes: seq<byte>)
      requires Valid() && p !in pages && bytes == match store(p) { case Loaded(b) => b case Failed(_) => [] }
      modifies this`pages
      ensures Valid() && pages.Keys == old(pages).Keys + {p}
    {
      assert Sensible(store(p));
      var page := bytes + seq(PG - |bytes|, i => 0 as byte);
      pages := pages[p := page];
      forall q | q in pages ensures PageOk(q) {
        if q == p {
          forall i: nat | i < PG ensures pages[p][i] == View(store, written, p * PG + i) {
            PageOf(p, i);
            assert p * PG + i !in written;
          }
        } else {
          assert old(PageOk(q));
        }
      }
    }

    /** icache_read: it succeeds exactly if every page of the range can be had.  Every byte is then the one that the view of
        the file shows. */
    method Read(off: nat, sz: nat, fit: nat -> bool) returns (r: int, buff: seq<byte>)
      requires Valid()
      modifies this`pages, this`frames
      ensures Valid()
      ensures r < 0 || r == sz
      ensures r >= 0 <==> Obtainable(store, off / PG, Span(off, sz), old(pages).Keys, old(frames), fit, false)
      ensures r >= 0 ==> |buff| == sz && Shows(off, buff)
    {
      buff := [];
      ghost var n, lo, keys, frames0 := 0, off / PG, pages.Keys, frames;
      while |buff| < sz
        invariant Valid() && |buff| <= sz
        invariant Shows(off, buff)
        invariant Reached(off, sz, |buff|, n)
        invariant pages.Keys == keys + PagesFrom(lo, n) && frames == frames0 - Absent(keys, lo, n)
        invariant Obtainable(store, lo, n, keys, frames0, fit, false)
      {
        var offset := off + |buff|;
        Turn(off, sz, |buff|, n);
        var err := PageToRead(lo, n, fit, keys, frames0, offset / PG);
        if err != 0 {
          NotObtainable(store, lo, n + 1, Span(off, sz), keys, frames0, fit, false);
          return err, buff;
        }
        buff := ReadPart(off, buff, Part(offset, sz - |buff|));
        n := n + 1;
      }
      return sz, buff;
    }

    /** Page p, which is page n of the request, can be read, or the request cannot be met. */
    method PageToRead(ghost lo: nat, ghost n: nat, fit: nat -> bool, ghost keys: set<nat>, ghost frames0: nat, p: nat)
        returns (err: int)
      requires Valid() && p == lo + n && Obtainable(store, lo, n, keys, frames0, fit, false)
      requires pages.Keys == keys + PagesFrom(lo, n) && frames == frames0 - Absent(keys, lo, n)
      modifies this`pages, this`frames
      ensures Valid() && err <= 0
      ensures err == 0 <==> Obtainable(store, lo, n + 1, keys, frames0, fit, false)
      ensures err == 0 ==> pages.Keys == keys + PagesFrom(lo, n + 1) && frames == frames0 - Absent(keys, lo, n + 1)
    {
      InPagesFrom(lo, n, p);
      assert Sensible(store(p));
      err := GetPage(p, fit);
      if err == 0 && !fit(p) {
        err := ENOMEM;
      }
    }

    /** One turn of icache_read: size more bytes of the page are in the buffer. */
    method ReadPart(off: nat, buff: seq<byte>, size: nat) returns (more: seq<byte>)
      requires Valid() && Shows(off, buff) && (off + |buff|) % PG + size <= PG && (off + |buff|) / PG in pages
      ensures |more| == |buff| + size && Shows(off, more)
    {
      var offset := off + |buff|;
      assert offset == offset / PG * PG + offset % PG;
      var chunk := Chunk(offset / PG, offset % PG, size);
      ShowsMore(off, buff, chunk);
      more := buff + chunk;
    }

    lemma ShowsMore(off: nat, a: seq<byte>, b: seq<byte>)
      requires Shows(off, a) && Shows(off + |a|, b)
      ensures Shows(off, a + b)
    {
      forall i: nat | i < |a + b| ensures (a + b)[i] == View(store, written, off + i) {
        if i >= |a| {
          assert b[i - |a|] == View(store, written, off + |a| + (i - |a|));
        }
      }
    }

    /** The copy out of page p. */
    method Chunk(p: nat, at: nat, size: nat) returns (chunk: seq<byte>)
      requires Valid() && p in pages && at + size <= PG
      ensures |chunk| == size && Shows(p * PG + at, chunk)
    {
      assert PageOk(p);
      chunk := pages[p][at..at + size];
      forall i: nat | i < size ensures chunk[i] == View(store, written, p * PG + at + i) {
        var j: nat := at + i;
        assert pages[p][j] == View(store, written, p * PG + j);
      }
    }

    /** The copy into page p of one turn of icache_write. */
    method Store(p: nat, at: nat, d: seq<byte>)
      requires Valid() && p in pages && at + |d| <= PG
      modifies this`pages, this`written
      ensures Valid() && pages.Keys == old(pages).Keys && written == Overlay(old(written), p * PG + at, d)
    {
      ghost var w := written;
      var off := p * PG + at;
      assert PageOk(p);
      pages := pages[p := pages[p][..at] + d + pages[p][at + |d|..]];
      written := Overlay(w, off, d);
      forall q | q in pages ensures PageOk(q) {
        assert old(PageOk(q));
        forall i: nat | i < PG ensures pages[q][i] == View(store, written, q * PG + i) {
          ViewOverlay(store, w, off, d, q * PG + i);
          WithinPage(p, at, |d|, q, i);
        }
      }
      forall k | k in written ensures k / PG in pages {
        OverlayKeys(w, off, d, k);
      }
    }

    /** Page p, which is page n of the request, can be written, or the request cannot be met.  A page past the end of the
        file is made. */
    method PageToWrite(ghost lo: nat, ghost n: nat, fit: nat -> bool, ghost keys: set<nat>, ghost frames0: nat, p: nat)
        returns (err: int)
      requires Valid() && p == lo + n && Obtainable(store, lo, n, keys, frames0, fit, true)
      requires pages.Keys == keys + PagesFrom(lo, n) && frames == frames0 - Absent(keys, lo, n)
      modifies this`pages, this`frames
      ensures Valid() && err <= 0
      ensures err == 0 <==> Obtainable(store, lo, n + 1, keys, frames0, fit, true)
      ensures err == 0 ==> pages.Keys == keys + PagesFrom(lo, n + 1) && frames == frames0 - Absent(keys, lo, n + 1)
    {
      InPagesFrom(lo, n, p);
      assert Sensible(store(p));
      err := GetPage(p, fit);
      if err == END_OF_FILE && fit(p) {
        NewPage(p);
        err := 0;
      } else if err == 0 && !fit(p) {
        err := ENOMEM;
      }
    }

    /** One turn of icache_write. */
    method WriteTurn(off: nat, d: seq<byte>, total: nat, fit: nat -> bool, ghost n: nat, ghost keys: set<nat>,
                     ghost frames0: nat, ghost w: map<nat, byte>, ghost lo: nat) returns (err: int, next: nat)
      requires lo == off / PG && Valid() && total < |d| && Reached(off, |d|, total, n) && written == Overlay(w, off, d[..total])
      requires pages.Keys == keys + PagesFrom(lo, n) && frames == frames0 - Absent(keys, lo, n)
      requires Obtainable(store, lo, n, keys, frames0, fit, true)
      modifies this`pages, this`frames, this`written
      ensures Valid() && err <= 0 && total < next <= |d| && (off + total) / PG == lo + n
      ensures err == 0 ==> Reached(off, |d|, next, n + 1) && written == Overlay(w, off, d[..next])
      ensures err == 0 ==> pages.Keys == keys + PagesFrom(lo, n + 1) && frames == frames0 - Absent(keys, lo, n + 1)
      ensures err == 0 <==> Obtainable(store, lo, n + 1, keys, frames0, fit, true)
      ensures err != 0 ==> written == old(written) && !Obtainable(store, lo, Span(off, |d|), keys, frames0, fit, true)
    {
      Turn(off, |d|, total, n);
      var p, size := (off + total) / PG, Part(off + total, |d| - total);
      next := total + size;
      err := PageToWrite(lo, n, fit, keys, frames0, p);
      if err == 0 {
        assert p in PagesFrom(lo, n + 1);
        StorePart(off, d, total, size, w);
      } else {
        NotObtainable(store, lo, n + 1, Span(off, |d|), keys, frames0, fit, true);
      }
    }

    /** The copy of one turn of icache_write: size more bytes of d are in the view. */
    method StorePart(off: nat, d: seq<byte>, total: nat, size: nat, ghost w: map<nat, byte>)
      requires Valid() && total + size <= |d| && (off + total) % PG + size <= PG && (off + total) / PG in pages
      requires written == Overlay(w, off, d[..total])
      modifies this`pages, this`written
      ensures Valid() && pages.Keys == old(pages).Keys && written == Overlay(w, off, d[..total + size])
    {
      var offset := off + total;
      Store(offset / PG, offset % PG, d[total..total + size]);
      OverlayTwice(w, off, d[..total], d[total..total + size]);
      assert d[..total] + d[total..total + size] == d[..total + size];
    }

    /** icache_write: it succeeds exactly if every page of the range can be had.  Exactly the first done bytes are in the view
        afterwards: all of them, or those before the first page that cannot be had. */
    method Write(off: nat, d: seq<byte>, fit: nat -> bool) returns (r: int, ghost done: nat, ghost n: nat)
      requires Valid()
      modifies this`pages, this`frames, this`written
      ensures Valid() && done <= |d| && written == Overlay(old(written), off, d[..done])
      ensures if r >= 0 then r == |d| == done else done < |d|
      ensures r >= 0 <==> Obtainable(store, off / PG, Span(off, |d|), old(pages).Keys, old(frames), fit, true)
      ensures r < 0 ==>
                && (off + done) / PG == off / PG + n
                && Obtainable(store, off / PG, n, old(pages).Keys, old(frames), fit, true)
                && !Obtainable(store, off / PG, n + 1, old(pages).Keys, old(frames), fit, true)
    {
      var total := 0;
      n := 0;
      ghost var lo, keys, frames0, w := off / PG, pages.Keys, frames, written;
      while total < |d|
        invariant Valid() && total <= |d| && Reached(off, |d|, total, n) && written == Overlay(w, off, d[..total])
        invariant pages.Keys == keys + PagesFrom(lo, n) && frames == frames0 - Absent(keys, lo, n)
        invariant Obtainable(store, lo, n, keys, frames0, fit, true)
      {
        var err, next := WriteTurn(off, d, total, fit, n, keys, frames0, w, lo);
        if err != 0 {
          return err, total, n;
        }
        total, n := next, n + 1;
      }
      assert d[..total] == d;
      return |d|, |d|, n;
    }

    /** A zeroed page past the end of the file. */
    method NewPage(p: nat)
      requires Valid() && p !in pages && store(p).Failed? && frames > 0
      modifies this`pages, this`frames
      ensures Valid() && pages.Keys == old(pages).Keys + {p} && frames == old(frames) - 1
    {
      frames := frames - 1;
      Install(p, []);
    }
  }
}
