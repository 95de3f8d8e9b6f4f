/** Whole runs of the address-space manager, seen as updates of a map from addresses to flags
    (kernel/mm/mmap.c). */
module AddressRuns {
  import opened Regions
  import opened AddressSpace
  import opened Unmapping
  import opened Holes
  import opened Mapping

  /** Which address is mapped with which flags. */
  type Space = iset<(int, Flags)>

  ghost function SpaceOf(rs: seq<Region>): Space {
    iset p: (int, Flags) | Maps(rs, p.0, p.1)
  }

  ghost function Without(s: Space, lo: int, n: int): Space {
    iset p: (int, Flags) | p in s && !(lo <= p.0 < lo + n)
  }

  /** The range [lo, lo + n) mapped with f, whatever was there. */
  ghost function Set(s: Space, lo: int, n: int, f: Flags): Space {
    iset p: (int, Flags) | if lo <= p.0 < lo + n then p.1 == f else p in s
  }

  ghost predicate Vacant(s: Space, lo: int, n: int) {
    forall p: (int, Flags) :: p in s ==> !(lo <= p.0 < lo + n)
  }

  /** There is room for n addresses. */
  ghost predicate Room(s: Space, limit: nat, n: nat) {
    exists a: int {:trigger Vacant(s, a, n)} :: 0 <= a && a + n <= limit + 1 && Vacant(s, a, n)
  }

  /** pages: what the change of the page tables returns.  Grow: the region that holds addr. */
  datatype Request =
    | Map(addr: nat, len: nat, prot: Prot, flags: MapFlags)
    | Drop(start: nat, len: nat)
    | Change(addr: nat, len: nat, prot: Prot, pages: Err)
    | Grow(addr: nat, incr: int)

  /** Addresses, lengths and increments are machine words. */
  predicate Sensible(q: Request) {
    match q
    case Map(addr, len, _, _) => addr < WORD && len < WORD
    case Drop(start, len) => start < WORD && len < WORD
    case Change(addr, len, _, _) => addr < WORD && len < WORD
    case Grow(addr, incr) => addr < WORD && -WORD / 2 <= incr < WORD / 2
  }

  /** The result of a mapping. */
  ghost function MapError(s: Space, limit: nat, q: Request): Err
    requires Sensible(q) && q.Map?
  {
    var n := Length(q.len, q.flags);
    if BadRequest(limit, q.addr, q.len, q.prot, q.flags) || n == 0 then EINVAL
    else if q.flags.fixed then if Wrap(q.addr + n - 1) > limit then EINVAL else OK
    else if Room(s, limit, n) then OK else ENOMEM
  }

  /** A fixed range that wraps around the end of the address space. */
  predicate Wraps(q: Request)
    requires Sensible(q)
  {
    q.Map? && q.flags.fixed && q.addr + Length(q.len, q.flags) > WORD
  }

  /** A mapping of such a range that is granted nevertheless: it leaves a region with its end before its start. */
  ghost predicate Breaks(s: Space, limit: nat, q: Request)
    requires Sensible(q)
  {
    Wraps(q) && MapError(s, limit, q) == OK
  }

  /** A new region: at its fixed place, whatever was there, or at the vacant place that the search chooses. */
  ghost predicate MapAnswers(rs: seq<Region>, limit: nat, q: Request, err: Err, place: nat, rs': seq<Region>)
    requires q.Map? && Sensible(q)
  {
    var n := Length(q.len, q.flags);
    && err == MapError(SpaceOf(rs), limit, q)
    && (err != OK ==> rs' == rs)
    && (err == OK ==> SpaceOf(rs') == Set(SpaceOf(rs), place, n, VmFlags(q.prot, q.flags)))
    && (err == OK ==> if q.flags.fixed then place == q.addr
                      else Vacant(SpaceOf(rs), place, n) && Chosen(rs, limit, q.addr, n, Direction(q.flags), place))
  }

  /** A removal clears its range and no more. */
  ghost predicate DropAnswers(rs: seq<Region>, limit: nat, q: Request, err: Err, rs': seq<Region>)
    requires q.Drop? && Sensible(q)
  {
    && err == (if q.len == 0 || Wrap(q.start + q.len - 1) > limit then EINVAL else OK)
    && (err != OK ==> rs' == rs)
    && (err == OK ==> SpaceOf(rs') == Without(SpaceOf(rs), q.start, q.len))
  }

  /** A change of protection, in region k, applies to its range and no more, or to the whole region if the range wraps
      around, and never gives write and execute together.  The regions change even when the page tables cannot. */
  ghost predicate ChangeAnswers(rs: seq<Region>, limit: nat, q: Request, err: Err, k: nat, rs': seq<Region>)
    requires q.Change? && Sensible(q)
  {
    var v := ProtectVerdict(rs, limit, q.addr, q.len, q.prot, k);
    && err == (match v case BadArguments => EINVAL case NotCovered => ENOMEM case Forbidden => EACCES
                       case NothingToDo => OK case Changes => q.pages)
    && (v.BadArguments? || v.NotCovered? || (k < |rs| && rs[k].Has(q.addr)))
    && (!v.Changes? ==> rs' == rs)
    && (v.Changes? ==>
          && !(q.prot.w && q.prot.x)
          && SpaceOf(rs') == if q.addr + q.len <= WORD then Set(SpaceOf(rs), q.addr, q.len, NewFlags(q.prot))
                             else Set(SpaceOf(rs), rs[k].start, rs[k].Size(), NewFlags(q.prot)))
  }

  /** A region that may expand, and has room to, gets its new bounds, or goes when nothing is left of it. */
  ghost predicate GrowAnswers(rs: seq<Region>, limit: nat, q: Request, err: Err, k: nat, rs': seq<Region>)
    requires q.Grow?
  {
    if !Mapped(rs, q.addr) then err == ENOENT && rs' == rs
    else
      && k < |rs| && rs[k].Has(q.addr)
      && err == ExpandVerdict(rs, limit, rs[k], q.incr)
      && rs' == (if err != OK then rs else if rs[k].Size() + q.incr == 0 then Removed(rs, k) else Bounded(rs, k, q.incr))
  }

  ghost function Bounded(rs: seq<Region>, k: nat, incr: int): seq<Region> {
    if k < |rs| && (if rs[k].flags.down then incr <= rs[k].start else rs[k].end + incr >= 0)
    then rs[k := Resized(rs[k], incr)] else rs
  }

  /** What a request makes of the regions rs. */
  ghost predicate Answers(rs: seq<Region>, limit: nat, q: Request, err: Err, place: nat, k: nat, rs': seq<Region>)
    requires Sensible(q)
  {
    match q
    case Map(_, _, _, _) => MapAnswers(rs, limit, q, err, place, rs')
    case Drop(_, _) => DropAnswers(rs, limit, q, err, rs')
    case Change(_, _, _, _) => ChangeAnswers(rs, limit, q, err, k, rs')
    case Grow(_, _) => GrowAnswers(rs, limit, q, err, k, rs')
  }

  /** A run: requests, results, places chosen, regions concerned and the regions that the requests left. */
  datatype Trace = Begin(start: seq<Region>) | Then(before: Trace, q: Request, err: Err, place: nat, k: nat, rs: seq<Region>)

  ghost function Last(t: Trace): seq<Region> {
    if t.Begin? then t.start else t.rs
  }

  ghost function Origin(t: Trace): seq<Region> {
    if t.Begin? then t.start else Origin(t.before)
  }

  ghost predicate Answered(t: Trace, limit: nat) {
    t.Then? ==>
      && Answered(t.before, limit) && Sorted(t.rs, limit) && Sensible(t.q)
      && Answers(Last(t.before), limit, t.q, t.err, t.place, t.k, t.rs)
  }

  ghost function Asked(t: Trace): seq<Request> {
    if t.Begin? then [] else Asked(t.before) + [t.q]
  }

  method PerformMap(m: MMap, q: Request) returns (err: Err, place: nat)
    requires m.Valid() && q.Map? && Sensible(q)
    modifies m, m.nodes
    ensures m.Valid() <==> !Breaks(SpaceOf(old(m.rs)), m.limit, q)
    ensures err == MapError(SpaceOf(old(m.rs)), m.limit, q)
    ensures m.Valid() ==> OldOrNew(m) && MapAnswers(old(m.rs), m.limit, q, err, place, m.rs)
  {
    place := 0;
    var r;
    RoomIsFits(m.rs, m.limit, Length(q.len, q.flags));
    err, r := MapRegion(m, q.addr, q.len, q.prot, q.flags);
    if err == OK {
      place := r.start;
      if !q.flags.fixed {
        FreeIsVacant(old(m.rs), place, Length(q.len, q.flags));
      }
    }
  }

  method PerformGrow(m: MMap, q: Request) returns (err: Err, ghost k: nat)
    requires m.Valid() && q.Grow? && Sensible(q)
    modifies m, m.nodes
    ensures m.Valid() && OldOrNew(m) && GrowAnswers(old(m.rs), m.limit, q, err, k, m.rs)
  {
    var r;
    r, k := m.Find(q.addr);
    if r == null {
      return ENOENT, 0;
    }
    assert Sane(m.rs, k, m.limit);
    err := Expand(m, r, q.incr, k);
  }

  method Perform(m: MMap, q: Request) returns (err: Err, place: nat, ghost k: nat)
    requires m.Valid() && Sensible(q)
    modifies m, m.nodes
    ensures m.Valid() <==> !Breaks(SpaceOf(old(m.rs)), m.limit, q)
    ensures q.Map? ==> err == MapError(SpaceOf(old(m.rs)), m.limit, q)
    ensures m.Valid() ==> OldOrNew(m) && Answers(old(m.rs), m.limit, q, err, place, k, m.rs)
  {
    place, k := 0, 0;
    match q
    case Map(_, _, _, _) => err, place := PerformMap(m, q);
    case Drop(start, len) =>
      var gone;
      ghost var splits;
      err, gone, splits := Unmap(m, start, len);
    case Change(addr, len, prot, pages) => err, k := Protect(m, addr, len, prot, pages);
    case Grow(_, _) => err, k := PerformGrow(m, q);
  }

  lemma RoomIsFits(rs: seq<Region>, limit: nat, n: nat)
    ensures Room(SpaceOf(rs), limit, n) <==> exists b :: Fits(rs, limit, b, n)
  {
    var s := SpaceOf(rs);
    forall a: int ensures Vacant(s, a, n) <==> FreeRange(rs, a, n) {
      if FreeRange(rs, a, n) {
        FreeIsVacant(rs, a, n);
      }
      if Vacant(s, a, n) {
        forall x | a <= x < a + n ensures !Mapped(rs, x) {
          forall i: nat | i < |rs| ensures !rs[i].Has(x) {
            assert (x, rs[i].flags) !in s;
          }
        }
      }
    }
    if b: int :| Fits(rs, limit, b, n) {
      assert Vacant(s, b, n);
    }
    if a: int :| 0 <= a && a + n <= limit + 1 && Vacant(s, a, n) {
      assert Fits(rs, limit, a, n);
    }
  }

  lemma FreeIsVacant(rs: seq<Region>, lo: int, n: int)
    requires FreeRange(rs, lo, n)
    ensures Vacant(SpaceOf(rs), lo, n)
  {
    forall p: (int, Flags) | lo <= p.0 < lo + n ensures p !in SpaceOf(rs) {
      FreeNotMaps(rs, lo, n, p.0, p.1);
    }
  }

  /** Over every run the list stays sorted, disjoint and well linked, and stands for the map that the requests describe,
      up to the first request that breaks it, if there is one. */
  method Run(m: MMap, requests: seq<Request>) returns (done: nat, ghost t: Trace)
    requires m.Valid() && forall q :: q in requests ==> Sensible(q)
    modifies m, m.nodes
    ensures done <= |requests| && Asked(t) == requests[..done] && Answered(t, m.limit) && Origin(t) == old(m.rs)
    ensures m.Valid() <==> done == |requests|
    ensures m.Valid() ==> Last(t) == m.rs
    ensures !m.Valid() ==> Breaks(SpaceOf(Last(t)), m.limit, requests[done])
  {
    t := Begin(m.rs);
    for i := 0 to |requests|
      invariant m.Valid() && OldOrNew(m)
      invariant Asked(t) == requests[..i] && Answered(t, m.limit)
      invariant Origin(t) == old(m.rs) && Last(t) == m.rs
    {
      var q := requests[i];
      assert q in requests;
      var err, place;
      ghost var k;
      err, place, k := Perform(m, q);
      if Wraps(q) && err == OK {
        return i, t;
      }
      t := Then(t, q, err, place, k, m.rs);
    }
    done := |requests|;
  }
}
