/** What the frame counts say about pages: references held outside the tables, and the frames that are free
    (kernel/mm/pmm/zone_page.c, kernel/arch/x86_64/paging.c). */
module Ledger {
  import opened PageTree

  /** Nobody outside the tables holds the frame behind x. */
  ghost predicate CleanAt(s: State, x: Path)
    requires x in s.t.pages
  {
    s.t.pages[x].frame in s.ext && s.ext[s.t.pages[x].frame] == 0
  }

  ghost predicate Clean(s: State) {
    forall x {:trigger CleanAt(s, x)} :: x in s.t.pages ==> CleanAt(s, x)
  }

  ghost predicate CountedAt(s: State, x: Path)
    requires x in s.t.pages
  {
    s.t.pages[x].frame in s.count && s.count[s.t.pages[x].frame] == |Refs(s.t, s.t.pages[x].frame)|
  }

  /** The count of every page frame is the number of leaf entries that name it. */
  ghost predicate Counted(s: State) {
    forall x {:trigger CountedAt(s, x)} :: x in s.t.pages ==> CountedAt(s, x)
  }

  lemma CleanIsCounted(s: State)
    requires Inv(s)
    ensures Clean(s) <==> Counted(s)
  {
    forall x | x in s.t.pages ensures CleanAt(s, x) <==> CountedAt(s, x) {
      var f := s.t.pages[x].frame;
      PageIsNoTable(s, x);
      assert s.count[f] == s.ext[f] + Uses(s.t, f);
    }
    if Clean(s) {
      forall x | x in s.t.pages ensures CountedAt(s, x) {
        assert CleanAt(s, x);
      }
    }
    if Counted(s) {
      forall x | x in s.t.pages ensures CleanAt(s, x) {
        assert CountedAt(s, x);
      }
    }
  }

  /** One page more, or one with a new frame that nobody held. */
  lemma CleanAdded(s: State, s': State, x: Path)
    requires Clean(s) && s'.ext == s.ext && x in s'.t.pages && s'.t.pages == s.t.pages[x := s'.t.pages[x]]
    requires s'.t.pages[x].frame in s.ext && s.ext[s'.t.pages[x].frame] == 0
    ensures Clean(s')
  {
    forall y | y in s'.t.pages ensures CleanAt(s', y) {
      assert y != x ==> CleanAt(s, y);
    }
  }

  /** A free frame is held from now on, named by nobody. */
  lemma CleanLost(s: State, s': State, f: Frame)
    requires Inv(s) && Clean(s) && f in s.count && s.count[f] == 0
    requires s'.ext == s.ext[f := 1] && s'.t.pages == s.t.pages
    ensures Clean(s')
  {
    assert s.count[f] == s.ext[f] + Uses(s.t, f);
    Unused(s.t, f);
    forall y | y in s'.t.pages ensures CleanAt(s', y) {
      assert CleanAt(s, y);
    }
  }

  /** The references held outside once the frames in lost are held for good. */
  ghost function Held(ext: map<Frame, nat>, lost: set<Frame>): map<Frame, nat> {
    map f | f in ext :: if f in lost then 1 else ext[f]
  }

  // ---- The free frames of a state that has more tables ----

  /** The frames of the tables in d. */
  ghost function FramesOf(at: map<Path, Frame>, d: set<Path>): set<Frame>
    requires d <= at.Keys
  {
    set q | q in d :: at[q]
  }

  lemma {:induction false} AsManyFrames(t: Forest, d: set<Path>)
    requires Tree(t) && d <= t.at.Keys
    ensures |FramesOf(t.at, d)| == |d|
    decreases |d|
  {
    if d != {} {
      var q :| q in d;
      var rest := d - {q};
      AsManyFrames(t, rest);
      assert FramesOf(t.at, d) == FramesOf(t.at, rest) + {t.at[q]};
      assert NodeOk(t, q);
      forall p | p in rest ensures t.at[p] != t.at[q] {
        assert NodeOk(t, p);
      }
    }
  }

  /** A frame is free if and only if it is not held, not a table and not named. */
  lemma FreeMeans(s: State, f: Frame)
    requires Inv(s) && f in s.count
    ensures s.count[f] == 0 <==> s.ext[f] == 0 && (forall q :: q in s.t.at ==> s.t.at[q] != f) && Refs(s.t, f) == {}
  {
    assert s.count[f] == s.ext[f] + Uses(s.t, f);
    if s.count[f] == 0 {
      Unused(s.t, f);
    }
  }

  /** The same pages, more tables, and the frames in lost held: the free frames are the old ones without the
      frames of the new tables and without the lost ones. */
  lemma FreeAfterGrowth(s: State, s': State, lost: set<Frame>)
    requires Inv(s) && Inv(s') && s'.t.pages == s.t.pages && s'.ext == Held(s.ext, lost) && lost <= Free(s.count)
    requires Extends(s.t.at, s'.t.at)
    ensures |Free(s'.count)| == |Free(s.count)| - |s'.t.at.Keys - s.t.at.Keys| - |lost|
  {
    var d := s'.t.at.Keys - s.t.at.Keys;
    AsManyFrames(s'.t, d);
    FreeFramesLeft(s, s', lost);
    TakenAway(Free(s.count), FramesOf(s'.t.at, d), lost);
  }

  lemma FreeFramesLeft(s: State, s': State, lost: set<Frame>)
    requires Inv(s) && Inv(s') && s'.t.pages == s.t.pages && s'.ext == Held(s.ext, lost) && lost <= Free(s.count)
    requires Extends(s.t.at, s'.t.at)
    ensures var added := FramesOf(s'.t.at, s'.t.at.Keys - s.t.at.Keys);
            added <= Free(s.count) && added !! lost && Free(s'.count) == Free(s.count) - added - lost
  {
    var added := FramesOf(s'.t.at, s'.t.at.Keys - s.t.at.Keys);
    forall f | f in added ensures f in Free(s.count) && f !in lost {
      NewTableWasFree(s, s', lost, f);
    }
    forall f ensures f in Free(s'.count) <==> f in Free(s.count) - added - lost {
      if f in s.count {
        StaysFree(s, s', lost, f);
      }
    }
  }

  lemma TakenAway(a: set<Frame>, b: set<Frame>, c: set<Frame>)
    requires b <= a && c <= a && b !! c
    ensures |a - b - c| == |a| - |b| - |c|
  {
    assert c <= a - b;
  }

  lemma NewTableWasFree(s: State, s': State, lost: set<Frame>, f: Frame)
    requires Inv(s) && Inv(s') && s'.t.pages == s.t.pages && s'.ext == Held(s.ext, lost) && lost <= Free(s.count)
    requires Extends(s.t.at, s'.t.at)
    requires f in FramesOf(s'.t.at, s'.t.at.Keys - s.t.at.Keys)
    ensures f in s.count && f in Free(s.count) && f !in lost
  {
    var q :| q in s'.t.at && q !in s.t.at && s'.t.at[q] == f;
    TableNotHeld(s', q);
    assert Refs(s.t, f) == Refs(s'.t, f);
    FreeMeans(s, f);
    assert NodeOk(s'.t, q);
    forall p | p in s.t.at ensures s.t.at[p] != f {
      assert SameTable(s.t.at, s'.t.at, p);
      assert NodeOk(s'.t, p);
    }
  }

  lemma StaysFree(s: State, s': State, lost: set<Frame>, f: Frame)
    requires Inv(s) && Inv(s') && s'.t.pages == s.t.pages && s'.ext == Held(s.ext, lost) && f in s.count
    requires Extends(s.t.at, s'.t.at)
    ensures f in s'.count
    ensures s'.count[f] == 0 <==> s.count[f] == 0 && f !in lost && f !in FramesOf(s'.t.at, s'.t.at.Keys - s.t.at.Keys)
  {
    FreeMeans(s, f);
    FreeMeans(s', f);
    assert Refs(s.t, f) == Refs(s'.t, f);
    forall q | q in s.t.at ensures q in s'.t.at && s'.t.at[q] == s.t.at[q] {
      assert SameTable(s.t.at, s'.t.at, q);
    }
    if q :| q in s'.t.at && s'.t.at[q] == f && q !in s.t.at {
      assert q in s'.t.at.Keys - s.t.at.Keys;
    }
  }
}
