/** What single updates of page tables, frame records and bytes do to the invariant and to what processes see. */
module CowSteps {
  import opened Lists
  import opened Machine
  import opened VmaModel
  import opened CowModel

  /** The frame's record with one more, or one fewer, user and reference. */
  function Gain(p: Page, u: User): Page {
    AddUser(p, u).(refcount := if p.refcount < 0xFFFF then p.refcount + 1 else p.refcount)
  }

  function Lose(p: Page, u: User): Page
    requires p.refcount > 0
  {
    DropUser(p, u).(refcount := p.refcount - 1)
  }

  /** Nobody can store to the frame. */
  predicate Frozen(ptes: Ptes, f: nat) {
    forall u | u in ptes && ptes[u].frame == f :: !ptes[u].rw
  }

  /** A new entry `e` for `u` fits the frame it maps. */
  ghost predicate CanShare(ptes: Ptes, pages: Pages, u: User, e: Pte) {
    && e.frame in pages && u !in ptes && u.va % PAGE == 0 && pages[e.frame].mapcount < 0xFFFF
    && (if pages[e.frame].mapcount == 0 then e.rw ==> !e.cow
        else !e.rw && u.va == pages[e.frame].mapVaddr && Frozen(ptes, e.frame))
  }

  lemma {:induction false} Share(ptes: Ptes, pages: Pages, data: Data, u: User, e: Pte)
    requires Frames(ptes, pages, data) && CanShare(ptes, pages, u, e)
    ensures Frames(ptes[u := e], pages[e.frame := Gain(pages[e.frame], u)], data)
  {
    var f := e.frame;
    var p := pages[f];
    var ptes', pages' := ptes[u := e], pages[f := Gain(p, u)];
    assert FrameOk(ptes, pages, f);
    assert u !in Users(p) by {
      assert !Maps1(ptes, u, f);
    }
    AddUserOk(p, u);
    assert Users(pages'[f]) == Users(AddUser(p, u));
    forall v {:trigger EntryOk(ptes', pages', v)} | v in ptes'
      ensures EntryOk(ptes', pages', v)
    {
      if v != u {
        assert EntryOk(ptes, pages, v);
      }
    }
    forall g {:trigger FrameOk(ptes', pages', g)} | g in pages'
      ensures FrameOk(ptes', pages', g)
    {
      assert FrameOk(ptes, pages, g);
      forall v {:trigger Maps1(ptes', v, g)} | v in Users(pages'[g])
        ensures Maps1(ptes', v, g) && v.va == pages'[g].mapVaddr
      {
        if v != u || g != f {
          assert v in Users(pages[g]);
          assert Maps1(ptes, v, g);
        } else if p.mapcount > 0 {
          assert Users(p)[0] in Users(p);
          assert Maps1(ptes, Users(p)[0], f);
        }
      }
    }
  }

  lemma {:induction false} Unshare(ptes: Ptes, pages: Pages, data: Data, u: User)
    requires Frames(ptes, pages, data) && u in ptes
    ensures var f := ptes[u].frame;
            f in pages && pages[f].refcount > 0 && Frames(ptes - {u}, pages[f := Lose(pages[f], u)], data)
  {
    var f := ptes[u].frame;
    assert EntryOk(ptes, pages, u);
    assert FrameOk(ptes, pages, f);
    var p := pages[f];
    var ptes', pages' := ptes - {u}, pages[f := Lose(p, u)];
    DropUserOk(p, u);
    assert Users(pages'[f]) == Users(DropUser(p, u));
    forall v {:trigger EntryOk(ptes', pages', v)} | v in ptes'
      ensures EntryOk(ptes', pages', v)
    {
      assert EntryOk(ptes, pages, v);
      if ptes[v].frame == f && ptes[v].rw {
        OnlyUser(p, u, v);
      }
    }
    forall g {:trigger FrameOk(ptes', pages', g)} | g in pages'
      ensures FrameOk(ptes', pages', g)
    {
      assert FrameOk(ptes, pages, g);
      forall v {:trigger Maps1(ptes', v, g)} | v in Users(pages'[g])
        ensures Maps1(ptes', v, g) && v.va == pages'[g].mapVaddr
      {
        assert v in Users(pages[g]);
        assert Maps1(ptes, v, g);
        if g == f {
          assert Users(pages'[g])[0] in Users(pages'[g]);
          assert Users(pages'[g])[0] in Users(pages[g]);
          assert Maps1(ptes, Users(pages'[g])[0], f);
        }
      }
    }
  }

  lemma {:induction false} OnlyUser(p: Page, u: User, v: User)
    requires |Users(p)| == 1 && u in Users(p) && v in Users(p)
    ensures u == v
  {
  }

  /** A frame with two references has a second user, whose entry maps it too. */
  lemma {:induction false} SecondUser(ptes: Ptes, pages: Pages, f: nat, u: User) returns (v: User)
    requires f in pages && FrameOk(ptes, pages, f) && pages[f].refcount > 1
    ensures v != u && v in ptes && ptes[v].frame == f
  {
    var s := Users(pages[f]);
    v := if s[0] == u then s[1] else s[0];
    assert v in s && s[0] != s[1];
    assert Maps1(ptes, v, f);
  }

  /** Changing an entry's permission bits: it may become writable only if it is the frame's only user. */
  lemma {:induction false} Reflag(ptes: Ptes, pages: Pages, data: Data, u: User, rw: bool, cow: bool)
    requires Frames(ptes, pages, data) && u in ptes
    requires (rw ==> !cow && ptes[u].frame in pages && |Users(pages[ptes[u].frame])| == 1)
    ensures Frames(ptes[u := Pte(ptes[u].frame, rw, cow)], pages, data)
  {
    var ptes' := ptes[u := Pte(ptes[u].frame, rw, cow)];
    forall v {:trigger EntryOk(ptes', pages, v)} | v in ptes'
      ensures EntryOk(ptes', pages, v)
    {
      assert EntryOk(ptes, pages, v);
    }
    forall g {:trigger FrameOk(ptes', pages, g)} | g in pages
      ensures FrameOk(ptes', pages, g)
    {
      assert FrameOk(ptes, pages, g);
      forall v {:trigger Maps1(ptes', v, g)} | v in Users(pages[g])
        ensures Maps1(ptes', v, g) && v.va == pages[g].mapVaddr
      {
        assert Maps1(ptes, v, g);
      }
    }
  }

  lemma {:induction false} Rewrite(ptes: Ptes, pages: Pages, data: Data, f: nat, b: Bytes)
    requires Frames(ptes, pages, data) && f in data && |b| == PAGE
    ensures Frames(ptes, pages, data[f := b])
  {
  }

  /** A frame without users is mapped by no entry; a frame with one user by no other. */
  lemma {:induction false} Unmapped(ptes: Ptes, pages: Pages, data: Data, f: nat)
    requires Frames(ptes, pages, data) && f in pages && pages[f].mapcount == 0
    ensures forall u | u in ptes :: ptes[u].frame != f
  {
    assert FrameOk(ptes, pages, f);
    forall u | u in ptes
      ensures ptes[u].frame != f
    {
      assert EntryOk(ptes, pages, u);
    }
  }

  lemma {:induction false} Alone(ptes: Ptes, pages: Pages, data: Data, u: User)
    requires Frames(ptes, pages, data) && u in ptes && ptes[u].frame in pages && |Users(pages[ptes[u].frame])| == 1
    ensures forall v | v in ptes && v != u :: ptes[v].frame != ptes[u].frame
  {
    assert EntryOk(ptes, pages, u);
    forall v | v in ptes && v != u
      ensures ptes[v].frame != ptes[u].frame
    {
      assert EntryOk(ptes, pages, v);
      if ptes[v].frame == ptes[u].frame {
        OnlyUser(pages[ptes[u].frame], u, v);
      }
    }
  }

  /** Storing to a frame with one user changes what that user sees, and nothing else. */
  lemma {:induction false} StoreView(ptes: Ptes, areas: Areas, pages: Pages, data: Data, u: User, b: Bytes, v: User)
    requires Frames(ptes, pages, data) && u in ptes && ptes[u].rw && |b| == PAGE
    ensures ptes[u].frame in data
    ensures See(ptes, areas, data[ptes[u].frame := b], v) == if v == u then Some(b) else See(ptes, areas, data, v)
  {
    assert EntryOk(ptes, pages, u);
    Alone(ptes, pages, data, u);
  }

  /** How many address spaces there are bounds how many users a frame has. */
  lemma {:induction false} UsersBound(ptes: Ptes, areas: Areas, pages: Pages, data: Data, f: nat)
    requires Inv(ptes, areas, pages, data) && f in pages
    ensures pages[f].mapcount <= |areas|
  {
    assert FrameOk(ptes, pages, f);
    var s := Users(pages[f]);
    forall i | 0 <= i < |s|
      ensures s[i].mm in areas && s[i].va == pages[f].mapVaddr
    {
      assert s[i] in s;
      assert Maps1(ptes, s[i], f);
      assert Held(areas, s[i]);
    }
    Pigeons(s, areas.Keys, pages[f].mapVaddr);
  }

  lemma {:induction false} Pigeons(s: seq<User>, holes: set<nat>, va: nat)
    requires NoDup(s) && forall i | 0 <= i < |s| :: s[i].mm in holes && s[i].va == va
    ensures |s| <= |holes|
    decreases |s|
  {
    if s != [] {
      var rest := holes - {s[0].mm};
      forall i | 0 <= i < |s[1..]|
        ensures s[1..][i].mm in rest
      {
        assert s[0] != s[i + 1];
      }
      Pigeons(s[1..], rest, va);
      assert holes == rest + {s[0].mm};
    }
  }

  /** The reference count of a frame is the number of page-table entries that map it. */
  lemma {:induction false} RefcountIsMappings(ptes: Ptes, pages: Pages, data: Data, f: nat)
    requires Frames(ptes, pages, data) && f in pages
    ensures pages[f].refcount == pages[f].mapcount == |set u | u in ptes && ptes[u].frame == f|
  {
    assert FrameOk(ptes, pages, f);
    var s, t := Users(pages[f]), set u | u in ptes && ptes[u].frame == f;
    forall u
      ensures u in s <==> u in t
    {
      if u in s {
        assert Maps1(ptes, u, f);
      }
      if u in t {
        assert EntryOk(ptes, pages, u);
      }
    }
    SizeOf(s, t);
  }
}
