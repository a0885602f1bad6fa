/** Address spaces that share page frames: page tables, frame records and what a process can see.

    `ptes` holds the present user entries of all page tables, keyed by address space and page. `areas` holds
    the area list of each live address space. `pages` holds the record of each frame that user mappings may
    use; a frame with a reference count of zero is free. `data` holds the bytes of those frames.
 */
module CowModel {
  import opened Lists
  import opened Machine
  import opened VmaModel
  import opened Mmap
  import opened MmapCalls

  datatype User = User(mm: nat, va: nat)
  datatype Pte = Pte(frame: nat, rw: bool, cow: bool)
  datatype Page = Page(refcount: nat, mapcount: nat, mapMm: nat, mapVaddr: nat, rmap: seq<User>)
  datatype Option<T> = None | Some(value: T)

  type Ptes = map<User, Pte>
  type Areas = map<nat, seq<Area>>
  type Pages = map<nat, Page>
  type Bytes = seq<bv8>
  type Data = map<nat, Bytes>

  function ZeroPage(): (z: Bytes)
    ensures |z| == PAGE && forall i | 0 <= i < PAGE :: z[i] == 0
  {
    seq(PAGE, _ => 0)
  }

  // ------------------------------------------------------------------ the users of a frame

  /** The reverse map of a frame: its primary user and the users on its list. */
  function Users(p: Page): seq<User> {
    if p.mapcount == 0 then [] else [User(p.mapMm, p.mapVaddr)] + p.rmap
  }

  /** The map count is the number of users, and no user occurs twice. */
  ghost predicate Counted(p: Page) {
    p.mapcount == |Users(p)| <= 0xFFFF && NoDup(Users(p)) && (p.mapcount == 0 ==> p.rmap == [])
  }

  // ------------------------------------------------------------------ the invariant

  /** The area of a user's page, and whether it permits stores. */
  predicate Held(areas: Areas, u: User) {
    u.mm in areas && At(areas[u.mm], u.va).Mapped?
  }

  predicate Writable(areas: Areas, u: User) {
    Held(areas, u) && HasWrite(At(areas[u.mm], u.va).flags)
  }

  /** An entry maps a known frame that lists it as a user; if it is writable it is the only one. */
  ghost predicate EntryOk(ptes: Ptes, pages: Pages, u: User)
    requires u in ptes
  {
    var e := ptes[u];
    && e.frame in pages && u in Users(pages[e.frame]) && u.va % PAGE == 0
    && (e.rw ==> !e.cow && |Users(pages[e.frame])| == 1)
  }

  /** A frame's counts agree with its users, which are entries that map it, all at one address. */
  ghost predicate FrameOk(ptes: Ptes, pages: Pages, f: nat)
    requires f in pages
  {
    var p := pages[f];
    && f != 0 && Counted(p) && p.refcount == p.mapcount
    && (forall u {:trigger Maps1(ptes, u, f)} | u in Users(p) :: Maps1(ptes, u, f) && u.va == p.mapVaddr)
  }

  predicate Maps1(ptes: Ptes, u: User, f: nat) {
    u in ptes && ptes[u].frame == f
  }

  ghost predicate Frames(ptes: Ptes, pages: Pages, data: Data) {
    && (forall u {:trigger EntryOk(ptes, pages, u)} | u in ptes :: EntryOk(ptes, pages, u))
    && (forall f {:trigger FrameOk(ptes, pages, f)} | f in pages :: FrameOk(ptes, pages, f))
    && pages.Keys == data.Keys && (forall f | f in data :: |data[f]| == PAGE)
  }

  /** An entry lies in an area of its address space, and can become writable exactly if the area permits it. */
  ghost predicate Perms(ptes: Ptes, areas: Areas) {
    forall u | u in ptes :: Held(areas, u) && (Writable(areas, u) <==> ptes[u].rw || ptes[u].cow)
  }

  ghost predicate Shaped(areas: Areas) {
    0 !in areas && forall m | m in areas :: Tidy(areas[m]) && UserOnly(areas[m])
  }

  ghost predicate Inv(ptes: Ptes, areas: Areas, pages: Pages, data: Data) {
    Frames(ptes, pages, data) && Perms(ptes, areas) && Shaped(areas)
  }

  ghost predicate FreeFrame(pages: Pages) {
    exists f :: f in pages && f != 0 && pages[f].refcount == 0
  }

  /** The counts of the user's frame can take one more user. */
  predicate Sharable(ptes: Ptes, pages: Pages, u: User)
    requires u in ptes
  {
    ptes[u].frame in pages ==> pages[ptes[u].frame].refcount < 0xFFFF
  }

  /** Those of every frame that `m` maps at `lo` or above. */
  predicate SharableFrom(ptes: Ptes, pages: Pages, m: nat, lo: nat) {
    forall u {:trigger Sharable(ptes, pages, u)} | u in ptes && u.mm == m && lo <= u.va :: Sharable(ptes, pages, u)
  }

  // ------------------------------------------------------------------ what a process sees

  /** The bytes a process sees at a page: those of its frame, zeros where none is there yet, none outside its areas. */
  function See(ptes: Ptes, areas: Areas, data: Data, u: User): Option<Bytes> {
    if u in ptes && ptes[u].frame in data then Some(data[ptes[u].frame])
    else if Held(areas, u) && u.va % PAGE == 0 then Some(ZeroPage())
    else None
  }

  /** The processes have entries for the pages they had before, and for `u` as well if it was brought in. */
  ghost predicate Brought(ptes: Ptes, ptes': Ptes, u: User, done: bool) {
    ptes'.Keys == if done then ptes.Keys + {u} else ptes.Keys
  }

  /** Every process sees what it saw. */
  ghost predicate SameSight(areas: Areas, ptes: Ptes, data: Data, ptes': Ptes, data': Data) {
    forall v :: See(ptes', areas, data', v) == See(ptes, areas, data, v)
  }

  /** One process sees one byte changed; nobody else sees a difference. */
  ghost predicate OneByte(areas: Areas, ptes: Ptes, data: Data, ptes': Ptes, data': Data, u: User, off: nat, b: bv8)
    requires off < PAGE
  {
    var was := See(ptes, areas, data, u);
    && was.Some? && |was.value| == PAGE && See(ptes', areas, data', u) == Some(was.value[off := b])
    && forall v | v != u :: See(ptes', areas, data', v) == See(ptes, areas, data, v)
  }

  // ------------------------------------------------------------------ reverse-map updates

  /** page_add_anon_rmap */
  function AddUser(p: Page, u: User): Page {
    if p.mapcount == 0 then p.(mapMm := u.mm, mapVaddr := u.va, mapcount := 1)
    else if u == User(p.mapMm, p.mapVaddr) || u in p.rmap then p
    else p.(rmap := [u] + p.rmap, mapcount := if p.mapcount < 0xFFFF then p.mapcount + 1 else p.mapcount)
  }

  /** The 16-bit count stays right exactly as long as it is not at its limit. */
  lemma {:induction false} AddUserIff(p: Page, u: User)
    requires Counted(p) && u !in Users(p)
    ensures Counted(AddUser(p, u)) <==> p.mapcount < 0xFFFF
  {
    if p.mapcount < 0xFFFF {
      AddUserOk(p, u);
    } else {
      assert u != Users(p)[0] && forall v | v in p.rmap :: v in Users(p);
      assert |Users(AddUser(p, u))| == 0x1_0000;
    }
  }

  /** A frame with 65535 users, to which one more is added without being counted. */
  lemma {:induction false} Saturated()
    ensures var p := Page(0xFFFF, 0xFFFF, 0, 0, seq(0xFFFE, i requires i >= 0 => User(i + 1, 0)));
            Counted(p) && !Counted(AddUser(p, User(0xFFFF, 0)))
  {
    var p := Page(0xFFFF, 0xFFFF, 0, 0, seq(0xFFFE, i requires i >= 0 => User(i + 1, 0)));
    assert forall i | 0 <= i < |Users(p)| :: Users(p)[i] == User(i, 0);
    AddUserIff(p, User(0xFFFF, 0));
  }

  lemma {:induction false} AddUserOk(p: Page, u: User)
    requires Counted(p) && u !in Users(p) && p.mapcount < 0xFFFF
    ensures var q := AddUser(p, u);
            && Counted(q) && q.mapcount == p.mapcount + 1 && q.refcount == p.refcount
            && (forall v :: v in Users(q) <==> v == u || v in Users(p))
            && (p.mapcount > 0 ==> q.mapVaddr == p.mapVaddr)
  {
    var q := AddUser(p, u);
    if p.mapcount == 0 {
      assert Users(q) == [u];
    } else {
      var s, t := Users(p), Users(q);
      assert u != s[0];
      assert forall v | v in p.rmap :: v in s;
      assert t[0] == s[0] && t[1] == u && t[2..] == s[1..];
      forall i, j | 0 <= i < j < |t|
        ensures t[i] != t[j]
      {
        assert t[i] == (if i == 0 then s[0] else if i == 1 then u else s[i - 1]);
        assert t[j] == (if j == 1 then u else s[j - 1]);
      }
    }
  }

  /** page_remove_rmap */
  function DropUser(p: Page, u: User): Page {
    if p.mapcount == 0 then p
    else if u == User(p.mapMm, p.mapVaddr) then
      if p.mapcount == 1 then p.(mapMm := 0, mapVaddr := 0, mapcount := 0)
      else if p.rmap != [] then
        p.(rmap := p.rmap[1..], mapMm := p.rmap[0].mm, mapVaddr := p.rmap[0].va, mapcount := p.mapcount - 1)
      else p.(mapMm := 0, mapVaddr := 0, mapcount := p.mapcount - 1)
    else if u in p.rmap then p.(rmap := Without(p.rmap, u), mapcount := p.mapcount - 1)
    else p
  }

  lemma {:induction false} DropUserOk(p: Page, u: User)
    requires Counted(p) && u in Users(p)
    ensures var q := DropUser(p, u);
            && Counted(q) && q.mapcount == p.mapcount - 1 && q.refcount == p.refcount
            && (forall v :: v in Users(q) <==> v != u && v in Users(p))
  {
    var q, s := DropUser(p, u), Users(p);
    assert s[1..] == p.rmap && s[0] == User(p.mapMm, p.mapVaddr);
    assert s == [s[0]] + s[1..];
    assert s[0] !in s[1..];
    if u == s[0] {
      assert Users(q) == s[1..];
    } else {
      WithoutOk(s[1..], u);
      assert Users(q) == [s[0]] + Without(s[1..], u);
    }
  }
}
