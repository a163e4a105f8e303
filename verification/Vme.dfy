/** Page tables with allocation: vme_init, protect, map and unprotect of abstract-machine/am/src/x86/qemu/vme.c for
    the 32-bit two-level tables. */
module Vme {
  import opened VmeEntry
  import opened VmeTree

  /** How a call ends; everything but Done is a panic. */
  datatype Outcome = Done | NoPage | BadAddress | Unaligned | NotMapped | Remapped

  /** Where ptwalk and teardown stand: the one-entry level `as->ptr`, or a table page. */
  datatype Loc = AtPtr(s: Space) | InPage(p: Word)

  /** One call of map; MMAP_NONE unmaps. */
  datatype MapCall = MapCall(va: Word, pa: Word, prot: nat)

  /** vm_areas; an end of 0 is the end of the address space. */
  datatype Area = Area(start: Word, end: Word, kernel: bool)

  const AREAS: seq<Area> :=
    [Area(0x4000_0000, 0x8000_0000, false), Area(0, 0x4000_0000, true), Area(0xfd00_0000, 0, true)]

  function Limit(end: Word): int { if end == 0 then WORD else end }

  predicate UserAddress(a: Word) { 0x4000_0000 <= a < 0x8000_0000 }

  lemma UserAddressDir(a: Word)
    ensures UserAddress(a) <==> UserDir(Dir(a))
  {
  }

  lemma UserAddresses()
    ensures forall a: Word :: UserAddress(a) <==> UserDir(Dir(a))
  {
    forall a: Word ensures UserAddress(a) <==> UserDir(Dir(a)) { UserAddressDir(a); }
  }

  /** The pages with a role in a space. */
  ghost function Owned(owner: map<Word, Role>, s: Space): set<Word>
  {
    set p | p in owner && owner[p].space == s
  }

  // ----- the state as a value -----

  datatype Sys = Sys(mem: map<Word, Table>, owner: map<Word, Role>, ptrs: map<Space, Word>, kpt: Word, active: set<nat>)
  {
    ghost function At(s: Space): View
      requires s in ptrs
    {
      View(mem, owner, ptrs[s])
    }

    /** A protected address space: its own tree, and the kernel's directory entries. */
    ghost predicate UserOk(id: nat)
    {
      && User(id) in ptrs && Tidy(At(User(id)), User(id)) && Present(ptrs[User(id)]) && IsUser(ptrs[User(id)])
      && kpt in mem && BaseOf(ptrs[User(id)]) in mem
      && var t := mem[BaseOf(ptrs[User(id)])];
      forall k: nat :: k < ENTRIES && !UserDir(k) ==> t[k] == if KernelDir(k) then mem[kpt][k] else 0
    }

    ghost predicate KernelOk()
    {
      Kernel in ptrs && Tidy(At(Kernel), Kernel) && Present(ptrs[Kernel]) && kpt == BaseOf(ptrs[Kernel])
    }

    ghost predicate Ok()
    {
      && KernelOk()
      && (forall id :: id in active ==> UserOk(id))
      && forall p :: p in owner ==> owner[p].space == Kernel || owner[p].space.id in active
    }
  }

  /** What one address space does leaves the kernel and the other spaces in order. */
  lemma OthersOk(x: Sys, y: Sys, id: nat)
    requires x.Ok() && y.kpt == x.kpt && y.mem.Keys == y.owner.Keys
    requires forall s :: s in x.ptrs && s != User(id) ==> s in y.ptrs && y.ptrs[s] == x.ptrs[s]
    requires Elsewhere(View(x.mem, x.owner, 0), View(y.mem, y.owner, 0), User(id))
    ensures y.KernelOk() && forall j :: j in x.active && j != id ==> y.UserOk(j)
  {
    var s, v, w := User(id), View(x.mem, x.owner, 0), View(y.mem, y.owner, 0);
    ElsewherePtr(v, w, x.ptrs[Kernel], s);
    TidyElsewhere(x.At(Kernel), y.At(Kernel), Kernel, s);
    forall j | j in x.active && j != id ensures y.UserOk(j) {
      assert x.UserOk(j);
      ElsewherePtr(v, w, x.ptrs[User(j)], s);
      TidyElsewhere(x.At(User(j)), y.At(User(j)), User(j), s);
    }
  }

  lemma OkPreserved(x: Sys, y: Sys, id: nat)
    requires x.Ok() && id in x.active && User(id) in x.ptrs
    requires y.ptrs == x.ptrs && y.kpt == x.kpt && y.active == x.active
    requires var v, w, s := x.At(User(id)), y.At(User(id)), User(id);
             Elsewhere(v, w, s) && Tidy(w, s) && SharedKept(v, w, s)
    ensures y.Ok()
  {
    ElsewherePtr(x.At(User(id)), y.At(User(id)), 0, User(id));
    OthersOk(x, y, id);
    assert x.UserOk(id);
    assert y.UserOk(id) by {
      assert Own(Kernel, 0);
      KernelRootKept(x, y, id);
    }
  }

  lemma KernelRootKept(x: Sys, y: Sys, id: nat)
    requires x.Ok() && y.KernelOk() && y.ptrs == x.ptrs && User(id) in x.ptrs
    requires Elsewhere(x.At(User(id)), y.At(User(id)), User(id))
    ensures x.kpt in x.mem && x.kpt in y.mem && y.mem[x.kpt] == x.mem[x.kpt]
  {
  }

  lemma ElsewherePtr(v: View, w: View, ptr: Word, s: Space)
    requires Elsewhere(v, w, s)
    ensures Elsewhere(v.(ptr := ptr), w.(ptr := ptr), s)
  {
  }

  lemma ElsewhereTransitive(v: View, w: View, x: View, s: Space)
    requires Elsewhere(v, w, s) && Elsewhere(w, x, s)
    ensures Elsewhere(v, x, s)
  {
  }

  /** Every other space looks up what it did before. */
  lemma OthersKept(x: Sys, y: Sys, s: Space, o: Space, a: Word)
    requires x.Ok() && y.Ok() && y.ptrs == x.ptrs && s in x.ptrs && Elsewhere(x.At(s), y.At(s), s)
    requires o != s && (o == Kernel || o.id in x.active) && Own(o, Dir(a))
    ensures o in x.ptrs && Lookup(y.At(o), a) == Lookup(x.At(o), a)
  {
    assert o.User? ==> x.UserOk(o.id) && y.ptrs == x.ptrs;
    ElsewherePtr(x.At(s), y.At(s), x.ptrs[o], s);
    TidyElsewhere(x.At(o), y.At(o), o, s);
  }

  /** In the kernel's part of the address space every address space sees the kernel's tables. */
  lemma SharedKernel(x: Sys, id: nat, a: Word)
    requires x.Ok() && id in x.active && KernelDir(Dir(a))
    ensures User(id) in x.ptrs && Lookup(x.At(User(id)), a) == Lookup(x.At(Kernel), a)
  {
    assert x.UserOk(id);
  }

  lemma KernelRoot(x: Sys)
    requires x.Ok()
    ensures x.kpt in x.mem
  {
  }

  lemma NoneOwned(x: Sys, id: nat)
    requires x.Ok() && id !in x.active
    ensures Owned(x.owner, User(id)) == {} && Elsewhere(View(x.mem, x.owner, 0), View(x.mem, x.owner, 0), User(id))
  {
  }

  lemma BelowMonotone(v: View, s: Space, level: nat, k: nat, n: nat)
    requires level <= 2 && n < (if level == 0 then 1 else ENTRIES)
    ensures level <= 1 ==> BelowEntries(v, s, level, n) <= Below(v, s, level, k)
    ensures level == 1 ==> forall p :: p in BelowEntries(v, s, level, n) ==> v.owner[p].Leaf?
  {
  }

  /** Two states in which the space has no pages, and which agree elsewhere, are the same. */
  lemma SameElsewhere(v: View, w: View, s: Space)
    requires Elsewhere(v, w, s) && v.mem.Keys == v.owner.Keys && w.mem.Keys == w.owner.Keys
    requires Owned(v.owner, s) == {} && Owned(w.owner, s) == {}
    ensures v.mem == w.mem && v.owner == w.owner
  {
    assert forall p :: p in v.owner ==> v.owner[p].space != s by {
      forall p | p in v.owner ensures v.owner[p].space != s { assert p !in Owned(v.owner, s); }
    }
    assert forall p :: p in w.owner ==> w.owner[p].space != s by {
      forall p | p in w.owner ensures w.owner[p].space != s { assert p !in Owned(w.owner, s); }
    }
  }

  lemma OwnedGrows(owner: map<Word, Role>, live: set<Word>, s: Space, p: Word, role: Role)
    requires p !in live && owner.Keys <= live && role.space == s
    ensures live + {p} - Owned(owner[p := role], s) == live - Owned(owner, s)
  {
  }

  /** Whether the table of an address exists. */
  ghost predicate HasTable(v: View, a: Word)
  {
    Present(v.ptr) && BaseOf(v.ptr) in v.mem && Present(v.mem[BaseOf(v.ptr)][Dir(a)])
  }

  lemma RootThere(v: View, s: Space)
    requires Tidy(v, s)
    ensures Present(v.ptr) ==> BaseOf(v.ptr) in v.mem
  {
  }

  /** Where the table of an address is missing it looks up 0. */
  lemma NoTable(v: View, a: Word)
    requires !HasTable(v, a)
    ensures Lookup(v, a) == 0 && !Present(0)
  {
    FlagBits(0);
  }

  lemma TableThere(v: View, s: Space, a: Word)
    requires Tidy(v, s) && HasTable(v, a) && Own(s, Dir(a))
    ensures var t := BaseOf(v.mem[BaseOf(v.ptr)][Dir(a)]); t in v.mem && Lookup(v, a) == v.mem[t][Slot(a)]
  {
    FlagBits(0);
    assert DirEntry(v, s, Dir(a), v.mem[BaseOf(v.ptr)][Dir(a)]);
  }

  /** Updating the entry of an address in a table that exists keeps everything in order. */
  lemma OkSet(x: Sys, id: nat, va: Word, e: Word)
    requires x.Ok() && id in x.active && User(id) in x.ptrs && HasTable(x.At(User(id)), va) && UserAddress(va)
    ensures var v := x.At(User(id));
            && BaseOf(v.mem[BaseOf(v.ptr)][Dir(va)]) in v.mem
            && var w := WithEntry(v, va, e);
            && x.(mem := w.mem).Ok() && HasTable(w, va) && Elsewhere(v, w, User(id)) && w.mem.Keys == v.mem.Keys
            && forall a: Word :: UserAddress(a) ==> Lookup(w, a) == if a / PAGE == va / PAGE then e else Lookup(v, a)
  {
    var v := x.At(User(id));
    assert x.UserOk(id);
    UserAddresses();
    SetEntry(v, User(id), va, e);
    TableThere(v, User(id), va);
    var w := WithEntry(v, va, e);
    OkPreserved(x, x.(mem := w.mem), id);
    assert w.mem[BaseOf(v.ptr)] == v.mem[BaseOf(v.ptr)];
  }

  // ----- protect -----

  lemma NextDirectory(cur: Word, n: nat)
    requires n < ENTRIES && cur == (0x40_0000 * n) % WORD
    ensures IndexOf(cur, Level(1)) == n && (cur + 0x40_0000) % WORD == (0x40_0000 * (n + 1)) % WORD
  {
    IndexOfLevels(cur);
    assert cur == 0x40_0000 * n;
  }

  /** Directory entries [lo, hi) copied from the kernel's directory. */
  ghost predicate Copied(t: Table, before: Table, from: Table, lo: int, hi: int)
  {
    forall k: nat :: k < ENTRIES ==> t[k] == if lo <= k < hi then from[k] else before[k]
  }

  /** A new directory with the kernel's entries makes a protected address space. */
  lemma OkProtected(x: Sys, id: nat, p: Word, t: Table)
    requires x.Ok() && x.mem.Keys == x.owner.Keys && id !in x.active && p !in x.mem && p % PAGE == 0
    requires forall k: nat :: k < ENTRIES ==> t[k] == if KernelDir(k) then x.mem[x.kpt][k] else 0
    ensures var e := EntryOf(p, PTE_U);
            var y := Sys(x.mem[p := t], x.owner[p := Root(User(id))], x.ptrs[User(id) := e], x.kpt, x.active + {id});
            && y.Ok() && Elsewhere(View(x.mem, x.owner, 0), View(y.mem, y.owner, 0), User(id))
            && Owned(y.owner, User(id)) == {p}
            && forall a: Word :: UserAddress(a) ==> Lookup(y.At(User(id)), a) == 0
  {
    FlagBits(0);
    UserAddresses();
    var e := EntryOf(p, PTE_U);
    var y := Sys(x.mem[p := t], x.owner[p := Root(User(id))], x.ptrs[User(id) := e], x.kpt, x.active + {id});
    OthersOk(x, y, id);
    NewSpace(View(x.mem, x.owner, 0), id, p, t);
    assert y.UserOk(id);
  }

  lemma NewSpace(v: View, id: nat, p: Word, t: Table)
    requires v.mem.Keys == v.owner.Keys && p !in v.mem && p % PAGE == 0
    requires forall q :: q in v.owner ==> v.owner[q].space != User(id)
    requires forall k: nat :: UserDir(k) ==> t[k] == 0
    ensures var w := View(v.mem[p := t], v.owner[p := Root(User(id))], EntryOf(p, PTE_U));
            Tidy(w, User(id)) && IsUser(w.ptr) && Owned(w.owner, User(id)) == {p}
  {
    EntryUser(p, PTE_U);
  }

  // ----- unprotect -----

  /** What teardown relies on: in the directory only the space's own entries are user entries. */
  ghost predicate Removable(v: View, s: Space)
  {
    && s.User? && Tidy(v, s) && Present(v.ptr) && IsUser(v.ptr)
    && var t := v.mem[BaseOf(v.ptr)];
    forall k: nat :: k < ENTRIES && !Own(s, k) ==> !(Present(t[k]) && IsUser(t[k]))
  }

  lemma ActiveRemovable(x: Sys, id: nat)
    requires x.Ok() && id in x.active && User(id) in x.ptrs
    ensures Removable(x.At(User(id)), User(id))
  {
    FlagBits(0);
    assert x.UserOk(id);
    var t := x.mem[BaseOf(x.ptrs[User(id)])];
    forall k: nat | k < ENTRIES && !UserDir(k) ensures !(Present(t[k]) && IsUser(t[k])) {
      assert Own(Kernel, k) && DirEntry(x.At(Kernel), Kernel, k, x.mem[x.kpt][k]);
    }
  }

  /** The pages below level `level`: of the whole space, of directory entry k, or none. */
  ghost function Below(v: View, s: Space, level: nat, k: nat): set<Word>
  {
    if level <= 1 then Owned(v.owner, s)
    else if level == 2 then set p | p in v.owner && v.owner[p] == Leaf(s, k)
    else {}
  }

  /** Those below the first n entries of that level. */
  ghost function BelowEntries(v: View, s: Space, level: nat, n: nat): set<Word>
  {
    if level == 0 then (if n == 0 then {} else Owned(v.owner, s))
    else if level == 1 then set p | p in v.owner && v.owner[p].Leaf? && v.owner[p].space == s && v.owner[p].k < n
    else {}
  }

  /** Where teardown is called. */
  ghost predicate CalledAt(v: View, s: Space, level: nat, k: nat, pt: Loc)
    requires Removable(v, s)
  {
    match level
    case 0 => pt == AtPtr(s)
    case 1 => pt == InPage(BaseOf(v.ptr))
    case 2 => Own(s, k) && Present(v.mem[BaseOf(v.ptr)][k]) && pt == InPage(BaseOf(v.mem[BaseOf(v.ptr)][k]))
    case _ => true
  }

  /** Entry n adds what the recursive call frees, and nothing if it is skipped. */
  lemma NextEntry(v: View, s: Space, level: nat, n: nat, e: Word)
    requires Removable(v, s) && level <= 2 && n < (if level == 0 then 1 else ENTRIES)
    requires level == 0 ==> e == v.ptr
    requires level == 1 ==> e == v.mem[BaseOf(v.ptr)][n]
    ensures Present(e) && IsUser(e) ==>
              && BelowEntries(v, s, level, n + 1) == BelowEntries(v, s, level, n) + Below(v, s, level + 1, n)
              && BelowEntries(v, s, level, n) !! Below(v, s, level + 1, n)
              && CalledAt(v, s, level + 1, n, InPage(BaseOf(e)))
    ensures !(Present(e) && IsUser(e)) ==> BelowEntries(v, s, level, n + 1) == BelowEntries(v, s, level, n)
  {
    FlagBits(0);
    if level == 1 && Own(s, n) {
      assert DirEntry(v, s, n, e);
    }
  }

  /** After the last entry only the table itself is left. */
  lemma LastEntry(v: View, s: Space, level: nat, k: nat, pt: Loc)
    requires Removable(v, s) && 1 <= level <= 2 && CalledAt(v, s, level, k, pt)
    ensures pt.InPage? && Below(v, s, level, k) == BelowEntries(v, s, level, ENTRIES) + {pt.p}
    ensures pt.p !in BelowEntries(v, s, level, ENTRIES)
  {
    FlagBits(0);
    if level == 2 { assert DirEntry(v, s, k, v.mem[BaseOf(v.ptr)][k]); }
  }

  /** Taking away all pages of a space leaves the rest in order. */
  lemma OkRemoved(x: Sys, id: nat, y: Sys)
    requires x.Ok() && x.mem.Keys == x.owner.Keys && id in x.active
    requires y.mem == x.mem - Owned(x.owner, User(id)) && y.owner == x.owner - Owned(x.owner, User(id))
    requires y.ptrs == x.ptrs && y.kpt == x.kpt && y.active == x.active - {id}
    ensures y.Ok() && Elsewhere(View(x.mem, x.owner, 0), View(y.mem, y.owner, 0), User(id))
  {
    OthersOk(x, y, id);
  }

  // ----- vme_init -----

  predicate KernelAddress(a: Word) { a < 0x4000_0000 || 0xfd00_0000 <= a }

  lemma KernelAddresses()
    ensures forall a: Word :: KernelAddress(a) <==> KernelDir(Dir(a))
  {
    forall a: Word ensures KernelAddress(a) <==> KernelDir(Dir(a)) {
    }
  }

  /** The kernel's entry for a page: itself. */
  function Identity(a: Word): (e: Word)
    ensures e == a - a % PAGE + PTE_P + PTE_W
  {
    EntryOf(BaseOf(a), PTE_W)
  }

  lemma IdentityOf(cur: Word, n: nat)
    requires cur == PAGE * n
    ensures cur % PAGE == 0 && Identity(cur) == EntryOf(cur, PTE_W)
  {
    hide EntryOf;
  }

  /** Pages lo to hi are mapped to themselves on top of `before`. */
  ghost predicate IdentityMapped(v: View, before: View, lo: int, hi: int)
  {
    forall a: Word :: Lookup(v, a) == if PAGE * lo <= a < PAGE * hi then Identity(a) else Lookup(before, a)
  }

  lemma NextPage(cur: Word, n: nat)
    requires n < 0x10_0000 && cur == (PAGE * n) % WORD
    ensures cur == PAGE * n && (cur + PAGE) % WORD == (PAGE * (n + 1)) % WORD
  {
    assert cur == PAGE * n;
  }

  lemma PageNumber(a: Word, n: nat)
    ensures a / PAGE == n <==> PAGE * n <= a < PAGE * (n + 1)
    ensures a / PAGE == n ==> BaseOf(a) == PAGE * n
  {
  }

  /** The first i areas are done. */
  ghost predicate AreasMapped(v: View, i: nat)
  {
    forall a: Word ::
      Lookup(v, a) == if (i > 1 && a < 0x4000_0000) || (i > 2 && 0xfd00_0000 <= a) then Identity(a) else 0
  }

  lemma NextArea(v: View, w: View, i: nat)
    requires i < |AREAS| && AreasMapped(v, i)
    requires if AREAS[i].kernel then IdentityMapped(w, v, AREAS[i].start / PAGE, Limit(AREAS[i].end) / PAGE) else w == v
    ensures AreasMapped(w, i + 1)
  {
    hide Lookup, Identity;
  }

  lemma ExtendsKernel(v: View, w: View, before: View, lo: int, hi: int)
    requires Extends(v, w, Kernel) && IdentityMapped(v, before, lo, hi)
    requires forall p :: p in v.owner ==> v.owner[p].space == Kernel
    ensures IdentityMapped(w, before, lo, hi) && forall p :: p in w.owner ==> w.owner[p].space == Kernel
  {
    hide Lookup;
    assert forall a: Word :: Own(Kernel, Dir(a));
  }

  /** One page more. */
  lemma IdentityStep(v: View, before: View, lo: nat, n: nat, cur: Word)
    requires lo <= n < 0x10_0000 && cur == PAGE * n && IdentityMapped(v, before, lo, n)
    requires Tidy(v, Kernel) && HasTable(v, cur)
    ensures BaseOf(v.mem[BaseOf(v.ptr)][Dir(cur)]) in v.mem
    ensures var w := WithEntry(v, cur, Identity(cur));
            && Tidy(w, Kernel) && Elsewhere(v, w, Kernel) && w.mem.Keys == v.mem.Keys
            && IdentityMapped(w, before, lo, n + 1)
  {
    hide Tidy, Lookup, EntryOf;
    TableThere(v, Kernel, cur);
    SetEntry(v, Kernel, cur, Identity(cur));
    PageNumber(cur, n);
    var w := WithEntry(v, cur, Identity(cur));
    forall a: Word ensures Lookup(w, a) == if PAGE * lo <= a < PAGE * (n + 1) then Identity(a) else Lookup(before, a) {
      assert Own(Kernel, Dir(a));
      PageNumber(a, n);
    }
  }

  // ----- runs of map -----

  predicate AllAligned(calls: seq<MapCall>) { forall i :: 0 <= i < |calls| ==> calls[i].pa % PAGE == 0 }

  /** Call i is the last of these calls for the page of an address. */
  ghost predicate IsLast(calls: seq<MapCall>, i: int, a: Word)
  {
    0 <= i < |calls| && calls[i].va / PAGE == a / PAGE && forall j :: i < j < |calls| ==> calls[j].va / PAGE != a / PAGE
  }

  ghost predicate Untouched(calls: seq<MapCall>, a: Word)
  {
    forall i :: 0 <= i < |calls| ==> calls[i].va / PAGE != a / PAGE
  }

  /** After the calls every user address looks up what the last of them for its page has set: nothing after an unmap,
      otherwise the physical page with P, U and, exactly if asked for, W; untouched pages and all other spaces are as
      they were. */
  ghost predicate Follows(v: View, w: View, s: Space, calls: seq<MapCall>)
  {
    && AllAligned(calls) && Elsewhere(v, w, s)
    && (forall a: Word :: UserAddress(a) && Untouched(calls, a) ==> Lookup(w, a) == Lookup(v, a))
    && (forall a: Word, i :: UserAddress(a) && IsLast(calls, i, a) ==>
          Lookup(w, a) == if calls[i].prot == MMAP_NONE then 0
                          else calls[i].pa + PTE_P + PTE_U + if calls[i].prot / 2 % 2 == 1 then PTE_W else 0)
  }

  /** Every touched page has a last call. */
  lemma {:induction false} LastExists(calls: seq<MapCall>, a: Word)
    ensures Untouched(calls, a) <==> !exists i :: IsLast(calls, i, a)
  {
    if calls != [] {
      var n := |calls| - 1;
      LastExists(calls[..n], a);
      assert calls[..n + 1] == calls;
      if calls[n].va / PAGE == a / PAGE {
        assert IsLast(calls, n, a);
      } else if i :| IsLast(calls[..n], i, a) {
        assert calls[i] == calls[..n][i];
        assert IsLast(calls, i, a);
      } else {
        assert forall i :: 0 <= i < n ==> calls[i] == calls[..n][i];
      }
    }
  }

  lemma LastStep(calls: seq<MapCall>, n: nat, i: int, a: Word)
    requires n < |calls| && IsLast(calls[..n + 1], i, a)
    ensures 0 <= i <= n && (calls[n].va / PAGE == a / PAGE <==> i == n) && (i < n ==> IsLast(calls[..n], i, a))
  {
    var done, before := calls[..n + 1], calls[..n];
    assert done[n] == calls[n] && forall j :: 0 <= j < n ==> done[j] == before[j];
  }

  lemma UntouchedStep(calls: seq<MapCall>, n: nat, a: Word)
    requires n < |calls| && Untouched(calls[..n + 1], a)
    ensures Untouched(calls[..n], a) && calls[n].va / PAGE != a / PAGE
  {
    var done, before := calls[..n + 1], calls[..n];
    assert done[n] == calls[n] && forall j :: 0 <= j < n ==> done[j] == before[j];
  }

  lemma FollowsNothing(v: View, s: Space, calls: seq<MapCall>)
    requires v.mem.Keys == v.owner.Keys && calls == []
    ensures Follows(v, v, s, calls)
  {
  }

  /** One more call, which changes its own page if it succeeds. */
  lemma FollowsStep(v: View, w: View, x: View, s: Space, calls: seq<MapCall>, n: nat, done: bool)
    requires n < |calls| && Follows(v, w, s, calls[..n]) && Elsewhere(w, x, s) && (done ==> calls[n].pa % PAGE == 0)
    requires forall a: Word :: UserAddress(a) && !(done && a / PAGE == calls[n].va / PAGE) ==>
               Lookup(x, a) == Lookup(w, a)
    requires forall a: Word :: UserAddress(a) && done && a / PAGE == calls[n].va / PAGE ==>
               Lookup(x, a) == if calls[n].prot == MMAP_NONE then 0
                               else calls[n].pa + PTE_P + PTE_U + if calls[n].prot / 2 % 2 == 1 then PTE_W else 0
    ensures Follows(v, x, s, if done then calls[..n + 1] else calls[..n])
  {
    hide Elsewhere, Lookup, UserAddress, IsLast, Untouched;
    ElsewhereTransitive(v, w, x, s);
    if done {
      var all, before := calls[..n + 1], calls[..n];
      assert forall i :: 0 <= i < n ==> all[i] == before[i];
      assert AllAligned(all);
      forall a: Word | UserAddress(a) && Untouched(all, a) ensures Lookup(x, a) == Lookup(v, a) {
        UntouchedStep(calls, n, a);
      }
      forall a: Word, i | UserAddress(a) && IsLast(all, i, a)
        ensures 0 <= i < |all| && Lookup(x, a) == if all[i].prot == MMAP_NONE then 0
                                else all[i].pa + PTE_P + PTE_U + if all[i].prot / 2 % 2 == 1 then PTE_W else 0
      {
        LastStep(calls, n, i, a);
        assert i < n ==> all[i] == before[i];
      }
    }
  }

  class Machine {
    var mem: map<Word, Table>
    var ptrs: map<Space, Word>
    var kpt: Word
    /** The pages pgalloc has handed out, to anyone, and not got back. */
    var live: set<Word>
    ghost var owner: map<Word, Role>
    ghost var active: set<nat>

    ghost predicate Framed()
      reads this
    {
      mem.Keys == owner.Keys && mem.Keys <= live && forall p :: p in mem ==> p % PAGE == 0
    }

    ghost function State(): Sys
      reads this
    {
      Sys(mem, owner, ptrs, kpt, active)
    }

    ghost function At(s: Space): View
      requires s in ptrs
      reads this
    {
      View(mem, owner, ptrs[s])
    }

    ghost predicate Valid()
      reads this
    {
      Framed() && State().Ok()
    }

    // ----- allocation -----

    method PgAlloc() returns (p: Word)
      modifies this`live
      ensures p == 0 ==> live == old(live)
      ensures p != 0 ==> p % PAGE == 0 && p !in old(live) && live == old(live) + {p}
    {
      var q: Word := *;
      p := 0;
      if q != 0 && q % PAGE == 0 && q !in live {
        p := q;
        live := live + {q};
      }
    }

    /** A table page that is still allocated goes back. */
    method PgFree(p: Word)
      requires p in live && p in mem
      modifies this`live, this`mem
      ensures live == old(live) - {p} && mem == old(mem) - {p}
    {
      live := live - {p};
      mem := mem - {p};
    }

    method PgAllocZ(ghost role: Role) returns (base: Word)
      requires Framed()
      modifies this`live, this`mem, this`owner
      ensures Framed()
      ensures base == 0 ==> live == old(live) && mem == old(mem) && owner == old(owner)
      ensures base != 0 ==> base % PAGE == 0 && base !in old(live) && live == old(live) + {base}
      ensures base != 0 ==> mem == old(mem)[base := Blank()] && owner == old(owner)[base := role]
    {
      base := PgAlloc();
      if base == 0 { return; }
      var junk: Table := *;
      mem := mem[base := junk];
      owner := owner[base := role];
      var i := 0;
      while i < ENTRIES
        modifies this`mem
        invariant 0 <= i <= ENTRIES && base in mem && mem == old(mem)[base := mem[base]]
        invariant forall j :: 0 <= j < i ==> mem[base][j] == 0
      {
        mem := mem[base := mem[base][i := 0]];
        i := i + 1;
      }
      assert mem[base] == Blank();
    }

    // ----- ptwalk -----

    function Read(l: Loc, index: nat): Word
      requires if l.AtPtr? then l.s in ptrs else l.p in mem && index < ENTRIES
      reads this
    {
      if l.AtPtr? then ptrs[l.s] else mem[l.p][index]
    }

    method Store(l: Loc, index: nat, e: Word)
      requires if l.AtPtr? then l.s in ptrs else l.p in mem && index < ENTRIES
      modifies this`ptrs, this`mem
      ensures ptrs == (if l.AtPtr? then old(ptrs)[l.s := e] else old(ptrs))
      ensures mem == (if l.AtPtr? then old(mem) else old(mem)[l.p := old(mem)[l.p][index := e]])
    {
      if l.AtPtr? { ptrs := ptrs[l.s := e]; } else { mem := mem[l.p := mem[l.p][index := e]]; }
    }

    /** The branch of ptwalk that allocates a missing table. */
    method Grow(s: Space, cur: Loc, index: nat) returns (next: Word)
      requires Framed() && s in ptrs && Tidy(At(s), s)
      requires cur == AtPtr(s) || (Present(ptrs[s]) && cur == InPage(BaseOf(ptrs[s])) && Own(s, index))
      requires !Present(Read(cur, index))
      modifies this`live, this`mem, this`owner, this`ptrs
      ensures Framed() && s in ptrs && ptrs == old(ptrs)[s := ptrs[s]]
      ensures Tidy(At(s), s) && Extends(old(At(s)), At(s), s)
      ensures live - Owned(owner, s) == old(live - Owned(owner, s))
      ensures next != 0 ==> Present(ptrs[s]) && BaseOf(ptrs[s]) in mem
      ensures next != 0 ==> if cur == AtPtr(s) then next == BaseOf(ptrs[s])
                            else ptrs == old(ptrs) && Present(mem[cur.p][index]) && next == BaseOf(mem[cur.p][index])
    {
      hide Tidy, Extends, Owned;
      ghost var v, before := At(s), live;
      ExtendsReflexive(v, s);
      RootThere(v, s);
      next := PgAllocZ(if cur == AtPtr(s) then Root(s) else Leaf(s, index));
      if next == 0 { return; }
      Store(cur, index, EntryOf(next, DirFlags(s)));
      OwnedGrows(v.owner, before, s, next, owner[next]);
      if cur == AtPtr(s) {
        NewRoot(v, s, next);
      } else {
        NewLeaf(v, s, index, next);
        assert At(s) == WithLeaf(v, s, index, next);
      }
    }

    /** The table and index of addr's entry; tables missing on the way are added. */
    method PtWalk(s: Space, addr: Word) returns (r: Outcome, t: Word, index: nat)
      requires Framed() && s in ptrs && Tidy(At(s), s) && Own(s, Dir(addr))
      modifies this`live, this`mem, this`owner, this`ptrs
      ensures Framed() && s in ptrs && ptrs == old(ptrs)[s := ptrs[s]]
      ensures Tidy(At(s), s) && Extends(old(At(s)), At(s), s)
      ensures live - Owned(owner, s) == old(live - Owned(owner, s))
      ensures r == Done || r == NoPage
      ensures old(HasTable(At(s), addr)) ==> r == Done && live == old(live) && At(s) == old(At(s))
      ensures r == Done ==> HasTable(At(s), addr) && t == BaseOf(mem[BaseOf(ptrs[s])][Dir(addr)]) && index == Slot(addr)
    {
      hide Tidy, Extends, IndexOf;
      IndexOfLevels(addr);
      ExtendsReflexive(At(s), s);
      ghost var v := At(s);
      var cur, i := AtPtr(s), 0;
      r, t, index := Done, 0, 0;
      while i < PT_LEVELS
        invariant 0 <= i <= PT_LEVELS
        invariant Framed() && s in ptrs && ptrs == old(ptrs)[s := ptrs[s]]
        invariant Tidy(At(s), s) && Extends(v, At(s), s)
        invariant live - Owned(owner, s) == old(live - Owned(owner, s))
        invariant HasTable(v, addr) ==> live == old(live) && At(s) == v
        invariant i == 0 ==> cur == AtPtr(s)
        invariant i > 0 ==> Present(ptrs[s]) && BaseOf(ptrs[s]) in mem
        invariant i == 1 ==> cur == InPage(BaseOf(ptrs[s]))
        invariant i == 2 ==> HasTable(At(s), addr) && cur == InPage(BaseOf(mem[BaseOf(ptrs[s])][Dir(addr)]))
      {
        index := IndexOf(addr, Level(i));
        RootThere(At(s), s);
        var next;
        if !Present(Read(cur, index)) {
          ghost var w := At(s);
          next := Grow(s, cur, index);
          ExtendsTransitive(v, w, At(s), s);
          if next == 0 { r := NoPage; return; }
        } else {
          next := BaseOf(Read(cur, index));
        }
        cur := InPage(next);
        i := i + 1;
      }
      index := IndexOf(addr, Level(PT_LEVELS));
      t := cur.p;
    }

    // ----- map -----

    /** ptwalk in a protected address space. */
    method UserWalk(id: nat, va: Word) returns (r: Outcome, t: Word, index: nat)
      requires Valid() && id in active && User(id) in ptrs && UserAddress(va)
      modifies this`live, this`mem, this`owner, this`ptrs
      ensures Valid() && ptrs == old(ptrs) && Elsewhere(old(At(User(id))), At(User(id)), User(id))
      ensures live - Owned(owner, User(id)) == old(live - Owned(owner, User(id)))
      ensures forall a: Word :: UserAddress(a) ==> Lookup(At(User(id)), a) == old(Lookup(At(User(id)), a))
      ensures r == Done || r == NoPage
      ensures r == NoPage ==> !old(HasTable(At(User(id)), va))
      ensures old(HasTable(At(User(id)), va)) ==> live == old(live) && mem == old(mem) && owner == old(owner)
      ensures r == Done ==> HasTable(At(User(id)), va) && t == BaseOf(mem[BaseOf(ptrs[User(id)])][Dir(va)])
      ensures r == Done ==> index == Slot(va)
    {
      ghost var x := State();
      assert x.UserOk(id);
      UserAddresses();
      r, t, index := PtWalk(User(id), va);
      assert ptrs == old(ptrs);
      OkPreserved(x, State(), id);
    }

    /** The end of map: the entry is set, and the walk repeated. */
    method SetAndWalk(id: nat, va: Word, t: Word, index: nat, e: Word)
      requires Valid() && id in active && User(id) in ptrs && UserAddress(va) && HasTable(At(User(id)), va)
      requires t == BaseOf(mem[BaseOf(ptrs[User(id)])][Dir(va)]) && index == Slot(va) && t in mem
      modifies this`live, this`mem, this`owner, this`ptrs
      ensures Valid() && ptrs == old(ptrs) && live == old(live) && owner == old(owner)
      ensures Elsewhere(old(At(User(id))), At(User(id)), User(id))
      ensures forall a: Word :: UserAddress(a) ==>
                Lookup(At(User(id)), a) == if a / PAGE == va / PAGE then e else old(Lookup(At(User(id)), a))
    {
      OkSet(State(), id, va, e);
      Store(InPage(t), index, e);
      var r, t', index' := UserWalk(id, va);
    }

    method Map(id: nat, va: Word, pa: Word, prot: nat) returns (r: Outcome)
      requires Valid() && id in active && User(id) in ptrs
      modifies this`live, this`mem, this`owner, this`ptrs
      ensures Valid() && ptrs == old(ptrs) && Elsewhere(old(At(User(id))), At(User(id)), User(id))
      ensures live - Owned(owner, User(id)) == old(live - Owned(owner, User(id)))
      ensures r == BadAddress <==> !UserAddress(va)
      ensures r == Unaligned <==> UserAddress(va) && !(va % PAGE == 0 && pa % PAGE == 0)
      ensures r == NoPage || r == Remapped || r == NotMapped || r == Done ==>
                var mapped := Present(old(Lookup(At(User(id)), va)));
                && (mapped ==> r != NoPage) && (r == NotMapped ==> prot == MMAP_NONE && !mapped)
                && (r == Remapped ==> prot != MMAP_NONE && mapped) && (r == Done ==> (prot == MMAP_NONE <==> mapped))
      ensures forall a: Word :: UserAddress(a) && !(r == Done && a / PAGE == va / PAGE) ==>
                Lookup(At(User(id)), a) == old(Lookup(At(User(id)), a))
      ensures forall a: Word :: UserAddress(a) && r == Done && a / PAGE == va / PAGE ==>
                Lookup(At(User(id)), a) == if prot == MMAP_NONE then 0
                                           else pa + PTE_P + PTE_U + if prot / 2 % 2 == 1 then PTE_W else 0
    {
      ghost var s, v := User(id), At(User(id));
      assert State().UserOk(id);
      ExtendsReflexive(v, s);
      if !UserAddress(va) { return BadAddress; }
      if va != BaseOf(va) || pa != BaseOf(pa) { return Unaligned; }
      var t, index;
      r, t, index := UserWalk(id, va);
      if r == NoPage { NoTable(v, va); return; }
      ghost var w := At(s);
      UserAddressDir(va);
      assert State().UserOk(id);
      TableThere(w, s, va);
      if prot == MMAP_NONE {
        if !Present(mem[t][index]) { return NotMapped; }
        SetAndWalk(id, va, t, index, 0);
      } else {
        if Present(mem[t][index]) { return Remapped; }
        SetAndWalk(id, va, t, index, PteOf(pa, prot));
      }
      ElsewhereTransitive(v, w, At(s), s);
    }

    // ----- vme_init -----

    /** One page of vme_init. */
    method IdentityPage(ghost v: View, ghost lo: nat, ghost n: nat, cur: Word) returns (r: Outcome)
      requires Framed() && Kernel in ptrs && Tidy(At(Kernel), Kernel)
      requires lo <= n < 0x10_0000 && cur == PAGE * n && IdentityMapped(At(Kernel), v, lo, n)
      requires forall p :: p in owner ==> owner[p].space == Kernel
      modifies this`live, this`mem, this`owner, this`ptrs
      ensures Framed() && Kernel in ptrs && Tidy(At(Kernel), Kernel)
      ensures ptrs == old(ptrs)[Kernel := ptrs[Kernel]]
      ensures forall p :: p in owner ==> owner[p].space == Kernel
      ensures r == Done || r == NoPage
      ensures r == Done ==> Present(ptrs[Kernel]) && IdentityMapped(At(Kernel), v, lo, n + 1)
    {
      hide Tidy, Extends, IdentityMapped, Identity, EntryOf;
      ghost var w := At(Kernel);
      IdentityOf(cur, n);
      var t, index;
      r, t, index := PtWalk(Kernel, cur);
      ExtendsKernel(w, At(Kernel), v, lo, n);
      if r == NoPage { return; }
      IdentityStep(At(Kernel), v, lo, n, cur);
      Store(InPage(t), index, EntryOf(cur, PTE_W));
    }

    /** The inner loop of vme_init over one kernel area. */
    method IdentityArea(start: Word, end: Word) returns (r: Outcome)
      requires Framed() && Kernel in ptrs && Tidy(At(Kernel), Kernel)
      requires start % PAGE == 0 && end % PAGE == 0 && start < Limit(end) && start != end
      requires forall p :: p in owner ==> owner[p].space == Kernel
      modifies this`live, this`mem, this`owner, this`ptrs
      ensures Framed() && Kernel in ptrs && Tidy(At(Kernel), Kernel)
      ensures ptrs == old(ptrs)[Kernel := ptrs[Kernel]]
      ensures forall p :: p in owner ==> owner[p].space == Kernel
      ensures r == Done || r == NoPage
      ensures r == Done ==> Present(ptrs[Kernel])
      ensures r == Done ==> IdentityMapped(At(Kernel), old(At(Kernel)), start / PAGE, Limit(end) / PAGE)
    {
      hide Tidy, Lookup, Identity;
      var cur := start;
      ghost var v, n := At(Kernel), start / PAGE;
      while cur != end
        invariant start / PAGE <= n <= Limit(end) / PAGE && cur == (PAGE * n) % WORD
        invariant Framed() && Kernel in ptrs && Tidy(At(Kernel), Kernel)
        invariant ptrs == old(ptrs)[Kernel := ptrs[Kernel]]
        invariant n > start / PAGE ==> Present(ptrs[Kernel])
        invariant forall p :: p in owner ==> owner[p].space == Kernel
        invariant IdentityMapped(At(Kernel), v, start / PAGE, n)
        decreases Limit(end) / PAGE - n
      {
        NextPage(cur, n);
        r := IdentityPage(v, start / PAGE, n, cur);
        if r == NoPage { return; }
        cur := (cur + PAGE) % WORD;
        n := n + 1;
      }
      r := Done;
    }

    /** The kernel's tables: every kernel address is mapped to itself, without PTE_U. */
    method VmeInit() returns (r: Outcome)
      requires mem == map[] && owner == map[] && active == {}
      modifies this
      ensures r == Done || r == NoPage
      ensures r == Done ==> Valid() && active == {}
      ensures r == Done ==> forall a: Word ::
                Lookup(At(Kernel), a) == if a < 0x4000_0000 || 0xfd00_0000 <= a then a - a % PAGE + PTE_P + PTE_W else 0
    {
      ptrs := map[Kernel := 0];
      FlagBits(0);
      r := IdentityAreas();
      if r == NoPage { return; }
      kpt := BaseOf(ptrs[Kernel]);
      KernelAddresses();
    }

    /** The loop of vme_init over vm_areas. */
    method IdentityAreas() returns (r: Outcome)
      requires Framed() && Kernel in ptrs && Tidy(At(Kernel), Kernel) && !Present(ptrs[Kernel])
      requires forall p :: p in owner ==> owner[p].space == Kernel
      modifies this`live, this`mem, this`owner, this`ptrs
      ensures Framed() && Kernel in ptrs && Tidy(At(Kernel), Kernel) && (r == Done ==> Present(ptrs[Kernel]))
      ensures forall p :: p in owner ==> owner[p].space == Kernel
      ensures r == Done || r == NoPage
      ensures r == Done ==> forall a: Word :: Lookup(At(Kernel), a) == if KernelAddress(a) then Identity(a) else 0
    {
      var i := 0;
      r := Done;
      assert AreasMapped(At(Kernel), 0);
      hide Lookup, Tidy, Identity, Present, IdentityMapped;
      while i < |AREAS|
        invariant 0 <= i <= |AREAS| && r == Done
        invariant Framed() && Kernel in ptrs && Tidy(At(Kernel), Kernel) && (i > 1 ==> Present(ptrs[Kernel]))
        invariant forall p :: p in owner ==> owner[p].space == Kernel
        invariant AreasMapped(At(Kernel), i)
      {
        ghost var v := At(Kernel);
        if AREAS[i].kernel {
          r := IdentityArea(AREAS[i].start, AREAS[i].end);
          if r == NoPage { return; }
        }
        NextArea(v, At(Kernel), i);
        i := i + 1;
      }
    }

    // ----- protect -----

    /** The inner loop of protect over one kernel area; `cur` wraps around at the end of the address space. */
    method CopyArea(upt: Word, start: Word, end: Word)
      requires upt in mem && kpt in mem && upt != kpt
      requires start % 0x40_0000 == 0 && end % 0x40_0000 == 0 && start < Limit(end) && start != end
      modifies this`mem
      ensures upt in mem && mem == old(mem)[upt := mem[upt]]
      ensures Copied(mem[upt], old(mem)[upt], old(mem)[kpt], start / 0x40_0000, Limit(end) / 0x40_0000)
    {
      hide IndexOf;
      var cur := start;
      ghost var n := start / 0x40_0000;
      while cur != end
        invariant start / 0x40_0000 <= n <= Limit(end) / 0x40_0000 && cur == (0x40_0000 * n) % WORD
        invariant upt in mem && mem == old(mem)[upt := mem[upt]]
        invariant Copied(mem[upt], old(mem)[upt], old(mem)[kpt], start / 0x40_0000, n)
        decreases Limit(end) / 0x40_0000 - n
      {
        NextDirectory(cur, n);
        var index := IndexOf(cur, Level(1));
        mem := mem[upt := mem[upt][index := mem[kpt][index]]];
        cur := (cur + 0x40_0000) % WORD;
        n := n + 1;
      }
    }

    method Protect(id: nat) returns (r: Outcome)
      requires Valid() && id !in active
      modifies this`live, this`mem, this`owner, this`ptrs, this`active
      ensures r == Done || r == NoPage
      ensures Valid() && Elsewhere(View(old(mem), old(owner), 0), View(mem, owner, 0), User(id))
      ensures live - Owned(owner, User(id)) == old(live)
      ensures r == NoPage ==> unchanged(this)
      ensures r == Done ==> active == old(active) + {id}
      ensures r == Done ==> User(id) in ptrs && ptrs == old(ptrs)[User(id) := ptrs[User(id)]]
      ensures r == Done ==> Owned(owner, User(id)) == {BaseOf(ptrs[User(id)])} && BaseOf(ptrs[User(id)]) !in old(live)
      ensures r == Done ==> forall a: Word :: UserAddress(a) ==> Lookup(At(User(id)), a) == 0
    {
      hide Lookup, Owned, Elsewhere, UserAddress, Sys.Ok;
      ghost var x := State();
      NoneOwned(x, id);
      KernelRoot(x);
      var upt := NewDirectory(id);
      if upt == 0 { return NoPage; }
      OkProtected(x, id, upt, mem[upt]);
      ptrs := ptrs[User(id) := EntryOf(upt, PTE_U)];
      active := active + {id};
      r := Done;
    }

    /** A zeroed page with the kernel's directory entries. */
    method NewDirectory(ghost id: nat) returns (upt: Word)
      requires Framed() && kpt in mem
      modifies this`live, this`mem, this`owner
      ensures Framed()
      ensures upt == 0 ==> live == old(live) && mem == old(mem) && owner == old(owner)
      ensures upt != 0 ==> upt % PAGE == 0 && upt !in old(live) && live == old(live) + {upt} && upt in mem
      ensures upt != 0 ==> mem == old(mem)[upt := mem[upt]] && owner == old(owner)[upt := Root(User(id))]
      ensures upt != 0 ==> forall k: nat :: k < ENTRIES ==> mem[upt][k] == if KernelDir(k) then old(mem)[kpt][k] else 0
    {
      upt := PgAllocZ(Root(User(id)));
      if upt == 0 { return; }
      CopyAreas(upt);
    }

    /** The loop of protect over vm_areas. */
    method CopyAreas(upt: Word)
      requires upt in mem && kpt in mem && upt != kpt && mem[upt] == Blank()
      modifies this`mem
      ensures upt in mem && mem == old(mem)[upt := mem[upt]]
      ensures forall k: nat :: k < ENTRIES ==> mem[upt][k] == if KernelDir(k) then old(mem)[kpt][k] else 0
    {
      var i := 0;
      while i < |AREAS|
        invariant 0 <= i <= |AREAS| && upt in mem && mem == old(mem)[upt := mem[upt]]
        invariant forall k: nat :: k < ENTRIES ==>
                    mem[upt][k] == if (i > 1 && k < 256) || (i > 2 && 1012 <= k) then old(mem)[kpt][k] else 0
      {
        if AREAS[i].kernel {
          CopyArea(upt, AREAS[i].start, AREAS[i].end);
        }
        i := i + 1;
      }
    }

    // ----- unprotect -----

    /** teardown: v is the tree as it was when unprotect was called. */
    method Teardown(level: nat, pt: Loc, ghost v: View, ghost s: Space, ghost k: nat)
      requires level <= PT_LEVELS + 1 && Removable(v, s) && CalledAt(v, s, level, k, pt)
      requires mem.Keys <= live && Below(v, s, level, k) <= mem.Keys
      requires forall p :: p in mem ==> p in v.mem && mem[p] == v.mem[p]
      requires s in ptrs && ptrs[s] == v.ptr
      modifies this`live, this`mem
      ensures mem == old(mem) - Below(v, s, level, k) && live == old(live) - Below(v, s, level, k)
      decreases PT_LEVELS + 1 - level
    {
      if level > PT_LEVELS { return; }
      var index := 0;
      var count := if level == 0 then 1 else ENTRIES;
      if level >= 1 { LastEntry(v, s, level, k, pt); }
      while index < count
        modifies this`live, this`mem
        invariant 0 <= index <= count
        invariant mem == old(mem) - BelowEntries(v, s, level, index)
        invariant live == old(live) - BelowEntries(v, s, level, index)
      {
        BelowMonotone(v, s, level, k, index);
        var e := Read(pt, index);
        NextEntry(v, s, level, index, e);
        if Present(e) && IsUser(e) {
          Teardown(level + 1, InPage(BaseOf(e)), v, s, index);
        }
        index := index + 1;
      }
      if level >= 1 {
        PgFree(pt.p);
      }
    }

    method Unprotect(id: nat)
      requires Valid() && id in active
      modifies this`live, this`mem, this`owner, this`active
      ensures Valid() && active == old(active) - {id}
      ensures live == old(live) - old(Owned(owner, User(id))) && mem == old(mem) - old(Owned(owner, User(id)))
      ensures owner == old(owner) - old(Owned(owner, User(id)))
      ensures Elsewhere(View(old(mem), old(owner), 0), View(mem, owner, 0), User(id))
    {
      ghost var x := State();
      assert x.UserOk(id);
      ActiveRemovable(x, id);
      Teardown(0, AtPtr(User(id)), At(User(id)), User(id), 0);
      owner := owner - Owned(owner, User(id));
      active := active - {id};
      OkRemoved(x, id, State());
    }

    // ----- runs -----

    /** Any run of map and unmap calls, up to the first panic. */
    method MapAll(id: nat, calls: seq<MapCall>) returns (n: nat, r: Outcome)
      requires Valid() && id in active && User(id) in ptrs
      modifies this`live, this`mem, this`owner, this`ptrs
      ensures Valid() && ptrs == old(ptrs) && n <= |calls| && (r == Done <==> n == |calls|)
      ensures live - Owned(owner, User(id)) == old(live - Owned(owner, User(id)))
      ensures Follows(old(At(User(id))), At(User(id)), User(id), calls[..n])
    {
      hide Follows, Owned, Sys.Ok;
      ghost var s, v := User(id), At(User(id));
      n, r := 0, Done;
      FollowsNothing(v, s, calls[..n]);
      while n < |calls|
        invariant Valid() && ptrs == old(ptrs) && n <= |calls| && r == Done && Follows(v, At(s), s, calls[..n])
        invariant live - Owned(owner, User(id)) == old(live - Owned(owner, User(id)))
        decreases |calls| - n
      {
        ghost var w := At(s);
        r := Map(id, calls[n].va, calls[n].pa, calls[n].prot);
        FollowsStep(v, w, At(s), s, calls, n, r == Done);
        if r != Done { return; }
        n := n + 1;
      }
    }

    /** The life of an address space: if nothing panics every page it took has been given back, and no other table
        has changed. */
    method Lifetime(id: nat, calls: seq<MapCall>) returns (r: Outcome)
      requires Valid() && id !in active
      modifies this`live, this`mem, this`owner, this`ptrs, this`active
      ensures Valid()
      ensures r == Done ==> live == old(live) && mem == old(mem) && owner == old(owner) && active == old(active)
    {
      ghost var v := View(mem, owner, 0);
      NoneOwned(State(), id);
      r := Protect(id);
      if r != Done { return; }
      ghost var w := View(mem, owner, 0);
      var n;
      n, r := MapAll(id, calls);
      ElsewherePtr(View(w.mem, w.owner, ptrs[User(id)]), At(User(id)), 0, User(id));
      if r != Done { return; }
      ElsewhereTransitive(v, w, View(mem, owner, 0), User(id));
      ghost var x := View(mem, owner, 0);
      Unprotect(id);
      ElsewhereTransitive(v, x, View(mem, owner, 0), User(id));
      SameElsewhere(v, View(mem, owner, 0), User(id));
    }
  }
}
