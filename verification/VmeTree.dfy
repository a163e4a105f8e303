/** The radix tree of one address space as a value: which pages are its tables, what an address looks up, and what
    adding a table or setting an entry does to it (abstract-machine/am/src/x86/qemu/vme.c). */
module VmeTree {
  import opened VmeEntry

  datatype Space = Kernel | User(id: nat)

  /** What a table page is for: the directory of a space, or the table of its directory entry k. */
  datatype Role = Root(space: Space) | Leaf(space: Space, k: nat)

  type Table = t: seq<Word> | |t| == ENTRIES witness seq(ENTRIES, _ => 0)

  function Blank(): (t: Table)
    ensures forall k :: 0 <= k < ENTRIES ==> t[k] == 0
  {
    seq(ENTRIES, _ => 0)
  }

  /** vm_areas by directory index: 0x40000000 up to 0x80000000 is user space, below that and from 0xfd000000 up is
      the kernel's. */
  predicate UserDir(k: nat) { 256 <= k < 512 }

  predicate KernelDir(k: nat) { k < 256 || 1012 <= k < ENTRIES }

  predicate Own(s: Space, k: nat) { k < ENTRIES && (s.User? ==> UserDir(k)) }

  /** The flags ptwalk is called with. */
  function DirFlags(s: Space): (f: nat)
    ensures f < 8 && f % 2 == 0 && (f >= 4 <==> s.User?)
  {
    if s.Kernel? then PTE_W else PTE_W + PTE_U
  }

  /** The table memory, with the role of every page, and the `ptr` of one address space. */
  datatype View = View(mem: map<Word, Table>, owner: map<Word, Role>, ptr: Word)

  ghost predicate DirEntry(v: View, s: Space, k: nat, e: Word)
  {
    || e == 0
    || (Present(e) && (IsUser(e) <==> s.User?) && BaseOf(e) in v.owner && v.owner[BaseOf(e)] == Leaf(s, k))
  }

  /** The directory and every table under it is in place. */
  ghost predicate Tree(v: View, s: Space)
  {
    && Present(v.ptr) && BaseOf(v.ptr) in v.mem
    && BaseOf(v.ptr) in v.owner && v.owner[BaseOf(v.ptr)] == Root(s)
    && forall k: nat :: Own(s, k) ==> DirEntry(v, s, k, v.mem[BaseOf(v.ptr)][k])
  }

  /** No other page has a role in this space. */
  ghost predicate Exact(v: View, s: Space)
    requires BaseOf(v.ptr) in v.mem
  {
    forall p :: p in v.owner && v.owner[p].space == s ==>
      match v.owner[p]
      case Root(_) => p == BaseOf(v.ptr)
      case Leaf(_, k) => Own(s, k) && var e := v.mem[BaseOf(v.ptr)][k]; Present(e) && BaseOf(e) == p
  }

  ghost predicate Tidy(v: View, s: Space)
  {
    && v.mem.Keys == v.owner.Keys
    && (if Present(v.ptr) then Tree(v, s) && Exact(v, s) else forall p :: p in v.owner ==> v.owner[p].space != s)
  }

  /** What the processor finds for an address; 0 where a table is missing. */
  function Lookup(v: View, a: Word): Word
  {
    if !Present(v.ptr) || BaseOf(v.ptr) !in v.mem then 0
    else
      var e := v.mem[BaseOf(v.ptr)][Dir(a)];
      if !Present(e) || BaseOf(e) !in v.mem then 0 else v.mem[BaseOf(e)][Slot(a)]
  }

  /** Pages of other spaces keep their role and contents, and no other space gains one. */
  ghost predicate Elsewhere(v: View, w: View, s: Space)
  {
    && (forall p :: p in v.owner && p in v.mem && v.owner[p].space != s ==>
          p in w.owner && p in w.mem && w.owner[p] == v.owner[p] && w.mem[p] == v.mem[p])
    && (forall p :: p in w.owner && w.owner[p].space != s ==> p in v.owner && p in v.mem && v.owner[p] == w.owner[p])
  }

  /** Tables were added: nothing an address of the space looks up has changed. */
  ghost predicate Extends(v: View, w: View, s: Space)
  {
    && Elsewhere(v, w, s)
    && v.owner.Keys <= w.owner.Keys
    && (forall a: Word :: Own(s, Dir(a)) ==> Lookup(w, a) == Lookup(v, a))
    && (Present(v.ptr) ==> w.ptr == v.ptr && SharedKept(v, w, s))
  }

  /** The directory entries outside the space's own range are unchanged. */
  ghost predicate SharedKept(v: View, w: View, s: Space)
  {
    var r := BaseOf(v.ptr);
    r in v.mem && r in w.mem && forall k: nat :: k < ENTRIES && !Own(s, k) ==> w.mem[r][k] == v.mem[r][k]
  }

  lemma ExtendsReflexive(v: View, s: Space)
    requires Tidy(v, s)
    ensures Extends(v, v, s)
  {
  }

  lemma ExtendsTransitive(v: View, w: View, x: View, s: Space)
    requires Extends(v, w, s) && Extends(w, x, s)
    ensures Extends(v, x, s)
  {
    forall p | p in v.owner && p in v.mem && v.owner[p].space != s
      ensures p in x.owner && p in x.mem && x.owner[p] == v.owner[p] && x.mem[p] == v.mem[p]
    {
      assert p in w.owner && w.owner[p] == v.owner[p];
    }
  }

  /** ptwalk adds a directory. */
  lemma NewRoot(v: View, s: Space, p: Word)
    requires Tidy(v, s) && !Present(v.ptr) && p !in v.owner && p % PAGE == 0
    ensures var w := View(v.mem[p := Blank()], v.owner[p := Root(s)], EntryOf(p, DirFlags(s)));
            Tidy(w, s) && Present(w.ptr) && Extends(v, w, s)
  {
    var w := View(v.mem[p := Blank()], v.owner[p := Root(s)], EntryOf(p, DirFlags(s)));
    FlagBits(0);
    assert w.mem[p] == Blank();
  }

  /** The table of entry k is missing, and p is a page for it. */
  ghost predicate CanAdd(v: View, s: Space, k: nat, p: Word)
  {
    && Tidy(v, s) && Present(v.ptr) && Own(s, k) && !Present(v.mem[BaseOf(v.ptr)][k])
    && p !in v.owner && p % PAGE == 0
  }

  /** ptwalk adds a table. */
  lemma NewLeaf(v: View, s: Space, k: nat, p: Word)
    requires CanAdd(v, s, k, p)
    ensures var w := WithLeaf(v, s, k, p); Tidy(w, s) && Extends(v, w, s)
  {
    var w, r := WithLeaf(v, s, k, p), BaseOf(v.ptr);
    EntryUser(p, DirFlags(s));
    LeafTree(v, s, k, p);
    LeafExact(v, s, k, p);
    forall a: Word | Own(s, Dir(a)) ensures Lookup(w, a) == Lookup(v, a) {
      LeafLookup(v, s, k, p, a);
    }
  }

  ghost function WithLeaf(v: View, s: Space, k: nat, p: Word): View
    requires BaseOf(v.ptr) in v.mem && k < ENTRIES && p % PAGE == 0
  {
    var r := BaseOf(v.ptr);
    View(v.mem[p := Blank()][r := v.mem[r][k := EntryOf(p, DirFlags(s))]], v.owner[p := Leaf(s, k)], v.ptr)
  }

  lemma LeafTree(v: View, s: Space, k: nat, p: Word)
    requires CanAdd(v, s, k, p)
    ensures Tree(WithLeaf(v, s, k, p), s)
  {
    var w, r := WithLeaf(v, s, k, p), BaseOf(v.ptr);
    EntryUser(p, DirFlags(s));
    forall j: nat | Own(s, j) ensures DirEntry(w, s, j, w.mem[r][j]) {
      assert DirEntry(v, s, j, v.mem[r][j]);
    }
  }

  lemma LeafExact(v: View, s: Space, k: nat, p: Word)
    requires CanAdd(v, s, k, p)
    ensures Exact(WithLeaf(v, s, k, p), s)
  {
  }

  lemma LeafLookup(v: View, s: Space, k: nat, p: Word, a: Word)
    requires CanAdd(v, s, k, p)
    requires Own(s, Dir(a))
    ensures Lookup(WithLeaf(v, s, k, p), a) == Lookup(v, a)
  {
    FlagBits(0);
    assert DirEntry(v, s, Dir(a), v.mem[BaseOf(v.ptr)][Dir(a)]);
  }

  /** Setting the table entry of an address. */
  ghost function WithEntry(v: View, addr: Word, e: Word): View
    requires BaseOf(v.ptr) in v.mem && BaseOf(v.mem[BaseOf(v.ptr)][Dir(addr)]) in v.mem
  {
    var t := BaseOf(v.mem[BaseOf(v.ptr)][Dir(addr)]);
    v.(mem := v.mem[t := v.mem[t][Slot(addr) := e]])
  }

  /** It changes what that page looks up, and nothing else. */
  lemma SetEntry(v: View, s: Space, addr: Word, e: Word)
    requires Tidy(v, s) && Present(v.ptr) && Own(s, Dir(addr)) && Present(v.mem[BaseOf(v.ptr)][Dir(addr)])
    ensures DirEntry(v, s, Dir(addr), v.mem[BaseOf(v.ptr)][Dir(addr)]) && v.mem[BaseOf(v.ptr)][Dir(addr)] != 0
    ensures var w := WithEntry(v, addr, e);
            && Tidy(w, s) && Elsewhere(v, w, s) && SharedKept(v, w, s)
            && forall a: Word :: Own(s, Dir(a)) ==> Lookup(w, a) == if a / PAGE == addr / PAGE then e else Lookup(v, a)
  {
    FlagBits(0);
    var r := BaseOf(v.ptr);
    assert DirEntry(v, s, Dir(addr), v.mem[r][Dir(addr)]);
    var w := WithEntry(v, addr, e);
    assert w.mem[r] == v.mem[r];
    assert Tree(w, s) by {
      forall k: nat | Own(s, k) ensures DirEntry(w, s, k, w.mem[r][k]) {
        assert DirEntry(v, s, k, v.mem[r][k]);
      }
    }
    forall a: Word | Own(s, Dir(a)) ensures Lookup(w, a) == if a / PAGE == addr / PAGE then e else Lookup(v, a) {
      SetLookup(v, s, addr, e, a);
    }
  }

  lemma SetLookup(v: View, s: Space, addr: Word, e: Word, a: Word)
    requires Tidy(v, s) && Present(v.ptr) && Own(s, Dir(addr)) && Present(v.mem[BaseOf(v.ptr)][Dir(addr)])
    requires DirEntry(v, s, Dir(addr), v.mem[BaseOf(v.ptr)][Dir(addr)]) && v.mem[BaseOf(v.ptr)][Dir(addr)] != 0
    requires Own(s, Dir(a))
    ensures Lookup(WithEntry(v, addr, e), a) == if a / PAGE == addr / PAGE then e else Lookup(v, a)
  {
    SamePage(a, addr);
    assert DirEntry(v, s, Dir(a), v.mem[BaseOf(v.ptr)][Dir(a)]);
  }

  /** A tree is untouched by what happens in another space. */
  lemma TidyElsewhere(v: View, w: View, s: Space, t: Space)
    requires Tidy(v, s) && Elsewhere(v, w, t) && s != t && w.ptr == v.ptr && w.mem.Keys == w.owner.Keys
    ensures Tidy(w, s)
    ensures forall a: Word :: Own(s, Dir(a)) ==> Lookup(w, a) == Lookup(v, a)
    ensures Present(v.ptr) ==> BaseOf(v.ptr) in w.mem && w.mem[BaseOf(v.ptr)] == v.mem[BaseOf(v.ptr)]
  {
    if Present(v.ptr) {
      var r := BaseOf(v.ptr);
      forall k: nat | Own(s, k) ensures DirEntry(w, s, k, w.mem[r][k]) {
        assert DirEntry(v, s, k, v.mem[r][k]);
      }
      forall a: Word | Own(s, Dir(a)) ensures Lookup(w, a) == Lookup(v, a) {
        assert DirEntry(v, s, Dir(a), v.mem[r][Dir(a)]);
      }
    }
  }
}
