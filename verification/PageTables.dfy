/**
 * crates/arch-aarch64/src/addrspace.rs: four levels of lazily created translation tables, in the
 * VMSAv8-64 scheme with a 4 KiB granule. Nothing beside them records what a space maps and owns;
 * this module says what they record and how one write to them changes it.
 */
module PageTables {
  import opened Common

  type Frame = nat

  const ENTRIES: nat := 512
  const LEAF_LEVEL: nat := 3
  /** Pages a 48-bit address space has. */
  const PAGES: nat := 0x10_0000_0000

  type PageNo = n: nat | n < PAGES

  /** The five leaf kinds of `mmu.rs`, by what they let EL0 do. */
  datatype Rights = Text | ReadOnly | Data | Device | Dma

  predicate UserReadable(r: Rights) { true }

  predicate UserWritable(r: Rights) { r.Data? || r.Device? || r.Dma? }

  predicate UserExecutable(r: Rights) { r.Text? }

  datatype Desc = Invalid | Table(next: Frame) | Page(frame: Frame, rights: Rights, owned: bool)

  /** What `zero_frame` leaves in a table frame. */
  function Zeroed(): (s: seq<Desc>)
    ensures |s| == ENTRIES && forall i :: 0 <= i < ENTRIES ==> s[i] == Invalid
  {
    seq(ENTRIES, _ => Invalid)
  }

  /** Physical memory, as far as it holds tables. */
  type Tables = map<Frame, seq<Desc>>

  /** Frame `f` holds a table. */
  predicate IsTable(mem: Tables, f: Frame)
  {
    f in mem && |mem[f]| == ENTRIES
  }

  /** The slot a walk to page `pn` uses at one level: nine bits of the page number, highest first. */
  function Index(pn: PageNo, level: nat): (i: nat)
    requires level <= LEAF_LEVEL
    ensures i < ENTRIES
  {
    match level
    case 0 => pn / 0x800_0000 % ENTRIES
    case 1 => pn / 0x4_0000 % ENTRIES
    case 2 => pn / 0x200 % ENTRIES
    case _ => pn % ENTRIES
  }

  /** The walk the hardware does, from a table at `level`: the leaf descriptor, or `Invalid`. */
  function Walk(mem: Tables, table: Frame, pn: PageNo, level: nat): Desc
    requires level <= LEAF_LEVEL
    decreases LEAF_LEVEL - level
  {
    if !IsTable(mem, table) then Invalid
    else
      var desc := mem[table][Index(pn, level)];
      if level == LEAF_LEVEL then (if desc.Table? then Invalid else desc)
      else if desc.Table? then Walk(mem, desc.next, pn, level + 1)
      else Invalid
  }

  // ---- Naming the nodes of the tree ----

  /** A node: a table at levels 0 to 3, a page at level 4. `n` is the page-number prefix it covers. */
  datatype Key = Key(level: nat, n: nat)

  const ROOT: Key := Key(0, 0)

  function Child(k: Key, i: nat): Key
  {
    Key(k.level + 1, k.n * ENTRIES + i)
  }

  function Parent(k: Key): Key
    requires k.level > 0
  {
    Key(k.level - 1, k.n / ENTRIES)
  }

  function Slot(k: Key): (i: nat)
    ensures i < ENTRIES
  {
    k.n % ENTRIES
  }

  lemma ChildInverts(k: Key, i: nat)
    requires i < ENTRIES
    ensures Parent(Child(k, i)) == k && Slot(Child(k, i)) == i
  {
  }

  lemma ParentInverts(k: Key)
    requires k.level > 0
    ensures Child(Parent(k), Slot(k)) == k
  {
  }

  /** The node at `level` on the way down to page `pn`. */
  function OnPath(pn: PageNo, level: nat): Key
    requires level <= 4
  {
    match level
    case 0 => ROOT
    case 1 => Key(1, pn / 0x800_0000)
    case 2 => Key(2, pn / 0x4_0000)
    case 3 => Key(3, pn / 0x200)
    case _ => Key(4, pn)
  }

  /** The bits `table_index` extracts are the digits of the page number, so a path names one page. */
  lemma PathStep(pn: PageNo, level: nat)
    requires level <= LEAF_LEVEL
    ensures OnPath(pn, level + 1) == Child(OnPath(pn, level), Index(pn, level))
  {
  }

  /** Which frame holds the table of each node. Determined by memory: see `WalkIsLeaf`. */
  type Layout = map<Key, Frame>

  ghost predicate EntryOk(mem: Tables, tables: Layout, k: Key, i: nat)
    requires k in tables && IsTable(mem, tables[k]) && i < ENTRIES
  {
    var desc := mem[tables[k]][i];
    if k.level == LEAF_LEVEL then !desc.Table?
    else if desc.Table? then Child(k, i) in tables && tables[Child(k, i)] == desc.next
    else desc.Invalid? && Child(k, i) !in tables
  }

  /** `mem` holds a well-formed tree rooted at `root`, with its tables laid out as `tables` says. */
  ghost predicate Tree(mem: Tables, root: Frame, tables: Layout)
  {
    && ROOT in tables && tables[ROOT] == root
    && (forall k :: k in tables ==> k.level <= LEAF_LEVEL && IsTable(mem, tables[k]))
    && (forall k {:trigger Parent(k)} :: k in tables && k.level > 0 ==> Parent(k) in tables)
    && (forall k :: k in tables && k.level == 0 ==> k == ROOT)
    && (forall k, i: nat :: k in tables && i < ENTRIES ==> EntryOk(mem, tables, k, i))
    && (forall j, k :: j in tables && k in tables && tables[j] == tables[k] ==> j == k)
  }

  /** The leaf descriptor of page `pn`, read off the layout. */
  function LeafAt(mem: Tables, tables: Layout, pn: PageNo): Desc
  {
    var k := OnPath(pn, LEAF_LEVEL);
    if k in tables && IsTable(mem, tables[k]) then mem[tables[k]][Index(pn, LEAF_LEVEL)] else Invalid
  }

  lemma {:induction false} WalkFrom(mem: Tables, root: Frame, tables: Layout, pn: PageNo, level: nat)
    requires Tree(mem, root, tables) && level <= LEAF_LEVEL && OnPath(pn, level) in tables
    ensures Walk(mem, tables[OnPath(pn, level)], pn, level) == LeafAt(mem, tables, pn)
    decreases LEAF_LEVEL - level
  {
    var k := OnPath(pn, level);
    assert EntryOk(mem, tables, k, Index(pn, level));
    if level < LEAF_LEVEL {
      PathStep(pn, level);
      if mem[tables[k]][Index(pn, level)].Table? {
        WalkFrom(mem, root, tables, pn, level + 1);
      } else {
        AbsentBelow(mem, root, tables, pn, level + 1);
      }
    }
  }

  /** No table below a missing one. */
  lemma {:induction false} AbsentBelow(mem: Tables, root: Frame, tables: Layout, pn: PageNo, level: nat)
    requires Tree(mem, root, tables) && level <= LEAF_LEVEL && OnPath(pn, level) !in tables
    ensures OnPath(pn, LEAF_LEVEL) !in tables
    decreases LEAF_LEVEL - level
  {
    if level < LEAF_LEVEL {
      PathStep(pn, level);
      ChildInverts(OnPath(pn, level), Index(pn, level));
      AbsentBelow(mem, root, tables, pn, level + 1);
    }
  }

  /** The hardware's walk finds exactly what the layout records. */
  lemma WalkIsLeaf(mem: Tables, root: Frame, tables: Layout, pn: PageNo)
    requires Tree(mem, root, tables)
    ensures Walk(mem, root, pn, 0) == LeafAt(mem, tables, pn)
  {
    WalkFrom(mem, root, tables, pn, 0);
  }

  // ---- One write to a table ----

  /** Fill an empty slot above the leaves with a fresh zeroed table. */
  function Linked(mem: Tables, tables: Layout, k: Key, i: nat, f: Frame): Tables
    requires k in tables && IsTable(mem, tables[k]) && i < ENTRIES
  {
    var t := tables[k];
    mem[f := Zeroed()][t := mem[t][i := Table(f)]]
  }

  /** Zeroing the new frame and then linking it is the same write. */
  lemma LinkedInTwoWrites(mem: Tables, tables: Layout, k: Key, i: nat, f: Frame)
    requires k in tables && IsTable(mem, tables[k]) && i < ENTRIES && f != tables[k]
    ensures var zeroed := mem[f := Zeroed()];
      zeroed[tables[k] := zeroed[tables[k]][i := Table(f)]] == Linked(mem, tables, k, i, f)
  {
  }

  lemma LinkKeepsTree(mem: Tables, root: Frame, tables: Layout, k: Key, i: nat, f: Frame)
    requires Tree(mem, root, tables) && k in tables && k.level < LEAF_LEVEL && i < ENTRIES
    requires mem[tables[k]][i].Invalid? && f !in tables.Values
    ensures Tree(Linked(mem, tables, k, i, f), root, tables[Child(k, i) := f])
  {
    var c := Child(k, i);
    var mem' := Linked(mem, tables, k, i, f);
    var tables' := tables[c := f];
    assert EntryOk(mem, tables, k, i);
    ChildInverts(k, i);
    assert forall j :: j in tables ==> tables[j] in tables.Values;
    forall j, x: nat | j in tables' && x < ENTRIES
      ensures EntryOk(mem', tables', j, x)
    {
      ChildInverts(j, x);
      if j != c {
        assert EntryOk(mem, tables, j, x);
      }
    }
  }

  /** Linking an empty table changes no translation. */
  lemma LinkKeepsLeaves(mem: Tables, root: Frame, tables: Layout, k: Key, i: nat, f: Frame, pn: PageNo)
    requires Tree(mem, root, tables) && k in tables && k.level < LEAF_LEVEL && i < ENTRIES
    requires mem[tables[k]][i].Invalid? && f !in tables.Values
    ensures LeafAt(Linked(mem, tables, k, i, f), tables[Child(k, i) := f], pn) == LeafAt(mem, tables, pn)
  {
    var p := OnPath(pn, LEAF_LEVEL);
    assert EntryOk(mem, tables, k, i);
    if p in tables {
      assert tables[p] in tables.Values;
      if p != k {
        assert tables[p] != tables[k];
      }
    }
  }

  /** Write one slot of an existing level-3 table. */
  function Written(mem: Tables, tables: Layout, pn: PageNo, desc: Desc): Tables
    requires OnPath(pn, LEAF_LEVEL) in tables && IsTable(mem, tables[OnPath(pn, LEAF_LEVEL)])
  {
    var t := tables[OnPath(pn, LEAF_LEVEL)];
    mem[t := mem[t][Index(pn, LEAF_LEVEL) := desc]]
  }

  lemma WriteKeepsTree(mem: Tables, root: Frame, tables: Layout, pn: PageNo, desc: Desc)
    requires Tree(mem, root, tables) && OnPath(pn, LEAF_LEVEL) in tables && !desc.Table?
    ensures Tree(Written(mem, tables, pn, desc), root, tables)
  {
    var mem' := Written(mem, tables, pn, desc);
    forall j, x: nat | j in tables && x < ENTRIES ensures EntryOk(mem', tables, j, x) {
      assert EntryOk(mem, tables, j, x);
    }
  }

  /** Writing a slot changes that page's translation and no other. */
  lemma WriteChangesOneLeaf(mem: Tables, root: Frame, tables: Layout, pn: PageNo, desc: Desc, q: PageNo)
    requires Tree(mem, root, tables) && OnPath(pn, LEAF_LEVEL) in tables
    ensures LeafAt(Written(mem, tables, pn, desc), tables, q)
         == if q == pn then desc else LeafAt(mem, tables, q)
  {
  }
}

/**
 * Who owns which frame. A space owns the frames of its tables and of the leaves that carry the
 * ownership bit, and nothing else records it.
 */
module Ownership {
  import opened Common
  import opened PageTables

  /** Node `q` of the tree is backed by a frame the space owns: a table, or an owned leaf. */
  ghost predicate Owns(mem: Tables, tables: Layout, q: Key, f: Frame)
  {
    if q.level <= LEAF_LEVEL then q in tables && tables[q] == f
    else q.level == 4 && q.n < PAGES && OwnedLeaf(LeafAt(mem, tables, q.n), f)
  }

  predicate OwnedLeaf(desc: Desc, f: Frame)
  {
    desc.Page? && desc.owned && desc.frame == f
  }

  ghost predicate Held(mem: Tables, tables: Layout, f: Frame)
  {
    exists q :: Owns(mem, tables, q, f)
  }

  /** Exactly the frames in `taken` are held, and each of them once. */
  ghost predicate Conserved(mem: Tables, tables: Layout, taken: set<Frame>)
  {
    && (forall f {:trigger Held(mem, tables, f)} :: f in taken <==> Held(mem, tables, f))
    && (forall j, k, f :: Owns(mem, tables, j, f) && Owns(mem, tables, k, f) ==> j == k)
  }

  /** Owning a frame somewhere is having taken it. */
  lemma OwnedIsTaken(mem: Tables, tables: Layout, taken: set<Frame>, q: Key, f: Frame)
    requires Conserved(mem, tables, taken) && Owns(mem, tables, q, f)
    ensures f in taken
  {
    assert Held(mem, tables, f);
  }

  /** What was taken is owned somewhere. */
  lemma TakenIsOwned(mem: Tables, tables: Layout, taken: set<Frame>, f: Frame) returns (q: Key)
    requires Conserved(mem, tables, taken) && f in taken
    ensures Owns(mem, tables, q, f)
  {
    assert Held(mem, tables, f);
    q :| Owns(mem, tables, q, f);
  }

  /** A table linked in is one more frame, held once. */
  lemma LinkConserves(mem: Tables, root: Frame, tables: Layout, taken: set<Frame>, k: Key, i: nat, f: Frame)
    requires Tree(mem, root, tables) && Conserved(mem, tables, taken)
    requires k in tables && k.level < LEAF_LEVEL && i < ENTRIES
    requires mem[tables[k]][i].Invalid? && f !in taken
    ensures f !in tables.Values
    ensures Conserved(Linked(mem, tables, k, i, f), tables[Child(k, i) := f], taken + {f})
  {
    var c := Child(k, i);
    var mem' := Linked(mem, tables, k, i, f);
    var tables' := tables[c := f];
    assert EntryOk(mem, tables, k, i);
    forall j | j in tables ensures tables[j] in taken {
      OwnedIsTaken(mem, tables, taken, j, tables[j]);
    }
    forall q, g
      ensures Owns(mem', tables', q, g) <==> Owns(mem, tables, q, g) || (q == c && g == f)
    {
      if q.level == 4 && q.n < PAGES {
        LinkKeepsLeaves(mem, root, tables, k, i, f, q.n);
      }
    }
    forall g ensures g in taken + {f} <==> Held(mem', tables', g) {
      if g == f {
        assert Owns(mem', tables', c, f);
      } else if g in taken {
        var q := TakenIsOwned(mem, tables, taken, g);
        assert Owns(mem', tables', q, g);
      } else if q :| Owns(mem', tables', q, g) {
        OwnedIsTaken(mem, tables, taken, q, g);
      }
    }
    forall j, k', g | Owns(mem', tables', j, g) && Owns(mem', tables', k', g) ensures j == k' {
      if Owns(mem, tables, j, g) {
        OwnedIsTaken(mem, tables, taken, j, g);
      }
      if Owns(mem, tables, k', g) {
        OwnedIsTaken(mem, tables, taken, k', g);
      }
    }
  }

  /** What a leaf adds to what the space holds. */
  function FrameOf(desc: Desc): set<Frame>
  {
    if desc.Page? && desc.owned then {desc.frame} else {}
  }

  /** Writing a leaf gives up what it held and takes what it now holds. */
  lemma WriteConserves(mem: Tables, root: Frame, tables: Layout, taken: set<Frame>, pn: PageNo, desc: Desc)
    requires Tree(mem, root, tables) && Conserved(mem, tables, taken)
    requires OnPath(pn, LEAF_LEVEL) in tables && !desc.Table?
    requires FrameOf(desc) !! taken
    ensures FrameOf(LeafAt(mem, tables, pn)) <= taken
    ensures Conserved(Written(mem, tables, pn, desc), tables,
                      taken - FrameOf(LeafAt(mem, tables, pn)) + FrameOf(desc))
  {
    var mem' := Written(mem, tables, pn, desc);
    var was := LeafAt(mem, tables, pn);
    var page := Key(4, pn);
    forall g | g in FrameOf(was) ensures g in taken && Owns(mem, tables, page, g) {
      OwnedIsTaken(mem, tables, taken, page, g);
    }
    forall q, g
      ensures Owns(mem', tables, q, g) <==> if q == page then g in FrameOf(desc) else Owns(mem, tables, q, g)
    {
      if q.level == 4 && q.n < PAGES {
        WriteChangesOneLeaf(mem, root, tables, pn, desc, q.n);
      }
    }
    forall g ensures g in taken - FrameOf(was) + FrameOf(desc) <==> Held(mem', tables, g) {
      if g in FrameOf(desc) {
        assert Owns(mem', tables, page, g);
      } else if g in taken {
        var q := TakenIsOwned(mem, tables, taken, g);
        assert q == page || Owns(mem', tables, q, g);
      } else if q :| Owns(mem', tables, q, g) {
        OwnedIsTaken(mem, tables, taken, q, g);
      }
    }
    forall j, k, g | Owns(mem', tables, j, g) && Owns(mem', tables, k, g) ensures j == k {
      if j != page {
        OwnedIsTaken(mem, tables, taken, j, g);
      }
      if k != page {
        OwnedIsTaken(mem, tables, taken, k, g);
      }
    }
  }

  /**
   * `map_page` overwrites without looking. Mapping a fresh owned frame accounts for every frame
   * exactly when the page it lands on did not already hold one: otherwise the old frame is lost.
   */
  lemma OverwriteLeaksExactly(mem: Tables, root: Frame, tables: Layout, taken: set<Frame>, pn: PageNo, f: Frame, r: Rights)
    requires Tree(mem, root, tables) && Conserved(mem, tables, taken)
    requires OnPath(pn, LEAF_LEVEL) in tables && f !in taken
    ensures Conserved(Written(mem, tables, pn, Page(f, r, true)), tables, taken + {f})
       <==> FrameOf(LeafAt(mem, tables, pn)) == {}
  {
    var was := FrameOf(LeafAt(mem, tables, pn));
    WriteConserves(mem, root, tables, taken, pn, Page(f, r, true));
    if was == {} {
      assert taken - was + {f} == taken + {f};
    } else {
      var g :| g in was;
      assert g in taken + {f} && g !in taken - was + {f};
      assert !Held(Written(mem, tables, pn, Page(f, r, true)), tables, g);
    }
  }

  // ---- The invariant of a space beside a pool ----

  /** No translation names a free frame, and no borrowed frame is also owned. */
  ghost predicate NamesNoFreeFrame(mem: Tables, tables: Layout, taken: set<Frame>, free: set<Frame>)
  {
    forall pn: PageNo :: NamesSafely(LeafAt(mem, tables, pn), taken, free)
  }

  predicate NamesSafely(desc: Desc, taken: set<Frame>, free: set<Frame>)
  {
    desc.Page? ==> desc.frame !in free && (!desc.owned ==> desc.frame !in taken)
  }

  ghost predicate SpaceOk(mem: Tables, root: Frame, tables: Layout, taken: set<Frame>, free: set<Frame>)
  {
    && Tree(mem, root, tables) && Conserved(mem, tables, taken)
    && taken !! free && NamesNoFreeFrame(mem, tables, taken, free)
  }

  ghost predicate SameLeaves(mem: Tables, tables: Layout, mem': Tables, tables': Layout)
  {
    forall pn: PageNo :: LeafAt(mem', tables', pn) == LeafAt(mem, tables, pn)
  }

  /** Linking in a table built on a free frame keeps the invariant and changes no translation. */
  lemma LinkKeepsSpace(mem: Tables, root: Frame, tables: Layout, taken: set<Frame>, free: set<Frame>,
                       k: Key, i: nat, f: Frame)
    requires SpaceOk(mem, root, tables, taken, free) && f in free
    requires k in tables && k.level < LEAF_LEVEL && i < ENTRIES && mem[tables[k]][i].Invalid?
    ensures SpaceOk(Linked(mem, tables, k, i, f), root, tables[Child(k, i) := f], taken + {f}, free - {f})
    ensures SameLeaves(mem, tables, Linked(mem, tables, k, i, f), tables[Child(k, i) := f])
  {
    LinkConserves(mem, root, tables, taken, k, i, f);
    LinkKeepsTree(mem, root, tables, k, i, f);
    var (mem', tables') := (Linked(mem, tables, k, i, f), tables[Child(k, i) := f]);
    forall pn: PageNo
      ensures LeafAt(mem', tables', pn) == LeafAt(mem, tables, pn)
      ensures NamesSafely(LeafAt(mem', tables', pn), taken + {f}, free - {f})
    {
      LinkKeepsLeaves(mem, root, tables, k, i, f, pn);
      assert NamesSafely(LeafAt(mem, tables, pn), taken, free);
    }
  }

  /** The two writes of `leaf_table` for one missing level on the way down to page `pn`. */
  function LinkWrites(mem: Tables, table: Frame, i: nat, f: Frame): Tables
    requires IsTable(mem, table) && i < ENTRIES && f != table
  {
    var zeroed := mem[f := Zeroed()];
    zeroed[table := zeroed[table][i := Table(f)]]
  }

  lemma LinkOnPath(mem: Tables, root: Frame, tables: Layout, taken: set<Frame>, free: set<Frame>,
                   pn: PageNo, level: nat, f: Frame)
    requires SpaceOk(mem, root, tables, taken, free) && f in free && level < LEAF_LEVEL
    requires OnPath(pn, level) in tables && mem[tables[OnPath(pn, level)]][Index(pn, level)].Invalid?
    ensures f != tables[OnPath(pn, level)]
    ensures var mem' := LinkWrites(mem, tables[OnPath(pn, level)], Index(pn, level), f);
      var tables' := tables[OnPath(pn, level + 1) := f];
      SpaceOk(mem', root, tables', taken + {f}, free - {f}) && SameLeaves(mem, tables, mem', tables')
  {
    var (k, i) := (OnPath(pn, level), Index(pn, level));
    PathStep(pn, level);
    LinkConserves(mem, root, tables, taken, k, i, f);
    assert tables[k] in tables.Values;
    LinkedInTwoWrites(mem, tables, k, i, f);
    LinkKeepsSpace(mem, root, tables, taken, free, k, i, f);
  }

  ghost predicate MapsExactly(mem: Tables, tables: Layout, pages: set<PageNo>)
  {
    forall pn: PageNo :: LeafAt(mem, tables, pn).Page? <==> pn in pages
  }

  /** No translation of the space names `f`. */
  ghost predicate Unnamed(mem: Tables, tables: Layout, f: Frame)
  {
    forall q: PageNo :: LeafAt(mem, tables, q).Page? ==> LeafAt(mem, tables, q).frame != f
  }

  /** The frames owned by the `n` pages from `lo`. */
  ghost function OwnedIn(mem: Tables, tables: Layout, lo: nat, n: nat): set<Frame>
  {
    if n == 0 then {}
    else OwnedIn(mem, tables, lo, n - 1) + if lo + n <= PAGES then FrameOf(LeafAt(mem, tables, lo + n - 1)) else {}
  }

  ghost predicate OnlyLeafChanged(mem: Tables, tables: Layout, mem': Tables, tables': Layout, pn: PageNo, desc: Desc)
  {
    forall q: PageNo :: LeafAt(mem', tables', q) == if q == pn then desc else LeafAt(mem, tables, q)
  }

  /** Mapping a frame from outside the estate: what the page owned before is owned no more. */
  lemma WriteKeepsSpace(mem: Tables, root: Frame, tables: Layout, taken: set<Frame>, free: set<Frame>,
                        pn: PageNo, desc: Desc)
    requires SpaceOk(mem, root, tables, taken, free) && OnPath(pn, LEAF_LEVEL) in tables && desc.Page?
    requires desc.frame !in free && desc.frame !in taken
    requires desc.owned ==> Unnamed(mem, tables, desc.frame)
    ensures SpaceOk(Written(mem, tables, pn, desc), root, tables,
                    taken - FrameOf(LeafAt(mem, tables, pn)) + FrameOf(desc), free)
    ensures OnlyLeafChanged(mem, tables, Written(mem, tables, pn, desc), tables, pn, desc)
  {
    var mem' := Written(mem, tables, pn, desc);
    var taken' := taken - FrameOf(LeafAt(mem, tables, pn)) + FrameOf(desc);
    WriteConserves(mem, root, tables, taken, pn, desc);
    WriteKeepsTree(mem, root, tables, pn, desc);
    forall q: PageNo
      ensures LeafAt(mem', tables, q) == if q == pn then desc else LeafAt(mem, tables, q)
      ensures NamesSafely(LeafAt(mem', tables, q), taken', free)
    {
      WriteChangesOneLeaf(mem, root, tables, pn, desc, q);
      assert NamesSafely(LeafAt(mem, tables, q), taken, free);
    }
  }

  /** The same once the tables it needed have been linked in: translations are as before the call. */
  lemma WriteAfterLinks(mem0: Tables, tables0: Layout, mem: Tables, root: Frame, tables: Layout,
                        taken: set<Frame>, free: set<Frame>, pn: PageNo, desc: Desc)
    requires SpaceOk(mem, root, tables, taken, free) && OnPath(pn, LEAF_LEVEL) in tables && desc.Page?
    requires SameLeaves(mem0, tables0, mem, tables)
    requires desc.frame !in free && desc.frame !in taken
    requires desc.owned ==> Unnamed(mem0, tables0, desc.frame)
    ensures tables[OnPath(pn, LEAF_LEVEL)] in taken && FrameOf(LeafAt(mem0, tables0, pn)) <= taken
    ensures SpaceOk(Written(mem, tables, pn, desc), root, tables,
                    taken - FrameOf(LeafAt(mem0, tables0, pn)) + FrameOf(desc), free)
    ensures OnlyLeafChanged(mem0, tables0, Written(mem, tables, pn, desc), tables, pn, desc)
  {
    forall q: PageNo ensures LeafAt(mem, tables, q) == LeafAt(mem0, tables0, q) {}
    OwnedIsTaken(mem, tables, taken, OnPath(pn, LEAF_LEVEL), tables[OnPath(pn, LEAF_LEVEL)]);
    WriteConserves(mem, root, tables, taken, pn, desc);
    WriteKeepsSpace(mem, root, tables, taken, free, pn, desc);
  }

  lemma {:induction false} OwnedInRange(mem: Tables, tables: Layout, taken: set<Frame>, lo: nat, n: nat)
    requires Conserved(mem, tables, taken)
    ensures OwnedIn(mem, tables, lo, n) <= taken
    ensures OwnedIn(mem, tables, lo, n) == {} <==>
      forall q: PageNo :: lo <= q < lo + n ==> FrameOf(LeafAt(mem, tables, q)) == {}
  {
    if n > 0 {
      OwnedInRange(mem, tables, taken, lo, n - 1);
      if lo + n <= PAGES {
        var q: PageNo := lo + n - 1;
        forall f | f in FrameOf(LeafAt(mem, tables, q)) ensures f in taken {
          OwnedIsTaken(mem, tables, taken, Key(4, q), f);
        }
      }
    }
  }

  /** Mapping over a run of pages keeps every frame accounted for exactly when none of them owned one. */
  lemma NothingLostExactly(mem: Tables, root: Frame, tables: Layout, taken: set<Frame>, free: set<Frame>, lo: nat, n: nat)
    requires SpaceOk(mem, root, tables, taken, free)
    ensures (taken + free) - OwnedIn(mem, tables, lo, n) == taken + free <==>
      forall q: PageNo :: lo <= q < lo + n ==> FrameOf(LeafAt(mem, tables, q)) == {}
  {
    OwnedInRange(mem, tables, taken, lo, n);
    var lost := OwnedIn(mem, tables, lo, n);
    if lost != {} {
      var f :| f in lost;
      assert f in taken + free && f !in (taken + free) - lost;
    }
  }

  // ---- Spaces beside each other ----

  /** Only frames in `area` were written. */
  ghost predicate Confined<T>(was: map<Frame, T>, now: map<Frame, T>, area: set<Frame>)
  {
    forall g: Frame {:trigger Untouched(was, now, g)} :: g !in area ==> Untouched(was, now, g)
  }

  predicate Untouched<T(==)>(was: map<Frame, T>, now: map<Frame, T>, g: Frame)
  {
    (g in now <==> g in was) && (g in was ==> now[g] == was[g])
  }

  lemma ConfinedTrans<T>(m0: map<Frame, T>, m1: map<Frame, T>, m2: map<Frame, T>, outer: set<Frame>, inner: set<Frame>)
    requires Confined(m0, m1, outer) && Confined(m1, m2, inner) && inner <= outer
    ensures Confined(m0, m2, outer)
  {
    forall g: Frame | g !in outer ensures Untouched(m0, m2, g) {
      assert Untouched(m0, m1, g) && Untouched(m1, m2, g);
    }
  }

  /** A space uses no frame of `area`, for a table, for a page of its own or for a borrowed one. */
  ghost predicate KeepsOff(mem: Tables, tables: Layout, taken: set<Frame>, area: set<Frame>)
  {
    && taken !! area
    && forall q: PageNo :: LeafAt(mem, tables, q).Page? ==> LeafAt(mem, tables, q).frame !in area
  }

  /**
   * Whatever is written and freed inside one estate, a space that keeps off it stays in order, with every
   * translation as it was, and still keeps off.
   */
  lemma OtherSpaceUntouched(mem: Tables, mem': Tables, root: Frame, tables: Layout, taken: set<Frame>,
                            free: set<Frame>, free': set<Frame>, estate: set<Frame>)
    requires SpaceOk(mem, root, tables, taken, free) && KeepsOff(mem, tables, taken, estate)
    requires Confined(mem, mem', estate) && free' <= estate
    ensures SpaceOk(mem', root, tables, taken, free') && SameLeaves(mem, tables, mem', tables)
    ensures KeepsOff(mem', tables, taken, estate)
  {
    forall k | k in tables ensures tables[k] in mem && tables[k] in mem' && mem'[tables[k]] == mem[tables[k]] {
      OwnedIsTaken(mem, tables, taken, k, tables[k]);
      assert IsTable(mem, tables[k]) && Untouched(mem, mem', tables[k]);
    }
    SameTablesSameSpace(mem, mem', root, tables, taken);
    forall q: PageNo ensures NamesSafely(LeafAt(mem', tables, q), taken, free') {
      assert NamesSafely(LeafAt(mem, tables, q), taken, free);
    }
  }

  /** Everything written, taken and given back lay in the estate, and nothing was borrowed on the way. */
  ghost predicate Inside(m0: Tables, t0: Layout, e0: set<Frame>, m: Tables, t: Layout, e: set<Frame>)
  {
    && Confined(m0, m, e0) && e <= e0
    && forall q: PageNo :: LeafAt(m, t, q) == LeafAt(m0, t0, q) || FreshOrGone(LeafAt(m, t, q))
  }

  predicate FreshOrGone(desc: Desc)
  {
    !desc.Page? || desc.owned
  }

  lemma InsideTrans(m0: Tables, t0: Layout, e0: set<Frame>, m1: Tables, t1: Layout, e1: set<Frame>,
                    m2: Tables, t2: Layout, e2: set<Frame>)
    requires Inside(m0, t0, e0, m1, t1, e1) && Inside(m1, t1, e1, m2, t2, e2)
    ensures Inside(m0, t0, e0, m2, t2, e2)
  {
    ConfinedTrans(m0, m1, m2, e0, e1);
  }

  /** Two spaces that keep off each other: what one does inside its estate leaves the other as it was, and apart. */
  lemma SpacesStayApart(m0: Tables, m: Tables, rootA: Frame, tA0: Layout, tA: Layout, takenA0: set<Frame>, takenA: set<Frame>,
                        rootB: Frame, tB: Layout, takenB: set<Frame>, free0: set<Frame>, free: set<Frame>)
    requires SpaceOk(m0, rootA, tA0, takenA0, free0) && SpaceOk(m, rootA, tA, takenA, free)
    requires SpaceOk(m0, rootB, tB, takenB, free0)
    requires KeepsOff(m0, tA0, takenA0, takenB) && KeepsOff(m0, tB, takenB, takenA0)
    requires Inside(m0, tA0, takenA0 + free0, m, tA, takenA + free)
    ensures SpaceOk(m, rootB, tB, takenB, free) && SameLeaves(m0, tB, m, tB)
    ensures KeepsOff(m, tA, takenA, takenB) && KeepsOff(m, tB, takenB, takenA)
  {
    forall q: PageNo ensures LeafAt(m0, tB, q).Page? ==> LeafAt(m0, tB, q).frame !in takenA0 + free0 {
      assert NamesSafely(LeafAt(m0, tB, q), takenB, free0);
    }
    OtherSpaceUntouched(m0, m, rootB, tB, takenB, free0, free, takenA0 + free0);
    forall q: PageNo | LeafAt(m, tA, q).Page? ensures LeafAt(m, tA, q).frame !in takenB {
      if LeafAt(m, tA, q) != LeafAt(m0, tA0, q) {
        OwnedIsTaken(m, tA, takenA, Key(4, q), LeafAt(m, tA, q).frame);
      }
    }
    forall q: PageNo | LeafAt(m, tB, q).Page? ensures LeafAt(m, tB, q).frame !in takenA {
      assert LeafAt(m, tB, q) == LeafAt(m0, tB, q);
    }
  }

  /** A space is what its own tables say. */
  lemma SameTablesSameSpace(mem: Tables, mem': Tables, root: Frame, tables: Layout, taken: set<Frame>)
    requires Tree(mem, root, tables) && Conserved(mem, tables, taken)
    requires forall k :: k in tables ==> tables[k] in mem && tables[k] in mem' && mem'[tables[k]] == mem[tables[k]]
    ensures Tree(mem', root, tables) && Conserved(mem', tables, taken) && SameLeaves(mem, tables, mem', tables)
  {
    forall q: PageNo ensures LeafAt(mem', tables, q) == LeafAt(mem, tables, q) {}
    forall k, i: nat | k in tables && i < ENTRIES ensures EntryOk(mem', tables, k, i) {
      assert EntryOk(mem, tables, k, i);
    }
    assert forall q, f :: Owns(mem', tables, q, f) <==> Owns(mem, tables, q, f);
    forall f ensures Held(mem', tables, f) <==> Held(mem, tables, f) {
      if Held(mem, tables, f) {
        var q :| Owns(mem, tables, q, f);
        assert Owns(mem', tables, q, f);
      }
      if Held(mem', tables, f) {
        var q :| Owns(mem', tables, q, f);
        assert Owns(mem, tables, q, f);
      }
    }
  }

  lemma UnnamedKept(mem: Tables, tables: Layout, mem': Tables, tables': Layout, f: Frame)
    requires SameLeaves(mem, tables, mem', tables') && Unnamed(mem, tables, f)
    ensures Unnamed(mem', tables', f)
  {
  }

  lemma SameLeavesTrans(m0: Tables, t0: Layout, m1: Tables, t1: Layout, m2: Tables, t2: Layout)
    requires SameLeaves(m0, t0, m1, t1) && SameLeaves(m1, t1, m2, t2)
    ensures SameLeaves(m0, t0, m2, t2)
  {
  }

  /** Clearing a leaf: the frame it owned is named by nothing, so the pool may have it back. */
  lemma EraseKeepsSpace(mem: Tables, root: Frame, tables: Layout, taken: set<Frame>, free: set<Frame>, pn: PageNo)
    requires SpaceOk(mem, root, tables, taken, free) && OnPath(pn, LEAF_LEVEL) in tables
    ensures var was := FrameOf(LeafAt(mem, tables, pn));
      && was <= taken
      && SpaceOk(Written(mem, tables, pn, Invalid), root, tables, taken - was, free)
      && SpaceOk(Written(mem, tables, pn, Invalid), root, tables, taken - was, free + was)
    ensures OnlyLeafChanged(mem, tables, Written(mem, tables, pn, Invalid), tables, pn, Invalid)
  {
    var mem' := Written(mem, tables, pn, Invalid);
    var was := FrameOf(LeafAt(mem, tables, pn));
    WriteConserves(mem, root, tables, taken, pn, Invalid);
    WriteKeepsTree(mem, root, tables, pn, Invalid);
    assert taken - was + {} == taken - was;
    forall q: PageNo
      ensures LeafAt(mem', tables, q) == if q == pn then Invalid else LeafAt(mem, tables, q)
      ensures NamesSafely(LeafAt(mem', tables, q), taken - was, free + was)
    {
      WriteChangesOneLeaf(mem, root, tables, pn, Invalid, q);
      var d := LeafAt(mem, tables, q);
      assert NamesSafely(d, taken, free);
      if q != pn && d.Page? && d.frame in was {
        assert d.owned;
        assert Owns(mem, tables, Key(4, pn), d.frame) && Owns(mem, tables, Key(4, q), d.frame);
      }
    }
    forall q: PageNo ensures NamesSafely(LeafAt(mem', tables, q), taken - was, free) {
      assert NamesSafely(LeafAt(mem', tables, q), taken - was, free + was);
    }
  }

  // ---- Subtrees ----

  function AncestorAt(q: Key, level: nat): Key
    requires level <= q.level
    decreases q.level
  {
    if q.level == level then q else AncestorAt(Parent(q), level)
  }

  /** A frame owned somewhere in the subtree of `k`. */
  ghost predicate Below(mem: Tables, tables: Layout, k: Key, f: Frame)
  {
    exists q: Key :: k.level <= q.level && AncestorAt(q, k.level) == k && Owns(mem, tables, q, f)
  }

  lemma {:induction false} AncestorStep(q: Key, level: nat)
    requires level < q.level
    ensures AncestorAt(q, level + 1).level == level + 1
    ensures AncestorAt(q, level) == Parent(AncestorAt(q, level + 1))
    decreases q.level
  {
    if q.level > level + 1 {
      AncestorStep(Parent(q), level);
    }
  }

  lemma {:induction false} AncestorPresent(mem: Tables, root: Frame, tables: Layout, q: Key, level: nat)
    requires Tree(mem, root, tables) && q in tables && level <= q.level
    ensures AncestorAt(q, level) in tables && AncestorAt(q, level).level == level
    decreases q.level
  {
    if level < q.level {
      AncestorPresent(mem, root, tables, Parent(q), level);
    }
  }

  /** An owned page lies under its level-3 table. */
  lemma OwnedPageHasTable(mem: Tables, tables: Layout, q: Key, f: Frame)
    requires q.level == 4 && Owns(mem, tables, q, f)
    ensures Parent(q) in tables
  {
  }

  /** Nothing is owned under a node that has no table. */
  lemma NothingBelowAbsent(mem: Tables, root: Frame, tables: Layout, k: Key, f: Frame)
    requires Tree(mem, root, tables) && k.level <= LEAF_LEVEL && k !in tables
    ensures !Below(mem, tables, k, f)
  {
  }

  /** What is owned below a table is the table itself and what is owned below its 512 children. */
  lemma BelowIsChildren(mem: Tables, tables: Layout, k: Key, f: Frame)
    requires k.level <= LEAF_LEVEL && k in tables
    ensures Below(mem, tables, k, f) <==>
      tables[k] == f || exists i: nat :: i < ENTRIES && Below(mem, tables, Child(k, i), f)
  {
    if Below(mem, tables, k, f) {
      var q: Key :| k.level <= q.level && AncestorAt(q, k.level) == k && Owns(mem, tables, q, f);
      if q != k {
        AncestorStep(q, k.level);
        var c := AncestorAt(q, k.level + 1);
        ParentInverts(c);
        assert Below(mem, tables, Child(k, Slot(c)), f);
      }
    }
    if tables[k] == f {
      assert Owns(mem, tables, k, f);
    }
    forall i: nat | i < ENTRIES && Below(mem, tables, Child(k, i), f) ensures Below(mem, tables, k, f) {
      var c := Child(k, i);
      var q: Key :| c.level <= q.level && AncestorAt(q, c.level) == c && Owns(mem, tables, q, f);
      AncestorStep(q, k.level);
      ChildInverts(k, i);
    }
  }

  /** Subtrees of different children share no frame, nor does a table with its own subtrees. */
  lemma SubtreesDisjoint(mem: Tables, tables: Layout, taken: set<Frame>, k: Key, i: nat, j: nat, f: Frame)
    requires Conserved(mem, tables, taken) && k in tables && k.level <= LEAF_LEVEL
    requires i < ENTRIES && Below(mem, tables, Child(k, i), f)
    ensures j < ENTRIES && Below(mem, tables, Child(k, j), f) ==> i == j
    ensures tables[k] != f
  {
    var c := Child(k, i);
    var q: Key :| c.level <= q.level && AncestorAt(q, c.level) == c && Owns(mem, tables, q, f);
    if tables[k] == f {
      assert Owns(mem, tables, k, f);
    }
    if j < ENTRIES && Below(mem, tables, Child(k, j), f) {
      var d := Child(k, j);
      var r: Key :| d.level <= r.level && AncestorAt(r, d.level) == d && Owns(mem, tables, r, f);
      assert q == r;
    }
  }

  lemma {:induction false} AncestorOfRoot(mem: Tables, root: Frame, tables: Layout, q: Key, f: Frame)
    requires Tree(mem, root, tables) && Owns(mem, tables, q, f)
    ensures AncestorAt(q, 0) == ROOT
  {
    if q.level <= LEAF_LEVEL {
      AncestorPresent(mem, root, tables, q, 0);
    } else {
      OwnedPageHasTable(mem, tables, q, f);
      AncestorPresent(mem, root, tables, Parent(q), 0);
    }
  }

  function Span(level: nat): nat
    requires level <= 4
  {
    match level case 0 => 1 case 1 => 0x200 case 2 => 0x4_0000 case 3 => 0x800_0000 case _ => PAGES
  }

  lemma {:induction false} KeyInRange(mem: Tables, root: Frame, tables: Layout, k: Key)
    requires Tree(mem, root, tables) && k in tables
    ensures k.n < Span(k.level)
    decreases k.level
  {
    if k.level > 0 {
      KeyInRange(mem, root, tables, Parent(k));
    }
  }

  /** Slot `i` of a level-3 table is the leaf of one page. */
  lemma SlotIsLeaf(mem: Tables, root: Frame, tables: Layout, k: Key, i: nat, f: Frame)
    requires Tree(mem, root, tables) && k in tables && k.level == LEAF_LEVEL && i < ENTRIES
    ensures Below(mem, tables, Child(k, i), f) <==> OwnedLeaf(mem[tables[k]][i], f)
  {
    KeyInRange(mem, root, tables, k);
    var c := Child(k, i);
    ChildInverts(k, i);
    assert c.n < PAGES && OnPath(c.n, LEAF_LEVEL) == k && Index(c.n, LEAF_LEVEL) == i;
    assert Owns(mem, tables, c, f) <==> OwnedLeaf(mem[tables[k]][i], f);
    assert AncestorAt(c, 4) == c;
  }

  /** Everything the space took is below its root. */
  lemma TakenIsBelowRoot(mem: Tables, root: Frame, tables: Layout, taken: set<Frame>, f: Frame)
    requires Tree(mem, root, tables) && Conserved(mem, tables, taken)
    ensures f in taken <==> Below(mem, tables, ROOT, f)
  {
    if f in taken {
      var q := TakenIsOwned(mem, tables, taken, f);
      AncestorOfRoot(mem, root, tables, q, f);
    } else if q: Key :| AncestorAt(q, 0) == ROOT && Owns(mem, tables, q, f) {
      OwnedIsTaken(mem, tables, taken, q, f);
    }
  }
}
