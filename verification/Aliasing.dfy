/**
 * crates/arch-aarch64/src/addrspace.rs: what ignoring the address bits above 47 costs, over every tree of
 * tables there could be.
 */
module Aliasing {
  import opened Common
  import opened PageTables
  import opened Ownership
  import opened AddressSpaces
  import Unmapping

  // ---- A tree that maps every page ----

  /** The frame of each node's table, a different one for every node. */
  function FrameOfNode(k: Key): Frame
  {
    k.n * 4 + k.level
  }

  predicate IsNode(k: Key)
  {
    k.level <= LEAF_LEVEL && k.n < Span(k.level)
  }

  function Nodes(): set<Key>
  {
    set l: nat, n: nat | l < 4 && n < Span(3) && n < Span(l) :: Key(l, n)
  }

  function FullLayout(): Layout
  {
    map k | k in Nodes() :: FrameOfNode(k)
  }

  /** Every slot of every table is in use; the leaves all name frame 0, which nobody owns. */
  function FullEntry(k: Key, i: nat): Desc
  {
    if k.level == LEAF_LEVEL then Page(0, Data, false) else Table(FrameOfNode(Child(k, i)))
  }

  function NodeOf(f: Frame): Key
  {
    Key(f % 4, f / 4)
  }

  lemma NodeOfFrame(k: Key)
    requires k.level < 4
    ensures NodeOf(FrameOfNode(k)) == k
  {
  }

  function FullTables(): Tables
  {
    map f: Frame | f < 4 * Span(3) + 4 :: seq(ENTRIES, i requires 0 <= i < ENTRIES => FullEntry(NodeOf(f), i))
  }

  lemma NodesAre(k: Key)
    ensures k in Nodes() <==> IsNode(k)
  {
    assert k.level <= 3 ==> Span(k.level) <= Span(3);
  }

  lemma FullTable(k: Key, i: nat)
    requires IsNode(k) && i < ENTRIES
    ensures k in FullLayout() && IsTable(FullTables(), FullLayout()[k])
    ensures FullTables()[FullLayout()[k]][i] == FullEntry(k, i)
  {
    NodesAre(k);
    NodeOfFrame(k);
    assert Span(k.level) <= Span(3);
  }

  lemma FullTreeIsATree()
    ensures Tree(FullTables(), FrameOfNode(ROOT), FullLayout())
  {
    var (mem, tables) := (FullTables(), FullLayout());
    NodesAre(ROOT);
    forall k | k in tables
      ensures IsNode(k) && IsTable(mem, tables[k]) && (k.level == 0 ==> k == ROOT)
    {
      NodesAre(k);
      FullTable(k, 0);
    }
    forall k {:trigger Parent(k)} | k in tables && k.level > 0 ensures Parent(k) in tables {
      NodesAre(k);
      NodesAre(Parent(k));
    }
    forall k, i: nat | k in tables && i < ENTRIES ensures EntryOk(mem, tables, k, i) {
      NodesAre(k);
      FullTable(k, i);
      NodesAre(Child(k, i));
    }
    forall j, k | j in tables && k in tables && tables[j] == tables[k] ensures j == k {
      NodesAre(j);
      NodesAre(k);
      NodeOfFrame(j);
      NodeOfFrame(k);
    }
  }

  lemma FullTreeMapsAll(pn: PageNo)
    ensures LeafAt(FullTables(), FullLayout(), pn) == Page(0, Data, false)
  {
    FullTable(OnPath(pn, LEAF_LEVEL), Index(pn, LEAF_LEVEL));
  }

  ghost predicate MapsAll(mem: Tables, tables: Layout)
  {
    forall pn: PageNo :: LeafAt(mem, tables, pn) == Page(0, Data, false)
  }

  lemma FullTreeMapsEverything()
    ensures MapsAll(FullTables(), FullLayout())
  {
    forall pn: PageNo ensures LeafAt(FullTables(), FullLayout(), pn) == Page(0, Data, false) {
      FullTreeMapsAll(pn);
    }
  }

  lemma SomeTreeMapsAll() returns (mem: Tables, root: Frame, tables: Layout)
    ensures Tree(mem, root, tables) && MapsAll(mem, tables)
  {
    FullTreeIsATree();
    FullTreeMapsEverything();
    mem, root, tables := FullTables(), FrameOfNode(ROOT), FullLayout();
  }

  // ---- When the answer is right ----

  /** In this tree the answer is the one about the pages themselves. */
  ghost predicate RightIn(mem: Tables, tables: Layout, va: nat, len: nat, write: bool)
  {
    Unmapping.AllowedIn(mem, tables, va, len, write) <==> Unmapping.GrantedIn(mem, tables, va, len, write)
  }

  /** Whatever is mapped, the answer is right: exactly when the range ends by 2^48. */
  lemma RightInEveryTree(va: nat, len: nat, write: bool)
    requires len > 0
    ensures (forall mem, root, tables :: Tree(mem, root, tables) ==> RightIn(mem, tables, va, len, write))
       <==> va + len <= PAGES * PAGE_SIZE
  {
    if va + len <= PAGES * PAGE_SIZE {
      forall mem, root, tables | Tree(mem, root, tables) ensures RightIn(mem, tables, va, len, write) {
        Unmapping.RightExactly(mem, tables, va, len, write);
      }
    } else {
      var mem, root, tables := SomeTreeMapsAll();
      Unmapping.RightExactly(mem, tables, va, len, write);
      assert Unmapping.AllowedIn(mem, tables, va, len, write);
      assert Tree(mem, root, tables) && !RightIn(mem, tables, va, len, write);
    }
  }
}
