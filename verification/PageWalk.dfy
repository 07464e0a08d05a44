/**
 Four-level x86-64 translation: the fields of table entries, the walk the
 processor performs in user mode, and the shape of the tables the kernel builds.
 */
module PageWalk {
  import opened Common

  const ENTRY_COUNT: nat := 512

  /** One 64-bit table entry by its fields; `ignored` holds the bits the walk does not look at. */
  datatype Entry = Entry(present: bool, writable: bool, user: bool, huge: bool, noExecute: bool, address: nat,
                         ignored: nat)

  const EMPTY_ENTRY := Entry(false, false, false, false, false, 0, 0)

  /** An interior entry: present, writable, user. */
  function LinkEntry(child: nat): Entry {
    Entry(true, true, true, false, false, child, 0)
  }

  /** A leaf entry: present and user, with the mapping's own rights. */
  function LeafEntry(frame: nat, writable: bool, executable: bool): Entry {
    Entry(true, writable, true, false, !executable, frame, 0)
  }

  // --- Indices ------------------------------------------------------------

  predicate PageAligned(address: int) {
    0 <= address && address % PAGE_SIZE == 0
  }

  type Index = i: nat | i < ENTRY_COUNT

  /** The four nine-bit indices of a page, root first. */
  datatype Route = Route(root: Index, directoryPointer: Index, directory: Index, leaf: Index) {
    function At(level: nat): Index
      requires level < 4
    {
      if level == 0 then root else if level == 1 then directoryPointer else if level == 2 then directory else leaf
    }
  }

  /** Shift out the page offset, then nine bits at a time. */
  function RouteTo(virtualAddress: nat): Route {
    var page := virtualAddress / PAGE_SIZE;
    Route(page / 512 / 512 / 512 % 512, page / 512 / 512 % 512, page / 512 % 512, page % 512)
  }

  /** The 48-bit page address a route leads to. */
  function PageAt(route: Route): nat {
    (((route.root * 512 + route.directoryPointer) * 512 + route.directory) * 512 + route.leaf) * PAGE_SIZE
  }

  lemma RouteRoundTrip(virtualAddress: nat)
    requires PageAligned(virtualAddress) && virtualAddress < 2 * USER_LIMIT
    ensures PageAt(RouteTo(virtualAddress)) == virtualAddress
  {
    var page := virtualAddress / PAGE_SIZE;
    var directory := page / 512;
    var directoryPointer := directory / 512;
    var root := directoryPointer / 512;
    assert root < 512;
    assert page == directory * 512 + page % 512;
    assert directory == directoryPointer * 512 + directory % 512;
    assert directoryPointer == root * 512 + directoryPointer % 512;
  }

  lemma RouteInjective(left: nat, right: nat)
    requires PageAligned(left) && left < 2 * USER_LIMIT
    requires PageAligned(right) && right < 2 * USER_LIMIT
    requires RouteTo(left) == RouteTo(right)
    ensures left == right
  {
    RouteRoundTrip(left);
    RouteRoundTrip(right);
  }

  // --- The processor's walk -------------------------------------------------

  type Table = t: seq<Entry> | |t| == ENTRY_COUNT witness ZeroTable()

  function ZeroTable(): seq<Entry> {
    seq(ENTRY_COUNT, _ => EMPTY_ENTRY)
  }

  type Tables = map<nat, Table>

  datatype Access = Fault | Page(frame: nat, writable: bool, executable: bool) | LargePage

  /** Rights accumulate: a level can only take them away. */
  function Restrict(access: Access, writable: bool, executable: bool): Access {
    if access.Page? then
      Page(access.frame, access.writable && writable, access.executable && executable)
    else
      access
  }

  /** What a user-mode access meets when it follows `route` from `table`, a table of the given level. */
  function Walk(tables: Tables, table: nat, route: Route, level: nat): Access
    requires level < 4
    decreases 4 - level
  {
    if table !in tables then Fault else
    var entry := tables[table][route.At(level)];
    if !entry.present || !entry.user then
      Fault
    else if level == 3 then
      Page(entry.address, entry.writable, !entry.noExecute)
    else if entry.huge then
      LargePage
    else
      Restrict(Walk(tables, entry.address, route, level + 1), entry.writable, !entry.noExecute)
  }

  // --- The tables the kernel builds ------------------------------------------

  /** Where a table hangs: the root, or one index below another table. */
  datatype Position = Top | Under(parent: Position, index: Index)

  function Depth(position: Position): nat {
    if position.Top? then 0 else 1 + Depth(position.parent)
  }

  /** The position of the table a route passes at `level`; level 4 stands for the page itself. */
  function On(route: Route, level: nat): (position: Position)
    requires level <= 4
    ensures Depth(position) == level
  {
    if level == 0 then Top else Under(On(route, level - 1), route.At(level - 1))
  }

  /** The table frame at every occupied position. */
  type Layout = map<Position, nat>

  /** A kernel mapping copied into the root: it lacks USER and points outside the pool. */
  predicate Inherited(entry: Entry, pool: set<nat>) {
    !entry.user && entry.address !in pool
  }

  predicate Links(entry: Entry, layout: Layout, position: Position) {
    && entry.present && entry.user && entry.writable && !entry.noExecute && !entry.huge
    && position in layout && entry.address == layout[position]
  }

  /** A present entry above the leaves is inherited (root only) or links the table one step down. */
  ghost predicate InteriorEntry(tables: Tables, layout: Layout, pool: set<nat>, position: Position, index: Index)
    requires position in layout && layout[position] in tables
  {
    var entry := tables[layout[position]][index];
    entry.present ==> (position.Top? && Inherited(entry, pool)) || Links(entry, layout, Under(position, index))
  }

  predicate LeafShaped(entry: Entry) {
    entry.present ==> entry.user && entry.address != 0 && !(entry.writable && !entry.noExecute)
  }

  /** The table at `position` hangs from the table above it. */
  ghost predicate Attached(tables: Tables, layout: Layout, position: Position)
    requires position in layout
  {
    position.Under? ==>
      && position.parent in layout
      && layout[position.parent] in tables
      && Links(tables[layout[position.parent]][position.index], layout, position)
  }

  ghost predicate Unplaced(layout: Layout, table: nat) {
    forall position :: position in layout ==> layout[position] != table
  }

  ghost predicate OneFrameEach(layout: Layout) {
    forall left, right :: left in layout && right in layout && layout[left] == layout[right] ==> left == right
  }

  ghost predicate Tree(tables: Tables, layout: Layout, pool: set<nat>) {
    && Top in layout
    && OneFrameEach(layout)
    && (forall position :: position in layout ==> layout[position] in tables && Depth(position) <= 3)
    && (forall position, index: Index {:trigger InteriorEntry(tables, layout, pool, position, index)} ::
          position in layout && Depth(position) < 3 ==> InteriorEntry(tables, layout, pool, position, index))
    && (forall position, index: Index {:trigger tables[layout[position]][index]} ::
          position in layout && Depth(position) == 3 ==> LeafShaped(tables[layout[position]][index]))
    && (forall position {:trigger Attached(tables, layout, position)} ::
          position in layout ==> Attached(tables, layout, position))
  }

  /** The walk from the root passes every occupied position on its route, rights intact. */
  lemma {:induction false} WalkReaches(tables: Tables, layout: Layout, pool: set<nat>, route: Route, level: nat)
    requires Tree(tables, layout, pool)
    requires level < 4 && On(route, level) in layout
    ensures Walk(tables, layout[Top], route, 0) == Walk(tables, layout[On(route, level)], route, level)
  {
    if level > 0 {
      assert Attached(tables, layout, On(route, level));
      WalkReaches(tables, layout, pool, route, level - 1);
    }
  }

  /** The walk only looks at linked tables: changing any other frame is invisible to users. */
  lemma {:induction false} WalkIgnoresUnlinked(before: Tables, after: Tables, layout: Layout, pool: set<nat>,
                                               route: Route, level: nat)
    requires Tree(before, layout, pool)
    requires forall position :: position in layout ==>
             layout[position] in after && after[layout[position]] == before[layout[position]]
    requires level < 4 && On(route, level) in layout
    ensures Walk(after, layout[On(route, level)], route, level) == Walk(before, layout[On(route, level)], route, level)
    decreases 4 - level
  {
    var position := On(route, level);
    var entry := before[layout[position]][route.At(level)];
    if level < 3 && entry.present && entry.user {
      assert InteriorEntry(before, layout, pool, position, route.At(level));
      assert Under(position, route.At(level)) == On(route, level + 1);
      WalkIgnoresUnlinked(before, after, layout, pool, route, level + 1);
    }
  }

  /** `tables` with one entry replaced. */
  function Written(tables: Tables, table: nat, index: Index, entry: Entry): Tables
    requires table in tables
  {
    tables[table := tables[table][index := entry]]
  }

  /** Rewriting one leaf entry changes the outcome of that one walk only. */
  lemma {:induction false} WalkAfterLeafWrite(before: Tables, layout: Layout, pool: set<nat>, leaf: Position,
                                              index: Index, entry: Entry,
                                              route: Route, level: nat)
    requires Tree(before, layout, pool)
    requires leaf in layout && Depth(leaf) == 3
    requires level < 4 && On(route, level) in layout
    requires On(route, 4) != Under(leaf, index)
    ensures Walk(Written(before, layout[leaf], index, entry), layout[On(route, level)], route, level)
         == Walk(before, layout[On(route, level)], route, level)
    decreases 4 - level
  {
    var position := On(route, level);
    var old_entry := before[layout[position]][route.At(level)];
    if level == 3 {
      assert On(route, 4) == Under(position, route.At(3));
    } else {
      assert position != leaf;
      if old_entry.present && old_entry.user {
        assert InteriorEntry(before, layout, pool, position, route.At(level));
        assert Under(position, route.At(level)) == On(route, level + 1);
        WalkAfterLeafWrite(before, layout, pool, leaf, index, entry, route, level + 1);
      }
    }
  }

  /** Linking an empty table opens no translation and closes none. */
  lemma {:induction false} WalkAfterLink(before: Tables, layout: Layout, pool: set<nat>, parent: Position, index: Index,
                                         child: nat,
                                         route: Route, level: nat)
    requires Tree(before, layout, pool)
    requires parent in layout && Depth(parent) < 3 && !before[layout[parent]][index].present
    requires Unplaced(layout, child) && child in before && before[child] == ZeroTable()
    requires level < 4 && On(route, level) in layout
    ensures Walk(Written(before, layout[parent], index, LinkEntry(child)), layout[On(route, level)], route, level)
         == Walk(before, layout[On(route, level)], route, level)
    decreases 4 - level
  {
    var position := On(route, level);
    var after := Written(before, layout[parent], index, LinkEntry(child));
    if position == parent && route.At(level) == index {
      assert child != layout[parent];
      assert after[child][route.At(level + 1)] == EMPTY_ENTRY;
      assert Walk(after, child, route, level + 1) == Fault;
    } else {
      var entry := before[layout[position]][route.At(level)];
      assert after[layout[position]][route.At(level)] == entry;
      if level < 3 && entry.present && entry.user {
        assert InteriorEntry(before, layout, pool, position, route.At(level));
        assert Under(position, route.At(level)) == On(route, level + 1);
        WalkAfterLink(before, layout, pool, parent, index, child, route, level + 1);
      }
    }
  }

  /** Linking keeps the shape, with the child at its new position. */
  lemma {:induction false} TreeAfterLink(before: Tables, layout: Layout, pool: set<nat>, parent: Position, index: Index,
                                         child: nat)
    requires Tree(before, layout, pool)
    requires parent in layout && Depth(parent) < 3 && !before[layout[parent]][index].present
    requires Unplaced(layout, child) && child in before && before[child] == ZeroTable()
    ensures Under(parent, index) !in layout
    ensures Tree(Written(before, layout[parent], index, LinkEntry(child)), layout[Under(parent, index) := child], pool)
  {
    var position := Under(parent, index);
    assert position in layout ==> Attached(before, layout, position);
    var after := Written(before, layout[parent], index, LinkEntry(child));
    var layout' := layout[position := child];
    forall p, i: Index | p in layout' && Depth(p) < 3
      ensures InteriorEntry(after, layout', pool, p, i)
    {
      if p != position && !(p == parent && i == index) {
        assert InteriorEntry(before, layout, pool, p, i);
        assert after[layout'[p]][i] == before[layout[p]][i];
      }
    }
    forall p, i: Index | p in layout' && Depth(p) == 3
      ensures LeafShaped(after[layout'[p]][i])
    {
      if p != position {
        assert after[layout'[p]] == before[layout[p]];
      }
    }
    forall p | p in layout'
      ensures Attached(after, layout', p)
    {
      if p != position {
        assert Attached(before, layout, p);
      }
    }
  }

  /** Rewriting a leaf entry keeps the shape. */
  lemma {:induction false} TreeAfterLeafWrite(before: Tables, layout: Layout, pool: set<nat>, leaf: Position,
                                              index: Index, entry: Entry)
    requires Tree(before, layout, pool)
    requires leaf in layout && Depth(leaf) == 3 && LeafShaped(entry)
    ensures Tree(Written(before, layout[leaf], index, entry), layout, pool)
  {
    var after := Written(before, layout[leaf], index, entry);
    forall p, i: Index | p in layout && Depth(p) < 3
      ensures InteriorEntry(after, layout, pool, p, i)
    {
      assert InteriorEntry(before, layout, pool, p, i);
    }
    forall p | p in layout
      ensures Attached(after, layout, p)
    {
      assert Attached(before, layout, p);
      assert p.Under? ==> Depth(p.parent) < 3;
    }
  }

  /** Frames outside the tree may change freely. */
  lemma TreeIgnoresUnlinked(before: Tables, after: Tables, layout: Layout, pool: set<nat>)
    requires Tree(before, layout, pool)
    requires forall position :: position in layout ==>
             layout[position] in after && after[layout[position]] == before[layout[position]]
    ensures Tree(after, layout, pool)
  {
    forall p, i: Index | p in layout && Depth(p) < 3
      ensures InteriorEntry(after, layout, pool, p, i)
    {
      assert InteriorEntry(before, layout, pool, p, i);
    }
    forall p | p in layout
      ensures Attached(after, layout, p)
    {
      assert Attached(before, layout, p);
    }
  }

  /** No sharing: distinct interior slots lead users to distinct tables. */
  lemma {:induction false} NoSharedTables(tables: Tables, layout: Layout, pool: set<nat>, left: Position,
                                          leftIndex: Index, right: Position, rightIndex: Index)
    requires Tree(tables, layout, pool)
    requires left in layout && Depth(left) < 3 && right in layout && Depth(right) < 3
    requires var entry := tables[layout[left]][leftIndex]; entry.present && entry.user
    requires var entry := tables[layout[right]][rightIndex]; entry.present && entry.user
    requires tables[layout[left]][leftIndex].address == tables[layout[right]][rightIndex].address
    ensures left == right && leftIndex == rightIndex
  {
    assert InteriorEntry(tables, layout, pool, left, leftIndex);
    assert InteriorEntry(tables, layout, pool, right, rightIndex);
    assert Under(left, leftIndex) == Under(right, rightIndex);
  }
}
