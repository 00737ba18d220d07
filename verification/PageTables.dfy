/** The page tables that hhuOS builds before it switches paging on, and the second directory it keeps for itself.
    Physical memory is a map from frame numbers to page tables, so that two pointers to one frame alias. */
module PageTables {
  import opened Common

  const PAGESIZE := 4096
  const ENTRIES_PER_TABLE := 1024
  const PRESENT := 1
  const WRITABLE := 2

  /** The upper 20 and the lower 12 bits of a directory or table entry. */
  datatype Entry = Entry(address: nat, flags: nat) {
    predicate IsUnused() {
      address == 0 && flags == 0
    }
    predicate IsPresent() {
      flags % 2 == 1
    }
  }

  function Cleared(n: nat): (t: seq<Entry>)
    ensures |t| == n && forall i | 0 <= i < n :: t[i] == Entry(0, 0)
  {
    seq(n, _ => Entry(0, 0))
  }

  type Table = t: seq<Entry> | |t| == ENTRIES_PER_TABLE witness Cleared(ENTRIES_PER_TABLE)
  type Frames = map<nat, Table>

  /** The hardware's page walk (32-bit paging, 4-KByte pages): the table entry for a virtual page, if there is one. */
  function Walk(frames: Frames, d: nat, page: nat): Option<Entry> {
    if d !in frames || page / ENTRIES_PER_TABLE >= ENTRIES_PER_TABLE then None
    else
      var de := frames[d][page / ENTRIES_PER_TABLE];
      if !de.IsPresent() || de.address !in frames then None
      else
        var te := frames[de.address][page % ENTRIES_PER_TABLE];
        if te.IsPresent() then Some(te) else None
  }

  /** The three parts of a 32-bit virtual address: ten bits, ten bits and twelve. */
  lemma AddressParts(directory: nat, table: nat, offset: nat)
    requires directory < 0x400 && table < 0x400 && offset < 0x1000
    ensures var page := (directory * 0x40_0000 + table * 0x1000 + offset) / PAGESIZE;
            page / ENTRIES_PER_TABLE == directory && page % ENTRIES_PER_TABLE == table
  {
    assert (directory * 0x40_0000 + table * 0x1000 + offset) / 0x1000 == directory * 0x400 + table;
  }

  /** How many of the first k slots are used. */
  function UsedBelow(dir: Table, k: nat): nat
    requires k <= ENTRIES_PER_TABLE
  {
    if k == 0 then 0 else UsedBelow(dir, k - 1) + (if dir[k - 1].IsUnused() then 0 else 1)
  }

  /** The directory in frame d uses exactly n tables, in the n frames after it, in the order of their slots. */
  ghost predicate InOrder(frames: Frames, d: nat, n: nat) {
    && (forall f | d <= f <= d + n :: f in frames)
    && n == UsedBelow(frames[d], ENTRIES_PER_TABLE)
    && (forall s | 0 <= s < ENTRIES_PER_TABLE && !frames[d][s].IsUnused() ::
          frames[d][s] == Entry(d + 1 + UsedBelow(frames[d], s), PRESENT + WRITABLE))
  }

  /** The used slots of the directory in frame d have present tables in frames of their own, wherever those lie. */
  ghost predicate Separate(frames: Frames, d: nat) {
    && d in frames
    && (forall s | 0 <= s < ENTRIES_PER_TABLE && !frames[d][s].IsUnused() ::
          frames[d][s].IsPresent() && frames[d][s].address in frames && frames[d][s].address != d)
    && (forall s, t | 0 <= s < t < ENTRIES_PER_TABLE && !frames[d][s].IsUnused() && !frames[d][t].IsUnused() ::
          frames[d][s].address != frames[d][t].address)
  }

  /** No slot above the given one is used. */
  ghost predicate UsedUpTo(dir: Table, top: nat) {
    forall s | 0 <= s < ENTRIES_PER_TABLE && !dir[s].IsUnused() :: s <= top
  }

  // ----- counting used slots

  lemma UsedStart(dir: Table)
    ensures UsedBelow(dir, 0) == 0
  {
  }

  lemma UsedStep(dir: Table, k: nat)
    requires k < ENTRIES_PER_TABLE
    ensures UsedBelow(dir, k + 1) == UsedBelow(dir, k) + (if dir[k].IsUnused() then 0 else 1)
  {
  }

  lemma {:induction false} UsedMono(dir: Table, j: nat, k: nat)
    requires j <= k <= ENTRIES_PER_TABLE
    ensures UsedBelow(dir, j) <= UsedBelow(dir, k) <= UsedBelow(dir, j) + (k - j)
    ensures j < k && !dir[j].IsUnused() ==> UsedBelow(dir, j) < UsedBelow(dir, k)
  {
    if j >= k {
    } else {
      UsedMono(dir, j, k - 1);
    }
  }

  lemma {:induction false} UsedAfterSet(dir: Table, s: nat, e: Entry, k: nat)
    requires s < ENTRIES_PER_TABLE && k <= ENTRIES_PER_TABLE && dir[s].IsUnused() && !e.IsUnused()
    ensures UsedBelow(dir[s := e], k) == UsedBelow(dir, k) + (if s < k then 1 else 0)
  {
    if k == 0 {
    } else {
      UsedAfterSet(dir, s, e, k - 1);
    }
  }

  lemma {:induction false} NoneAbove(dir: Table, s: nat, k: nat)
    requires s <= k <= ENTRIES_PER_TABLE
    requires forall t | s <= t < k :: dir[t].IsUnused()
    ensures UsedBelow(dir, k) == UsedBelow(dir, s)
  {
    if s >= k {
    } else {
      NoneAbove(dir, s, k - 1);
    }
  }

  /** Used slots have tables in frames of their own, after the directory. */
  lemma TableFrame(frames: Frames, d: nat, n: nat, s: nat)
    requires InOrder(frames, d, n) && s < ENTRIES_PER_TABLE && !frames[d][s].IsUnused()
    ensures d < frames[d][s].address <= d + n && frames[d][s].address in frames
  {
    UsedMono(frames[d], s, ENTRIES_PER_TABLE);
  }

  /** Two used slots never share a table. */
  lemma TablesDisjoint(frames: Frames, d: nat, n: nat, s: nat, t: nat)
    requires InOrder(frames, d, n) && s < t < ENTRIES_PER_TABLE
    requires !frames[d][s].IsUnused() && !frames[d][t].IsUnused()
    ensures frames[d][s].address < frames[d][t].address
  {
    UsedMono(frames[d], s, t);
  }

  // ----- the two steps of a mapping

  /** A cleared table in the next frame, entered in slot s above all used slots. */
  function WithNewTable(frames: Frames, d: nat, n: nat, s: nat): Frames
    requires d in frames && s < ENTRIES_PER_TABLE
  {
    frames[d + 1 + n := Cleared(ENTRIES_PER_TABLE)][d := frames[d][s := Entry(d + 1 + n, PRESENT + WRITABLE)]]
  }

  lemma NewTableInOrder(frames: Frames, d: nat, n: nat, s: nat)
    requires InOrder(frames, d, n) && s < ENTRIES_PER_TABLE && d + 1 + n in frames
    requires frames[d][s].IsUnused() && UsedUpTo(frames[d], s)
    ensures InOrder(WithNewTable(frames, d, n, s), d, n + 1)
    ensures UsedUpTo(WithNewTable(frames, d, n, s)[d], s)
  {
    hide UsedBelow, Cleared;
    var e := Entry(d + 1 + n, PRESENT + WRITABLE);
    var dir, dir' := frames[d], frames[d][s := e];
    UsedAfterSet(dir, s, e, ENTRIES_PER_TABLE);
    NoneAbove(dir, s, ENTRIES_PER_TABLE);
    var after := WithNewTable(frames, d, n, s);
    assert after[d] == dir' && after.Keys == frames.Keys;
    forall t | 0 <= t < ENTRIES_PER_TABLE && !dir'[t].IsUnused()
      ensures dir'[t] == Entry(d + 1 + UsedBelow(dir', t), PRESENT + WRITABLE)
    {
      UsedAfterSet(dir, s, e, t);
    }
  }

  lemma NewTableWalk(frames: Frames, d: nat, n: nat, s: nat, page: nat)
    requires InOrder(frames, d, n) && s < ENTRIES_PER_TABLE && d + 1 + n in frames
    requires frames[d][s].IsUnused()
    ensures Walk(WithNewTable(frames, d, n, s), d, page) == Walk(frames, d, page)
  {
    hide UsedBelow, Cleared;
    var t := page / ENTRIES_PER_TABLE;
    var after := WithNewTable(frames, d, n, s);
    if t >= ENTRIES_PER_TABLE {
    } else if frames[d][t].IsUnused() {
      assert t == s ==> after[d + 1 + n][page % ENTRIES_PER_TABLE] == Entry(0, 0);
    } else {
      TableFrame(frames, d, n, t);
      hide InOrder;
      assert after[frames[d][t].address] == frames[frames[d][t].address];
    }
  }

  /** One table entry, written through the directory. */
  function WithPage(frames: Frames, d: nat, page: nat, e: Entry): Frames
    requires d in frames && page / ENTRIES_PER_TABLE < ENTRIES_PER_TABLE
    requires frames[d][page / ENTRIES_PER_TABLE].address in frames
  {
    var t := frames[d][page / ENTRIES_PER_TABLE].address;
    frames[t := frames[t][page % ENTRIES_PER_TABLE := e]]
  }

  lemma PageInOrder(frames: Frames, d: nat, n: nat, page: nat, e: Entry)
    requires InOrder(frames, d, n) && page / ENTRIES_PER_TABLE < ENTRIES_PER_TABLE
    requires !frames[d][page / ENTRIES_PER_TABLE].IsUnused()
    ensures frames[d][page / ENTRIES_PER_TABLE].address in frames
    ensures InOrder(WithPage(frames, d, page, e), d, n) && WithPage(frames, d, page, e)[d] == frames[d]
  {
    hide UsedBelow;
    TableFrame(frames, d, n, page / ENTRIES_PER_TABLE);
  }

  lemma PageSeparate(frames: Frames, d: nat, page: nat, e: Entry)
    requires Separate(frames, d) && page / ENTRIES_PER_TABLE < ENTRIES_PER_TABLE
    requires !frames[d][page / ENTRIES_PER_TABLE].IsUnused()
    ensures frames[d][page / ENTRIES_PER_TABLE].address in frames
    ensures Separate(WithPage(frames, d, page, e), d) && WithPage(frames, d, page, e)[d] == frames[d]
  {
  }

  /** It changes the translation of that page and of no other. */
  lemma PageWalk(frames: Frames, d: nat, page: nat, e: Entry, other: nat)
    requires Separate(frames, d) && page / ENTRIES_PER_TABLE < ENTRIES_PER_TABLE
    requires !frames[d][page / ENTRIES_PER_TABLE].IsUnused() && e.IsPresent()
    ensures frames[d][page / ENTRIES_PER_TABLE].address in frames
    ensures Walk(WithPage(frames, d, page, e), d, other) == if other == page then Some(e) else Walk(frames, d, other)
  {
    var s, t := page / ENTRIES_PER_TABLE, other / ENTRIES_PER_TABLE;
    assert other == page <==> s == t && page % ENTRIES_PER_TABLE == other % ENTRIES_PER_TABLE;
    if t < ENTRIES_PER_TABLE && s != t && !frames[d][t].IsUnused() {
      assert frames[d][s].address != frames[d][t].address;
    }
  }

  /** Tables in slot order are separate. */
  lemma InOrderSeparate(frames: Frames, d: nat, n: nat)
    requires InOrder(frames, d, n)
    ensures Separate(frames, d)
  {
    hide UsedBelow;
    forall s | 0 <= s < ENTRIES_PER_TABLE && !frames[d][s].IsUnused()
      ensures frames[d][s].IsPresent() && frames[d][s].address in frames && frames[d][s].address != d
    {
      TableFrame(frames, d, n, s);
    }
    forall s, t | 0 <= s < t < ENTRIES_PER_TABLE && !frames[d][s].IsUnused() && !frames[d][t].IsUnused()
      ensures frames[d][s].address != frames[d][t].address
    {
      TablesDisjoint(frames, d, n, s, t);
    }
  }
}
