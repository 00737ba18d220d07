/** The array of layer pointers in the picture editor, and which layers its operations delete. Layers are numbers here;
    a slot keeps its number when the layer is gone. */
module LayerTable {

  const SLOTS := 18

  /** `clean`: every deletion so far was of a layer that existed. */
  datatype Memory = Memory(slots: seq<int>, count: nat, live: set<int>, next: int, clean: bool)

  const START := Memory(seq(SLOTS, _ => -1), 0, {}, 0, true)

  function Freed(m: Memory, i: nat): Memory
    requires i < |m.slots|
  {
    m.(live := m.live - {m.slots[i]}, clean := m.clean && m.slots[i] in m.live)
  }

  function Put(m: Memory, i: nat): Memory
    requires i < |m.slots|
  {
    m.(slots := m.slots[i := m.next], live := m.live + {m.next}, next := m.next + 1)
  }

  datatype Event = Add | DeleteAt(index: int) | Swap(index1: int, index2: int) | Reset | Restore(n: nat)

  /** The layers of slots 0 to n - 1 are deleted. */
  function AllFreed(m: Memory, n: nat): (r: Memory)
    requires n <= |m.slots|
    ensures r.slots == m.slots && r.count == m.count && r.next == m.next
  {
    if n == 0 then m else Freed(AllFreed(m, n - 1), n - 1)
  }

  /** Undo's loop over a snapshot of n layers: each slot is freed and gets a new layer. */
  function Replaced(m: Memory, n: nat): (r: Memory)
    requires n <= |m.slots|
    ensures |r.slots| == |m.slots|
  {
    if n == 0 then m else Put(Freed(Replaced(m, n - 1), n - 1), n - 1)
  }

  function Step(m: Memory, e: Event): (r: Memory)
    requires |m.slots| == SLOTS && m.count <= SLOTS
    ensures |r.slots| == SLOTS && r.count <= SLOTS
  {
    match e
    case Add => if m.count >= SLOTS then m else Put(m, m.count).(count := m.count + 1)
    case DeleteAt(i) =>
      if i < 0 || i >= m.count then m
      else Freed(m, i).(slots := m.slots[..i] + m.slots[i + 1..m.count] + m.slots[m.count - 1..], count := m.count - 1)
    case Swap(i, j) =>
      if i < 0 || i >= m.count || j < 0 || j >= m.count || i == j then m
      else m.(slots := m.slots[i := m.slots[j]][j := m.slots[i]])
    case Reset => AllFreed(m, m.count).(count := 0)
    case Restore(n) => if n <= SLOTS then Replaced(m, n).(count := n) else m
  }

  // ----- invariants

  /** The first n slots hold different layers, all of them alive. */
  predicate Owned(m: Memory, n: nat)
    requires n <= |m.slots|
  {
    && (forall i | 0 <= i < n :: m.slots[i] in m.live)
    && (forall i, j | 0 <= i < j < n :: m.slots[i] != m.slots[j])
  }

  predicate Valid(m: Memory) {
    && |m.slots| == SLOTS && m.count <= SLOTS && 0 <= m.next && m.clean && Owned(m, m.count)
    && (forall x | x in m.live :: 0 <= x < m.next) && (forall i | 0 <= i < SLOTS :: m.slots[i] < m.next)
  }

  lemma {:induction false} FreedUpTo(m: Memory, n: nat)
    requires n <= |m.slots| && m.clean
    ensures AllFreed(m, n).live == m.live - (set i | 0 <= i < n :: m.slots[i])
    ensures AllFreed(m, n).clean <==> Owned(m, n)
  {
    if n == 0 {
    } else {
      FreedUpTo(m, n - 1);
    }
  }

  lemma {:induction false} ReplacedUpTo(m: Memory, n: nat)
    requires n <= |m.slots| && m.clean && 0 <= m.next && forall i | 0 <= i < |m.slots| :: m.slots[i] < m.next
    ensures var r := Replaced(m, n);
            && r.next == m.next + n && r.count == m.count
            && (forall i | 0 <= i < |m.slots| :: r.slots[i] == if i < n then m.next + i else m.slots[i])
            && (forall x :: x in r.live <==> (x in m.live && forall i | 0 <= i < n :: m.slots[i] != x) || m.next <= x < m.next + n)
            && (r.clean <==> Owned(m, n))
  {
    if n == 0 {
    } else {
      ReplacedUpTo(m, n - 1);
    }
  }

  /** Undo deletes only layers that exist, and each once, exactly if the slots it overwrites hold different living layers. */
  lemma RestoreExactly(m: Memory, n: nat)
    requires Valid(m) && n <= SLOTS
    ensures Step(m, Restore(n)).clean <==> Owned(m, n)
    ensures n <= m.count ==> Owned(m, n)
    ensures Owned(m, n) ==> Valid(Step(m, Restore(n)))
  {
    ReplacedUpTo(m, n);
  }

  lemma DeleteValid(m: Memory, i: nat)
    requires Valid(m) && i < m.count
    ensures var d := Step(m, DeleteAt(i));
            Valid(d) && forall k | 0 <= k < SLOTS :: d.slots[k] == m.slots[if i <= k < m.count - 1 then k + 1 else k]
  {
    var d := Step(m, DeleteAt(i));
    assert forall k | 0 <= k < SLOTS :: d.slots[k] == m.slots[if i <= k < m.count - 1 then k + 1 else k];
  }

  lemma StepValid(m: Memory, e: Event)
    requires Valid(m) && (e.Restore? && e.n <= SLOTS ==> Owned(m, e.n))
    ensures Valid(Step(m, e))
  {
    match e
    case Restore(n) => if n <= SLOTS { RestoreExactly(m, n); }
    case Reset => FreedUpTo(m, m.count);
    case DeleteAt(i) => if 0 <= i < m.count { DeleteValid(m, i); }
    case _ => hide AllFreed, Replaced;
  }

  /** After a layer was deleted, the slot behind the last layer holds one that is gone or that has another slot: a snapshot with
      more layers than there are cannot be restored cleanly. */
  lemma RestoreAfterDelete(m: Memory, i: nat, n: nat)
    requires Valid(m) && i < m.count && n <= SLOTS
    ensures Step(Step(m, DeleteAt(i)), Restore(n)).clean <==> n <= Step(m, DeleteAt(i)).count
  {
    var d := Step(m, DeleteAt(i));
    DeleteValid(m, i);
    RestoreExactly(d, n);
    var last := m.count - 1;
    if i < last { assert d.slots[last - 1] == d.slots[last]; } else { assert d.slots[last] !in d.live; }
  }

  /** Layers that an undo leaves behind its last slot are still alive, and a later undo deletes them. */
  lemma RestoreTwice(m: Memory, n: nat, more: nat)
    requires Valid(m) && n <= m.count && n <= more <= m.count
    ensures Step(Step(m, Restore(n)), Restore(more)).clean
  {
    RestoreExactly(m, n);
    ReplacedUpTo(m, n);
    RestoreExactly(Step(m, Restore(n)), more);
  }

  class Layers {
    const layers: array<int>
    var layerCount: nat
    ghost var live: set<int>
    var next: int                // the address of the next new layer
    ghost var clean: bool

    constructor ()
      ensures fresh(layers) && layers.Length == SLOTS && Now() == START
    {
      layers := new int[SLOTS](_ => -1);
      layerCount, live, next, clean := 0, {}, 0, true;
      new;
      assert layers[..] == START.slots;
    }

    ghost function Now(): Memory
      reads this, layers
    {
      Memory(layers[..], layerCount, live, next, clean)
    }

    /** delete layers[i] */
    method Free(i: nat)
      requires i < layers.Length
      modifies this`live, this`clean
      ensures Now() == Freed(old(Now()), i)
    {
      clean := clean && layers[i] in live;
      live := live - {layers[i]};
    }

    /** layers[i] = new Layer(...) */
    method Create(i: nat)
      requires i < layers.Length
      modifies this`live, this`next, layers
      ensures Now() == Put(old(Now()), i)
    {
      layers[i] := next;
      live := live + {next};
      next := next + 1;
    }

    method AddEmpty()
      requires layers.Length == SLOTS && layerCount <= SLOTS
      modifies this, layers
      ensures Now() == Step(old(Now()), Add)
    {
      if layerCount >= SLOTS { return; }
      Create(layerCount);
      layerCount := layerCount + 1;
    }

    /** Layers::deleteAt: the layers behind move down, and the last slot keeps its pointer. */
    method Delete(index: int)
      requires layers.Length == SLOTS && layerCount <= SLOTS
      modifies this, layers
      ensures Now() == Step(old(Now()), DeleteAt(index))
    {
      if index < 0 || index >= layerCount { return; }
      Free(index);
      MoveDown(index);
      layerCount := layerCount - 1;
    }

    method MoveDown(index: nat)
      requires layers.Length == SLOTS && index < layerCount <= SLOTS
      modifies layers
      ensures layers[..] == old(layers[..index] + layers[index + 1..layerCount] + layers[layerCount - 1..])
    {
      ghost var before := layers[..];
      var i := index;
      while i < layerCount - 1
        invariant index <= i < layerCount
        invariant layers[..i] == before[..index] + before[index + 1..i + 1] && layers[i..] == before[i..]
      {
        ghost var head := layers[..i];
        assert layers[i + 1] == layers[i..][1] == before[i + 1];
        layers[i] := layers[i + 1];
        assert layers[..i + 1] == head + [before[i + 1]];
        assert layers[i + 1..] == before[i + 1..];
        i := i + 1;
      }
      assert layers[..] == layers[..i] + layers[i..];
    }

    method ResetLayers()
      requires layers.Length == SLOTS && layerCount <= SLOTS
      modifies this
      ensures Now() == Step(old(Now()), Reset)
    {
      for i := 0 to layerCount
        modifies this`live, this`clean
        invariant Now() == AllFreed(old(Now()), i)
      {
        Free(i);
      }
      layerCount := 0;
    }

    /** The part of History::undo that brings back a snapshot of n layers. */
    method RestoreSnapshot(n: nat)
      requires layers.Length == SLOTS && layerCount <= SLOTS && n <= SLOTS
      modifies this, layers
      ensures Now() == Step(old(Now()), Restore(n))
    {
      for i := 0 to n
        modifies this`live, this`clean, this`next, layers
        invariant Now() == Replaced(old(Now()), i)
      {
        Free(i);
        Create(i);
      }
      layerCount := n;
    }
  }
}
