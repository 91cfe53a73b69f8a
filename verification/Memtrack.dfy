/**
 The buffer accounting of memtrack (memtrack/memtrack_aml.c): a growable table of buffers, a merge
 that sums the sizes of a process's buffers, and the in-place removal of those it
 shares with the compositor.
 */
module Memtrack {

  datatype BufferInfo = BufferInfo(id: nat, size: nat)

  // --- The table of buffers ---

  class BufferTable {
    var length: nat
    var capacity: nat
    var data: array<BufferInfo>

    ghost predicate Valid()
      reads this
    {
      length <= capacity == data.Length && 0 < capacity
    }

    ghost function Contents(): seq<BufferInfo>
      reads this, data
      requires Valid()
    {
      data[..length]
    }

    constructor (initialCapacity: nat)
      requires 0 < initialCapacity
      ensures Valid() && fresh(data) && Contents() == []
    {
      data := new BufferInfo[initialCapacity](_ => BufferInfo(0, 0));
      capacity, length := initialCapacity, 0;
    }

    /** A full table doubles its capacity first. */
    method Add(info: BufferInfo)
      requires Valid()
      modifies this, data
      ensures Valid() && (data == old(data) || fresh(data))
      ensures Contents() == old(Contents()) + [info]
      ensures capacity == if old(length == capacity) then 2 * old(capacity) else old(capacity)
    {
      if capacity == length {
        capacity := capacity * 2;
        var grown := new BufferInfo[capacity](_ => BufferInfo(0, 0));
        forall i | 0 <= i < length {
          grown[i] := data[i];
        }
        data := grown;
        assert data[..length] == old(data[..length]);
      }
      data[length] := info;
      length := length + 1;
    }
  }

  // --- Sorted id lists ---

  ghost predicate Sorted(ids: seq<nat>) {
    forall i, j :: 0 <= i < j < |ids| ==> ids[i] <= ids[j]
  }

  ghost predicate Increasing(ids: seq<nat>) {
    forall i, j :: 0 <= i < j < |ids| ==> ids[i] < ids[j]
  }

  ghost predicate IncreasingTable(table: seq<BufferInfo>) {
    forall i, j :: 0 <= i < j < |table| ==> table[i].id < table[j].id
  }

  function Ids(ids: seq<nat>): set<nat> {
    set id | id in ids
  }

  // --- Adding up sizes ---

  /** The sizes of the table's entries for the given buffers. */
  function BytesOf(table: seq<BufferInfo>, ids: set<nat>): nat {
    if table == [] then 0
    else (if table[0].id in ids then table[0].size else 0) + BytesOf(table[1..], ids)
  }

  /** A `size_t` sum returned as an `int`. */
  function AsInt32(n: nat): int {
    var low := n % 0x1_0000_0000;
    if low < 0x8000_0000 then low else low - 0x1_0000_0000
  }

  /** The narrowing keeps the low 32 bits. */
  lemma NarrowingKeepsLowBits(n: nat)
    ensures -0x8000_0000 <= AsInt32(n) < 0x8000_0000 && (n - AsInt32(n)) % 0x1_0000_0000 == 0
  {
  }

  /** The returned number is the sum exactly if it is less than two gigabytes. */
  lemma ExactBelowTwoGigabytes(n: nat)
    ensures AsInt32(n) == n <==> n < 0x8000_0000
  {
  }

  lemma {:induction false} BytesOfSplit(table: seq<BufferInfo>, n: nat, ids: set<nat>)
    requires n <= |table|
    ensures BytesOf(table, ids) == BytesOf(table[..n], ids) + BytesOf(table[n..], ids)
  {
    if n > 0 {
      BytesOfSplit(table[1..], n - 1, ids);
      assert table[..n][1..] == table[1..][..n - 1] && table[1..][n - 1..] == table[n..];
    } else {
      assert table[0..] == table;
    }
  }

  /**
   The merge of `get_bufs_size`. For a table with increasing ids and any sorted list it adds
   up the entries whose id is on the list, a repeated id once; the sum is kept in 64 bits.
   */
  method GetBufsSize(table: seq<BufferInfo>, bufs: array<nat>, bufsSize: nat) returns (result: int)
    requires IncreasingTable(table) && bufsSize <= bufs.Length && Sorted(bufs[..bufsSize])
    ensures result == AsInt32(BytesOf(table, Ids(bufs[..bufsSize])))
  {
    ghost var ids := Ids(bufs[..bufsSize]);
    var sum: nat, b, t := 0, 0, 0;
    while b < bufsSize && t < |table|
      invariant 0 <= b <= bufsSize && 0 <= t <= |table|
      invariant sum % 0x1_0000_0000 == BytesOf(table[..t], ids) % 0x1_0000_0000
      invariant t < |table| ==> forall i :: 0 <= i < b ==> bufs[i] < table[t].id
      decreases bufsSize - b + |table| - t
    {
      if bufs[b] < table[t].id {
        b := b + 1;
      } else {
        TableGrows(table, t, ids);
        if bufs[b] > table[t].id {
          SkippedEntryIsAbsent(table, t, bufs[..bufsSize], b);
          t := t + 1;
        } else {
          assert bufs[..bufsSize][b] in ids;
          SumWraps(sum, BytesOf(table[..t], ids), table[t].size);
          sum := (sum + table[t].size) % 0x1_0000_0000_0000_0000;
          b, t := b + 1, t + 1;
        }
      }
    }
    BytesOfSplit(table, t, ids);
    if t < |table| {
      RestIsAbsent(table, t, bufs[..bufsSize]);
    }
    result := AsInt32(sum);
  }

  lemma SumWraps(sum: nat, total: nat, size: nat)
    requires sum % 0x1_0000_0000 == total % 0x1_0000_0000
    ensures (sum + size) % 0x1_0000_0000_0000_0000 % 0x1_0000_0000 == (total + size) % 0x1_0000_0000
  {
  }

  lemma TableGrows(table: seq<BufferInfo>, t: nat, ids: set<nat>)
    requires t < |table|
    ensures BytesOf(table[..t + 1], ids) == BytesOf(table[..t], ids) + if table[t].id in ids then table[t].size else 0
  {
    BytesOfSplit(table[..t + 1], t, ids);
    assert table[..t + 1][..t] == table[..t] && table[..t + 1][t..] == [table[t]];
  }

  lemma SkippedEntryIsAbsent(table: seq<BufferInfo>, t: nat, ids: seq<nat>, b: nat)
    requires Sorted(ids) && t < |table| && b < |ids| && table[t].id < ids[b]
    requires forall i :: 0 <= i < b ==> ids[i] < table[t].id
    ensures table[t].id !in Ids(ids)
  {
  }

  lemma {:induction false} RestIsAbsent(table: seq<BufferInfo>, t: nat, ids: seq<nat>)
    requires IncreasingTable(table) && t < |table|
    requires forall i :: 0 <= i < |ids| ==> ids[i] < table[t].id
    ensures BytesOf(table[t..], Ids(ids)) == 0
    decreases |table| - t
  {
    assert table[t..][1..] == table[t + 1..];
    if t + 1 < |table| {
      RestIsAbsent(table, t + 1, ids);
    }
  }

  // --- Removing the shared buffers ---

  /** The difference of two sorted lists by merging: each entry of `ids` meets at most one of `others`. */
  function Difference(ids: seq<nat>, others: seq<nat>): seq<nat>
    decreases |ids| + |others|
  {
    if ids == [] then []
    else if others == [] || ids[0] < others[0] then [ids[0]] + Difference(ids[1..], others)
    else if ids[0] > others[0] then Difference(ids, others[1..])
    else Difference(ids[1..], others[1..])
  }

  lemma KeptEntry(kept: seq<nat>, rest: seq<nat>, shared: seq<nat>)
    requires rest != [] && (shared == [] || rest[0] < shared[0])
    ensures kept + [rest[0]] + Difference(rest[1..], shared) == kept + Difference(rest, shared)
  {
    assert Difference(rest, shared) == [rest[0]] + Difference(rest[1..], shared);
    Regroup(kept, [rest[0]], Difference(rest[1..], shared));
  }

  lemma Regroup(a: seq<nat>, b: seq<nat>, c: seq<nat>)
    ensures a + b + c == a + (b + c)
  {
  }

  /**
   The loop that compacts a process's buffer list in place. The write index never passes the read
   index, so no entry is overwritten before it is read.
   */
  method RemoveShared(pidBufs: array<nat>, pidSize: nat, sfBufs: array<nat>, sfSize: nat) returns (newSize: nat)
    requires pidSize <= pidBufs.Length && sfSize <= sfBufs.Length && pidBufs != sfBufs
    modifies pidBufs
    ensures newSize <= pidSize
    ensures pidBufs[..newSize] == Difference(old(pidBufs[..pidSize]), sfBufs[..sfSize])
    ensures pidBufs[pidSize..] == old(pidBufs[pidSize..])
  {
    var read, write, sf := 0, 0, 0;
    while read < pidSize
      invariant 0 <= write <= read <= pidSize && sf <= sfSize
      invariant pidBufs[read..] == old(pidBufs[read..])
      invariant pidBufs[..write] + Difference(pidBufs[read..pidSize], sfBufs[sf..sfSize])
             == Difference(old(pidBufs[..pidSize]), sfBufs[..sfSize])
      decreases pidSize - read + sfSize - sf
    {
      ghost var kept, rest, shared := pidBufs[..write], pidBufs[read..pidSize], sfBufs[sf..sfSize];
      assert rest[1..] == pidBufs[read + 1..pidSize];
      if sf < sfSize {
        assert shared[1..] == sfBufs[sf + 1..sfSize];
        if pidBufs[read] < sfBufs[sf] {
          pidBufs[write] := pidBufs[read];
          KeptEntry(kept, rest, shared);
          assert pidBufs[..write + 1] == kept + [rest[0]] && pidBufs[read + 1..pidSize] == rest[1..];
          read, write := read + 1, write + 1;
        } else if pidBufs[read] > sfBufs[sf] {
          sf := sf + 1;
        } else {
          read, sf := read + 1, sf + 1;
        }
      } else {
        pidBufs[write] := pidBufs[read];
        KeptEntry(kept, rest, shared);
        assert pidBufs[..write + 1] == kept + [rest[0]] && pidBufs[read + 1..pidSize] == rest[1..];
        read, write := read + 1, write + 1;
      }
    }
    newSize := write;
  }

  lemma BelowHeadIsAbsent(ids: seq<nat>, id: nat)
    requires Sorted(ids) && (ids != [] ==> id < ids[0])
    ensures id !in multiset(ids)
  {
    forall i | 0 <= i < |ids| ensures ids[i] != id {
      if i > 0 { assert ids[0] <= ids[i]; }
    }
  }

  lemma TailIsSorted(ids: seq<nat>)
    requires Sorted(ids) && ids != []
    ensures Sorted(ids[1..])
    ensures multiset(ids) == multiset{ids[0]} + multiset(ids[1..])
    ensures forall id :: id in multiset(ids[1..]) ==> ids[0] <= id
  {
    assert ids == [ids[0]] + ids[1..];
  }

  lemma KeptHead(a: multiset<nat>, b: multiset<nat>, head: nat)
    requires head !in b
    ensures (multiset{head} + a) - b == multiset{head} + (a - b)
  {
  }

  lemma DroppedHead(a: multiset<nat>, b: multiset<nat>, head: nat)
    requires head !in a
    ensures a - (multiset{head} + b) == a - b
  {
  }

  lemma MatchedHeads(a: multiset<nat>, b: multiset<nat>, head: nat)
    ensures (multiset{head} + a) - (multiset{head} + b) == a - b
  {
  }

  lemma HeadIsSorted(head: nat, tail: seq<nat>)
    requires Sorted(tail) && forall id :: id in multiset(tail) ==> head <= id
    ensures Sorted([head] + tail)
  {
    forall i | 0 <= i < |tail| ensures head <= tail[i] {
      assert tail[i] in multiset(tail);
    }
  }

  /** An entry that the others cannot contain any more is kept. */
  lemma KeepStep(ids: seq<nat>, others: seq<nat>)
    requires ids != [] && (others == [] || ids[0] < others[0]) && ids[0] !in multiset(others)
    requires multiset(ids) == multiset{ids[0]} + multiset(ids[1..])
    requires multiset(Difference(ids[1..], others)) == multiset(ids[1..]) - multiset(others)
    ensures multiset(Difference(ids, others)) == multiset(ids) - multiset(others)
  {
    KeptHead(multiset(ids[1..]), multiset(others), ids[0]);
  }

  /** An entry of the others that can match nothing any more is passed over. */
  lemma PassStep(ids: seq<nat>, others: seq<nat>)
    requires ids != [] && others != [] && ids[0] > others[0] && others[0] !in multiset(ids)
    requires multiset(others) == multiset{others[0]} + multiset(others[1..])
    requires multiset(Difference(ids, others[1..])) == multiset(ids) - multiset(others[1..])
    ensures multiset(Difference(ids, others)) == multiset(ids) - multiset(others)
  {
    DroppedHead(multiset(ids), multiset(others[1..]), others[0]);
  }

  /** A match consumes one entry on both sides. */
  lemma MatchStep(ids: seq<nat>, others: seq<nat>)
    requires ids != [] && others != [] && ids[0] == others[0]
    requires multiset(ids) == multiset{ids[0]} + multiset(ids[1..])
    requires multiset(others) == multiset{others[0]} + multiset(others[1..])
    requires multiset(Difference(ids[1..], others[1..])) == multiset(ids[1..]) - multiset(others[1..])
    ensures multiset(Difference(ids, others)) == multiset(ids) - multiset(others)
  {
    MatchedHeads(multiset(ids[1..]), multiset(others[1..]), ids[0]);
  }

  /** On sorted lists the merge is the difference of multisets. */
  lemma {:induction false} DifferenceOfSorted(ids: seq<nat>, others: seq<nat>)
    requires Sorted(ids) && Sorted(others)
    ensures multiset(Difference(ids, others)) == multiset(ids) - multiset(others)
    decreases |ids| + |others|
  {
    if ids == [] {
    } else if others == [] || ids[0] < others[0] {
      TailIsSorted(ids);
      BelowHeadIsAbsent(others, ids[0]);
      DifferenceOfSorted(ids[1..], others);
      KeepStep(ids, others);
    } else if ids[0] > others[0] {
      TailIsSorted(others);
      BelowHeadIsAbsent(ids, others[0]);
      DifferenceOfSorted(ids, others[1..]);
      PassStep(ids, others);
    } else {
      TailIsSorted(ids);
      TailIsSorted(others);
      DifferenceOfSorted(ids[1..], others[1..]);
      MatchStep(ids, others);
    }
  }

  /** It is sorted again. */
  lemma {:induction false} DifferenceIsSorted(ids: seq<nat>, others: seq<nat>)
    requires Sorted(ids) && Sorted(others)
    ensures Sorted(Difference(ids, others))
    decreases |ids| + |others|
  {
    if ids == [] {
    } else if others == [] || ids[0] < others[0] {
      TailIsSorted(ids);
      DifferenceIsSorted(ids[1..], others);
      DifferenceOfSorted(ids[1..], others);
      HeadIsSorted(ids[0], Difference(ids[1..], others));
    } else {
      TailIsSorted(others);
      TailIsSorted(ids);
      DifferenceIsSorted(if ids[0] > others[0] then ids else ids[1..], others[1..]);
    }
  }

  /** Without repetitions that is the difference of the two sets of buffers. */
  lemma DifferenceOfIncreasing(ids: seq<nat>, others: seq<nat>)
    requires Increasing(ids) && Sorted(others)
    ensures Ids(Difference(ids, others)) == Ids(ids) - Ids(others)
    ensures Increasing(Difference(ids, others))
  {
    DifferenceOfSorted(ids, others);
    DifferenceIsSorted(ids, others);
    var left := Difference(ids, others);
    IncreasingHasNoRepeats(ids);
    forall id ensures id in Ids(left) <==> id in Ids(ids) - Ids(others) {
      assert id in left <==> multiset(left)[id] > 0;
      assert id in others <==> multiset(others)[id] > 0;
      assert id in ids <==> multiset(ids)[id] > 0;
    }
    forall i, j | 0 <= i < j < |left| ensures left[i] < left[j] {
      if left[i] == left[j] {
        RepeatCountsTwice(left, i, j);
      }
    }
  }

  lemma {:induction false} IncreasingHasNoRepeats(ids: seq<nat>)
    requires Increasing(ids)
    ensures forall id :: multiset(ids)[id] <= 1
  {
    if ids != [] {
      assert ids == [ids[0]] + ids[1..];
      IncreasingHasNoRepeats(ids[1..]);
      assert ids[0] !in ids[1..];
    }
  }

  lemma RepeatCountsTwice(ids: seq<nat>, i: nat, j: nat)
    requires i < j < |ids| && ids[i] == ids[j]
    ensures multiset(ids)[ids[i]] >= 2
  {
    assert ids == ids[..i] + [ids[i]] + ids[i + 1..j] + [ids[j]] + ids[j + 1..];
  }

  // --- The account of a process ---

  /** The ids that occur more often in a list than among the others. */
  ghost function Kept(ids: seq<nat>, others: seq<nat>): set<nat> {
    set id | id in ids && multiset(ids)[id] > multiset(others)[id]
  }

  lemma DifferenceLeavesKept(ids: seq<nat>, others: seq<nat>)
    requires Sorted(ids) && Sorted(others)
    ensures Ids(Difference(ids, others)) == Kept(ids, others)
  {
    DifferenceOfSorted(ids, others);
    var left := Difference(ids, others);
    forall id ensures id in Ids(left) <==> id in Kept(ids, others) {
      assert id in left <==> multiset(left)[id] > 0;
      assert id in ids <==> multiset(ids)[id] > 0;
    }
  }

  /** Without repeats these are the ids that do not occur among the others at all. */
  lemma KeptWithoutRepeats(ids: seq<nat>, others: seq<nat>)
    requires Increasing(ids)
    ensures Kept(ids, others) == Ids(ids) - Ids(others)
  {
    IncreasingHasNoRepeats(ids);
    forall id ensures id in Kept(ids, others) <==> id in Ids(ids) - Ids(others) {
      assert id in others <==> multiset(others)[id] > 0;
      assert id in ids <==> multiset(ids)[id] > 0;
    }
  }

  /**
   What a process other than the compositor is charged for one heap: the buffers it has more often than
   the compositor; that is, unless its list repeats an id, the buffers the compositor does not have. Its own
   list is left compacted.
   */
  method ChargeProcess(table: seq<BufferInfo>, pidBufs: array<nat>, pidSize: nat, sfBufs: array<nat>, sfSize: nat)
    returns (charge: int)
    requires IncreasingTable(table) && pidSize <= pidBufs.Length && sfSize <= sfBufs.Length && pidBufs != sfBufs
    requires Sorted(pidBufs[..pidSize]) && Sorted(sfBufs[..sfSize])
    modifies pidBufs
    ensures charge == AsInt32(BytesOf(table, Kept(old(pidBufs[..pidSize]), sfBufs[..sfSize])))
    ensures Increasing(old(pidBufs[..pidSize])) ==>
              charge == AsInt32(BytesOf(table, old(Ids(pidBufs[..pidSize])) - Ids(sfBufs[..sfSize])))
  {
    ghost var ids, others := pidBufs[..pidSize], sfBufs[..sfSize];
    if Increasing(ids) {
      KeptWithoutRepeats(ids, others);
    }
    if pidSize == 0 {
      NothingCostsNothing(table, Kept(ids, others));
      return 0;
    }
    DifferenceLeavesKept(ids, others);
    DifferenceIsSorted(ids, others);
    var left := RemoveShared(pidBufs, pidSize, sfBufs, sfSize);
    charge := GetBufsSize(table, pidBufs, left);
  }

  lemma {:induction false} NothingCostsNothing(table: seq<BufferInfo>, ids: set<nat>)
    requires forall id :: id !in ids
    ensures BytesOf(table, ids) == 0
  {
    if table != [] {
      NothingCostsNothing(table[1..], ids);
    }
  }

  /** One buffer costs the size of its entry, and nothing if it has none. */
  lemma {:induction false} OneBufferCostsItsSize(table: seq<BufferInfo>, id: nat)
    requires IncreasingTable(table)
    ensures forall i :: 0 <= i < |table| && table[i].id == id ==> BytesOf(table, {id}) == table[i].size
    ensures (forall i :: 0 <= i < |table| ==> table[i].id != id) ==> BytesOf(table, {id}) == 0
  {
    if table != [] {
      OneBufferCostsItsSize(table[1..], id);
      assert forall i :: 0 < i < |table| ==> table[1..][i - 1] == table[i];
    }
  }

  /** Different buffers cost what they cost each. */
  lemma {:induction false} CostsAddUp(table: seq<BufferInfo>, a: set<nat>, b: set<nat>)
    requires a !! b
    ensures BytesOf(table, a + b) == BytesOf(table, a) + BytesOf(table, b)
  {
    if table != [] {
      CostsAddUp(table[1..], a, b);
    }
  }

  /** Nothing is charged twice and nothing is forgotten: what a process is charged and what it shares with
      the compositor make up all its buffers. */
  lemma {:induction false} ChargeAndSharedMakeTheWhole(table: seq<BufferInfo>, pid: set<nat>, sf: set<nat>)
    ensures BytesOf(table, pid - sf) + BytesOf(table, pid * sf) == BytesOf(table, pid)
  {
    if table != [] {
      ChargeAndSharedMakeTheWhole(table[1..], pid, sf);
    }
  }
}
