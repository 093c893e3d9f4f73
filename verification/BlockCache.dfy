/** The block cache of the mass-storage guest
    (usb-wasi-guest/examples/mass-storage/src/mass_storage.rs): a least-recently-used list of
    blocks in front of a device, kept as the code keeps it, and what reaches the device. */
module BlockCache {
  import opened UsbBase

  const CACHE_SIZE: nat := 128

  type Block = seq<byte>

  datatype Entry = Entry(block: u32, data: Block, dirty: bool)

  /** `entries` is in iteration order, most recently used first. */
  datatype State = State(entries: seq<Entry>, disk: seq<Block>)

  // ----- the list -----

  predicate UniqueKeys(es: seq<Entry>) {
    forall i, j :: 0 <= i < j < |es| ==> es[i].block != es[j].block
  }

  function Find(es: seq<Entry>, block: u32): (r: Option<nat>)
    ensures r.Some? ==> FirstAt(es, block, r.value)
    ensures r.None? ==> forall i :: 0 <= i < |es| ==> es[i].block != block
  {
    if es == [] then None
    else if es[0].block == block then Some(0)
    else
      match Find(es[1..], block)
      case None => None
      case Some(i) => assert es[1..][i] == es[i + 1]; Some(i + 1)
  }

  /** Entry `i` is the first one of `block`. */
  predicate FirstAt(es: seq<Entry>, block: u32, i: nat) {
    i < |es| && es[i].block == block && forall j :: 0 <= j < i ==> es[j].block != block
  }

  function Lookup(es: seq<Entry>, block: u32): Option<Entry> {
    match Find(es, block)
    case None => None
    case Some(i) => Some(es[i])
  }

  function Without(es: seq<Entry>, i: nat): seq<Entry>
    requires i < |es|
  {
    es[..i] + es[i + 1..]
  }

  /** uluru's insert: to the front; a full list gives up its last entry. */
  function Insert(es: seq<Entry>, e: Entry): seq<Entry> {
    [e] + if |es| < CACHE_SIZE then es else es[..CACHE_SIZE - 1]
  }

  function Evicted(es: seq<Entry>): Option<Entry> {
    if |es| < CACHE_SIZE then None else Some(es[CACHE_SIZE - 1])
  }

  // ----- the device -----

  /** A block the device does not have is refused; the code prints the sense data and goes on. */
  function WriteBlock(disk: seq<Block>, block: nat, data: Block): (r: seq<Block>)
    ensures |r| == |disk|
  {
    if block < |disk| then disk[block := data] else disk
  }

  /** flush_cache: every dirty entry is written in iteration order. */
  function WriteDirty(disk: seq<Block>, es: seq<Entry>): (r: seq<Block>)
    ensures |r| == |disk|
    decreases |es|
  {
    if es == [] then disk
    else WriteDirty(if es[0].dirty then WriteBlock(disk, es[0].block, es[0].data) else disk, es[1..])
  }

  /** What block `b` holds once every dirty entry has reached the device. */
  function DurableAt(s: State, b: nat): Block
    requires b < |s.disk|
  {
    if b >= TWO_TO_THE_32 then s.disk[b]
    else
      match Lookup(s.entries, b)
      case None => s.disk[b]
      case Some(e) => if e.dirty then e.data else s.disk[b]
  }

  function Durable(s: State): (r: seq<Block>)
    ensures |r| == |s.disk|
  {
    seq(|s.disk|, b requires 0 <= b < |s.disk| => DurableAt(s, b))
  }

  // ----- operations -----

  /** Find, else insert: the read path refills an entry and leaves its mark, the write path marks
      it dirty; a missing block is inserted clean either way. A dirty entry that has to go is
      written to the block that comes in. */
  function Put(s: State, block: u32, data: Block, mark: bool): State {
    match Find(s.entries, block)
    case Some(i) => s.(entries := [Entry(block, data, s.entries[i].dirty || mark)] + Without(s.entries, i))
    case None =>
      var entries := Insert(s.entries, Entry(block, data, false));
      match Evicted(s.entries)
      case None => s.(entries := entries)
      case Some(e) => State(entries, if e.dirty then WriteBlock(s.disk, block, e.data) else s.disk)
  }

  /** The steps the calls are made of: a find, a refill by read, a single-block write, a block
      that a multi-block write sends straight to the device, and a flush. */
  datatype Op =
    | Touch(block: u32)
    | Refill(block: u32, data: Block)
    | WriteOne(block: u32, data: Block)
    | DeviceWrite(block: u32, data: Block)
    | Flush

  function Apply(s: State, op: Op): State {
    match op
    case Touch(block) =>
      (match Find(s.entries, block)
       case None => s
       case Some(i) => s.(entries := [s.entries[i]] + Without(s.entries, i)))
    case Refill(block, data) => Put(s, block, data, false)
    case WriteOne(block, data) => Put(s, block, data, true)
    case DeviceWrite(block, data) => s.(disk := WriteBlock(s.disk, block, data))
    case Flush => State([], WriteDirty(s.disk, s.entries))
  }

  function Run(disk: seq<Block>, ops: seq<Op>): State {
    if ops == [] then State([], disk)
    else Apply(Run(disk, ops[..|ops| - 1]), ops[|ops| - 1])
  }

  // ----- one entry per block -----

  predicate Inv(s: State) {
    UniqueKeys(s.entries) && |s.entries| <= CACHE_SIZE
  }

  lemma FrontKeepsUnique(e: Entry, rest: seq<Entry>)
    requires UniqueKeys(rest) && forall i :: 0 <= i < |rest| ==> rest[i].block != e.block
    ensures UniqueKeys([e] + rest)
  {}

  lemma WithoutUnique(es: seq<Entry>, i: nat)
    requires UniqueKeys(es) && i < |es|
    ensures UniqueKeys(Without(es, i))
    ensures forall k :: 0 <= k < |es| - 1 ==> Without(es, i)[k].block != es[i].block
  {
    forall k | 0 <= k < |es| - 1 ensures Without(es, i)[k].block != es[i].block {
      assert Without(es, i)[k] == es[if k < i then k else k + 1];
    }
  }

  lemma PutKeepsInv(s: State, block: u32, data: Block, mark: bool)
    requires Inv(s)
    ensures Inv(Put(s, block, data, mark))
  {
    match Find(s.entries, block) {
      case Some(i) =>
        WithoutUnique(s.entries, i);
        FrontKeepsUnique(Entry(block, data, s.entries[i].dirty || mark), Without(s.entries, i));
      case None =>
        var rest := if |s.entries| < CACHE_SIZE then s.entries else s.entries[..CACHE_SIZE - 1];
        FrontKeepsUnique(Entry(block, data, false), rest);
    }
  }

  /** In every reachable state no block has two entries and the list fits its size. */
  lemma {:induction false} ReachableUnique(disk: seq<Block>, ops: seq<Op>)
    ensures Inv(Run(disk, ops))
  {
    if ops == [] {
    } else {
      var s, op := Run(disk, ops[..|ops| - 1]), ops[|ops| - 1];
      ReachableUnique(disk, ops[..|ops| - 1]);
      match op {
        case Touch(block) =>
          if Find(s.entries, block).Some? {
            var i := Find(s.entries, block).value;
            WithoutUnique(s.entries, i);
            FrontKeepsUnique(s.entries[i], Without(s.entries, i));
          }
        case Refill(block, data) => PutKeepsInv(s, block, data, false);
        case WriteOne(block, data) => PutKeepsInv(s, block, data, true);
        case _ =>
      }
    }
  }

  // ----- flush -----

  lemma LookupTail(es: seq<Entry>, b: u32)
    requires es != []
    ensures Lookup(es, b) == if es[0].block == b then Some(es[0]) else Lookup(es[1..], b)
  {}

  lemma {:induction false} WriteDirtyAt(disk: seq<Block>, es: seq<Entry>, b: nat)
    requires UniqueKeys(es) && b < |disk|
    ensures WriteDirty(disk, es)[b] == DurableAt(State(es, disk), b)
    decreases |es|
  {
    if es == [] {
    } else {
      var first, rest := es[0], es[1..];
      var next := if first.dirty then WriteBlock(disk, first.block, first.data) else disk;
      WriteDirtyAt(next, rest, b);
      if b < TWO_TO_THE_32 {
        LookupTail(es, b);
        if first.block == b {
          assert forall i :: 0 <= i < |rest| ==> rest[i] == es[i + 1];
          assert Find(rest, b).None?;
        }
      }
    }
  }

  /** Flushing turns the device into the device overlaid with exactly the dirty entries. */
  lemma FlushIsOverlay(s: State)
    requires UniqueKeys(s.entries)
    ensures Apply(s, Flush) == State([], Durable(s))
  {
    forall b | 0 <= b < |s.disk| ensures WriteDirty(s.disk, s.entries)[b] == Durable(s)[b] {
      WriteDirtyAt(s.disk, s.entries, b);
    }
    assert WriteDirty(s.disk, s.entries) == Durable(s);
  }

  lemma LookupOnly(es: seq<Entry>, e: Entry)
    requires UniqueKeys(es) && e in es
    ensures Lookup(es, e.block) == Some(e)
  {
    var i :| 0 <= i < |es| && es[i] == e;
    var j := Find(es, e.block).value;
    assert es[i].block == es[j].block;
  }

  predicate CleanAt(es: seq<Entry>, b: nat) {
    forall i :: 0 <= i < |es| && es[i].block == b ==> !es[i].dirty
  }

  /** Each dirty entry's block holds its data, and every block without one is as it was. */
  predicate Flushed(es: seq<Entry>, before: seq<Block>, after: seq<Block>) {
    && |after| == |before|
    && (forall i :: 0 <= i < |es| && es[i].dirty && es[i].block < |after| ==> after[es[i].block] == es[i].data)
    && forall b :: 0 <= b < |after| && CleanAt(es, b) ==> after[b] == before[b]
  }

  /** What is durable, entry by entry. */
  lemma DirtyEntriesDurable(s: State)
    requires UniqueKeys(s.entries)
    ensures Flushed(s.entries, s.disk, Durable(s))
  {
    forall i | 0 <= i < |s.entries| && s.entries[i].dirty && s.entries[i].block < |s.disk|
      ensures Durable(s)[s.entries[i].block] == s.entries[i].data
    {
      LookupOnly(s.entries, s.entries[i]);
    }
  }

  lemma LookupSameEntries(es: seq<Entry>, other: seq<Entry>, b: u32)
    requires UniqueKeys(es) && UniqueKeys(other) && forall e :: e in es <==> e in other
    ensures Lookup(es, b) == Lookup(other, b)
  {
    if Lookup(es, b).Some? {
      LookupOnly(other, Lookup(es, b).value);
    } else if Lookup(other, b).Some? {
      LookupOnly(es, Lookup(other, b).value);
    }
  }

  /** The order in which the list is iterated does not matter. */
  lemma FlushOrderIrrelevant(disk: seq<Block>, es: seq<Entry>, other: seq<Entry>)
    requires UniqueKeys(es) && UniqueKeys(other) && forall e :: e in es <==> e in other
    ensures WriteDirty(disk, es) == WriteDirty(disk, other)
  {
    FlushIsOverlay(State(es, disk));
    FlushIsOverlay(State(other, disk));
    forall b | 0 <= b < |disk| ensures DurableAt(State(es, disk), b) == DurableAt(State(other, disk), b) {
      if b < TWO_TO_THE_32 {
        LookupSameEntries(es, other, b);
      }
    }
    assert Durable(State(es, disk)) == Durable(State(other, disk));
  }

  // ----- what a write and a refill do to the durable contents -----

  lemma LookupWithout(es: seq<Entry>, i: nat, b: u32)
    requires UniqueKeys(es) && i < |es|
    ensures Lookup(Without(es, i), b) == if b == es[i].block then None else Lookup(es, b)
  {
    var rest := Without(es, i);
    WithoutUnique(es, i);
    assert forall k :: 0 <= k < |rest| ==> rest[k] == es[if k < i then k else k + 1];
    if b != es[i].block {
      if Lookup(es, b).Some? {
        var k := Find(es, b).value;
        assert rest[if k < i then k else k - 1] == es[k];
        LookupOnly(rest, es[k]);
      } else {
        assert Find(rest, b).None?;
      }
    }
  }

  lemma LookupFront(e: Entry, rest: seq<Entry>, b: u32)
    ensures Lookup([e] + rest, b) == if b == e.block then Some(e) else Lookup(rest, b)
  {
    LookupTail([e] + rest, b);
    assert ([e] + rest)[1..] == rest;
  }

  /** The entries after a miss: the new one, and all but the evicted one. */
  lemma LookupInserted(es: seq<Entry>, e: Entry, b: u32)
    requires UniqueKeys(es) && |es| <= CACHE_SIZE
    ensures Lookup(Insert(es, e), b)
         == if b == e.block then Some(e)
            else if Evicted(es).Some? && b == Evicted(es).value.block then None
            else Lookup(es, b)
  {
    if |es| < CACHE_SIZE {
      LookupFront(e, es, b);
    } else {
      LookupWithout(es, CACHE_SIZE - 1, b);
      assert Without(es, CACHE_SIZE - 1) == es[..CACHE_SIZE - 1];
      LookupFront(e, es[..CACHE_SIZE - 1], b);
    }
  }

  /** What a block durably holds after Put. */
  function DurableAfterPut(s: State, block: u32, data: Block, mark: bool, b: nat): Block
    requires b < |s.disk|
  {
    match Lookup(s.entries, block)
    case Some(e) => if b == block && (e.dirty || mark) then data else DurableAt(s, b)
    case None =>
      match Evicted(s.entries)
      case None => DurableAt(s, b)
      case Some(e) =>
        if !e.dirty then DurableAt(s, b)
        else if b == block then e.data
        else if b == e.block then s.disk[b]
        else DurableAt(s, b)
  }

  lemma PutDurable(s: State, block: u32, data: Block, mark: bool, b: nat)
    requires Inv(s) && b < |s.disk|
    ensures DurableAt(Put(s, block, data, mark), b) == DurableAfterPut(s, block, data, mark, b)
  {
    if b < TWO_TO_THE_32 {
      match Find(s.entries, block) {
        case Some(i) =>
          LookupWithout(s.entries, i, b);
          LookupFront(Entry(block, data, s.entries[i].dirty || mark), Without(s.entries, i), b);
        case None =>
          LookupInserted(s.entries, Entry(block, data, false), b);
          if Evicted(s.entries).Some? {
            LookupOnly(s.entries, Evicted(s.entries).value);
          }
      }
    }
  }

  /** The entry the insertion of a missing block loses. */
  function Lost(es: seq<Entry>): Option<Entry> {
    if Evicted(es).Some? && Evicted(es).value.dirty then Evicted(es) else None
  }

  /** The block is cached; or nothing dirty has to go and the device already holds the data; or
      what goes is that same data and is safe without it. */
  predicate WriteLands(s: State, block: u32, data: Block)
    requires block < |s.disk|
  {
    match Lookup(s.entries, block)
    case Some(_) => true
    case None =>
      match Lost(s.entries)
      case None => s.disk[block] == data
      case Some(e) => e.data == data && (e.block < |s.disk| ==> s.disk[e.block] == data)
  }

  /** A single-block write reaches the device with the next flush, and nothing else changes, if and
      only if WriteLands: in particular a write to a block that is not cached is lost unless the
      device holds the data already. */
  lemma WriteDurableIff(s: State, block: u32, data: Block)
    requires Inv(s) && block < |s.disk|
    ensures Durable(Apply(s, WriteOne(block, data))) == Durable(s)[block := data] <==> WriteLands(s, block, data)
  {
    var want := Durable(s)[block := data];
    PutPointwise(s, block, data, true, want);
    MissedNotEvicted(s, block);
    if WriteLands(s, block, data) {
      forall b | 0 <= b < |s.disk| ensures DurableAfterPut(s, block, data, true, b) == want[b] {}
    } else {
      var bad: nat := DamagedBlock(s, block, data);
      assert DurableAfterPut(s, block, data, true, bad) != want[bad];
    }
  }

  /** A refill replaces no dirty data by other data and loses no dirty entry that matters. */
  predicate RefillHarmless(s: State, block: u32, data: Block)
    requires block < |s.disk|
  {
    match Lookup(s.entries, block)
    case Some(e) => e.dirty ==> e.data == data
    case None =>
      match Lost(s.entries)
      case None => true
      case Some(e) => e.data == s.disk[block] && (e.block < |s.disk| ==> s.disk[e.block] == e.data)
  }

  /** A refill leaves what is durable alone if and only if it is harmless. */
  lemma RefillDurableIff(s: State, block: u32, data: Block)
    requires Inv(s) && block < |s.disk|
    ensures Durable(Apply(s, Refill(block, data))) == Durable(s) <==> RefillHarmless(s, block, data)
  {
    PutPointwise(s, block, data, false, Durable(s));
    MissedNotEvicted(s, block);
    if RefillHarmless(s, block, data) {
      forall b | 0 <= b < |s.disk| ensures DurableAfterPut(s, block, data, false, b) == Durable(s)[b] {}
    } else {
      var bad: nat := DamagedBlock(s, block, s.disk[block]);
      assert DurableAfterPut(s, block, data, false, bad) != Durable(s)[bad];
    }
  }

  /** Where the contents go wrong when they do: at the block itself, or where the lost entry was
      to go. */
  function DamagedBlock(s: State, block: u32, data: Block): nat
    requires block < |s.disk|
  {
    match Lost(s.entries)
    case Some(e) =>
      if Lookup(s.entries, block).None? && e.data == data && e.block < |s.disk| then e.block else block
    case None => block
  }

  lemma PutPointwise(s: State, block: u32, data: Block, mark: bool, want: seq<Block>)
    requires Inv(s) && |want| == |s.disk|
    ensures Durable(Put(s, block, data, mark)) == want
        <==> forall b :: 0 <= b < |s.disk| ==> DurableAfterPut(s, block, data, mark, b) == want[b]
  {
    var after := Durable(Put(s, block, data, mark));
    forall b | 0 <= b < |s.disk| ensures after[b] == DurableAfterPut(s, block, data, mark, b) {
      PutDurable(s, block, data, mark, b);
    }
    if after != want {
      assert exists b :: 0 <= b < |s.disk| && after[b] != want[b];
    }
  }

  /** A missing block is not the evicted one, and a dirty entry's block is durable as it is. */
  lemma MissedNotEvicted(s: State, block: u32)
    requires Inv(s)
    ensures Lookup(s.entries, block).None? && Lost(s.entries).Some? ==>
              var e := Lost(s.entries).value;
              && e.block != block
              && (e.block < |s.disk| ==> DurableAt(s, e.block) == e.data)
  {
    if Lost(s.entries).Some? {
      LookupOnly(s.entries, Lost(s.entries).value);
    }
  }

  /** The first write to a block never reaches the device. */
  lemma FirstWriteLost(disk: seq<Block>, block: u32, data: Block)
    ensures Run(disk, [WriteOne(block, data), Flush]).disk == disk
  {
    var ops := [WriteOne(block, data), Flush];
    assert ops[..1] == [WriteOne(block, data)] && ops[..1][..0] == [];
    assert Run(disk, ops[..1]) == Apply(Run(disk, []), WriteOne(block, data));
    var entries := [Entry(block, data, false)];
    assert Run(disk, ops[..1]) == State(entries, disk);
    assert entries[1..] == [] && WriteDirty(disk, entries) == WriteDirty(disk, entries[1..]) == disk;
  }

  // ----- the calls -----

  function Writes(es: seq<Entry>): seq<(u32, Block)> {
    if es == [] then [] else (if es[0].dirty then [(es[0].block, es[0].data)] else []) + Writes(es[1..])
  }

  function WriteAll(disk: seq<Block>, writes: seq<(u32, Block)>): seq<Block>
    decreases |writes|
  {
    if writes == [] then disk else WriteAll(WriteBlock(disk, writes[0].0, writes[0].1), writes[1..])
  }

  lemma {:induction false} WritesAreDirty(disk: seq<Block>, es: seq<Entry>)
    ensures WriteAll(disk, Writes(es)) == WriteDirty(disk, es)
    decreases |es|
  {
    if es == [] {
    } else {
      var next := if es[0].dirty then WriteBlock(disk, es[0].block, es[0].data) else disk;
      WritesAreDirty(next, es[1..]);
      if es[0].dirty {
        assert Writes(es)[1..] == Writes(es[1..]);
      } else {
        assert Writes(es) == Writes(es[1..]);
      }
    }
  }

  /** What a read of the block would be given. */
  function ViewAt(s: State, block: u32): Block
    requires block < |s.disk|
  {
    match Lookup(s.entries, block)
    case None => s.disk[block]
    case Some(e) => e.data
  }

  function Splice(base: Block, offset: nat, buf: seq<byte>): Block
    requires offset + |buf| <= |base|
  {
    base[..offset] + buf + base[offset + |buf|..]
  }

  lemma SpliceIs(base: Block, offset: nat, buf: seq<byte>)
    requires offset + |buf| <= |base|
    ensures Spliced(Splice(base, offset, buf), base, offset, buf)
  {}

  /** `data` is `base` with `buf` at `offset`, byte by byte. */
  predicate Spliced(data: Block, base: Block, offset: nat, buf: seq<byte>) {
    && |data| == |base|
    && forall x :: 0 <= x < |data| ==>
         data[x] == if offset <= x < offset + |buf| then buf[x - offset] else base[x]
  }

  /** Entry `i` of `es` has moved to the front as `e`. */
  predicate MovedToFront(es: seq<Entry>, i: nat, e: Entry, after: seq<Entry>) {
    i < |es| && after == [e] + (es[..i] + es[i + 1..])
  }

  /** `e` is new at the front. A list of 128 has lost its last entry, and one that was dirty went to the
      block that came in. */
  predicate NewAtFront(es: seq<Entry>, disk: seq<Block>, e: Entry, after: seq<Entry>, diskAfter: seq<Block>) {
    && after == [e] + (if |es| < 128 then es else es[..127])
    && diskAfter == if |es| >= 128 && es[127].dirty && e.block < |disk| then disk[e.block := es[127].data] else disk
  }

  class MassStorageDevice {
    var cache: seq<Entry>
    var disk: seq<Block>

    constructor (disk: seq<Block>)
      ensures Now() == State([], disk)
    {
      cache, this.disk := [], disk;
    }

    ghost function Now(): State
      reads this
    {
      State(cache, disk)
    }

    /** cache.find: an entry that is found moves to the front. */
    method FindEntry(block: u32) returns (found: bool)
      modifies this`cache
      ensures Now() == Apply(old(Now()), Touch(block))
      ensures found <==> Find(old(cache), block).Some?
      ensures match Find(old(cache), block)
              case Some(i) => MovedToFront(old(cache), i, old(cache)[i], cache)
              case None => cache == old(cache)
    {
      match Find(cache, block) {
        case None => return false;
        case Some(i) =>
          cache := [cache[i]] + cache[..i] + cache[i + 1..];
          assert cache == [old(cache)[i]] + (old(cache)[..i] + old(cache)[i + 1..]);
          return true;
      }
    }

    method InsertClean(block: u32, data: Block)
      requires Find(cache, block).None?
      modifies this
      ensures Now() == Put(old(Now()), block, data, false)
      ensures NewAtFront(old(cache), old(disk), Entry(block, data, false), cache, disk)
    {
      var evicted := Evicted(cache);
      cache := Insert(cache, Entry(block, data, false));
      if evicted.Some? && evicted.value.dirty {
        disk := WriteBlock(disk, block, evicted.value.data);
      }
    }

    /** One chunk of the loop of read. */
    method RefillChunk(block: u32, chunk: Block)
      modifies this
      ensures Now() == Apply(old(Now()), Refill(block, chunk))
      ensures match Find(old(cache), block)
              case Some(i) =>
                disk == old(disk) && MovedToFront(old(cache), i, Entry(block, chunk, old(cache)[i].dirty), cache)
              case None => NewAtFront(old(cache), old(disk), Entry(block, chunk, false), cache, disk)
    {
      var found := FindEntry(block);
      if found {
        var rest := cache[1..];
        assert rest == Without(old(cache), Find(old(cache), block).value);
        cache := [cache[0].(data := chunk)] + rest;
      } else {
        InsertClean(block, chunk);
      }
    }

    /** The single-block branch of write: the bytes land at their offset in the entry's data, or in the
        device's if there is no entry, and every other byte stays. Only a cached block becomes dirty. */
    method WriteSingle(block: u32, offset: nat, buf: seq<byte>)
      requires block < |disk| && offset + |buf| <= |ViewAt(Now(), block)|
      modifies this
      ensures Now() == Apply(old(Now()), WriteOne(block, Splice(ViewAt(old(Now()), block), offset, buf)))
      ensures cache != [] && cache[0].block == block
      ensures match Find(old(cache), block)
              case Some(i) =>
                && disk == old(disk) && MovedToFront(old(cache), i, Entry(block, cache[0].data, true), cache)
                && Spliced(cache[0].data, old(cache)[i].data, offset, buf)
              case None =>
                && NewAtFront(old(cache), old(disk), Entry(block, cache[0].data, false), cache, disk)
                && Spliced(cache[0].data, old(disk)[block], offset, buf)
    {
      var found := FindEntry(block);
      var base := if found then cache[0].data else disk[block];
      var data := Splice(base, offset, buf);
      SpliceIs(base, offset, buf);
      if found {
        var rest := cache[1..];
        assert rest == Without(old(cache), Find(old(cache), block).value);
        cache := [Entry(block, data, true)] + rest;
      } else {
        InsertClean(block, data);
      }
    }

    method FlushCache()
      modifies this
      ensures Now() == Apply(old(Now()), Flush)
      ensures UniqueKeys(old(cache)) ==> disk == Durable(old(Now()))
      ensures cache == [] && |disk| == |old(disk)|
      ensures UniqueKeys(old(cache)) ==> Flushed(old(cache), old(disk), disk)
    {
      var entriesToWrite: seq<(u32, Block)> := [];
      var i := 0;
      while i < |cache|
        invariant 0 <= i <= |cache| && Now() == old(Now())
        invariant entriesToWrite + Writes(cache[i..]) == Writes(cache)
      {
        assert cache[i..][1..] == cache[i + 1..];
        if cache[i].dirty {
          entriesToWrite := entriesToWrite + [(cache[i].block, cache[i].data)];
        }
        i := i + 1;
      }
      assert entriesToWrite == Writes(cache);
      var k := 0;
      while k < |entriesToWrite|
        invariant 0 <= k <= |entriesToWrite| && cache == old(cache)
        invariant WriteAll(disk, entriesToWrite[k..]) == WriteAll(old(disk), entriesToWrite)
      {
        assert entriesToWrite[k..][1..] == entriesToWrite[k + 1..];
        disk := WriteBlock(disk, entriesToWrite[k].0, entriesToWrite[k].1);
        k := k + 1;
      }
      WritesAreDirty(old(disk), cache);
      cache := [];
      if UniqueKeys(old(cache)) {
        FlushIsOverlay(old(Now()));
        DirtyEntriesDurable(old(Now()));
      }
    }
  }
}
