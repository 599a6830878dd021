/**
 The operations on the chained hash tables of tool/gec/backend/c/boehm_gc/finalize.c.  `Map` is the
 finite map such a table stands for, from link to object or from object to finalizer.
 */
module LinkTable {
  import opened HashChains
  import opened Wrappers

  datatype Outcome = Success | Duplicate | NotFound | NoMemory | Abort

  /** What an operation meets when it asks for memory: whether a larger table and an entry can be had,
      and, for a collection that comes before growing, the entries that its GC_finalize removes. */
  datatype Memory = Memory(incremental: bool, gone: set<nat>, canGrow: bool, canAllocate: bool)

  class Table<V(==,!new)> {
    const hash: Hash
    var buckets: Buckets<V>
    var log: nat
    var entries: nat

    ghost predicate Valid()
      reads this
    {
      GoodHash(hash) && Good(hash, log, buckets) && entries == Size(buckets) && (buckets == [] ==> log == 0)
    }

    ghost function Map(): map<nat, V>
      reads this
    {
      Contents(buckets)
    }

    /** The table is to grow before an entry is added. */
    predicate Crowded()
      reads this
    {
      buckets == [] || entries > Power2(log)
    }

    /** A large table is not grown without a collection. */
    predicate Collects(memory: Memory)
      reads this
    {
      log >= 12 && !memory.incremental
    }

    /** What is left when the table has been made ready for another entry. */
    ghost function Surviving(memory: Memory): map<nat, V>
      reads this
    {
      if Crowded() && Collects(memory) then Map() - memory.gone else Map()
    }

    /** A collection left enough room not to grow the table. */
    predicate Roomy(log: nat, n: nat) {
      n < Power2(log) - n / 4
    }

    /** The size of the table when it has been made ready for another entry. */
    ghost function LogAfter(memory: Memory): nat
      reads this
    {
      if Crowded() && memory.canGrow && !(Collects(memory) && Roomy(log, |Surviving(memory)|)) then log + 1 else log
    }

    constructor (hash: Hash)
      requires GoodHash(hash)
      ensures Valid() && Map() == map[] && buckets == []
    {
      this.hash := hash;
      buckets, log, entries := [], 0, 0;
    }

    /** The entry count is the number of keys. */
    lemma EntriesExact()
      requires Valid()
      ensures entries == |Map()|
    {
      TableIsMap(hash, log, buckets);
    }

    /** The chain position of the key, or the chain's length. */
    method Search(index: nat, key: nat) returns (j: nat)
      requires index < |buckets|
      ensures j <= |buckets[index]|
      ensures forall n: nat :: n < j ==> buckets[index][n].key != key
      ensures j < |buckets[index]| ==> buckets[index][j].key == key
    {
      j := 0;
      while j < |buckets[index]| && buckets[index][j].key != key
        invariant j <= |buckets[index]|
        invariant forall n: nat :: n < j ==> buckets[index][n].key != key
      {
        j := j + 1;
      }
    }

    /** Takes one entry out of its chain. */
    method RemoveAt(i: nat, j: nat)
      requires Valid() && i < |buckets| && j < |buckets[i]|
      modifies this
      ensures Valid() && buckets == old(buckets)[i := old(buckets[i])[..j] + old(buckets[i])[j + 1..]]
      ensures Maps(old(Map()), old(buckets[i][j])) && Map() == old(Map()) - {old(buckets[i][j].key)}
    {
      BucketIs(hash, log, buckets, i);
      Removed(hash, log, buckets, i, j);
      assert buckets[i][j] in buckets[i];
      buckets, entries := buckets[i := buckets[i][..j] + buckets[i][j + 1..]], entries - 1;
    }

    /** The entries that a collection removes. */
    method Collect(gone: set<nat>)
      requires Valid()
      modifies this
      ensures Valid() && Map() == old(Map()) - gone && log == old(log) && |buckets| == old(|buckets|)
    {
      var todo := gone;
      while todo != {}
        invariant Valid() && todo <= gone && Map() == old(Map()) - (gone - todo)
        invariant log == old(log) && |buckets| == old(|buckets|)
      {
        var k :| k in todo;
        assert gone - (todo - {k}) == (gone - todo) + {k};
        var found := Unregister(k);
        todo := todo - {k};
      }
      assert gone - {} == gone;
    }

    /** GC_grow_table: after a collection, if that is due, twice the buckets with the same map, unless the
        collection made enough room.  Not ok is an abort. */
    method Grow(memory: Memory) returns (ok: bool)
      requires Valid()
      modifies this
      ensures Valid() && Map() == if old(Collects(memory)) then old(Map()) - memory.gone else old(Map())
      ensures ok <==> memory.canGrow || old(buckets) != []
      ensures log == if memory.canGrow && !(old(Collects(memory)) && Roomy(old(log), |Map()|)) then old(log) + 1
                     else old(log)
      ensures old(buckets) != [] || memory.canGrow ==> buckets != []
    {
      if Collects(memory) {
        Collect(memory.gone);
        EntriesExact();
        if Roomy(log, entries) {
          return true;
        }
      }
      if !memory.canGrow { return buckets != []; }
      ok := true;
      Double();
    }

    /** The rehashing of GC_grow_table. */
    method Double()
      requires Valid()
      modifies this
      ensures Valid() && Map() == old(Map()) && entries == old(entries) && log == old(log) + 1 && buckets != []
    {
      var newLog := log + 1;
      var b, i := seq(Power2(newLog), _ => []), 0;
      NoneMoved(hash, newLog, buckets, b);
      hide Good, GoodHash, Moving, Contents, Size, Power2;
      while i < |buckets|
        invariant i <= |buckets| && unchanged(this)
        invariant b != [] && Good(hash, newLog, b) && Moving(buckets, i, 0, b)
      {
        var j := 0;
        while j < |buckets[i]|
          invariant i < |buckets| && j <= |buckets[i]| && unchanged(this)
          invariant b != [] && Good(hash, newLog, b) && Moving(buckets, i, j, b)
        {
          MoveOne(hash, log, newLog, buckets, i, j, b);
          var p := buckets[i][j];
          var newHash := hash(p.key, newLog);
          b := b[newHash := [p] + b[newHash]];
          j := j + 1;
        }
        MoveNext(buckets, i, b);
        i := i + 1;
      }
      HashChains.Moved(hash, log, newLog, buckets, b);
      log, buckets := newLog, b;
    }

    /** The check before an insertion. */
    method GrowIfNeeded(memory: Memory) returns (ok: bool)
      requires Valid()
      modifies this
      ensures Valid() && Map() == old(Surviving(memory)) && log == old(LogAfter(memory))
      ensures ok <==> old(buckets) != [] || memory.canGrow
      ensures ok ==> buckets != []
    {
      ok := true;
      if Crowded() { ok := Grow(memory); }
    }

    /** GC_register_disappearing_link_inner. */
    method Register(link: nat, obj: V, memory: Memory) returns (r: Outcome)
      requires Valid()
      modifies this
      ensures Valid() && log == old(LogAfter(memory))
      ensures r == if old(buckets) == [] && !memory.canGrow then Abort
                   else if link in old(Surviving(memory)) then Duplicate
                   else if memory.canAllocate then Success else NoMemory
      ensures Map() == if r.Success? || r.Duplicate? then old(Surviving(memory))[link := obj]
                       else old(Surviving(memory))
    {
      var ok := GrowIfNeeded(memory);
      if !ok { return Abort; }
      Looked(hash, log, buckets, link);
      var index := hash(link, log);
      var j := Search(index, link);
      var c := buckets[index];
      if j < |c| {
        Updated(hash, log, buckets, index, j, obj);
        buckets := buckets[index := c[j := Entry(link, obj)]];
        return Duplicate;
      }
      if !memory.canAllocate { return NoMemory; }
      Prepended(hash, log, buckets, Entry(link, obj));
      buckets, entries := buckets[index := [Entry(link, obj)] + c], entries + 1;
      return Success;
    }

    /** GC_unregister_disappearing_link_inner; whether the link was there. */
    method Unregister(link: nat) returns (found: bool)
      requires Valid()
      modifies this
      ensures Valid() && found == (link in old(Map())) && Map() == old(Map()) - {link}
      ensures log == old(log) && |buckets| == old(|buckets|)
    {
      if buckets == [] { return false; }
      Looked(hash, log, buckets, link);
      var index := hash(link, log);
      var j := Search(index, link);
      var c := buckets[index];
      found := j < |c|;
      if found {
        Removed(hash, log, buckets, index, j);
        buckets, entries := buckets[index := c[..j] + c[j + 1..]], entries - 1;
      }
    }

    /** GC_move_disappearing_link_inner: the entry keeps its object under another link, whether or not the
        two links share a bucket. */
    method Move(link: nat, newLink: nat) returns (r: Outcome)
      requires Valid()
      modifies this
      ensures Valid() && entries == old(entries) && log == old(log)
      ensures r == if link !in old(Map()) then NotFound
                   else if link == newLink then Success
                   else if newLink in old(Map()) then Duplicate else Success
      ensures Map() == if r.Success? then (old(Map()) - {link})[newLink := old(Map())[link]] else old(Map())
    {
      if buckets == [] { return NotFound; }
      Looked(hash, log, buckets, link);
      Looked(hash, log, buckets, newLink);
      var index := hash(link, log);
      var j := Search(index, link);
      if j == |buckets[index]| { return NotFound; }
      if link == newLink { return Success; }
      var newIndex := hash(newLink, log);
      var n := Search(newIndex, newLink);
      if n < |buckets[newIndex]| { return Duplicate; }
      var c := buckets[index];
      Removed(hash, log, buckets, index, j);
      var b := buckets[index := c[..j] + c[j + 1..]];
      Prepended(hash, log, b, Entry(newLink, c[j].value));
      buckets := b[newIndex := [Entry(newLink, c[j].value)] + b[newIndex]];
      return Success;
    }

    /** GC_register_finalizer_inner: install a finalizer for the object or, with None, take it away, and
        say what it had before.  `known` says whether the object has a block header. */
    method Exchange(obj: nat, fn: Option<V>, known: bool, memory: Memory) returns (r: Outcome, was: Option<V>)
      requires Valid()
      modifies this
      ensures Valid() && log == old(LogAfter(memory))
      ensures var m := old(Surviving(memory));
              && r == (if old(buckets) == [] && !memory.canGrow then Abort
                       else if obj !in m && fn.Some? && known && !memory.canAllocate then NoMemory else Success)
              && (r.Success? ==> was == if obj in m then Some(m[obj]) else None)
              && Map() == if !r.Success? || (fn.Some? && obj !in m && !known) then m
                          else if fn.None? then m - {obj} else m[obj := fn.value]
    {
      was := None;
      var ok := GrowIfNeeded(memory);
      if !ok { return Abort, None; }
      Looked(hash, log, buckets, obj);
      var index := hash(obj, log);
      var j := Search(index, obj);
      var c := buckets[index];
      if j < |c| {
        was := Some(c[j].value);
        if fn.None? {
          Removed(hash, log, buckets, index, j);
          buckets, entries := buckets[index := c[..j] + c[j + 1..]], entries - 1;
        } else {
          Updated(hash, log, buckets, index, j, fn.value);
          buckets := buckets[index := c[j := Entry(obj, fn.value)]];
        }
        return Success, was;
      }
      if fn.None? || !known { return Success, None; }
      if !memory.canAllocate { return NoMemory, None; }
      Prepended(hash, log, buckets, Entry(obj, fn.value));
      buckets, entries := buckets[index := [Entry(obj, fn.value)] + c], entries + 1;
      return Success, None;
    }
  }
}
