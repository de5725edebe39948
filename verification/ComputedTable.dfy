/** The computed table: a direct-mapped array of a power-of-two size that overwrites on collision and
    doubles itself when the hit rate is good. */
module ComputedTables {

  datatype Option<+V> = None | Some(value: V)

  datatype Entry<K, V> = Unused | Entry(key: K, data: V)

  /** A 32-bit unsigned hash value. */
  type Word = x: nat | x < 0x1_0000_0000

  function Pow2(n: nat): (p: nat)
    ensures p > 0
  {
    if n == 0 then 1 else 2 * Pow2(n - 1)
  }

  lemma {:induction false} Pow2Monotonic(m: nat, n: nat)
    requires m < n
    ensures 2 * Pow2(m) <= Pow2(n)
  {
    if m + 1 < n {
      Pow2Monotonic(m, n - 1);
    }
  }

  /** A right shift: the slot of a hash value keeps its most significant bits. */
  function Slot(h: nat, shift: nat): nat {
    if shift == 0 then h else Slot(h, shift - 1) / 2
  }

  lemma {:induction false} SlotInRange(h: nat, shift: nat, bits: nat)
    requires h < Pow2(bits) && shift <= bits
    ensures Slot(h, shift) < Pow2(bits - shift)
  {
    if shift > 0 {
      SlotInRange(h, shift - 1, bits);
    }
  }

  lemma Pow2Of32()
    ensures Pow2(32) == 0x1_0000_0000
  {
    assert Pow2(8) == 256;
    assert Pow2(16) == 65536;
    assert Pow2(24) == 0x100_0000;
  }

  lemma WordSlot(h: Word, shift: nat)
    requires shift <= 32
    ensures Slot(h, shift) < Pow2(32 - shift)
  {
    Pow2Of32();
    SlotInRange(h, shift, 32);
  }

  lemma WordLog(log: nat)
    requires Pow2(log) < 0x1_0000_0000
    ensures log < 32
  {
    Pow2Of32();
    Pow2Monotonic(if log < 32 then log else 32, log + 1);
  }

  lemma FullTable(log: nat)
    requires log <= 32 && 2 * Pow2(32 - log) < 0x1_0000_0000
    ensures log > 0
  {
    Pow2Of32();
  }

  function FloorLog2(value: nat): (log: nat)
    requires value > 0
    ensures Pow2(log) <= value < 2 * Pow2(log)
  {
    if value == 1 then 0 else 1 + FloorLog2(value / 2)
  }

  /** The loop that shifts the value right until it is 1. */
  method ComputeFloorLog2(value: nat) returns (floorLog: nat)
    requires value > 0
    ensures Pow2(floorLog) <= value < 2 * Pow2(floorLog)
  {
    floorLog := 0;
    var v := value;
    while v > 1
      invariant v > 0
      invariant floorLog + FloorLog2(v) == FloorLog2(value)
    {
      floorLog := floorLog + 1;
      v := v / 2;
    }
  }

  /** Every valid entry sits in the slot of its key, and contents lists the valid entries. */
  ghost predicate Layout<K, V>(
    hash: K -> Word, s: seq<Entry<K, V>>, shift: nat, contents: map<K, V>)
  {
    && shift <= 32
    && |s| == Pow2(32 - shift)
    && (forall i :: 0 <= i < |s| && s[i].Entry? ==>
          Slot(hash(s[i].key), shift) == i && s[i].key in contents && contents[s[i].key] == s[i].data)
    && (forall k :: k in contents ==>
          Slot(hash(k), shift) < |s| && s[Slot(hash(k), shift)] == Entry(k, contents[k]))
  }

  /** The number of valid entries. */
  function Used<K, V>(s: seq<Entry<K, V>>): nat {
    if s == [] then 0 else Used(s[..|s| - 1]) + if s[|s| - 1].Entry? then 1 else 0
  }

  /** The keys whose slot is below n. */
  ghost function KeysBelow<K, V>(hash: K -> Word, shift: nat, contents: map<K, V>, n: nat): set<K> {
    set k | k in contents && Slot(hash(k), shift) < n
  }

  lemma KeysBelowNext<K, V>(hash: K -> Word, s: seq<Entry<K, V>>, shift: nat, contents: map<K, V>, n: nat)
    requires Layout(hash, s, shift, contents) && n < |s|
    ensures s[n].Entry? ==> s[n].key !in KeysBelow(hash, shift, contents, n)
    ensures KeysBelow(hash, shift, contents, n + 1) ==
            KeysBelow(hash, shift, contents, n) + if s[n].Entry? then {s[n].key} else {}
  {
  }

  lemma {:induction false} UsedByKeys<K, V>(
    hash: K -> Word, s: seq<Entry<K, V>>, shift: nat, contents: map<K, V>, n: nat)
    requires Layout(hash, s, shift, contents) && n <= |s|
    ensures Used(s[..n]) == |KeysBelow(hash, shift, contents, n)|
  {
    hide Layout;
    if n > 0 {
      UsedByKeys(hash, s, shift, contents, n - 1);
      assert s[..n][..n - 1] == s[..n - 1];
      KeysBelowNext(hash, s, shift, contents, n - 1);
    } else {
      assert KeysBelow(hash, shift, contents, 0) == {};
    }
  }

  lemma UsedIsContents<K, V>(hash: K -> Word, s: seq<Entry<K, V>>, shift: nat, contents: map<K, V>)
    requires Layout(hash, s, shift, contents)
    ensures Used(s) == |contents|
  {
    UsedByKeys(hash, s, shift, contents, |s|);
    assert s[..|s|] == s;
    assert KeysBelow(hash, shift, contents, |s|) == contents.Keys;
  }

  lemma NoEntries<K, V>(
    hash: K -> Word, s: seq<Entry<K, V>>, shift: nat, contents: map<K, V>, empty: seq<Entry<K, V>>)
    requires Layout(hash, s, shift, contents) && |empty| == |s|
    requires forall i :: 0 <= i < |empty| ==> empty[i].Unused?
    ensures Layout(hash, empty, shift, map[])
  {
  }

  /** The contents once key is stored: the entry in its slot, if any, is lost. */
  ghost function Overwrite<K, V>(
    hash: K -> Word, s: seq<Entry<K, V>>, shift: nat, contents: map<K, V>, key: K, data: V): map<K, V>
  {
    var posn := Slot(hash(key), shift);
    (if posn < |s| && s[posn].Entry? then contents - {s[posn].key} else contents)[key := data]
  }

  lemma LayoutInsert<K, V>(
    hash: K -> Word, s: seq<Entry<K, V>>, shift: nat, contents: map<K, V>, key: K, data: V)
    requires Layout(hash, s, shift, contents)
    ensures var posn := Slot(hash(key), shift);
            && posn < |s|
            && Layout(hash, s[posn := Entry(key, data)], shift,
                      Overwrite(hash, s, shift, contents, key, data))
  {
    WordSlot(hash(key), shift);
    var posn := Slot(hash(key), shift);
    var next := Overwrite(hash, s, shift, contents, key, data);
    var s' := s[posn := Entry(key, data)];
    forall i | 0 <= i < |s'| && s'[i].Entry?
      ensures Slot(hash(s'[i].key), shift) == i && s'[i].key in next && next[s'[i].key] == s'[i].data
    {
      assert i != posn ==> s'[i] == s[i];
    }
    forall k | k in next && k != key ensures s'[Slot(hash(k), shift)] == Entry(k, next[k]) {
      assert s[Slot(hash(k), shift)] == Entry(k, contents[k]);
    }
  }

  lemma OverwriteSize<K, V>(
    hash: K -> Word, s: seq<Entry<K, V>>, shift: nat, contents: map<K, V>, key: K, data: V)
    requires Layout(hash, s, shift, contents) && Slot(hash(key), shift) < |s|
    ensures |Overwrite(hash, s, shift, contents, key, data)| ==
            |contents| + if s[Slot(hash(key), shift)].Entry? then 0 else 1
  {
  }

  /** The first n entries of from have been copied to the doubled array. */
  ghost predicate Copied<K, V>(
    hash: K -> Word, from: seq<Entry<K, V>>, to: seq<Entry<K, V>>, shift: nat, n: nat)
    requires n <= |from|
  {
    && (forall i :: 0 <= i < n && from[i].Entry? ==>
          Slot(hash(from[i].key), shift) < |to| && to[Slot(hash(from[i].key), shift)] == from[i])
    && (forall j :: 0 <= j < |to| && to[j].Entry? ==>
          && Slot(hash(to[j].key), shift) == j
          && Slot(hash(to[j].key), shift + 1) < n && from[Slot(hash(to[j].key), shift + 1)] == to[j])
  }

  /** Doubling loses nothing: keys in different slots go to different slots. */
  lemma CopyEntry<K, V>(
    hash: K -> Word, from: seq<Entry<K, V>>, to: seq<Entry<K, V>>, shift: nat, n: nat, contents: map<K, V>)
    requires Layout(hash, from, shift + 1, contents) && n < |from| && Copied(hash, from, to, shift, n)
    requires |to| == Pow2(32 - shift) && from[n].Entry?
    ensures var posn := Slot(hash(from[n].key), shift);
            posn < |to| && to[posn].Unused? && Copied(hash, from, to[posn := from[n]], shift, n + 1)
  {
  }

  lemma CopyNothing<K, V>(
    hash: K -> Word, from: seq<Entry<K, V>>, to: seq<Entry<K, V>>, shift: nat, n: nat)
    requires n < |from| && from[n].Unused? && Copied(hash, from, to, shift, n)
    ensures Copied(hash, from, to, shift, n + 1)
  {
  }

  lemma LayoutDoubled<K, V>(
    hash: K -> Word, from: seq<Entry<K, V>>, to: seq<Entry<K, V>>, shift: nat, contents: map<K, V>)
    requires Layout(hash, from, shift + 1, contents) && Copied(hash, from, to, shift, |from|)
    requires |to| == Pow2(32 - shift)
    ensures Layout(hash, to, shift, contents)
  {
  }

  /** The misses a table starts with, so that it does not double at once. */
  function InitialMisses(slots: nat, minHit: real): int {
    (slots as real * minHit + 1.0).Floor
  }

  class ComputedTable<K(==), V> {
    const hash: K -> Word
    var slots: array<Entry<K, V>>
    var cacheShift: nat
    var cacheSlack: int
    var maxCacheHard: int
    var minHit: real
    var cacheHits: int
    var cacheMisses: int
    var totCacheHits: int
    var totCacheMisses: int
    var cacheInserts: int
    var cacheLastInserts: int
    var cacheCollisions: int
    var cacheDeletions: int

    /** What the table remembers. */
    ghost var contents: map<K, V>
    /** The number of lookups since initialisation. */
    ghost var lookups: nat
    /** The limit the table was initialised with; it stops binding once an allocation has failed. */
    ghost const maxCache: int
    ghost const initialSlots: nat
    ghost var gaveUp: bool

    ghost predicate Valid()
      reads this, slots
    {
      && Layout(hash, slots[..], cacheShift, contents)
      && minHit >= 0.0
      && cacheHits + cacheMisses + totCacheHits + totCacheMisses == lookups
      && |contents| == cacheInserts - cacheCollisions - cacheDeletions
      && maxCache < 0x1_0000_0000
      && (if gaveUp then cacheSlack < 0 else 2 * slots.Length + cacheSlack == maxCache)
      && (slots.Length == initialSlots || slots.Length <= maxCache)
    }

    /** The soft limit the interface reports. */
    function ReadMaxCache(): int
      reads this, slots
    {
      2 * slots.Length + cacheSlack
    }

    function ReadCacheLookUps(): int
      reads this
    {
      cacheHits + cacheMisses + totCacheHits + totCacheMisses
    }

    constructor (hash: K -> Word, cacheSize: nat, maxCacheSize: nat, uniqueSlots: nat, minHit: real)
      requires minHit >= 0.0
      requires 0 < cacheSize < 0x1_0000_0000 && maxCacheSize < 0x1_0000_0000
      requires uniqueSlots / 2 < 0x1_0000_0000
      ensures Valid() && fresh(slots) && contents == map[] && ReadCacheLookUps() == 0
      ensures this.hash == hash && !gaveUp && lookups == 0
      ensures maxCache == if 4 * uniqueSlots < maxCacheSize then 4 * uniqueSlots else maxCacheSize
      ensures var wanted := if uniqueSlots / 2 > cacheSize then uniqueSlots / 2 else cacheSize;
              slots.Length <= wanted < 2 * slots.Length
    {
      var wanted := if uniqueSlots / 2 > cacheSize then uniqueSlots / 2 else cacheSize;
      var logSize := ComputeFloorLog2(wanted);
      WordLog(logSize);
      var size := Pow2(logSize);
      var limit := if 4 * uniqueSlots < maxCacheSize then 4 * uniqueSlots else maxCacheSize;
      this.hash := hash;
      this.slots := new Entry<K, V>[size](_ => Unused);
      this.cacheShift := 32 - logSize;
      this.maxCacheHard := maxCacheSize;
      this.cacheSlack := limit - 2 * size;
      this.minHit := minHit;
      var misses := InitialMisses(size, minHit);
      this.cacheMisses := misses;
      this.cacheHits := 0;
      this.totCacheHits := 0;
      this.totCacheMisses := -misses;
      this.cacheCollisions := 0;
      this.cacheInserts := 0;
      this.cacheLastInserts := 0;
      this.cacheDeletions := 0;
      this.contents := map[];
      this.lookups := 0;
      this.maxCache := limit;
      this.initialSlots := size;
      this.gaveUp := false;
    }

    /** What is known of the table after any of its operations on one manager. */
    twostate predicate Continues()
      reads this, slots
    {
      && (slots == old(slots) || fresh(slots))
      && old(slots.Length) <= slots.Length
      && (old(gaveUp) ==> gaveUp)
    }

    method Insert(key: K, data: V)
      requires Valid()
      modifies this`contents, this`cacheInserts, this`cacheCollisions, slots
      ensures Valid()
      ensures contents == old(Overwrite(hash, slots[..], cacheShift, contents, key, data))
      ensures Hits() == old(Hits())
    {
      hide Layout, Overwrite;
      LayoutInsert(hash, slots[..], cacheShift, contents, key, data);
      OverwriteSize(hash, slots[..], cacheShift, contents, key, data);
      contents := Overwrite(hash, slots[..], cacheShift, contents, key, data);
      var posn := Slot(hash(key), cacheShift);
      if slots[posn].Entry? {
        cacheCollisions := cacheCollisions + 1;
      }
      cacheInserts := cacheInserts + 1;
      ghost var before := slots[..];
      slots[posn] := Entry(key, data);
      assert slots[..] == before[posn := Entry(key, data)];
    }

    /** The number of lookups that found their key. */
    function Hits(): int
      reads this
    {
      cacheHits + totCacheHits
    }

    /** The next miss makes the table double, memory permitting: more hits than the least hit rate asks
        for, the miss itself included, and room to grow. */
    ghost predicate DoublesOnMiss()
      reads this
    {
      cacheSlack >= 0 && cacheHits as real > (cacheMisses + 1) as real * minHit
    }

    /** Looks a key up; granted tells whether memory is available for doubling the table. */
    method Lookup(key: K, granted: bool) returns (r: Option<V>)
      requires Valid()
      modifies this, slots
      ensures Valid() && Continues() && contents == old(contents)
      ensures r == if key in contents then Some(contents[key]) else None
      ensures ReadCacheLookUps() == old(ReadCacheLookUps()) + 1
      ensures Hits() == old(Hits()) + if key in contents then 1 else 0
      ensures !gaveUp ==> ReadMaxCache() == old(ReadMaxCache())
      ensures var doubles := key !in contents && old(DoublesOnMiss());
              && slots.Length == (if doubles && granted then 2 * old(slots.Length) else old(slots.Length))
              && gaveUp == (old(gaveUp) || (doubles && !granted))
              && (doubles && granted ==> IsRestarted())
              && (!doubles ==> cacheHits + cacheMisses == old(cacheHits + cacheMisses) + 1)
    {
      WordSlot(hash(key), cacheShift);
      var entry := slots[Slot(hash(key), cacheShift)];
      if entry.Entry? && entry.key == key {
        lookups := lookups + 1;
        cacheHits := cacheHits + 1;
        return Some(entry.data);
      }
      hide Layout;
      Miss(granted);
      return None;
    }

    /** Counts a miss and doubles the table if that is due. */
    method Miss(granted: bool)
      requires Valid()
      modifies this
      ensures Valid() && Continues() && contents == old(contents)
      ensures ReadCacheLookUps() == old(ReadCacheLookUps()) + 1 && Hits() == old(Hits())
      ensures !gaveUp ==> ReadMaxCache() == old(ReadMaxCache())
      ensures slots.Length == old(if DoublesOnMiss() && granted then 2 * slots.Length else slots.Length)
      ensures gaveUp == old(gaveUp || (DoublesOnMiss() && !granted))
      ensures old(DoublesOnMiss()) && granted ==> IsRestarted()
      ensures !old(DoublesOnMiss()) ==> cacheHits + cacheMisses == old(cacheHits + cacheMisses) + 1
    {
      hide Layout, IsRestarted;
      lookups := lookups + 1;
      cacheMisses := cacheMisses + 1;
      assert cacheMisses as real == old(cacheMisses + 1) as real;
      if cacheSlack >= 0 && cacheHits as real > cacheMisses as real * minHit {
        assert old(DoublesOnMiss());
        Resize(granted);
      } else {
        assert !old(DoublesOnMiss());
      }
    }

    /** The hit ratio starts afresh, with as many misses as keep the table from doubling at once. */
    ghost predicate IsRestarted()
      reads this, slots
    {
      cacheHits == 0 && cacheMisses == InitialMisses(slots.Length, minHit)
    }

    /** Doubles the table, unless memory is exhausted; then it never tries again. */
    method Resize(granted: bool)
      requires Valid() && cacheSlack >= 0
      modifies this
      ensures Valid() && Continues() && contents == old(contents) && lookups == old(lookups)
      ensures Hits() == old(Hits()) && gaveUp == !granted && (granted ==> IsRestarted())
      ensures !granted ==> cacheHits == old(cacheHits) && cacheMisses == old(cacheMisses)
      ensures slots.Length == if granted then 2 * old(slots.Length) else old(slots.Length)
      ensures !gaveUp ==> ReadMaxCache() == old(ReadMaxCache()) && slots.Length <= maxCache
      ensures !gaveUp ==> cacheLastInserts == cacheInserts - |contents|
    {
      if !granted {
        maxCacheHard := slots.Length - 1;
        cacheSlack := -(slots.Length + 1);
        gaveUp := true;
        return;
      }
      FullTable(cacheShift);
      UsedIsContents(hash, slots[..], cacheShift, contents);
      var cache, moved := Double();
      Adopt(cache, moved);
    }

    /** Makes the doubled array the table. */
    method Adopt(cache: array<Entry<K, V>>, moved: nat)
      requires Valid() && cacheSlack >= 0 && !gaveUp && cacheShift > 0
      requires cache.Length == 2 * slots.Length && moved == |contents|
      requires Layout(hash, cache[..], cacheShift - 1, contents)
      modifies this
      ensures Valid() && slots == cache && contents == old(contents) && lookups == old(lookups)
      ensures gaveUp == old(gaveUp) && ReadMaxCache() == old(ReadMaxCache())
      ensures Hits() == old(Hits()) && IsRestarted()
      ensures slots.Length <= maxCache && cacheLastInserts == cacheInserts - |contents|
    {
      hide Layout, InitialMisses;
      cacheShift, slots, cacheSlack := cacheShift - 1, cache, cacheSlack - cache.Length;
      RestartRatio(InitialMisses(cache.Length, minHit));
      cacheLastInserts := cacheInserts - moved;
    }

    /** Starts the hit ratio afresh; the total of hits and misses stays what it was. */
    method RestartRatio(offset: int)
      modifies this`cacheHits, this`cacheMisses, this`totCacheHits, this`totCacheMisses
      ensures ReadCacheLookUps() == old(ReadCacheLookUps()) && Hits() == old(Hits())
      ensures cacheHits == 0 && cacheMisses == offset
    {
      totCacheMisses := totCacheMisses + cacheMisses - offset;
      cacheMisses := offset;
      totCacheHits := totCacheHits + cacheHits;
      cacheHits := 0;
    }

    /** Copies the valid entries to their slots in a new array and counts them. */
    method Double() returns (to: array<Entry<K, V>>, moved: nat)
      requires cacheShift > 0 && Layout(hash, slots[..], cacheShift, contents)
      ensures fresh(to) && to.Length == 2 * slots.Length
      ensures Layout(hash, to[..], cacheShift - 1, contents)
      ensures moved == Used(slots[..])
    {
      var shift := cacheShift - 1;
      to := new Entry<K, V>[2 * slots.Length](_ => Unused);
      moved := 0;
      ghost var from := slots[..];
      for i := 0 to slots.Length
        invariant from == slots[..] && Copied(hash, from, to[..], shift, i)
        invariant moved == Used(from[..i])
      {
        assert from[..i + 1][..i] == from[..i];
        if slots[i].Entry? {
          ghost var before := to[..];
          CopyEntry(hash, from, before, shift, i, contents);
          var posn := Slot(hash(slots[i].key), shift);
          to[posn] := slots[i];
          assert to[..] == before[posn := from[i]];
          moved := moved + 1;
        } else {
          CopyNothing(hash, from, to[..], shift, i);
        }
      }
      assert from[..slots.Length] == from;
      LayoutDoubled(hash, from, to[..], shift, contents);
    }

    method Flush()
      requires Valid()
      modifies this`contents, this`cacheDeletions, this`cacheLastInserts, slots
      ensures Valid() && contents == map[]
      ensures cacheDeletions == old(cacheDeletions) + |old(contents)|
      ensures cacheLastInserts == cacheInserts
    {
      hide Layout, Used;
      UsedIsContents(hash, slots[..], cacheShift, contents);
      ghost var from, entries := slots[..], contents;
      Clear();
      NoEntries(hash, from, cacheShift, entries, slots[..]);
      contents := map[];
      cacheLastInserts := cacheInserts;
    }

    /** Empties every slot and counts the entries that go. */
    method Clear()
      modifies this`cacheDeletions, slots
      ensures forall j :: 0 <= j < slots.Length ==> slots[j].Unused?
      ensures cacheDeletions == old(cacheDeletions) + Used(old(slots[..]))
    {
      ghost var from := slots[..];
      for i := 0 to slots.Length
        invariant forall j :: 0 <= j < slots.Length ==> slots[j] == if j < i then Unused else from[j]
        invariant cacheDeletions == old(cacheDeletions) + Used(from[..i])
      {
        assert from[..i + 1][..i] == from[..i];
        if slots[i].Entry? {
          cacheDeletions := cacheDeletions + 1;
        }
        slots[i] := Unused;
      }
      assert from[..slots.Length] == from;
    }
  }
}
