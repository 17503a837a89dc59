/** The hash table with linear probing, and the map it stands for. */
module Hash {
  import opened Wrappers

  const MAX_KEY_LEN := 255

  /** An entry without a value is free, whatever its key. */
  datatype Entry<V> = Entry(k: string, v: Option<V>)

  // ---------------------------------------------------------------- hashing and probing

  /** A character as a signed byte. */
  function SignedChar(c: char): int {
    var b := c as int % 256;
    if b < 128 then b else b - 256
  }

  function Djb2(key: string, hash: nat): nat
    decreases key
  {
    if key == "" then hash else Djb2(key[1..], (hash * 33 + SignedChar(key[0])) % 0x1_0000_0000)
  }

  function Home(key: string, size: nat): (h: nat)
    requires size > 0
    ensures h < size
  {
    Djb2(key, 5381) % size
  }

  /** The slot `d` steps after `home`, around the end of the table. */
  function Slot(home: nat, d: nat, size: nat): (i: nat)
    requires home < size && d < size
    ensures i < size
  {
    if home + d < size then home + d else home + d - size
  }

  /** How many steps after `home` slot `i` comes. */
  function Distance(home: nat, i: nat, size: nat): (d: nat)
    requires home < size && i < size
    ensures d < size && Slot(home, d, size) == i
  {
    if i >= home then i - home else i + size - home
  }

  lemma NextSlot(home: nat, d: nat, size: nat)
    requires home < size && d < size
    ensures (Slot(home, d, size) + 1) % size == if d + 1 < size then Slot(home, d + 1, size) else home
    ensures d + 1 < size ==> Slot(home, d + 1, size) != home
  {
  }

  predicate Stops<V>(e: Entry<V>, key: string) {
    e.k == key || e.v.None?
  }

  /** The slot at which the search for `key` stops, after `d` steps without success; after a full round it is the last
      slot looked at. */
  function FindFrom<V>(es: seq<Entry<V>>, key: string, d: nat): (i: nat)
    requires d < |es|
    ensures i < |es|
    decreases |es| - d
  {
    var i := Slot(Home(key, |es|), d, |es|);
    if Stops(es[i], key) || d + 1 == |es| then i else FindFrom(es, key, d + 1)
  }

  function Find<V>(es: seq<Entry<V>>, key: string): (i: nat)
    requires es != []
    ensures i < |es|
  {
    FindFrom(es, key, 0)
  }

  /** The search for `key` passes all slots nearer to its home than `i`. */
  predicate Reaches<V>(es: seq<Entry<V>>, key: string, i: nat)
    requires i < |es|
  {
    var home := Home(key, |es|);
    forall d :: 0 <= d < Distance(home, i, |es|) ==> !Stops(es[Slot(home, d, |es|)], key)
  }

  predicate Last(home: nat, i: nat, size: nat)
    requires home < size && i < size
  {
    Distance(home, i, size) == size - 1
  }

  /** The search ends exactly at the first slot that stops it or at the end of the round. */
  lemma {:induction false} FindIff<V>(es: seq<Entry<V>>, key: string, d: nat, i: nat)
    requires d < |es| && i < |es|
    requires forall c :: 0 <= c < d ==> !Stops(es[Slot(Home(key, |es|), c, |es|)], key)
    ensures FindFrom(es, key, d) == i <==>
            d <= Distance(Home(key, |es|), i, |es|) && Reaches(es, key, i)
            && (Stops(es[i], key) || Last(Home(key, |es|), i, |es|))
    decreases |es| - d
  {
    var home := Home(key, |es|);
    var s := Slot(home, d, |es|);
    if !(Stops(es[s], key) || d + 1 == |es|) {
      FindIff(es, key, d + 1, i);
    }
  }

  // ---------------------------------------------------------------- tables

  predicate Used<V>(es: seq<Entry<V>>, i: int) {
    0 <= i < |es| && es[i].v.Some?
  }

  /** Every key that is in the table is found in its slot. */
  ghost predicate Placed<V>(es: seq<Entry<V>>) {
    forall i :: Used(es, i) ==> Find(es, es[i].k) == i
  }

  /** The map that the first `n` slots stand for. */
  function Held<V>(es: seq<Entry<V>>, n: nat): map<string, V>
    requires n <= |es|
  {
    if n == 0 then map[]
    else if es[n - 1].v.Some? then Held(es, n - 1)[es[n - 1].k := es[n - 1].v.value]
    else Held(es, n - 1)
  }

  function Contents<V>(es: seq<Entry<V>>): map<string, V> {
    Held(es, |es|)
  }

  function Count<V>(es: seq<Entry<V>>): (n: nat)
    ensures n <= |es|
  {
    if es == [] then 0 else Count(es[..|es| - 1]) + if es[|es| - 1].v.Some? then 1 else 0
  }

  lemma {:induction false} CountSet<V>(es: seq<Entry<V>>, i: nat, e: Entry<V>)
    requires i < |es|
    ensures Count(es[i := e]) == Count(es) - (if es[i].v.Some? then 1 else 0) + if e.v.Some? then 1 else 0
  {
    var n := |es| - 1;
    if i < n {
      CountSet(es[..n], i, e);
      assert es[i := e][..n] == es[..n][i := e];
    } else {
      assert es[i := e][..n] == es[..n];
    }
  }

  lemma {:induction false} FreeSlot<V>(es: seq<Entry<V>>)
    ensures Count(es) < |es| <==> exists i :: 0 <= i < |es| && es[i].v.None?
  {
    if es != [] {
      var n := |es| - 1;
      FreeSlot(es[..n]);
      assert forall i :: 0 <= i < n ==> es[..n][i] == es[i];
      assert es[n].v.Some? || es[n].v.None?;
    }
  }

  lemma {:induction false} HeldKeys<V>(es: seq<Entry<V>>, n: nat, key: string)
    requires n <= |es|
    ensures key in Held(es, n) <==> exists i :: i < n && Used(es, i) && es[i].k == key
  {
    if n > 0 {
      HeldKeys(es, n - 1, key);
      assert es[n - 1].v.Some? ==> Used(es, n - 1);
    }
  }

  lemma NewKey<V>(es: seq<Entry<V>>, n: nat)
    requires Placed(es) && Used(es, n)
    ensures es[n].k !in Held(es, n)
  {
    HeldKeys(es, n, es[n].k);
  }

  lemma {:induction false} HeldValue<V>(es: seq<Entry<V>>, n: nat, i: nat)
    requires i < n <= |es| && Used(es, i) && forall j :: i < j < n && Used(es, j) ==> es[j].k != es[i].k
    ensures es[i].k in Held(es, n) && Held(es, n)[es[i].k] == es[i].v.value
  {
    if i < n - 1 {
      HeldValue(es, n - 1, i);
      assert es[n - 1].v.Some? ==> Used(es, n - 1);
    }
  }

  /** In a table with placed keys every used slot shows in the map. */
  lemma PlacedValue<V>(es: seq<Entry<V>>, i: nat)
    requires Placed(es) && Used(es, i)
    ensures es[i].k in Contents(es) && Contents(es)[es[i].k] == es[i].v.value
  {
    HeldValue(es, |es|, i);
  }

  lemma FreeStops<V>(es: seq<Entry<V>>, key: string, f: nat)
    requires f < |es| && es[f].v.None?
    ensures Stops(es[Find(es, key)], key)
  {
    hide Home, Slot;
    var home, i := Home(key, |es|), Find(es, key);
    FindIff(es, key, 0, i);
    assert Slot(home, Distance(home, i, |es|), |es|) == i;
    assert Stops(es[Slot(home, Distance(home, f, |es|), |es|)], key);
  }

  /** A table that is not full stops every search at the key or at a free slot. */
  lemma FindStops<V>(es: seq<Entry<V>>, key: string)
    requires es != [] && Count(es) < |es|
    ensures Stops(es[Find(es, key)], key)
  {
    hide Find, Count;
    FreeSlot(es);
    var f :| 0 <= f < |es| && es[f].v.None?;
    FreeStops(es, key, f);
  }

  function Lookup<V>(es: seq<Entry<V>>, key: string): Option<V>
    requires es != []
  {
    es[Find(es, key)].v
  }

  /** A key of the map is found with its value. A key not in the map is found missing exactly when the table is not
      full: a full table answers with the value of some other key. */
  lemma LookupIsMap<V>(es: seq<Entry<V>>, key: string)
    requires es != [] && Placed(es)
    ensures key in Contents(es) ==> Lookup(es, key) == Some(Contents(es)[key])
    ensures key !in Contents(es) ==> (Lookup(es, key).None? <==> Count(es) < |es|)
  {
    HeldKeys(es, |es|, key);
    if key in Contents(es) {
      var i :| i < |es| && Used(es, i) && es[i].k == key;
      PlacedValue(es, i);
    } else if Count(es) < |es| {
      FindStops(es, key);
      assert Used(es, Find(es, key)) ==> es[Find(es, key)].k != key;
    } else {
      FreeSlot(es);
    }
  }

  // ---------------------------------------------------------------- changes

  function Truncated(key: string): string {
    if |key| > MAX_KEY_LEN then key[..MAX_KEY_LEN] else key
  }

  function Put<V>(es: seq<Entry<V>>, key: string, v: V): seq<Entry<V>>
    requires es != []
  {
    es[Find(es, key) := Entry(Truncated(key), Some(v))]
  }

  lemma PutPlaced<V>(es: seq<Entry<V>>, key: string, v: V)
    requires es != [] && Placed(es) && Count(es) < |es| && |key| <= MAX_KEY_LEN
    ensures Placed(Put(es, key, v))
  {
    var i := Find(es, key);
    var es' := Put(es, key, v);
    FindStops(es, key);
    FindIff(es, key, 0, i);
    FindIff(es', key, 0, i);
    forall j | Used(es', j) && j != i ensures Find(es', es'[j].k) == j {
      assert Used(es, j);
      FindIff(es, es[j].k, 0, j);
      FindIff(es', es[j].k, 0, j);
    }
  }

  lemma PutHolds<V>(es: seq<Entry<V>>, key: string, v: V)
    requires es != [] && Placed(Put(es, key, v)) && |key| <= MAX_KEY_LEN
    ensures key in Contents(Put(es, key, v)) && Contents(Put(es, key, v))[key] == v
  {
    hide Placed, Find;
    assert Used(Put(es, key, v), Find(es, key));
    PlacedValue(Put(es, key, v), Find(es, key));
  }

  /** Storing a value changes the map at its key and nowhere else. */
  lemma PutIsUpdate<V>(es: seq<Entry<V>>, key: string, v: V)
    requires es != [] && Placed(es) && Count(es) < |es| && |key| <= MAX_KEY_LEN
    ensures Placed(Put(es, key, v)) && Contents(Put(es, key, v)) == Contents(es)[key := v]
  {
    hide Contents, Placed, Count, Put;
    PutPlaced(es, key, v);
    PutHolds(es, key, v);
    var es' := Put(es, key, v);
    forall k
      ensures k in Contents(es') <==> k == key || k in Contents(es)
      ensures k != key && k in Contents(es) ==> Contents(es')[k] == Contents(es)[k]
    {
      SameElsewhere(es, key, v, k);
    }
    assert Contents(es') == Contents(es)[key := v];
  }

  lemma PutCount<V>(es: seq<Entry<V>>, key: string, v: V)
    requires es != [] && Placed(es) && Count(es) < |es|
    ensures Count(Put(es, key, v)) == Count(es) + if key in Contents(es) then 0 else 1
  {
    hide Find, Placed;
    CountSet(es, Find(es, key), Entry(Truncated(key), Some(v)));
    LookupIsMap(es, key);
  }

  lemma SameElsewhere<V>(es: seq<Entry<V>>, key: string, v: V, k: string)
    requires es != [] && Placed(es) && Count(es) < |es| && |key| <= MAX_KEY_LEN && Placed(Put(es, key, v))
    ensures k in Contents(Put(es, key, v)) <==> k == key || k in Contents(es)
    ensures k != key && k in Contents(es) ==> Contents(Put(es, key, v))[k] == Contents(es)[k]
  {
    var i := Find(es, key);
    var es' := Put(es, key, v);
    FindStops(es, key);
    HeldKeys(es, |es|, k);
    HeldKeys(es', |es|, k);
    assert Used(es', i);
    assert forall j :: j != i ==> Used(es, j) == Used(es', j);
    if k != key && k in Contents(es) {
      var j :| j < |es| && Used(es, j) && es[j].k == k;
      PlacedValue(es, j);
      PlacedValue(es', j);
    }
  }

  /** A key that is cut off when it is stored is never found again. */
  lemma LongKeyIsLost<V>(es: seq<Entry<V>>, key: string, v: V)
    requires es != [] && Count(es) + 1 < |es| && |key| > MAX_KEY_LEN
    requires forall i :: 0 <= i < |es| ==> |es[i].k| <= MAX_KEY_LEN
    ensures Lookup(Put(es, key, v), key).None?
  {
    var es' := Put(es, key, v);
    CountSet(es, Find(es, key), Entry(Truncated(key), Some(v)));
    FindStops(es', key);
  }

  function Removed<V>(es: seq<Entry<V>>, key: string): seq<Entry<V>>
    requires es != []
  {
    es[Find(es, key) := Entry("", None)]
  }

  /** Removing a key leaves the others to be found exactly when no search for one of them passes its slot. */
  lemma RemovedPlacedIff<V>(es: seq<Entry<V>>, key: string)
    requires es != [] && Placed(es) && key in Contents(es)
    ensures Placed(Removed(es, key)) <==>
            forall j :: Used(es, j) && j != Find(es, key) ==>
              var home := Home(es[j].k, |es|);
              Distance(home, j, |es|) < Distance(home, Find(es, key), |es|)
  {
    var i := Find(es, key);
    var es' := Removed(es, key);
    forall j | Used(es, j) && j != i
      ensures Find(es', es[j].k) == j <==>
              Distance(Home(es[j].k, |es|), j, |es|) < Distance(Home(es[j].k, |es|), i, |es|)
    {
      FindIff(es, es[j].k, 0, j);
      FindIff(es', es[j].k, 0, j);
      var home := Home(es[j].k, |es|);
      assert Slot(home, Distance(home, i, |es|), |es|) == i;
      assert Distance(home, i, |es|) != Distance(home, j, |es|);
    }
    assert forall j :: Used(es', j) <==> Used(es, j) && j != i;
  }

  /** Two keys with the same home: removing the first loses the second. */
  lemma RemovalLosesAKey()
    ensures var es := Put(Put(Empty<int>(4), "a", 1), "e", 2);
            && Placed(es) && Lookup(es, "e") == Some(2)
            && !Placed(Removed(es, "a")) && Lookup(Removed(es, "a"), "e") == None
            && Contents(Removed(es, "a")) == map["e" := 2]
  {
    assert Djb2("a", 5381) == 177670 && Djb2("e", 5381) == 177674;
    var es := [Entry("", None), Entry("", None), Entry("a", Some(1)), Entry("e", Some(2))];
    assert Put(Put(Empty<int>(4), "a", 1), "e", 2) == es;
    var es' := [Entry("", None), Entry("", None), Entry("", None), Entry("e", Some(2))];
    assert Removed(es, "a") == es';
    assert Used(es', 3);
    assert Held(es', 3) == map[];
  }

  // ---------------------------------------------------------------- the table in place

  function Empty<V>(size: nat): seq<Entry<V>> {
    seq(size, _ => Entry("", None))
  }

  lemma {:induction false} NothingUsed<V>(es: seq<Entry<V>>)
    requires forall i :: 0 <= i < |es| ==> es[i].v.None?
    ensures Placed(es) && Contents(es) == map[] && Count(es) == 0
  {
    HeldNothing(es, |es|);
    if es != [] {
      NothingUsed(es[..|es| - 1]);
    }
  }

  lemma {:induction false} HeldNothing<V>(es: seq<Entry<V>>, n: nat)
    requires n <= |es| && forall i :: 0 <= i < |es| ==> es[i].v.None?
    ensures Held(es, n) == map[]
  {
    if n > 0 {
      HeldNothing(es, n - 1);
    }
  }

  /** The entries are allocated by the first insertion. */
  class Hash<V> {
    var size: nat
    var numEntries: nat
    var entries: array?<Entry<V>>

    function Table(): (es: seq<Entry<V>>)
      reads this, entries
    {
      if entries == null then Empty(size) else entries[..]
    }

    ghost predicate Valid()
      reads this, entries
    {
      && size > 0 && |Table()| == size && numEntries == Count(Table())
      && forall i :: 0 <= i < |Table()| ==> |Table()[i].k| <= MAX_KEY_LEN
    }

    /** Every key is found, and the map is the given one. */
    ghost predicate Refines(m: map<string, V>)
      reads this, entries
    {
      Valid() && Placed(Table()) && Contents(Table()) == m
    }

    predicate Full()
      reads this
    {
      entries != null && numEntries >= size
    }

    constructor (size: nat)
      requires size > 0
      ensures Refines(map[]) && numEntries == 0 && this.size == size && entries == null
    {
      this.size := size;
      numEntries := 0;
      entries := null;
      new;
      NothingUsed(Table());
    }

    method CreateEntries(n: nat)
      requires n > 0
      modifies this
      ensures fresh(entries) && Refines(map[]) && size == n && numEntries == 0 && Table() == Empty(n)
    {
      size := n;
      numEntries := 0;
      entries := new Entry<V>[n](_ => Entry("", None));
      NothingUsed(Table());
    }

    /** The search for a key, around the end of the table. */
    method FindEntry(key: string) returns (curr: nat)
      requires Valid() && entries != null
      ensures curr < size && curr == Find(Table(), key)
    {
      var n := size;
      ghost var es := entries[..];
      var j := Djb2(key, 5381) % n;
      var i, d := j, 0;
      while true
        invariant d < n && j == Home(key, n) && i == Slot(j, d, n)
        invariant FindFrom(es, key, d) == FindFrom(es, key, 0)
        decreases n - d
      {
        curr := i;
        if entries[curr].k == key || entries[curr].v.None? {
          return;
        }
        NextSlot(j, d, n);
        i := (i + 1) % n;
        if i == j {
          return;
        }
        d := d + 1;
      }
    }

    /** Storing a value, in a larger table when this one is full. */
    method Insert(key: string, value: V)
      requires Valid()
      modifies this, entries
      ensures Valid() && entries != null && (fresh(entries) || entries == old(entries))
      ensures !old(Full()) ==> Table() == Put(old(Table()), key, value)
      ensures size == if old(Full()) then 2 * old(size) else old(size)
      ensures old(Placed(Table())) && |key| <= MAX_KEY_LEN ==>
                && Refines(old(Contents(Table()))[key := value])
                && numEntries == old(numEntries) + if key in old(Contents(Table())) then 0 else 1
      decreases if Full() then 2 else 0
    {
      hide Placed, Contents, Put;
      if entries == null {
        NothingUsed(Table());
        CreateEntries(size);
      } else if numEntries >= size {
        Resize(2 * size);
      }
      Store(key, value);
    }

    /** Storing a value where there is room. */
    method Store(key: string, value: V)
      requires Valid() && entries != null && numEntries < size
      modifies this, entries
      ensures Valid() && entries == old(entries) && size == old(size) && Table() == Put(old(Table()), key, value)
      ensures old(Placed(Table())) && |key| <= MAX_KEY_LEN ==>
                && Refines(old(Contents(Table()))[key := value])
                && numEntries == old(numEntries) + if key in old(Contents(Table())) then 0 else 1
    {
      ghost var es := Table();
      var i := FindEntry(key);
      CountSet(es, i, Entry(Truncated(key), Some(value)));
      if entries[i].v.None? {
        numEntries := numEntries + 1;
      }
      entries[i] := Entry(Truncated(key), Some(value));
      assert Table() == Put(es, key, value);
      if Placed(es) && |key| <= MAX_KEY_LEN {
        PutIsUpdate(es, key, value);
        PutCount(es, key, value);
      }
    }

    /** Puts every entry into a new table. */
    method Resize(newSize: nat)
      requires Valid() && entries != null && numEntries >= size && newSize > size
      modifies this, entries
      ensures fresh(entries) && Refines(old(Contents(Table()))) && size == newSize && numEntries < size
      ensures old(Placed(Table())) ==> numEntries == old(numEntries)
      decreases 1
    {
      hide Placed, Find;
      var oldEntries, oldSize := entries, size;
      ghost var es := Table();
      CreateEntries(newSize);
      var i := 0;
      while i < oldSize
        invariant 0 <= i <= oldSize == oldEntries.Length && oldEntries[..] == es && fresh(entries)
        invariant Refines(Held(es, i)) && size == newSize && numEntries <= i
        invariant Placed(es) ==> numEntries == Count(es[..i])
      {
        if oldEntries[i].v.Some? {
          if Placed(es) {
            NewKey(es, i);
          }
          Insert(oldEntries[i].k, oldEntries[i].v.value);
        }
        assert es[..i + 1][..i] == es[..i];
        i := i + 1;
      }
      assert es[..i] == es;
    }

    method Get(key: string) returns (r: Option<V>)
      requires Valid()
      ensures forall m :: Refines(m) && key in m ==> r == Some(m[key])
      ensures forall m :: Refines(m) && key !in m ==> (r.None? <==> numEntries < size)
    {
      if entries == null {
        NothingUsed(Table());
        return None;
      }
      var i := FindEntry(key);
      r := entries[i].v;
      if Placed(Table()) {
        LookupIsMap(Table(), key);
      }
    }

    /** Forgets every value; the keys stay in their slots. */
    method Reset()
      requires Valid()
      modifies this, entries
      ensures Refines(map[]) && numEntries == 0 && size == old(size) && entries == old(entries)
    {
      if numEntries == 0 {
        Unused(Table());
        NothingUsed(Table());
        return;
      }
      NothingUsed<V>(Empty(size));
      var i := 0;
      while i < size
        invariant entries != null && entries == old(entries) && 0 <= i <= size == old(size) == entries.Length
        invariant forall j :: 0 <= j < i ==> entries[j].v.None?
        invariant forall j :: 0 <= j < size ==> |entries[j].k| <= MAX_KEY_LEN
      {
        entries[i] := entries[i].(v := None);
        i := i + 1;
      }
      numEntries := 0;
      NothingUsed(Table());
    }

    /** Frees the slot at which the search for `key` ends, leaving no mark for the searches that passed it. */
    method Delete(key: string)
      requires Valid()
      modifies this, entries
      ensures Valid() && size == old(size) && entries == old(entries)
      ensures Table() == if Lookup(old(Table()), key).Some? then Removed(old(Table()), key) else old(Table())
    {
      if entries == null {
        NothingUsed(Table());
        return;
      }
      var i := FindEntry(key);
      if entries[i].v.Some? {
        CountSet(Table(), i, Entry("", None));
        entries[i] := Entry("", None);
        numEntries := numEntries - 1;
      }
    }

    /** The keys in use, each once. */
    method Keys() returns (keys: seq<string>)
      requires Valid()
      ensures forall k :: k in keys <==> k in Contents(Table())
      ensures Placed(Table()) ==> |keys| == |Contents(Table())|
    {
      hide Placed, Count;
      keys := [];
      if numEntries == 0 {
        Unused(Table());
        NothingUsed(Table());
        return;
      }
      NothingUsed<V>(Empty(size));
      var i := 0;
      while i < size
        invariant 0 <= i <= size
        invariant forall k :: k in keys <==> k in Held(Table(), i)
        invariant Placed(Table()) ==> |keys| == |Held(Table(), i)|
      {
        if entries[i].v.Some? {
          if Placed(Table()) {
            assert Used(Table(), i);
            NewKey(Table(), i);
          }
          keys := keys + [entries[i].k];
        }
        i := i + 1;
      }
    }
  }

  lemma {:induction false} Unused<V>(es: seq<Entry<V>>)
    requires Count(es) == 0
    ensures forall i :: 0 <= i < |es| ==> es[i].v.None?
  {
    if es != [] {
      var n := |es| - 1;
      Unused(es[..n]);
      assert forall i :: 0 <= i < n ==> es[..n][i] == es[i];
    }
  }

  // ---------------------------------------------------------------- runs

  datatype Operation<V> = Insertion(key: string, value: V) | Clearing

  /** The map that a run of operations leads to. */
  function After<V>(ops: seq<Operation<V>>): map<string, V> {
    if ops == [] then map[] else
    match ops[|ops| - 1]
    case Insertion(key, value) => After(ops[..|ops| - 1])[key := value]
    case Clearing => map[]
  }

  method Perform<V>(h: Hash<V>, op: Operation<V>)
    requires h.Valid() && Placed(h.Table()) && (op.Insertion? ==> |op.key| <= MAX_KEY_LEN)
    modifies h, h.entries
    ensures h.entries == old(h.entries) || fresh(h.entries)
    ensures h.Refines(match op case Insertion(k, v) => old(Contents(h.Table()))[k := v] case Clearing => map[])
  {
    match op {
      case Insertion(k, v) => h.Insert(k, v);
      case Clearing => h.Reset();
    }
  }

  /** After any run the table answers as the map does, whatever its initial size and however often it grew. */
  method Replay<V>(size: nat, ops: seq<Operation<V>>, key: string) returns (h: Hash<V>, r: Option<V>)
    requires size > 0
    requires forall i :: 0 <= i < |ops| && ops[i].Insertion? ==> |ops[i].key| <= MAX_KEY_LEN
    ensures fresh(h) && h.Refines(After(ops))
    ensures key in After(ops) ==> r == Some(After(ops)[key])
    ensures key !in After(ops) ==> (r.None? <==> h.numEntries < h.size)
  {
    h := new Hash(size);
    var i := 0;
    while i < |ops|
      invariant 0 <= i <= |ops|
      invariant fresh(h) && (h.entries != null ==> fresh(h.entries))
      invariant h.Refines(After(ops[..i]))
    {
      assert ops[..i + 1][..i] == ops[..i];
      Perform(h, ops[i]);
      i := i + 1;
    }
    assert ops[..i] == ops;
    r := h.Get(key);
  }
}
