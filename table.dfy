/** The fixed-capacity open-addressing directory: linear probing over a slot
    array, keyed by byte strings hashed with djb2. Removal only clears the
    value of a slot, never its key. */
module Directory {
  import opened Common
  import Djb2

  /** A slot: `key == None` is the NULL key of an unused slot; a value of
      `None` is a NULL value. */
  datatype Slot<V> = Slot(key: Option<Bytes>, value: Option<V>)

  /** The slot visited at distance `d` of a probe starting at `h`. */
  function Probe(h: nat, d: nat, n: nat): (i: nat)
    requires n > 0
    ensures i < n
  {
    (h + d) % n
  }

  /** How far slot `i` lies along the probe that starts at `h`. */
  function Dist(h: nat, i: nat, n: nat): (d: nat)
    requires h < n && i < n
    ensures d < n
  {
    if h <= i then i - h else i + n - h
  }

  lemma ProbeWrap(h: nat, d: nat, n: nat)
    requires h < n && d < n
    ensures Probe(h, d, n) == if h + d < n then h + d else h + d - n
  {
    if h + d < n {
      ModOfSum(h + d, 0, h + d, n);
    } else {
      ModOfSum(h + d, 1, h + d - n, n);
    }
  }

  lemma ProbeOfDist(h: nat, i: nat, n: nat)
    requires h < n && i < n
    ensures Probe(h, Dist(h, i, n), n) == i
  {
    ProbeWrap(h, Dist(h, i, n), n);
  }

  lemma DistOfProbe(h: nat, d: nat, n: nat)
    requires h < n && d < n
    ensures Dist(h, Probe(h, d, n), n) == d
  {
    ProbeWrap(h, d, n);
  }

  /** The home slot of a key: its djb2 hash reduced modulo the capacity. */
  function Home(key: Bytes, n: nat): (h: nat)
    requires n > 0
    ensures h < n
  {
    Djb2.Hash(key) % n
  }

  predicate Occupied<V>(s: seq<Slot<V>>, i: nat)
    requires i < |s|
  {
    s[i].key.Some?
  }

  /** Slot `i` can take `key`: it is unused or already holds `key`. */
  predicate Fits<V>(s: seq<Slot<V>>, key: Bytes, i: nat)
    requires i < |s|
  {
    s[i].key.None? || s[i].key == Some(key)
  }

  /** Every slot on the probe from `h` before distance `len` is occupied. */
  predicate PathOccupied<V>(s: seq<Slot<V>>, h: nat, len: nat)
    requires |s| > 0
  {
    forall d :: 0 <= d < len ==> Occupied(s, Probe(h, d, |s|))
  }

  /** No two slots hold equal keys. */
  predicate NoDuplicateKeys<V>(s: seq<Slot<V>>) {
    forall i, j :: 0 <= i < j < |s| && s[i].key.Some? ==> s[i].key != s[j].key
  }

  /** Every occupied slot is reachable from its key's home slot through
      occupied slots only. */
  predicate ProbeClosed<V>(s: seq<Slot<V>>)
    requires |s| > 0
  {
    forall i :: 0 <= i < |s| && s[i].key.Some? ==>
      PathOccupied(s, Home(s[i].key.value, |s|), Dist(Home(s[i].key.value, |s|), i, |s|))
  }

  predicate WellFormed<V>(s: seq<Slot<V>>) {
    NoDuplicateKeys(s) && (|s| > 0 ==> ProbeClosed(s))
  }

  predicate Present<V>(s: seq<Slot<V>>, key: Bytes) {
    exists i :: 0 <= i < |s| && s[i].key == Some(key)
  }

  /** The first distance, at or after `d`, where the probe from `h` meets a
      slot that can take `key`: the slot `set_table` writes. */
  function FindFrom<V>(s: seq<Slot<V>>, key: Bytes, h: nat, d: nat): (r: Option<nat>)
    requires h < |s| && d <= |s|
    ensures r.Some? ==> d <= r.value < |s| && Fits(s, key, Probe(h, r.value, |s|))
    ensures r.Some? ==> forall e :: d <= e < r.value ==> !Fits(s, key, Probe(h, e, |s|))
    ensures r.None? ==> forall e :: d <= e < |s| ==> !Fits(s, key, Probe(h, e, |s|))
    decreases |s| - d
  {
    if d == |s| then None
    else if Fits(s, key, Probe(h, d, |s|)) then Some(d)
    else FindFrom(s, key, h, d + 1)
  }

  /** The first distance, at or after `d`, where the probe from `h` meets a
      slot holding `key`; unused slots are stepped over. */
  function ScanFrom<V>(s: seq<Slot<V>>, key: Bytes, h: nat, d: nat): (r: Option<nat>)
    requires h < |s| && d <= |s|
    ensures r.Some? ==> d <= r.value < |s| && s[Probe(h, r.value, |s|)].key == Some(key)
    ensures r.None? ==> forall e :: d <= e < |s| ==> s[Probe(h, e, |s|)].key != Some(key)
    decreases |s| - d
  {
    if d == |s| then None
    else if s[Probe(h, d, |s|)].key == Some(key) then Some(d)
    else ScanFrom(s, key, h, d + 1)
  }

  /** What `set_table` does to the slots: whether it succeeds and the slots
      afterwards. */
  function SetSlots<V>(s: seq<Slot<V>>, key: Bytes, value: Option<V>): (bool, seq<Slot<V>>)
    requires |s| > 0
  {
    var h := Home(key, |s|);
    match FindFrom(s, key, h, 0)
    case None => (false, s)
    case Some(d) => (true, s[Probe(h, d, |s|) := Slot(Some(key), value)])
  }

  /** What `get_table` reports: found, and the value it stores in `*result`. */
  function Lookup<V>(s: seq<Slot<V>>, key: Bytes): (bool, Option<V>)
    requires |s| > 0
  {
    var h := Home(key, |s|);
    if s[h].key.None? then (false, None)
    else match ScanFrom(s, key, h, 0)
      case None => (false, None)
      case Some(d) => (true, s[Probe(h, d, |s|)].value)
  }

  /** A fresh table: `size` slots with NULL key and NULL value. */
  lemma EmptyIsWellFormed<V>(s: seq<Slot<V>>)
    requires forall i :: 0 <= i < |s| ==> s[i] == Slot(None, None)
    ensures WellFormed(s)
  {
  }

  /** In a well-formed table, `get_table` finds a stored key and reports the
      value of the one slot that holds it. */
  lemma LookupStored<V>(s: seq<Slot<V>>, key: Bytes, i: nat)
    requires WellFormed(s) && i < |s| && s[i].key == Some(key)
    ensures Lookup(s, key) == (true, s[i].value)
  {
    var n := |s|;
    var h := Home(key, n);
    var di := Dist(h, i, n);
    ProbeOfDist(h, i, n);
    assert PathOccupied(s, h, di);
    if di > 0 {
      assert Occupied(s, Probe(h, 0, n));
      ProbeWrap(h, 0, n);
    }
    assert s[h].key.Some?;
    var r := ScanFrom(s, key, h, 0);
    assert r.Some?;
    var j := Probe(h, r.value, n);
    assert s[j].key == Some(key);
  }

  /** `get_table` reports "not found" with a NULL result for a key no slot holds. */
  lemma LookupMissing<V>(s: seq<Slot<V>>, key: Bytes)
    requires |s| > 0 && !Present(s, key)
    ensures Lookup(s, key) == (false, None)
  {
    var h := Home(key, |s|);
    if s[h].key.Some? {
      var r := ScanFrom(s, key, h, 0);
    }
  }

  /** In a well-formed table, `get_table` agrees with the slot contents. */
  lemma LookupCorrect<V>(s: seq<Slot<V>>, key: Bytes)
    requires WellFormed(s) && |s| > 0
    ensures Present(s, key) ==> exists i :: 0 <= i < |s| && s[i].key == Some(key) && Lookup(s, key) == (true, s[i].value)
    ensures !Present(s, key) ==> Lookup(s, key) == (false, None)
  {
    if Present(s, key) {
      var i :| 0 <= i < |s| && s[i].key == Some(key);
      LookupStored(s, key, i);
    } else {
      LookupMissing(s, key);
    }
  }

  /** A key present in a well-formed table is where `set_table` writes. */
  lemma FindReachesStored<V>(s: seq<Slot<V>>, key: Bytes, i: nat)
    requires WellFormed(s) && i < |s| && s[i].key == Some(key)
    ensures FindFrom(s, key, Home(key, |s|), 0).Some?
    ensures Probe(Home(key, |s|), FindFrom(s, key, Home(key, |s|), 0).value, |s|) == i
  {
    var n := |s|;
    var h := Home(key, n);
    var di := Dist(h, i, n);
    ProbeOfDist(h, i, n);
    var r := FindFrom(s, key, h, 0);
    assert r.Some?;
    var e := r.value;
    var j := Probe(h, e, n);
    if e < di {
      assert Occupied(s, Probe(h, e, n));
      assert s[j].key == Some(key);
      DistOfProbe(h, e, n);
    }
  }

  /** When `set_table` takes an unused slot, the key was not stored anywhere. */
  lemma FindEmptyMeansAbsent<V>(s: seq<Slot<V>>, key: Bytes)
    requires WellFormed(s) && |s| > 0
    requires FindFrom(s, key, Home(key, |s|), 0).Some?
    requires s[Probe(Home(key, |s|), FindFrom(s, key, Home(key, |s|), 0).value, |s|)].key.None?
    ensures !Present(s, key)
  {
    if Present(s, key) {
      var i :| 0 <= i < |s| && s[i].key == Some(key);
      FindReachesStored(s, key, i);
    }
  }

  /** `set_table` preserves both invariants: no duplicate keys, and every
      occupied slot's probe path is occupied. */
  lemma SetPreservesWellFormed<V>(s: seq<Slot<V>>, key: Bytes, value: Option<V>)
    requires WellFormed(s) && |s| > 0
    ensures WellFormed(SetSlots(s, key, value).1)
  {
    var n := |s|;
    var h := Home(key, n);
    var r := FindFrom(s, key, h, 0);
    if r.Some? {
      var e := r.value;
      var idx := Probe(h, e, n);
      var s' := s[idx := Slot(Some(key), value)];
      assert SetSlots(s, key, value).1 == s';
      if s[idx].key == Some(key) {
        assert forall j :: 0 <= j < n ==> s'[j].key == s[j].key;
        forall i | 0 <= i < n && s'[i].key.Some?
          ensures PathOccupied(s', Home(s'[i].key.value, n), Dist(Home(s'[i].key.value, n), i, n))
        {
          assert PathOccupied(s, Home(s[i].key.value, n), Dist(Home(s[i].key.value, n), i, n));
        }
      } else {
        FindEmptyMeansAbsent(s, key);
        forall i | 0 <= i < n && s'[i].key.Some?
          ensures PathOccupied(s', Home(s'[i].key.value, n), Dist(Home(s'[i].key.value, n), i, n))
        {
          if i == idx {
            DistOfProbe(h, e, n);
            forall d | 0 <= d < e ensures Occupied(s', Probe(h, d, n)) {
              assert !Fits(s, key, Probe(h, d, n));
            }
          } else {
            var hi := Home(s[i].key.value, n);
            assert PathOccupied(s, hi, Dist(hi, i, n));
          }
        }
      }
    }
  }

  /** `set_table` fails, leaving the table unchanged, exactly when every slot
      holds a key different from `key`. */
  lemma SetFailsIffFull<V>(s: seq<Slot<V>>, key: Bytes, value: Option<V>)
    requires |s| > 0
    ensures !SetSlots(s, key, value).0 <==> forall i :: 0 <= i < |s| ==> s[i].key.Some? && s[i].key != Some(key)
    ensures !SetSlots(s, key, value).0 ==> SetSlots(s, key, value).1 == s
  {
    var n := |s|;
    var h := Home(key, n);
    var r := FindFrom(s, key, h, 0);
    if r.None? {
      forall i | 0 <= i < n ensures s[i].key.Some? && s[i].key != Some(key) {
        ProbeOfDist(h, i, n);
        assert !Fits(s, key, Probe(h, Dist(h, i, n), n));
      }
    }
  }

  /** A successful `set_table` changes exactly one slot, one that was unused
      or held `key`, to hold `key` and `value`. */
  lemma SetChangesOneSlot<V>(s: seq<Slot<V>>, key: Bytes, value: Option<V>)
    requires |s| > 0 && SetSlots(s, key, value).0
    ensures exists idx :: (0 <= idx < |s| && Fits(s, key, idx) &&
                           SetSlots(s, key, value).1 == s[idx := Slot(Some(key), value)])
  {
    var h := Home(key, |s|);
    var idx := Probe(h, FindFrom(s, key, h, 0).value, |s|);
    assert Fits(s, key, idx);
  }

  /** After a successful `set_table(key, value)`, `get_table(key)` reports
      found with `value`. */
  lemma SetThenLookup<V>(s: seq<Slot<V>>, key: Bytes, value: Option<V>)
    requires WellFormed(s) && |s| > 0 && SetSlots(s, key, value).0
    ensures Lookup(SetSlots(s, key, value).1, key) == (true, value)
  {
    var h := Home(key, |s|);
    var idx := Probe(h, FindFrom(s, key, h, 0).value, |s|);
    SetPreservesWellFormed(s, key, value);
    LookupStored(SetSlots(s, key, value).1, key, idx);
  }

  /** After a successful `clear_table(key)`, `get_table(key)` still reports
      found, now with a NULL value: the key stays in its slot. */
  lemma ClearThenLookup<V>(s: seq<Slot<V>>, key: Bytes)
    requires WellFormed(s) && |s| > 0 && SetSlots(s, key, None).0
    ensures Lookup(SetSlots(s, key, None).1, key) == (true, None)
  {
    SetThenLookup(s, key, None);
  }

  /** `set_table` never empties or rekeys a slot: stored keys only accumulate. */
  lemma SetKeepsKeys<V>(s: seq<Slot<V>>, key: Bytes, value: Option<V>)
    requires |s| > 0
    ensures |SetSlots(s, key, value).1| == |s|
    ensures forall i :: 0 <= i < |s| && s[i].key.Some? ==> SetSlots(s, key, value).1[i].key == s[i].key
  {
  }

  /** `set_table` leaves every other key's lookup as it was. */
  lemma SetKeepsOtherLookups<V>(s: seq<Slot<V>>, key: Bytes, value: Option<V>, other: Bytes)
    requires WellFormed(s) && |s| > 0 && other != key
    ensures Lookup(SetSlots(s, key, value).1, other) == Lookup(s, other)
  {
    var s' := SetSlots(s, key, value).1;
    SetPreservesWellFormed(s, key, value);
    if Present(s, other) {
      var i :| 0 <= i < |s| && s[i].key == Some(other);
      LookupStored(s, other, i);
      LookupStored(s', other, i);
    } else {
      LookupMissing(s, other);
      LookupMissing(s', other);
    }
  }

  /** The directory itself: `size` slots updated in place. */
  class Table<V> {
    var size: nat
    var storage: array<Slot<V>>

    ghost predicate Valid()
      reads this, storage
    {
      storage.Length == size && WellFormed(storage[..])
    }

    /** The table `init_table` builds once both allocations succeed. */
    constructor (size: nat)
      ensures Valid() && fresh(storage) && this.size == size
      ensures storage[..] == seq(size, _ => Slot(None, None))
    {
      this.size := size;
      storage := new Slot<V>[size](_ => Slot(None, None));
      new;
      EmptyIsWellFormed(storage[..]);
    }

    /** `init_table`: NULL when the allocator grants fewer than the two
        blocks it asks for (`available` counts the grants). */
    static method Init(size: nat, available: nat) returns (t: Table?<V>)
      ensures t == null <==> available < 2
      ensures t != null ==> fresh(t) && fresh(t.storage) && t.Valid() && t.size == size
      ensures t != null ==> forall i :: 0 <= i < size ==> t.storage[i] == Slot(None, None)
    {
      if available < 2 {
        return null;
      }
      t := new Table(size);
    }

    /** `set_table`: probe from the home slot and write into the first slot
        that is unused or already holds `key`. */
    method Set(key: Bytes, value: Option<V>) returns (ok: bool)
      requires Valid() && size > 0
      modifies storage
      ensures Valid()
      ensures (ok, storage[..]) == SetSlots(old(storage[..]), key, value)
    {
      ghost var s0 := storage[..];
      var h := Djb2.Hash(key) % size;
      var i := 0;
      while i < size
        invariant 0 <= i <= size && storage[..] == s0
        invariant FindFrom(s0, key, h, i) == FindFrom(s0, key, h, 0)
      {
        var index := (h + i) % size;
        if storage[index].key.None? {
          storage[index] := Slot(Some(key), value);
          SetPreservesWellFormed(s0, key, value);
          return true;
        } else if storage[index].key == Some(key) {
          storage[index] := storage[index].(value := value);
          SetPreservesWellFormed(s0, key, value);
          return true;
        }
        i := i + 1;
      }
      return false;
    }

    /** `clear_table`: `set_table` with a NULL value. */
    method Clear(key: Bytes) returns (ok: bool)
      requires Valid() && size > 0
      modifies storage
      ensures Valid()
      ensures (ok, storage[..]) == SetSlots(old(storage[..]), key, None)
    {
      ok := Set(key, None);
    }

    /** `get_table`: NULL and not found when the home slot is unused;
        otherwise scan the whole probe for a slot holding `key`. */
    method Get(key: Bytes) returns (found: bool, result: Option<V>)
      requires Valid() && size > 0
      ensures (found, result) == Lookup(storage[..], key)
      ensures found <==> Present(storage[..], key)
      ensures !found ==> result.None?
    {
      ghost var s := storage[..];
      LookupCorrect(s, key);
      var h := Djb2.Hash(key) % size;
      if storage[h].key.None? {
        return false, None;
      }
      var i := 0;
      while i < size
        invariant 0 <= i <= size
        invariant ScanFrom(s, key, h, i) == ScanFrom(s, key, h, 0)
      {
        var index := (h + i) % size;
        if storage[index].key.Some? && storage[index].key == Some(key) {
          return true, storage[index].value;
        }
        i := i + 1;
      }
      return false, None;
    }
  }
}
