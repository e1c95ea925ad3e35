/** The recent-messages ring: a fixed-capacity circular buffer with `head`
    (newest) and `tail` (oldest) cursors that start at the -1 sentinel. */
module History {
  import opened Common

  const INVALID_ADDRESS: int := -1

  function Min(a: nat, b: nat): nat {
    if a < b then a else b
  }

  /** The slot `d` steps behind slot `h` in a ring of `n` slots. */
  function Back(h: nat, d: nat, n: nat): (i: nat)
    requires h < n && d < n
    ensures i < n
  {
    if d <= h then h - d else h + n - d
  }

  /** Advancing a cursor by one and reducing modulo `n` wraps to 0 at the end. */
  lemma ModStep(k: nat, n: nat)
    requires n > 0
    ensures (k + 1) % n == if k % n + 1 == n then 0 else k % n + 1
  {
    var q, r := k / n, k % n;
    assert k == q * n + r;
    if r + 1 == n {
      ModOfSum(k + 1, q + 1, 0, n);
    } else {
      ModOfSum(k + 1, q, r + 1, n);
    }
  }

  /** After `k + 1` pushes the head sits on `k % n`. */
  lemma HeadAfterPush(h0: nat, k: nat, n: nat)
    requires h0 < n && h0 == k % n
    ensures Next(h0, n) == (k + 1) % n
  {
    ModStep(k, n);
    NextIsMod(h0, n);
  }

  lemma BackStep(h: nat, d: nat, n: nat)
    requires h < n && d + 1 < n
    ensures Back(if h + 1 == n then 0 else h + 1, d + 1, n) == Back(h, d, n)
  {
  }

  lemma BackInjective(h: nat, d1: nat, d2: nat, n: nat)
    requires h < n && d1 < n && d2 < n && d1 != d2
    ensures Back(h, d1, n) != Back(h, d2, n)
  {
  }

  /** `get_head`'s index arithmetic, `(head + size - index) % size`. */
  lemma HeadIndex(h: nat, d: nat, n: nat)
    requires h < n && d < n
    ensures (h + n - d) % n == Back(h, d, n)
  {
    if d <= h {
      ModOfSum(h + n - d, 1, h - d, n);
    } else {
      ModOfSum(h + n - d, 0, h + n - d, n);
    }
  }

  /** `get_tail`'s index arithmetic, `(tail + index) % size`, when the tail is
      `c` steps behind the head. */
  lemma TailIndex(h: nat, c: nat, i: nat, n: nat)
    requires h < n && i <= c < n
    ensures (Back(h, c, n) + i) % n == Back(h, c - i, n)
  {
    var t := Back(h, c, n);
    if t + i < n {
      ModOfSum(t + i, 0, t + i, n);
    } else {
      ModOfSum(t + i, 1, t + i - n, n);
    }
  }

  /** The slot after `i` in a ring of `n` slots. */
  function Next(i: nat, n: nat): (j: nat)
    requires i < n
    ensures j < n
  {
    if i + 1 == n then 0 else i + 1
  }

  /** The source's `(i + 1) % size` is `Next`. */
  lemma NextIsMod(i: nat, n: nat)
    requires i < n
    ensures (i + 1) % n == Next(i, n)
  {
    if i + 1 == n {
      ModOfSum(i + 1, 1, 0, n);
    } else {
      ModOfSum(i + 1, 0, i + 1, n);
    }
  }

  /** The ring's invariant over values: `s` the slots, `pushed` every item
      pushed so far, `n` the capacity. The newest item sits under `head`, the
      `Min(|pushed|, n)` items the ring still holds sit behind it, and `tail`
      is on the oldest of them. */
  ghost predicate RingInv<T>(s: seq<T>, pushed: seq<T>, head: int, tail: int, n: nat) {
    && n <= |s|
    && (pushed == [] ==> head == INVALID_ADDRESS && tail == INVALID_ADDRESS)
    && (pushed != [] ==>
          && 0 < n
          && 0 <= head < n && 0 <= tail < n
          && tail == Back(head, Min(|pushed|, n) - 1, n)
          && forall d :: 0 <= d < Min(|pushed|, n) ==> s[Back(head, d, n)] == pushed[|pushed| - 1 - d])
  }

  /** The cursor arithmetic of one push onto a ring holding `k` items: the
      advanced head meets the tail exactly when the ring is full, and the
      tail that follows is the oldest of the items then held. */
  lemma AdvanceCursors(h0: nat, t0: nat, k: nat, n: nat)
    requires h0 < n && 1 <= k
    requires t0 == Back(h0, Min(k, n) - 1, n)
    ensures (Next(h0, n) == t0) <==> k >= n
    ensures (if Next(h0, n) == t0 then Next(t0, n) else t0) == Back(Next(h0, n), Min(k + 1, n) - 1, n)
  {
    assert Next(h0, n) == Back(h0, n - 1, n);
    if k < n {
      BackInjective(h0, k - 1, n - 1, n);
      BackStep(h0, k - 1, n);
    }
  }

  /** One push keeps the ring invariant; it evicts exactly when the ring
      already held `n` items. */
  lemma PushKeepsInv<T>(s: seq<T>, pushed: seq<T>, h0: int, t0: int, n: nat, data: T)
    requires RingInv(s, pushed, h0, t0, n) && n > 0
    ensures h0 != INVALID_ADDRESS ==> ((Next(h0, n) == t0) <==> |pushed| >= n)
    ensures var h := if h0 == INVALID_ADDRESS then 0 else Next(h0, n);
            var t := if h0 == INVALID_ADDRESS then 0 else if h == t0 then Next(t0, n) else t0;
            RingInv(s[h := data], pushed + [data], h, t, n)
  {
    if h0 != INVALID_ADDRESS {
      var h := Next(h0, n);
      var s', p', k := s[h := data], pushed + [data], |pushed|;
      AdvanceCursors(h0, t0, k, n);
      forall d | 0 <= d < Min(k + 1, n)
        ensures s'[Back(h, d, n)] == p'[|p'| - 1 - d]
      {
        if d > 0 {
          BackStep(h0, d - 1, n);
          BackInjective(h, 0, d, n);
        }
      }
    }
  }

  class RecentMessages<T(0)> {
    /** The `u16` capacity field; `init` stores its `size_t` argument in it. */
    var size: nat
    var head: int
    var tail: int
    var storage: array<T>
    /** Every item pushed so far, oldest first. */
    ghost var Pushed: seq<T>

    /** How many of the pushed items the ring still holds. */
    ghost function Count(): nat
      reads this
    {
      Min(|Pushed|, size)
    }

    ghost predicate Valid()
      reads this, storage
    {
      && size <= storage.Length
      && RingInv(storage[..], Pushed, head, tail, size)
      && (Pushed != [] ==> head == (|Pushed| - 1) % size)
    }

    /** The buffer `init_recent_messages` returns once every allocation
        succeeds; the capacity is truncated to the 16-bit field. */
    constructor (n: nat)
      ensures Valid() && fresh(storage) && storage.Length == n
      ensures size == n % 0x1_0000 && head == INVALID_ADDRESS && tail == INVALID_ADDRESS
      ensures Pushed == []
    {
      storage := new T[n];
      size := n % 0x1_0000;
      head := INVALID_ADDRESS;
      tail := INVALID_ADDRESS;
      Pushed := [];
    }

    /** `init_recent_messages`: one block for the record, one for the slot
        table and one per slot; NULL as soon as the allocator refuses one
        (`available` counts the blocks it grants). */
    static method Init(n: nat, available: nat) returns (r: RecentMessages?<T>)
      ensures r == null <==> available < n + 2
      ensures r != null ==> fresh(r) && fresh(r.storage) && r.Valid() && r.storage.Length == n
      ensures r != null ==> r.size == n % 0x1_0000 && r.head == INVALID_ADDRESS && r.tail == INVALID_ADDRESS
      ensures r != null ==> r.Pushed == []
    {
      if available < n + 2 {
        return null;
      }
      r := new RecentMessages(n);
    }

    /** `add_recent_messages`: the first push puts both cursors on slot 0;
        later pushes advance `head`, and advance `tail` too (evicting the
        oldest item) when `head` lands on it. */
    method Push(data: T) returns (replaced: bool)
      requires Valid() && size > 0
      modifies this, storage
      ensures Valid() && storage == old(storage) && size == old(size)
      ensures Pushed == old(Pushed) + [data]
      ensures old(head) == INVALID_ADDRESS ==> head == 0 && tail == 0 && !replaced
      ensures old(head) != INVALID_ADDRESS ==> head == (old(head) + 1) % size
      ensures old(head) != INVALID_ADDRESS ==>
        replaced == (head == old(tail)) &&
        tail == if replaced then (old(tail) + 1) % size else old(tail)
      ensures replaced <==> |old(Pushed)| >= size
      ensures storage[..] == old(storage[..])[head := data]
    {
      ghost var s0 := storage[..];
      PushKeepsInv(s0, Pushed, head, tail, size, data);
      var h, t := head, tail;
      replaced := false;
      if h == INVALID_ADDRESS {
        h := 0;
        t := 0;
      } else {
        HeadAfterPush(h, |Pushed| - 1, size);
        NextIsMod(h, size);
        NextIsMod(t, size);
        h := (h + 1) % size;
        if h == t {
          t := (t + 1) % size;
          replaced := true;
        }
      }
      head, tail := h, t;
      storage[h] := data;
      Pushed := Pushed + [data];
    }

    /** `get_head_recent_messages`: the item `index` places before the newest. */
    method GetHead(index: nat, result: T) returns (ok: bool, r: T)
      requires Valid()
      ensures ok <==> Pushed != [] && index < size
      ensures !ok ==> r == result
      ensures ok ==> r == storage[(head + size - index) % size]
      ensures ok && index < |Pushed| ==> r == Pushed[|Pushed| - 1 - index]
    {
      if head == INVALID_ADDRESS {
        return false, result;
      }
      if index >= size {
        return false, result;
      }
      var realIndex := (head + size - index) % size;
      HeadIndex(head, index, size);
      return true, storage[realIndex];
    }

    /** `get_tail_recent_messages`: the item `index` places after the oldest
        one the ring still holds. */
    method GetTail(index: nat, result: T) returns (ok: bool, r: T)
      requires Valid()
      ensures ok <==> Pushed != [] && index < size
      ensures !ok ==> r == result
      ensures ok ==> r == storage[(tail + index) % size]
      ensures ok && index < Count() ==> r == Pushed[|Pushed| - Count() + index]
    {
      if tail == INVALID_ADDRESS {
        return false, result;
      }
      if index >= size {
        return false, result;
      }
      var realIndex := (tail + index) % size;
      if index < Count() {
        TailIndex(head, Count() - 1, index, size);
      }
      return true, storage[realIndex];
    }
  }

  /** A ring of capacity 2 fed three messages replays the last two, oldest
      first, and the third push reports the eviction. */
  method ReplayAfterOverflow<T(0)>(m1: T, m2: T, m3: T, junk: T) returns (evicted: bool, oldest: T, newest: T)
    ensures evicted && oldest == m2 && newest == m3
  {
    var ring := new RecentMessages<T>(2);
    var e1 := ring.Push(m1);
    var e2 := ring.Push(m2);
    evicted := ring.Push(m3);
    var ok0, ok1;
    ok0, oldest := ring.GetTail(0, junk);
    ok1, newest := ring.GetTail(1, junk);
  }
}
