/** The transmit context pool (`priv->tx_context[]`): a fixed array of
    `MCBA_MAX_TX_URBS` slots, each free (`ndx == MCBA_CTX_FREE`) or tagged
    with its own index. This module states the pool's operations on the
    array's contents; `Driver.McbaPriv` runs them in place on the array. */
module TxPool {
  import opened Wire

  /** `struct mcba_usb_ctx`: slot tag, whether `priv` points to the owning
      device (set on acquire, cleared on release), the frame's dlc byte and
      whether the transfer carries a CAN frame. */
  datatype Ctx = Ctx(ndx: int, owned: bool, dlc: Byte, can: bool)

  /** The pool invariant: every slot is free or carries its own index. */
  predicate WellFormed(s: seq<Ctx>, free: int) {
    forall i :: 0 <= i < |s| ==> s[i].ndx == free || s[i].ndx == i
  }

  /** The free marker is not a slot index. */
  predicate FreeMarker(s: seq<Ctx>, free: int) {
    free < 0 || free >= |s|
  }

  /** The lowest free slot at or after `i`. */
  function FirstFreeFrom(s: seq<Ctx>, free: int, i: nat): (r: Option<nat>)
    requires i <= |s|
    decreases |s| - i
    ensures r.Some? ==> i <= r.value < |s| && s[r.value].ndx == free
    ensures r.Some? ==> forall j :: i <= j < r.value ==> s[j].ndx != free
    ensures r.None? <==> forall j :: i <= j < |s| ==> s[j].ndx != free
  {
    if i == |s| then None
    else if s[i].ndx == free then Some(i)
    else FirstFreeFrom(s, free, i + 1)
  }

  /** The slot the linear scan of `mcba_usb_get_free_ctx` stops at. */
  function FirstFree(s: seq<Ctx>, free: int): (r: Option<nat>)
    ensures r.Some? ==> r.value < |s| && s[r.value].ndx == free
    ensures r.Some? ==> forall j :: 0 <= j < r.value ==> s[j].ndx != free
    ensures r.None? <==> forall j :: 0 <= j < |s| ==> s[j].ndx != free
  {
    FirstFreeFrom(s, free, 0)
  }

  /** Slot `k` taken: tagged with its index and bound to the device. */
  function Claim(s: seq<Ctx>, k: nat): seq<Ctx>
    requires k < |s|
  {
    s[k := s[k].(ndx := k, owned := true)]
  }

  /** `mcba_usb_get_free_ctx`: the new pool and the acquired slot, if any. */
  function Acquire(s: seq<Ctx>, free: int): (r: (seq<Ctx>, Option<nat>))
    ensures r.1.None? <==> forall i :: 0 <= i < |s| ==> s[i].ndx != free
    ensures r.1.None? ==> r.0 == s
    ensures r.1.Some? ==>
      var k := r.1.value;
      && k < |s| && s[k].ndx == free
      && (forall j :: 0 <= j < k ==> s[j].ndx != free)
      && |r.0| == |s|
      && r.0[k] == s[k].(ndx := k, owned := true)
      && (forall j :: 0 <= j < |s| && j != k ==> r.0[j] == s[j])
    ensures WellFormed(s, free) ==> WellFormed(r.0, free)
  {
    match FirstFree(s, free)
    case None => (s, None)
    case Some(k) => (Claim(s, k), Some(k))
  }

  /** `mcba_usb_free_ctx`: slot `k` reset to free, unbound, dlc 0, no frame. */
  function Release(s: seq<Ctx>, k: nat, free: int): (r: seq<Ctx>)
    requires k < |s|
    ensures |r| == |s| && r[k] == Ctx(free, false, 0, false)
    ensures forall j :: 0 <= j < |s| && j != k ==> r[j] == s[j]
    ensures WellFormed(s, free) ==> WellFormed(r, free)
  {
    s[k := Ctx(free, false, 0, false)]
  }

  /** `mcba_init_ctx`: every tag set to free; the other fields are left as they were. */
  function Reset(s: seq<Ctx>, free: int): (r: seq<Ctx>)
    ensures |r| == |s| && WellFormed(r, free)
    ensures forall i :: 0 <= i < |s| ==> r[i] == s[i].(ndx := free)
  {
    seq(|s|, i requires 0 <= i < |s| => s[i].(ndx := free))
  }

  /** Number of free slots. */
  function FreeCount(s: seq<Ctx>, free: int): nat {
    if |s| == 0 then 0
    else (if s[|s| - 1].ndx == free then 1 else 0) + FreeCount(s[..|s| - 1], free)
  }

  /** Live slots are the occupied ones; no two of them share a tag, and a
      tag names its own slot, so the echo index of a transfer is unique. */
  lemma LiveIdsUnique(s: seq<Ctx>, free: int, i: nat, j: nat)
    requires WellFormed(s, free)
    requires i < |s| && j < |s| && i != j
    requires s[i].ndx != free && s[j].ndx != free
    ensures s[i].ndx != s[j].ndx
    ensures s[i].ndx == i && s[j].ndx == j
  {
  }

  /** Replacing one slot changes the free count by the difference of the two tags. */
  lemma {:induction false} FreeCountUpdate(s: seq<Ctx>, free: int, k: nat, c: Ctx)
    requires k < |s|
    ensures FreeCount(s[k := c], free) + (if s[k].ndx == free then 1 else 0)
         == FreeCount(s, free) + (if c.ndx == free then 1 else 0)
  {
    var t := s[k := c];
    var n := |s| - 1;
    assert t[..n] == if k == n then s[..n] else s[..n][k := c];
    if k < n {
      FreeCountUpdate(s[..n], free, k, c);
    }
  }

  /** The scan finds a slot exactly when the free count is positive. */
  lemma {:induction false} FreeCountZero(s: seq<Ctx>, free: int)
    ensures FreeCount(s, free) == 0 <==> forall i :: 0 <= i < |s| ==> s[i].ndx != free
  {
    if |s| > 0 {
      var n := |s| - 1;
      FreeCountZero(s[..n], free);
      assert forall i :: 0 <= i < n ==> s[..n][i] == s[i];
    }
  }

  /** Every successful acquire takes exactly one free slot. */
  lemma AcquireTakesOne(s: seq<Ctx>, free: int)
    requires FreeMarker(s, free)
    ensures Acquire(s, free).1.Some? <==> FreeCount(s, free) > 0
    ensures Acquire(s, free).1.Some? ==> FreeCount(Acquire(s, free).0, free) == FreeCount(s, free) - 1
  {
    FreeCountZero(s, free);
    var r := Acquire(s, free);
    if r.1.Some? {
      var k := r.1.value;
      FreeCountUpdate(s, free, k, s[k].(ndx := k, owned := true));
    }
  }

  /** Every release of an occupied slot frees exactly one slot. */
  lemma ReleaseFreesOne(s: seq<Ctx>, free: int, k: nat)
    requires k < |s| && s[k].ndx != free
    ensures FreeCount(Release(s, k, free), free) == FreeCount(s, free) + 1
  {
    FreeCountUpdate(s, free, k, Ctx(free, false, 0, false));
  }

  /** `m` acquires in a row, without release: the final pool and the results. */
  function AcquireTimes(s: seq<Ctx>, free: int, m: nat): (seq<Ctx>, seq<Option<nat>>)
    decreases m
  {
    if m == 0 then (s, [])
    else
      var a := Acquire(s, free);
      var b := AcquireTimes(a.0, free, m - 1);
      (b.0, [a.1] + b.1)
  }

  /** With `c` free slots, `c` acquires in a row all succeed and leave no
      free slot, so the next one fails; the pool stays well formed. */
  lemma {:induction false} AcquireUntilExhausted(s: seq<Ctx>, free: int, m: nat)
    requires FreeMarker(s, free) && WellFormed(s, free)
    requires m <= FreeCount(s, free)
    ensures var (s', rs) := AcquireTimes(s, free, m);
      && |s'| == |s| && WellFormed(s', free)
      && FreeCount(s', free) == FreeCount(s, free) - m
      && |rs| == m && (forall i :: 0 <= i < m ==> rs[i].Some?)
      && (m == FreeCount(s, free) ==> Acquire(s', free).1.None?)
    decreases m
  {
    AcquireTakesOne(s, free);
    if m > 0 {
      var a := Acquire(s, free);
      AcquireUntilExhausted(a.0, free, m - 1);
      var b := AcquireTimes(a.0, free, m - 1);
      assert AcquireTimes(s, free, m) == (b.0, [a.1] + b.1);
      assert forall i :: 1 <= i < m ==> ([a.1] + b.1)[i] == b.1[i - 1];
    } else {
      FreeCountZero(s, free);
    }
  }

  /** After `mcba_init_ctx` every slot is free. */
  lemma {:induction false} ResetAllFree(s: seq<Ctx>, free: int)
    ensures FreeCount(Reset(s, free), free) == |s|
  {
    if |s| > 0 {
      var n := |s| - 1;
      assert Reset(s, free)[..n] == Reset(s[..n], free);
      ResetAllFree(s[..n], free);
    }
  }

  /** The state after `m` acquires from a freshly initialised pool: the
      first `m` slots are taken in index order, the rest are still free. */
  predicate TakenPrefix(s: seq<Ctx>, free: int, m: nat) {
    && m <= |s|
    && (forall i :: 0 <= i < m ==> s[i].ndx == i)
    && (forall i :: m <= i < |s| ==> s[i].ndx == free)
  }

  /** `m` acquires on a pool whose first `done` slots are taken and whose
      other slots are free take the next `m` slots. */
  lemma {:induction false} FreshAcquiresFrom(s: seq<Ctx>, free: int, done: nat, m: nat)
    requires FreeMarker(s, free) && TakenPrefix(s, free, done)
    requires done + m <= |s|
    ensures var r := AcquireTimes(s, free, m);
      |r.0| == |s| && TakenPrefix(r.0, free, done + m)
    decreases m
  {
    if m > 0 {
      AcquireNext(s, free, done);
      FreshAcquiresFrom(Acquire(s, free).0, free, done + 1, m - 1);
    }
  }

  /** ... and hand out `done`, `done + 1`, ... in order. */
  lemma {:induction false} FreshAcquiresInOrder(s: seq<Ctx>, free: int, done: nat, m: nat)
    requires FreeMarker(s, free) && TakenPrefix(s, free, done)
    requires done + m <= |s|
    ensures var r := AcquireTimes(s, free, m);
      |r.1| == m && forall i :: 0 <= i < m ==> r.1[i] == Some(done + i)
    decreases m
  {
    if m > 0 {
      var a := Acquire(s, free);
      AcquireNext(s, free, done);
      FreshAcquiresInOrder(a.0, free, done + 1, m - 1);
      var b := AcquireTimes(a.0, free, m - 1);
      var rs := [a.1] + b.1;
      assert forall i :: 1 <= i < m ==> rs[i] == b.1[i - 1];
    }
  }

  /** One acquire on a pool whose first `done` slots are taken hands out slot `done`. */
  lemma AcquireNext(s: seq<Ctx>, free: int, done: nat)
    requires FreeMarker(s, free) && TakenPrefix(s, free, done) && done < |s|
    ensures Acquire(s, free).1 == Some(done)
    ensures |Acquire(s, free).0| == |s| && TakenPrefix(Acquire(s, free).0, free, done + 1)
  {
    assert s[done].ndx == free;
  }

  /** From a freshly initialised pool of `n` slots, the ids handed out by
      `n` acquires are 0, 1, ..., n-1 and the (n+1)-th acquire fails. */
  lemma FreshPoolExhausts(s: seq<Ctx>, free: int)
    requires FreeMarker(s, free)
    ensures var r := AcquireTimes(Reset(s, free), free, |s|);
      && |r.1| == |s| && (forall i :: 0 <= i < |s| ==> r.1[i] == Some(i))
      && Acquire(r.0, free).1.None?
  {
    var r := Reset(s, free);
    assert TakenPrefix(r, free, 0);
    FreshAcquiresFrom(r, free, 0, |s|);
    FreshAcquiresInOrder(r, free, 0, |s|);
    var b := AcquireTimes(r, free, |s|);
    assert forall i :: 0 <= i < |b.0| ==> b.0[i].ndx != free;
  }

  /** On a full pool, releasing one slot lets exactly one more acquire
      succeed, and it hands out the released slot. */
  lemma ReleaseOnFullPool(s: seq<Ctx>, free: int, k: nat)
    requires FreeMarker(s, free) && WellFormed(s, free)
    requires k < |s| && FreeCount(s, free) == 0
    ensures var (s1, r1) := Acquire(Release(s, k, free), free);
      r1 == Some(k) && Acquire(s1, free).1.None?
  {
    FreeCountZero(s, free);
    var t := Release(s, k, free);
    var (s1, r1) := Acquire(t, free);
    assert r1 == Some(k);
    assert s1 == t[k := t[k].(ndx := k, owned := true)];
    assert forall i :: 0 <= i < |s1| ==> s1[i].ndx != free;
  }
}
