/** The transfer-request ring as values: what prepXfer writes into the ring
    and the counter, what checkXfer reads back and what postXfer enqueues
    (src/plugins/doca/doca_backend.cpp:543-642). The engine's methods are
    proved against these functions; the lemmas say what the functions mean. */
module XferRing {
  import opened DocaTypes

  function Min(a: nat, b: nat): nat {
    if a <= b then a else b
  }

  // ---------------------------------------------------------------------
  // Filling one slot

  /** Index of the first pair in [from, m) whose two lengths differ, or m
      when there is none: where prepXfer's per-pair length check fires. */
  function FirstMismatch(local: seq<Desc>, remote: seq<Desc>, from: nat, m: nat): (i: nat)
    requires from <= m <= |local| && m <= |remote|
    ensures from <= i <= m
    ensures forall k :: from <= k < i ==> local[k].len == remote[k].len
    ensures i < m ==> local[i].len != remote[i].len
    decreases m - from
  {
    if from == m then m
    else if local[from].len != remote[from].len then from
    else FirstMismatch(local, remote, from + 1, m)
  }

  /** Entry i of a slot written from the i-th local and remote descriptor
      (both buffer arrays and the local length), followed by `num++`. */
  function Put(s: Slot, i: nat, l: Desc, r: Desc): (t: Slot)
    requires SlotShaped(s) && i < K
    ensures SlotShaped(t)
  {
    Slot(s.larr[i := l.barr], s.rarr[i := r.barr], s.size[i := l.len], Inc16(s.num))
  }

  /** A slot after prepXfer's inner loop has run for indices 0 .. k-1:
      entries below k taken from local[0..k) and remote[0..k), the entries
      from k on as they were, and `num` raised by k modulo 2^16. */
  function FillSlot(s: Slot, local: seq<Desc>, remote: seq<Desc>, k: nat): (t: Slot)
    requires SlotShaped(s) && k <= K && k <= |local| && k <= |remote|
    ensures SlotShaped(t)
  {
    Slot(seq(K, i requires 0 <= i < K => if i < k then local[i].barr else s.larr[i]),
         seq(K, i requires 0 <= i < K => if i < k then remote[i].barr else s.rarr[i]),
         seq(K, i requires 0 <= i < K => if i < k then local[i].len else s.size[i]),
         ((s.num as int + k) % U16) as u16)
  }

  /** What the inner loop leaves in a slot after k passes: entries 0 .. k-1
      come from local[0..k) and remote[0..k) whichever slot of the request
      it is, the entries from k on keep their old values, and `num` has
      gone up by k from whatever it held before, modulo 2^16. */
  lemma FillSlotContents(s: Slot, local: seq<Desc>, remote: seq<Desc>, k: nat)
    requires SlotShaped(s) && k <= K && k <= |local| && k <= |remote|
    ensures var t := FillSlot(s, local, remote, k);
            && (forall i :: 0 <= i < k ==>
                  t.larr[i] == local[i].barr && t.rarr[i] == remote[i].barr && t.size[i] == local[i].len)
            && (forall i :: k <= i < K ==> t.larr[i] == s.larr[i] && t.rarr[i] == s.rarr[i] && t.size[i] == s.size[i])
            && (s.num as int + k < U16 ==> t.num as int == s.num as int + k)
            && (s.num as int + k >= U16 ==> t.num as int == s.num as int + k - U16)
  {
  }

  /** `num` is never reset between requests: a slot zeroed at start-up and
      then filled to capacity by two requests (the ring having come round
      once) counts 2K entries, and checkXfer reports ERR_BACKEND for it. */
  lemma ReusedSlotOverflows(s: Slot, local: seq<Desc>, remote: seq<Desc>)
    requires SlotShaped(s) && s.num == 0 && K <= |local| && K <= |remote|
    ensures var t := FillSlot(FillSlot(s, local, remote, K), local, remote, K);
            t.num as int == 2 * K && CheckFrom([t], 0, 1) == ErrBackend
  {
    var t := FillSlot(FillSlot(s, local, remote, K), local, remote, K);
    assert t.num as int == 2 * K;
    assert CheckFrom([t], 1, 1) == Success;
  }

  /** Writing entry k of a slot filled up to k, and counting it, gives the
      slot filled up to k + 1: the entry-by-entry loop computes FillSlot. */
  lemma FillSlotStep(s: Slot, local: seq<Desc>, remote: seq<Desc>, k: nat)
    requires SlotShaped(s) && k < K && k < |local| && k < |remote|
    ensures Put(FillSlot(s, local, remote, k), k, local[k], remote[k]) == FillSlot(s, local, remote, k + 1)
  {
    var t, u := Put(FillSlot(s, local, remote, k), k, local[k], remote[k]), FillSlot(s, local, remote, k + 1);
    assert t.larr == u.larr;
    assert t.rarr == u.rarr;
    assert t.size == u.size;
    ModAddOne(s.num as int + k);
  }

  /** Before the inner loop has run, the slot is as it was. */
  lemma FillSlotNone(s: Slot, local: seq<Desc>, remote: seq<Desc>)
    requires SlotShaped(s)
    ensures FillSlot(s, local, remote, 0) == s
  {
    var t := FillSlot(s, local, remote, 0);
    assert t.larr == s.larr;
    assert t.rarr == s.rarr;
    assert t.size == s.size;
  }

  lemma ModAddOne(x: nat)
    ensures (x % U16 + 1) % U16 == (x + 1) % U16
  {
  }

  // ---------------------------------------------------------------------
  // Reserving and filling a range of slots

  /** Ring positions a request of n pairs reserves: ceil(n / K). */
  function Reserved(n: nat): nat {
    (n + K - 1) / K
  }

  /** Pairs the j-th reserved slot of a request of n pairs receives: what is
      left of n after j full slots, capped at K. */
  function Take(n: nat, j: nat): nat
    requires K * j < n
  {
    Min(n - K * j, K)
  }

  /** Reserved(n) is the ceiling of n / K: slot j exists exactly when
      the j full slots before it leave pairs over. */
  lemma ReservedIsCeiling(n: nat, j: nat)
    ensures K * j < n <==> j < Reserved(n)
  {
    DivMod(n + K - 1, K);
  }

  /** After slot j has taken its K pairs, n - K * (j + 1) pairs are left. */
  lemma NextShare(n: nat, j: nat)
    ensures n - K * (j + 1) == n - K * j - K
  {
  }

  /** The j-th `fetch_add(1)` from counter value c masks to Pos(c, j) and
      leaves the counter at c + j + 1 modulo 2^32. */
  lemma NextPosition(c: u32, j: nat)
    ensures RingIndex(AddWrap32(c, j)) == Pos(c, j)
    ensures AddWrap32(AddWrap32(c, j), 1) == AddWrap32(c, j + 1)
  {
    RingIndexAcrossWrap(c, j);
    AddWrap32Step(c, j);
  }

  /** Ring index of the j-th reservation made from counter value c; the
      engine computes it by masking the wrapped counter (RingIndexAcrossWrap). */
  function Pos(c: u32, j: nat): nat {
    (c as int + j) % R
  }

  /** How many reservations after counter value c reach ring index p. */
  function Offset(c: u32, p: nat): nat {
    (p - c as int) % R
  }

  /** The outcome of prepXfer's slot loop: the status, the ring afterwards,
      and how many ring positions it reserved. */
  datatype Fill = Fill(status: Status, ring: seq<Slot>, reserved: nat)

  /** prepXfer's slot loop from its j-th reserved slot on, for n pairs and
      counter value c at entry. Every slot is filled from pair 0 on; the
      length check returns ErrInvalidParam in the middle of a slot, leaving
      what was written so far and the positions reserved so far. */
  function FillFrom(ring: seq<Slot>, c: u32, n: nat, j: nat,
                    local: seq<Desc>, remote: seq<Desc>): (f: Fill)
    requires RingShaped(ring) && n <= |local| && n <= |remote|
    ensures RingShaped(f.ring)
    decreases n - K * j
  {
    if n <= K * j then Fill(Success, ring, j)
    else
      var p := Pos(c, j);
      var m := Take(n, j);
      var i := FirstMismatch(local, remote, 0, m);
      var ring' := ring[p := FillSlot(ring[p], local, remote, i)];
      if i < m then Fill(ErrInvalidParam, ring', j + 1)
      else FillFrom(ring', c, n, j + 1, local, remote)
  }

  /** What prepXfer returns and leaves behind: its status, the handle it
      hands out, the ring and the reservation counter. */
  datatype Prepared = Prepared(status: Status, handle: Option<ReqHandle>, ring: seq<Slot>, counter: u32)

  /** prepXfer on ring `ring` and counter `counter`. The counts are the
      32-bit truncated list lengths; the handle's start is masked, its end
      is the counter as it stands afterwards. */
  function PrepXferSpec(ring: seq<Slot>, counter: u32, local: seq<Desc>, remote: seq<Desc>,
                        stream: nat): Prepared
    requires RingShaped(ring)
  {
    var n := Count(local) as nat;
    if n != Count(remote) as nat || n == 0 then Prepared(ErrInvalidParam, None, ring, counter)
    else
      var f := FillFrom(ring, counter, n, 0, local, remote);
      var c' := AddWrap32(counter, f.reserved);
      Prepared(f.status,
               if f.status == Success then Some(ReqHandle(stream, (counter as int % R) as u32, c')) else None,
               f.ring, c')
  }

  /** A prefix of pairs that all pass the length check passes it too. */
  lemma FirstMismatchPrefix(local: seq<Desc>, remote: seq<Desc>, m: nat, m': nat)
    requires m <= m' <= |local| && m' <= |remote|
    requires FirstMismatch(local, remote, 0, m') == m'
    ensures FirstMismatch(local, remote, 0, m) == m
  {
  }

  /** One passing slot of the loop: fill it with its share and go on. */
  lemma FillFromStep(ring: seq<Slot>, c: u32, n: nat, j: nat, local: seq<Desc>, remote: seq<Desc>)
    requires RingShaped(ring) && n <= |local| && n <= |remote| && K * j < n
    requires FirstMismatch(local, remote, 0, Take(n, j)) == Take(n, j)
    ensures FillFrom(ring, c, n, j, local, remote) ==
      FillFrom(ring[Pos(c, j) := FillSlot(ring[Pos(c, j)], local, remote, Take(n, j))], c, n, j + 1, local, remote)
  {
  }

  /** Slots after the first never fail the length check: they re-check a
      prefix of the pairs the first slot checked. So once the first slot
      passes, the loop reserves exactly ceil(n / K) positions. */
  lemma {:induction false} FillFromLaterSlotsPass(ring: seq<Slot>, c: u32, n: nat, j: nat,
                                                  local: seq<Desc>, remote: seq<Desc>)
    requires RingShaped(ring) && n <= |local| && n <= |remote|
    requires FirstMismatch(local, remote, 0, Min(n, K)) == Min(n, K)
    requires j <= Reserved(n)
    ensures FillFrom(ring, c, n, j, local, remote).status == Success
    ensures FillFrom(ring, c, n, j, local, remote).reserved == Reserved(n)
    decreases n - K * j
  {
    ReservedIsCeiling(n, j);
    if n > K * j {
      FirstMismatchPrefix(local, remote, Take(n, j), Min(n, K));
      FillFromStep(ring, c, n, j, local, remote);
      var ring' := ring[Pos(c, j) := FillSlot(ring[Pos(c, j)], local, remote, Take(n, j))];
      FillFromLaterSlotsPass(ring', c, n, j + 1, local, remote);
    }
  }

  /** prepXfer's outcome: both counts equal and nonzero is required, else
      ErrInvalidParam with nothing reserved or written. Then a length
      mismatch among the first min(n, K) pairs gives ErrInvalidParam after
      one reservation, with the entries before the mismatch left written
      and counted in the first slot (no rollback). Otherwise the request
      succeeds, having advanced the counter by ceil(n / K); its handle
      starts at the masked old counter and ends at the unmasked new one. */
  lemma PrepXferOutcome(ring: seq<Slot>, c: u32, local: seq<Desc>, remote: seq<Desc>, stream: nat)
    requires RingShaped(ring)
    ensures var r := PrepXferSpec(ring, c, local, remote, stream);
            var n := Count(local) as nat;
            && (n != Count(remote) as nat || n == 0 ==> r == Prepared(ErrInvalidParam, None, ring, c))
            && (n == Count(remote) as nat && n > 0 ==>
                  var i := FirstMismatch(local, remote, 0, Min(n, K));
                  if i < Min(n, K) then
                    r == Prepared(ErrInvalidParam, None,
                                  ring[c as int % R := FillSlot(ring[c as int % R], local, remote, i)],
                                  AddWrap32(c, 1))
                  else
                    && r.status == Success
                    && r.counter == AddWrap32(c, Reserved(n))
                    && r.handle == Some(ReqHandle(stream, (c as int % R) as u32, AddWrap32(c, Reserved(n)))))
  {
    var n := Count(local) as nat;
    if n == Count(remote) as nat && n > 0 {
      var i := FirstMismatch(local, remote, 0, Min(n, K));
      assert Take(n, 0) == Min(n, K);
      assert Pos(c, 0) == c as int % R;
      if i == Min(n, K) {
        FillFromLaterSlotsPass(ring, c, n, 0, local, remote);
      }
    }
  }

  /** Reservation j of counter value c lands on index p exactly when p is
      j places after the masked counter, for j below R. */
  lemma PosOffset(c: u32, j: nat, p: nat)
    requires j < R && p < R
    ensures Pos(c, j) == p <==> Offset(c, p) == j
  {
    assert Offset(c, p) == (p - c as int) % R;
    ModShift(c as int, j, p);
  }

  lemma ModShift(c: int, j: int, p: int)
    requires 0 <= j < R && 0 <= p < R
    ensures (c + j) % R == p <==> (p - c) % R == j
  {
    DivMod(c + j, R);
    DivMod(p - c, R);
  }

  /** From the j-th reserved slot on, when all pairs pass and at most R
      positions are reserved (so no position is reserved twice), every
      position still to be reserved receives exactly its own share of
      pairs and every other position is left alone. */
  lemma {:induction false} FillFromShape(ring: seq<Slot>, c: u32, n: nat, j: nat,
                                         local: seq<Desc>, remote: seq<Desc>)
    requires RingShaped(ring) && n <= |local| && n <= |remote|
    requires FirstMismatch(local, remote, 0, Min(n, K)) == Min(n, K)
    requires Reserved(n) <= R && j <= Reserved(n)
    ensures forall p :: 0 <= p < R ==>
      FillFrom(ring, c, n, j, local, remote).ring[p] ==
        if j <= Offset(c, p) < Reserved(n) then FillSlot(ring[p], local, remote, Take(n, Offset(c, p)))
        else ring[p]
    decreases n - K * j
  {
    if n > K * j {
      var q := Pos(c, j);
      var m := Take(n, j);
      assert FirstMismatch(local, remote, 0, m) == m;
      var ring' := ring[q := FillSlot(ring[q], local, remote, m)];
      assert K * (j + 1) < n + K;
      FillFromShape(ring', c, n, j + 1, local, remote);
      forall p | 0 <= p < R
        ensures FillFrom(ring, c, n, j, local, remote).ring[p] ==
          if j <= Offset(c, p) < Reserved(n) then FillSlot(ring[p], local, remote, Take(n, Offset(c, p)))
          else ring[p]
      {
        PosOffset(c, j, p);
      }
    } else {
      forall p | 0 <= p < R
        ensures !(j <= Offset(c, p) < Reserved(n))
      {
      }
    }
  }

  /** A successful prepXfer reserving at most R positions fills, at each
      index p, the slot reserved Offset(c, p) places after the masked
      counter with exactly its share min(n - K*j, K) of pairs, and leaves
      every index it did not reserve unchanged. */
  lemma PrepXferFillsReservedSlots(ring: seq<Slot>, c: u32, local: seq<Desc>, remote: seq<Desc>, stream: nat)
    requires RingShaped(ring)
    requires PrepXferSpec(ring, c, local, remote, stream).status == Success
    requires Reserved(Count(local) as nat) <= R
    ensures var r := PrepXferSpec(ring, c, local, remote, stream);
            var n := Count(local) as nat;
            forall p :: 0 <= p < R ==>
              r.ring[p] == if Offset(c, p) < Reserved(n) then FillSlot(ring[p], local, remote, Take(n, Offset(c, p)))
                           else ring[p]
  {
    var n := Count(local) as nat;
    PrepXferOutcome(ring, c, local, remote, stream);
    FillFromShape(ring, c, n, 0, local, remote);
  }

  /** Total number of pairs handed to the first j reserved slots. */
  function TakenBefore(n: nat, j: nat): nat {
    if j == 0 then 0
    else TakenBefore(n, j - 1) + (if K * (j - 1) < n then Take(n, j - 1) else 0)
  }

  /** The first j slots of a request of n pairs receive min(n, K*j) pairs. */
  lemma {:induction false} TakenBeforeIsMin(n: nat, j: nat)
    ensures TakenBefore(n, j) == Min(n, K * j)
  {
    if j > 0 {
      TakenBeforeIsMin(n, j - 1);
    }
  }

  /** The shares of the ceil(n / K) reserved slots add up to the request. */
  lemma SharesSumToRequest(n: nat)
    ensures TakenBefore(n, Reserved(n)) == n
  {
    TakenBeforeIsMin(n, Reserved(n));
  }

  /** A request of 1100 pairs reserves three slots, which receive 512,
      512 and 76 pairs. */
  lemma ThreeSlotRequest()
    ensures Reserved(1100) == 3
    ensures Take(1100, 0) == 512 && Take(1100, 1) == 512 && Take(1100, 2) == 76
  {
  }

  /** The handle's range [start, end) mixes a masked start with an unmasked
      end. While the counter does not wrap, its length equals the number of
      reserved slots only if the old counter was below R, and it stays
      inside the ring's indices only while the new counter is at most R. */
  lemma PrepXferHandleRange(ring: seq<Slot>, c: u32, local: seq<Desc>, remote: seq<Desc>, stream: nat)
    requires RingShaped(ring)
    requires PrepXferSpec(ring, c, local, remote, stream).status == Success
    requires c as int + Reserved(Count(local) as nat) < U32
    ensures var r := PrepXferSpec(ring, c, local, remote, stream);
            var s := Reserved(Count(local) as nat);
            && r.handle.Some?
            && (r.handle.value.endPos as int - r.handle.value.startPos as int == s <==> c as int < R)
            && (r.handle.value.endPos as int <= R <==> c as int + s <= R)
  {
    PrepXferOutcome(ring, c, local, remote, stream);
    var n := Count(local) as nat;
    var s := Reserved(n);
    assert n == Count(remote) as nat && n > 0;
    assert AddWrap32(c, s) as int == c as int + s;
  }

  // ---------------------------------------------------------------------
  // Reading the ring back

  /** A slot checkXfer passes over: num is 0 or K. */
  predicate Settled(s: Slot) {
    s.num == 0 || s.num as int == K
  }

  /** checkXfer scanning positions [idx, end) of the ring in ascending
      order: IN_PROG at the first slot with 0 < num < K, ERR_BACKEND at
      the first slot with num > K, SUCCESS if it meets neither. */
  function CheckFrom(ring: seq<Slot>, idx: nat, end: nat): Status
    requires idx >= end || end <= |ring|
    decreases end - idx
  {
    if idx >= end then Success
    else if 0 < ring[idx].num as int < K then InProg
    else if ring[idx].num as int > K then ErrBackend
    else CheckFrom(ring, idx + 1, end)
  }

  /** checkXfer reports SUCCESS exactly when every slot of the range is
      settled (empty ranges included), IN_PROG exactly when the first
      unsettled slot is partly counted, ERR_BACKEND exactly when it has
      more than K counted, and nothing else. */
  lemma {:induction false} CheckFromClassifies(ring: seq<Slot>, idx: nat, end: nat)
    requires idx >= end || end <= |ring|
    ensures CheckFrom(ring, idx, end) in {Success, InProg, ErrBackend}
    ensures CheckFrom(ring, idx, end) == Success <==> forall p :: idx <= p < end ==> Settled(ring[p])
    ensures CheckFrom(ring, idx, end) == InProg <==>
      exists p :: idx <= p < end && 0 < ring[p].num as int < K && forall q :: idx <= q < p ==> Settled(ring[q])
    ensures CheckFrom(ring, idx, end) == ErrBackend <==>
      exists p :: idx <= p < end && ring[p].num as int > K && forall q :: idx <= q < p ==> Settled(ring[q])
    decreases end - idx
  {
    if idx < end {
      CheckFromClassifies(ring, idx + 1, end);
      if 0 < ring[idx].num as int < K || ring[idx].num as int > K {
        assert !Settled(ring[idx]);
      } else {
        assert Settled(ring[idx]);
        if CheckFrom(ring, idx, end) == InProg {
          var p :| idx + 1 <= p < end && 0 < ring[p].num as int < K && forall q :: idx + 1 <= q < p ==> Settled(ring[q]);
          assert forall q :: idx <= q < p ==> Settled(ring[q]);
        }
        if CheckFrom(ring, idx, end) == ErrBackend {
          var p :| idx + 1 <= p < end && ring[p].num as int > K && forall q :: idx + 1 <= q < p ==> Settled(ring[q]);
          assert forall q :: idx <= q < p ==> Settled(ring[q]);
        }
      }
    }
  }

  // ---------------------------------------------------------------------
  // Dispatch

  /** One kernel launch postXfer enqueues: its direction, the stream it runs
      on and the ring position it processes. */
  datatype Launch = Launch(op: XferOp, stream: nat, pos: nat)

  /** The launches of one kernel of direction op per position of
      [start, end), in ascending order. */
  function Launches(op: XferOp, stream: nat, start: nat, end: nat): (l: seq<Launch>)
    ensures |l| == if start < end then end - start else 0
    ensures forall i :: 0 <= i < |l| ==> l[i] == Launch(op, stream, start + i)
  {
    if start < end then Launches(op, stream, start, end - 1) + [Launch(op, stream, end - 1)] else []
  }
}
