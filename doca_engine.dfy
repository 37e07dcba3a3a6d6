/** The host side of nixlDocaEngine: the transfer-request ring with its
    reservation counter and low-water mark, the connection table, and the
    operations on them (src/plugins/doca/doca_backend.cpp). Each method is
    proved against the functions of XferRing, or states its new state
    outright. */
module DocaEngine {
  import opened DocaTypes
  import opened XferRing

  class Engine {
    /** xferReqRingCpu: the host view of the R-slot ring that lives in
        memory shared with the GPU. */
    const ring: array<Slot>
    /** xferRingPos: the uint32 reservation counter, advanced with
        `fetch_add(1)`; calls are taken one at a time. */
    var xferRingPos: u32
    /** firstXferRingPos: the low-water mark releaseReqH moves. */
    var firstXferRingPos: u32
    /** remoteConnMap: at most one connection entry per remote agent name. */
    var remoteConnMap: map<string, Connection>
    /** The kernels postXfer has enqueued, oldest first. */
    ghost var launched: seq<Launch>

    /** The ring has R slots of K entries each, and every connection entry
        is the connected entry loadRemoteConnInfo made for its own key. */
    ghost predicate Valid()
      reads this, ring
    {
      && ring.Length == R
      && RingShaped(ring[..])
      && forall a :: a in remoteConnMap ==> remoteConnMap[a] == Connection(a, true)
    }

    /** The ring and counter state the constructor sets up: every slot
        zeroed by cudaMemset, both counters 0, no connections. */
    constructor ()
      ensures Valid() && fresh(ring)
      ensures forall p :: 0 <= p < R ==> ring[p] == ZeroSlot()
      ensures xferRingPos == 0 && firstXferRingPos == 0
      ensures remoteConnMap == map[] && launched == []
    {
      ring := new Slot[R](_ => ZeroSlot());
      xferRingPos := 0;
      firstXferRingPos := 0;
      remoteConnMap := map[];
      launched := [];
    }

    // -------------------------------------------------------------------
    // Connection table

    /** checkConn: SUCCESS when the agent has an entry, else NOT_FOUND. */
    method CheckConn(agent: string) returns (st: Status)
      ensures st == Success <==> agent in remoteConnMap
      ensures st != Success ==> st == ErrNotFound
    {
      if agent !in remoteConnMap {
        return ErrNotFound;
      }
      return Success;
    }

    /** connect: the queue pair was already connected by
        loadRemoteConnInfo; nothing to do. */
    method Connect(agent: string) returns (st: Status)
      ensures st == Success
    {
      return Success;
    }

    /** disconnect: leaves the table as it is, known agent or not. */
    method Disconnect(agent: string) returns (st: Status)
      ensures st == Success
    {
      return Success;
    }

    /** endConn: nothing to do. */
    method EndConn(agent: string) returns (st: Status)
      ensures st == Success
    {
      return Success;
    }

    /** loadRemoteConnInfo. `connectSucceeded` is the outcome of
        doca_rdma_connect on the peer's connection blob. */
    method LoadRemoteConnInfo(agent: string, connectSucceeded: bool) returns (st: Status)
      requires Valid()
      modifies this`remoteConnMap
      ensures Valid()
      ensures agent in old(remoteConnMap) ==>
        st == ErrInvalidParam && remoteConnMap == old(remoteConnMap)
      ensures agent !in old(remoteConnMap) && !connectSucceeded ==>
        st == ErrBackend && remoteConnMap == old(remoteConnMap)
      ensures agent !in old(remoteConnMap) && connectSucceeded ==>
        st == Success && remoteConnMap == old(remoteConnMap)[agent := Connection(agent, true)]
    {
      if agent in remoteConnMap {
        return ErrInvalidParam;
      }
      if !connectSucceeded {
        return ErrBackend;
      }
      var conn := Connection(agent, true);
      remoteConnMap := remoteConnMap[agent := conn];
      return Success;
    }

    /** internalMDHelper: an agent without a connection entry is refused
        with NOT_FOUND before anything is imported; otherwise the new
        metadata carries a copy of the entry. `importSucceeded` is the
        outcome of the mmap import and buffer-array setup. */
    method InternalMDHelper(blob: string, agent: string, importSucceeded: bool)
      returns (st: Status, md: Option<RemoteMetadata>)
      requires Valid()
      ensures agent !in remoteConnMap ==> st == ErrNotFound && md == None
      ensures agent in remoteConnMap && !importSucceeded ==> st == ErrBackend && md == None
      ensures agent in remoteConnMap && importSucceeded ==>
        st == Success && md == Some(RemoteMetadata(Connection(agent, true), blob))
    {
      if agent !in remoteConnMap {
        return ErrNotFound, None;
      }
      var conn := remoteConnMap[agent];
      if !importSucceeded {
        return ErrBackend, None;
      }
      return Success, Some(RemoteMetadata(conn, blob));
    }

    /** loadRemoteMD: internalMDHelper on the descriptor's metadata blob. */
    method LoadRemoteMD(metaInfo: string, agent: string, importSucceeded: bool)
      returns (st: Status, md: Option<RemoteMetadata>)
      requires Valid()
      ensures agent !in remoteConnMap ==> st == ErrNotFound && md == None
      ensures agent in remoteConnMap && !importSucceeded ==> st == ErrBackend && md == None
      ensures agent in remoteConnMap && importSucceeded ==>
        st == Success && md == Some(RemoteMetadata(remoteConnMap[agent], metaInfo))
    {
      st, md := InternalMDHelper(metaInfo, agent, importSucceeded);
    }

    // -------------------------------------------------------------------
    // The transfer-request ring

    /** prepXfer. The counts are the lists' lengths cast to uint32; every
        reserved slot is filled from pair 0 on; a length mismatch returns
        in the middle of a slot with nothing rolled back; the handle's
        start is the masked first reservation and its end the unmasked
        counter afterwards. `stream` is the CUDA stream passed in the
        optional arguments. */
    method PrepXfer(local: seq<Desc>, remote: seq<Desc>, stream: nat)
      returns (st: Status, h: Option<ReqHandle>)
      requires Valid()
      modifies this`xferRingPos, ring
      ensures Valid()
      ensures Prepared(st, h, ring[..], xferRingPos) ==
              PrepXferSpec(old(ring[..]), old(xferRingPos), local, remote, stream)
    {
      var lcnt := Count(local);
      var rcnt := Count(remote);
      if lcnt != rcnt {
        return ErrInvalidParam, None;
      }
      if lcnt == 0 {
        return ErrInvalidParam, None;
      }
      ghost var n := lcnt as nat;
      ghost var c0 := xferRingPos;
      ghost var ring0 := ring[..];

      var startPos := RingIndex(xferRingPos);
      xferRingPos := AddWrap32(xferRingPos, 1);
      var pos := startPos;
      ghost var j: nat := 0;
      NextPosition(c0, 0);

      while true
        invariant Valid()
        invariant lcnt as int == n - K * j && lcnt > 0
        invariant startPos == c0 as int % R
        invariant pos == Pos(c0, j) && xferRingPos == AddWrap32(c0, j + 1)
        invariant FillFrom(ring[..], c0, n, j, local, remote) == FillFrom(ring0, c0, n, 0, local, remote)
        decreases lcnt
      {
        ghost var base := ring[..];
        var filled := FillEntries(pos, local, remote, Min(lcnt as nat, K));
        if !filled {
          return ErrInvalidParam, None;
        }
        FillFromStep(base, c0, n, j, local, remote);
        NextShare(n, j);

        if lcnt as nat > K {
          lcnt := lcnt - K as u32;
          NextPosition(c0, j + 1);
          assert RingIndex(xferRingPos) == Pos(c0, j + 1);
          pos := RingIndex(xferRingPos);
          xferRingPos := AddWrap32(xferRingPos, 1);
          j := j + 1;
        } else {
          lcnt := 0;
          assert FillFrom(ring[..], c0, n, j + 1, local, remote) == Fill(Success, ring[..], j + 1);
        }
        if lcnt == 0 {
          break;
        }
      }
      assert FillFrom(ring0, c0, n, 0, local, remote) == Fill(Success, ring[..], j + 1);
      return Success, Some(ReqHandle(stream, startPos as u32, xferRingPos));
    }

    /** The inner loop of prepXfer: copies pairs 0 .. m-1 into slot pos,
        counting each in `num`, and stops at the first pair whose lengths
        differ, leaving the entries written before it in place. */
    method FillEntries(pos: nat, local: seq<Desc>, remote: seq<Desc>, m: nat) returns (ok: bool)
      requires Valid() && pos < R && m <= K && m <= |local| && m <= |remote|
      modifies ring
      ensures Valid()
      ensures ok <==> FirstMismatch(local, remote, 0, m) == m
      ensures ring[..] == old(ring[..])[pos := FillSlot(old(ring[pos]), local, remote, FirstMismatch(local, remote, 0, m))]
    {
      ghost var base := ring[..];
      FillSlotNone(base[pos], local, remote);
      var idx: nat := 0;
      while idx < m
        invariant Valid()
        invariant idx <= m
        invariant forall i :: 0 <= i < idx ==> local[i].len == remote[i].len
        invariant ring[..] == base[pos := FillSlot(base[pos], local, remote, idx)]
      {
        var lsize := local[idx].len;
        var rsize := remote[idx].len;
        if lsize != rsize {
          assert FirstMismatch(local, remote, 0, m) == idx;
          return false;
        }
        FillSlotStep(base[pos], local, remote, idx);
        ring[pos] := Put(ring[pos], idx, local[idx], remote[idx]);
        idx := idx + 1;
      }
      return true;
    }

    /** postXfer: one read or write kernel per position of the handle's
        range, in ascending order, then IN_PROG. Any other operation stops
        at the first position with INVALID_PARAM, so an empty range
        reports IN_PROG whatever the operation. For a read or a write the
        range has to lie inside the ring, since each of its positions
        indexes the ring; any other operation returns before it does. */
    method PostXfer(op: XferOp, h: ReqHandle) returns (st: Status)
      requires Valid()
      requires op != OtherOp && h.startPos < h.endPos ==> h.endPos as int <= R
      modifies this`launched
      ensures Valid()
      ensures st == if op == OtherOp && h.startPos < h.endPos then ErrInvalidParam else InProg
      ensures launched == old(launched) +
        (if op == OtherOp then [] else Launches(op, h.stream, h.startPos as nat, h.endPos as nat))
    {
      var idx := h.startPos;
      while idx < h.endPos
        invariant h.startPos <= idx
        invariant h.startPos < h.endPos ==> idx <= h.endPos
        invariant h.endPos <= h.startPos ==> idx == h.startPos
        invariant op == OtherOp ==> launched == old(launched) && idx == h.startPos
        invariant op != OtherOp ==> launched == old(launched) + Launches(op, h.stream, h.startPos as nat, idx as nat)
        decreases h.endPos as int - idx as int
      {
        match op {
          case Read =>
            launched := launched + [Launch(Read, h.stream, idx as nat)];
          case Write =>
            launched := launched + [Launch(Write, h.stream, idx as nat)];
          case OtherOp =>
            return ErrInvalidParam;
        }
        idx := idx + 1;
      }
      return InProg;
    }

    /** checkXfer: a read-only scan of the handle's range, proved to be the
        classification CheckFrom (see CheckFromClassifies). Nothing changes,
        so asking twice gives the same answer. */
    method CheckXfer(h: ReqHandle) returns (st: Status)
      requires Valid()
      requires h.startPos < h.endPos ==> h.endPos as int <= R
      ensures st == CheckFrom(ring[..], h.startPos as nat, h.endPos as nat)
    {
      var idx := h.startPos;
      while idx < h.endPos
        invariant h.startPos <= idx
        invariant h.startPos < h.endPos ==> idx <= h.endPos
        invariant CheckFrom(ring[..], idx as nat, h.endPos as nat) ==
                  CheckFrom(ring[..], h.startPos as nat, h.endPos as nat)
      {
        if ring[idx].num > 0 && (ring[idx].num as int) < K {
          return InProg;
        }
        if ring[idx].num as int > K {
          return ErrBackend;
        }
        idx := idx + 1;
      }
      return Success;
    }

    /** releaseReqH: moves the low-water mark to the masked counter; the
        handle is not looked at and nothing else changes. */
    method ReleaseReqH(h: ReqHandle) returns (st: Status)
      requires Valid()
      modifies this`firstXferRingPos
      ensures Valid()
      ensures firstXferRingPos as int == xferRingPos as int % R
      ensures st == Success
    {
      firstXferRingPos := RingIndex(xferRingPos) as u32;
      return Success;
    }

    /** The GPU side of the ring as the host sees it: a kernel may overwrite
        the occupancy counter of any slot. */
    method GpuWriteNum(p: nat, v: u16)
      requires Valid() && p < R
      modifies ring
      ensures Valid()
      ensures ring[..] == old(ring[..])[p := old(ring[p]).(num := v)]
    {
      ring[p] := ring[p].(num := v);
    }
  }
}
