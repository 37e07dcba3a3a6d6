/** Constants, integer widths and record types of the DOCA backend engine
    (src/plugins/doca/doca_backend.h), and the index arithmetic the engine
    performs on its uint32 ring counter. */
module DocaTypes {

  /** DOCA_XFER_REQ_SIZE: descriptor entries one ring slot can hold. */
  const K: nat := 512
  /** DOCA_XFER_REQ_MAX: number of slots in the transfer-request ring. */
  const R: nat := 16
  /** Number of values of a uint16_t and of a uint32_t. */
  const U16: nat := 0x1_0000
  const U32: nat := 0x1_0000_0000

  newtype u16 = x: int | 0 <= x < 0x1_0000
  newtype u32 = x: int | 0 <= x < 0x1_0000_0000

  /** The nixl_status_t values the engine returns. */
  datatype Status = Success | InProg | ErrInvalidParam | ErrBackend | ErrNotFound

  datatype Option<T> = None | Some(value: T)

  /** nixl_xfer_op_t: the two transfer directions, and any other value the
      enumeration may carry. */
  datatype XferOp = Read | Write | OtherOp

  /** One entry of a descriptor list as prepXfer reads it: the GPU buffer
      array of the region's metadata (`metadataP->mem.barr_gpu`, a pointer
      stored as an integer) and the entry's length. */
  datatype Desc = Desc(barr: nat, len: nat)

  /** docaXferReqGpu: three parallel arrays of K entries and the uint16
      occupancy counter `num`. */
  datatype Slot = Slot(larr: seq<nat>, rarr: seq<nat>, size: seq<nat>, num: u16)

  /** The request handle nixlDocaBckndReq: the CUDA stream token and the
      half-open range [startPos, endPos) of ring positions. */
  datatype ReqHandle = ReqHandle(stream: nat, startPos: u32, endPos: u32)

  /** nixlDocaConnection: the peer's agent name and its connected flag. */
  datatype Connection = Connection(remoteAgent: string, connected: bool)

  /** nixlDocaPublicMetadata as internalMDHelper builds it: a copy of the
      connection entry and the exported blob the remote mmap is imported from. */
  datatype RemoteMetadata = RemoteMetadata(conn: Connection, blob: string)

  /** A slot whose three arrays have exactly K entries. */
  predicate SlotShaped(s: Slot) {
    |s.larr| == K && |s.rarr| == K && |s.size| == K
  }

  /** A ring of exactly R well-shaped slots. */
  predicate RingShaped(ring: seq<Slot>) {
    |ring| == R && forall p :: 0 <= p < R ==> SlotShaped(ring[p])
  }

  /** A slot as cudaMemset(0) leaves it: all entries zero, num == 0. */
  function ZeroSlot(): (s: Slot)
    ensures SlotShaped(s) && s.num == 0
    ensures forall i :: 0 <= i < K ==> s.larr[i] == 0 && s.rarr[i] == 0 && s.size[i] == 0
  {
    Slot(seq(K, _ => 0), seq(K, _ => 0), seq(K, _ => 0), 0)
  }

  /** `num++` on a uint16_t: wraps from 65535 to 0. */
  function Inc16(x: u16): (r: u16)
    ensures x as int < U16 - 1 ==> r as int == x as int + 1
    ensures x as int == U16 - 1 ==> r == 0
  {
    ((x as int + 1) % U16) as u16
  }

  /** The uint32 counter advanced k times by `fetch_add(1)`. */
  function AddWrap32(c: u32, k: nat): u32 {
    ((c as int + k) % U32) as u32
  }

  /** One more `fetch_add(1)` on a counter already advanced k times. */
  lemma AddWrap32Step(c: u32, k: nat)
    ensures AddWrap32(AddWrap32(c, k), 1) == AddWrap32(c, k + 1)
  {
  }

  /** `(uint32_t)list.descCount()`: the list length truncated to 32 bits. */
  function Count(s: seq<Desc>): (n: u32)
    ensures n as int <= |s|
    ensures |s| < U32 ==> n as int == |s|
  {
    (|s| % U32) as u32
  }

  /** The four capability queries of nixlDocaEngine. */
  predicate SupportsRemote() { true }
  predicate SupportsLocal() { false }
  predicate SupportsNotif() { false }
  predicate SupportsProgTh() { false }

  /** The engine serves remote transfers only: no local transfers, no
      notifications, no progress thread. */
  lemma CapabilityFlags()
    ensures SupportsRemote() && !SupportsLocal() && !SupportsNotif() && !SupportsProgTh()
  {
  }

  // ---------------------------------------------------------------------
  // The `& (DOCA_XFER_REQ_MAX - 1)` mask, with C's `&` on unsigned values
  // written out bit by bit.

  function Pow2(k: nat): (p: nat)
    ensures p >= 1
  {
    if k == 0 then 1 else 2 * Pow2(k - 1)
  }

  /** Bitwise AND of two unsigned values, one bit at a time from the lowest. */
  function BitAnd(a: nat, b: nat): nat
    decreases a
  {
    if a == 0 || b == 0 then 0
    else 2 * BitAnd(a / 2, b / 2) + (if a % 2 == 1 && b % 2 == 1 then 1 else 0)
  }

  lemma ModUnique(a: int, d: int, q: int, r: int)
    requires d > 0 && a == q * d + r && 0 <= r < d
    ensures a % d == r
  {
    var q', r' := a / d, a % d;
    assert (q - q') * d == r' - r;
    if q > q' {
      MulAtLeast(q - q', d);
    } else if q < q' {
      MulAtLeast(q' - q, d);
    }
  }

  lemma MulAtLeast(x: int, d: int)
    requires x >= 1 && d > 0
    ensures x * d >= d
  {
  }

  lemma DivMod(h: int, m: int)
    requires m > 0
    ensures h == (h / m) * m + h % m
  {
  }

  lemma MulTwice(q: int, m: int)
    ensures 2 * (q * m) == q * (2 * m)
  {
  }

  /** Masking with 2^k - 1 keeps the k low bits, that is, reduces mod 2^k. */
  lemma {:induction false} LowMaskIsMod(a: nat, k: nat)
    ensures BitAnd(a, Pow2(k) - 1) == a % Pow2(k)
  {
    if k > 0 && a > 0 {
      var m := Pow2(k - 1);
      var b := Pow2(k) - 1;
      assert b == 2 * m - 1;
      assert b / 2 == m - 1 && b % 2 == 1;
      assert BitAnd(a, b) == 2 * BitAnd(a / 2, m - 1) + a % 2;
      LowMaskIsMod(a / 2, k - 1);
      var h := a / 2;
      var q, r := h / m, h % m;
      DivMod(h, m);
      assert a == 2 * h + a % 2;
      MulTwice(q, m);
      assert a == q * (2 * m) + (2 * r + a % 2);
      ModUnique(a, 2 * m, q, 2 * r + a % 2);
      assert Pow2(k) == 2 * m;
    } else if k == 0 {
      assert Pow2(k) == 1;
      ModUnique(a, 1, a, 0);
    } else {
      ModUnique(0, Pow2(k), 0, 0);
    }
  }

  /** `c & (DOCA_XFER_REQ_MAX - 1)`: the ring index of counter value c.
      R is a power of two, so the mask is reduction mod R. */
  function RingIndex(c: u32): (p: nat)
    ensures p < R && p == c as int % R
  {
    LowMaskIsMod(c as nat, 4);
    BitAnd(c as nat, R - 1)
  }

  /** Reduction mod R commutes with the uint32 wrap-around, because 2^32 is
      a multiple of R: the j-th reservation after counter value c lands on
      ring index (c + j) mod R even when the counter wraps past 2^32 - 1. */
  lemma RingIndexAcrossWrap(c: u32, j: nat)
    ensures RingIndex(AddWrap32(c, j)) == (c as int + j) % R
  {
    var x := c as int + j;
    DivMod(x, U32);
    DivMod(x, R);
    assert x % U32 == (x / R - (x / U32) * 0x1000_0000) * R + x % R;
    ModUnique(x % U32, R, x / R - (x / U32) * 0x1000_0000, x % R);
  }
}
