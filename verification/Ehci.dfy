/** The EHCI transfer splitter: a request's buffer in queue element transfer descriptors (EHCI section 3.5). */
module Ehci {
  import opened Steps

  const EHCI_MAX_QTD := 8
  const PAGE: nat := 0x1000
  const NO_QTD: int := -1
  const QTD_STS_ACTIVE: nat := 0x80
  const QTD_STS_HALT: nat := 0x40
  const QTD_IOC: nat := 0x8000
  const PID_OUT: nat := 0
  const PID_IN: nat := 1
  const PID_SETUP: nat := 2

  /** A descriptor; next is the place of the next one in the pool. */
  datatype Qtd = Qtd(hwBuf: seq<nat>, hwToken: nat, length: nat, next: int)

  // QTD_LENGTH and QTD_PID, as section 3.5.3 places the fields.
  function QtdLength(token: nat): nat {
    token / 0x1_0000 % 0x8000
  }

  function QtdPid(token: nat): nat {
    token / 0x100 % 4
  }

  predicate InterruptsOnCompletion(token: nat) {
    token / QTD_IOC % 2 == 1
  }

  // Does a maximum packet size divide the 16 KB every full descriptor can hold?
  predicate IsMaxPacket(n: nat) {
    n in {8, 16, 32, 64, 128, 256, 512, 1024}
  }

  /** Every one of count bytes from buf on lies in the page that its pointer names (section 3.5.4): the first pointer
      has the offset, the others are page addresses. */
  ghost predicate InPages(hwBuf: seq<nat>, buf: nat, count: nat) {
    && |hwBuf| == 5 && hwBuf[0] == buf
    && forall j {:trigger PageOf(buf, j)} :: 0 <= j < count ==>
         PageOf(buf, j) < 5 && hwBuf[PageOf(buf, j)] / PAGE == (buf + j) / PAGE
         && (0 < PageOf(buf, j) ==> hwBuf[PageOf(buf, j)] % PAGE == 0)
  }

  // Which of the five pointers the controller uses for byte j.
  function PageOf(buf: nat, j: nat): nat {
    (buf % PAGE + j) / PAGE
  }

  // n is a multiple of the packet size.
  predicate WholePackets(n: nat, maxpacket: nat)
    requires 0 < maxpacket
  {
    n == 0 || (maxpacket <= n && WholePackets(n - maxpacket, maxpacket))
  }

  lemma {:induction false} WholeTimes(q: nat, maxpacket: nat)
    requires 0 < maxpacket
    ensures WholePackets(Times(q, maxpacket), maxpacket)
  {
    if q == 0 {
    } else {
      WholeTimes(q - 1, maxpacket);
    }
  }

  // How many bytes the five pages hold from buf on.
  function Room(buf: nat): nat {
    5 * PAGE - buf % PAGE
  }

  /** How much of the buffer goes into one descriptor: all of it if it fits, else whole packets. */
  function Taken(buf: nat, len: nat, maxpacket: nat): (r: nat)
    requires len <= Room(buf) || 0 < maxpacket
  {
    if len <= Room(buf) then len else Room(buf) - Room(buf) % maxpacket
  }

  lemma TakenFull(buf: nat, len: nat, maxpacket: nat)
    requires Room(buf) < len && IsMaxPacket(maxpacket)
    ensures 0x4000 <= Taken(buf, len, maxpacket) < len && Taken(buf, len, maxpacket) <= 0x5000
    ensures WholePackets(Taken(buf, len, maxpacket), maxpacket)
  {
    var room := Room(buf);
    var k := 0x4000 / maxpacket;
    assert k * maxpacket == 0x4000;
    RoundDown(room, maxpacket, k);
  }

  // Rounding down to whole packets does not go below a number of whole packets that fits.
  lemma RoundDown(room: nat, maxpacket: nat, k: nat)
    requires 0 < maxpacket && k * maxpacket <= room
    ensures k * maxpacket <= room - room % maxpacket <= room && WholePackets(room - room % maxpacket, maxpacket)
  {
    var q := room / maxpacket;
    QuotientRest(room, maxpacket);
    AtLeast(room, maxpacket, k, q, room % maxpacket);
    MulMonotone(k, q, maxpacket);
    TimesIsProduct(q, maxpacket);
    WholeTimes(q, maxpacket);
  }

  lemma QuotientRest(x: nat, m: nat)
    requires 0 < m
    ensures x == x / m * m + x % m && x % m < m
  {
  }

  /** One descriptor of the data stage, for bytes from address addr on. */
  ghost predicate IsPiece(d: Qtd, addr: nat, pid: nat) {
    d.length <= 0x5000 && InPages(d.hwBuf, addr, d.length) && QtdLength(d.hwToken) == d.length
      && QtdPid(d.hwToken) == pid
  }

  /** Full descriptors for the first n bytes: one behind the other, each a positive number of whole packets. */
  ghost predicate FullPieces(ds: seq<Qtd>, buf: nat, n: nat, maxpacket: nat, pid: nat)
    requires 0 < maxpacket
  {
    if ds == [] then n == 0
    else
      var d := ds[|ds| - 1];
      && d.length <= n && 0x4000 <= d.length && WholePackets(d.length, maxpacket) && !InterruptsOnCompletion(d.hwToken)
      && IsPiece(d, buf + (n - d.length), pid)
      && FullPieces(ds[..|ds| - 1], buf, n - d.length, maxpacket, pid)
  }

  /** The descriptors of the data stage cover the buffer exactly; only the last one may end in a short packet. */
  ghost predicate Covers(ds: seq<Qtd>, buf: nat, len: nat, maxpacket: nat, pid: nat)
    requires 0 < maxpacket
  {
    && ds != []
    && var d := ds[|ds| - 1];
       && d.length <= len && IsPiece(d, buf + (len - d.length), pid)
       && FullPieces(ds[..|ds| - 1], buf, len - d.length, maxpacket, pid)
  }

  // Full descriptors hold at least 16 KB each.
  lemma {:induction false} FullBound(ds: seq<Qtd>, buf: nat, n: nat, maxpacket: nat, pid: nat)
    requires 0 < maxpacket && FullPieces(ds, buf, n, maxpacket, pid)
    ensures 0x4000 * |ds| <= n
    decreases |ds|
  {
    if ds == [] {
    } else {
      FullBound(ds[..|ds| - 1], buf, n - ds[|ds| - 1].length, maxpacket, pid);
    }
  }

  lemma TokenFields(count: nat, low: nat)
    requires count < 0x8000 && low < 0x8000
    ensures var token := count * 0x1_0000 + low;
            && QtdLength(token) == count && QtdPid(token) == low / 0x100 % 4 && !InterruptsOnCompletion(token)
            && QtdLength(token + QTD_IOC) == count && QtdPid(token + QTD_IOC) == low / 0x100 % 4
            && InterruptsOnCompletion(token + QTD_IOC)
  {
    LengthField(count, low);
    LengthField(count, low + QTD_IOC);
    PidField(count, low / 0x100, low % 0x100);
    PidField(count, low / 0x100 + 0x80, low % 0x100);
    IocField(count, low);
  }

  lemma LengthField(count: nat, low: nat)
    requires count < 0x8000 && low < 0x1_0000
    ensures QtdLength(count * 0x1_0000 + low) == count
  {
  }

  lemma PidField(count: nat, h: nat, l: nat)
    requires h < 0x100 && l < 0x100
    ensures QtdPid(count * 0x1_0000 + (0x100 * h + l)) == h % 4
  {
    Quotient256(count * 0x1_0000 + (0x100 * h + l), count * 0x100 + h, l);
    Rest4(count * 0x100 + h, count * 0x40 + h / 4, h % 4);
  }

  lemma Quotient256(x: nat, q: nat, r: nat)
    requires x == 0x100 * q + r && r < 0x100
    ensures x / 0x100 == q
  {
  }

  lemma Rest4(x: nat, q: nat, r: nat)
    requires x == 4 * q + r && r < 4
    ensures x % 4 == r
  {
  }

  lemma IocField(count: nat, low: nat)
    requires low < 0x8000
    ensures !InterruptsOnCompletion(count * 0x1_0000 + low) && InterruptsOnCompletion(count * 0x1_0000 + low + QTD_IOC)
  {
    assert count * 0x1_0000 + low == 0x8000 * (2 * count) + low;
    assert count * 0x1_0000 + low + QTD_IOC == 0x8000 * (2 * count + 1) + low;
  }

  // The pages filled by the loop: those up to number i, the first one with the offset.
  ghost predicate PagesTo(hwBuf: seq<nat>, buf: nat, i: nat) {
    && |hwBuf| == 5 && i <= 5 && hwBuf[0] == buf
    && forall p :: 1 <= p < i ==> hwBuf[p] == buf - buf % PAGE + p * PAGE
  }

  lemma PagesHold(hwBuf: seq<nat>, buf: nat, i: nat, count: nat)
    requires PagesTo(hwBuf, buf, i) && 1 <= i && buf % PAGE + count <= i * PAGE
    ensures InPages(hwBuf, buf, count)
  {
    forall j | 0 <= j < count
      ensures PageOf(buf, j) < 5 && hwBuf[PageOf(buf, j)] / PAGE == (buf + j) / PAGE
      ensures 0 < PageOf(buf, j) ==> hwBuf[PageOf(buf, j)] % PAGE == 0
    {
      PageHolds(hwBuf, buf, i, j);
    }
  }

  lemma PageHolds(hwBuf: seq<nat>, buf: nat, i: nat, j: nat)
    requires PagesTo(hwBuf, buf, i) && 1 <= i && buf % PAGE + j < i * PAGE
    ensures PageOf(buf, j) < i && hwBuf[PageOf(buf, j)] / PAGE == (buf + j) / PAGE
    ensures 0 < PageOf(buf, j) ==> hwBuf[PageOf(buf, j)] % PAGE == 0
  {
    var q, o, p := buf / PAGE, buf % PAGE, PageOf(buf, j);
    assert buf == q * PAGE + o;
    assert buf + j == (q + p) * PAGE + (o + j) % PAGE;
    if p > 0 {
      assert hwBuf[p] == (q + p) * PAGE;
    }
  }

  lemma {:induction false} FullQuiet(ds: seq<Qtd>, buf: nat, n: nat, maxpacket: nat, pid: nat)
    requires 0 < maxpacket && FullPieces(ds, buf, n, maxpacket, pid)
    ensures forall k :: 0 <= k < |ds| ==> !InterruptsOnCompletion(ds[k].hwToken)
    decreases |ds|
  {
    if ds == [] {
    } else {
      FullQuiet(ds[..|ds| - 1], buf, n - ds[|ds| - 1].length, maxpacket, pid);
      assert forall k :: 0 <= k < |ds| - 1 ==> ds[k] == ds[..|ds| - 1][k];
    }
  }

  // The bytes moved by the descriptors, setup packets not counted: what was asked for less what is left.
  function Moved(ds: seq<Qtd>): int {
    if ds == [] then 0
    else
      var d := ds[|ds| - 1];
      Moved(ds[..|ds| - 1]) + if QtdPid(d.hwToken) == PID_SETUP then 0 else d.length - QtdLength(d.hwToken)
  }

  // The controller has moved everything: nothing is left in the length fields, and no status bit is set.
  ghost predicate AllDone(ds: seq<Qtd>, done: seq<Qtd>) {
    |done| == |ds| && forall k :: 0 <= k < |ds| ==>
      done[k].length == ds[k].length && done[k].next == ds[k].next
      && QtdPid(done[k].hwToken) == QtdPid(ds[k].hwToken) && QtdLength(done[k].hwToken) == 0
      && done[k].hwToken % 0x100 == 0
  }

  lemma {:induction false} MovedFull(ds: seq<Qtd>, done: seq<Qtd>, buf: nat, n: nat, maxpacket: nat, pid: nat)
    requires 0 < maxpacket && pid < PID_SETUP && FullPieces(ds, buf, n, maxpacket, pid) && AllDone(ds, done)
    ensures Moved(done) == n
    decreases |ds|
  {
    if ds == [] {
    } else {
      MovedFull(ds[..|ds| - 1], done[..|ds| - 1], buf, n - ds[|ds| - 1].length, maxpacket, pid);
    }
  }

  lemma MovedCovers(ds: seq<Qtd>, done: seq<Qtd>, buf: nat, len: nat, maxpacket: nat, pid: nat)
    requires 0 < maxpacket && pid < PID_SETUP && Covers(ds, buf, len, maxpacket, pid) && AllDone(ds, done)
    ensures Moved(done) == len
  {
    MovedFull(ds[..|ds| - 1], done[..|ds| - 1], buf, len - ds[|ds| - 1].length, maxpacket, pid);
  }

  lemma DoneSlice(ds: seq<Qtd>, done: seq<Qtd>, i: nat, j: nat)
    requires AllDone(ds, done) && i <= j <= |ds|
    ensures AllDone(ds[i..j], done[i..j])
  {
  }

  lemma ThreeParts(s: seq<Qtd>, i: nat, j: nat)
    requires i <= j <= |s|
    ensures s == s[..i] + (s[i..j] + s[j..])
  {
  }

  lemma MovedParts(done: seq<Qtd>, i: nat, j: nat)
    requires i <= j <= |done|
    ensures Moved(done) == Moved(done[..i]) + Moved(done[i..j]) + Moved(done[j..])
  {
    ThreeParts(done, i, j);
    MovedAppend(done[i..j], done[j..]);
    MovedAppend(done[..i], done[i..j] + done[j..]);
  }

  lemma {:induction false} MovedAppend(a: seq<Qtd>, b: seq<Qtd>)
    ensures Moved(a + b) == Moved(a) + Moved(b)
    decreases |b|
  {
    if b == [] {
      assert a + b == a;
    } else {
      assert (a + b)[..|a + b| - 1] == a + b[..|b| - 1];
      MovedAppend(a, b[..|b| - 1]);
    }
  }

  /** A request: a control transfer has a setup packet of eight bytes and perhaps a status stage. */
  datatype Urb = Urb(control: bool, setupDma: nat, input: bool, dma: nat, len: nat, maxpacket: nat)
  {
    predicate Valid() {
      setupDma + 8 <= 0x1_0000_0000 && len < 0x1_0000 && dma + len <= 0x1_0000_0000 && IsMaxPacket(maxpacket)
    }

    // The direction of the data stage; a status stage without data goes in.
    function Pid(): nat {
      if input || (control && len == 0) then PID_IN else PID_OUT
    }

    predicate HasStatus() {
      control && len != 0
    }
  }

  // Linking the last descriptor on, or asking for its interrupt, does not change what it covers.
  lemma CoversStill(ds: seq<Qtd>, d: Qtd, buf: nat, len: nat, maxpacket: nat, pid: nat)
    requires 0 < maxpacket && Covers(ds, buf, len, maxpacket, pid)
    requires d.length == ds[|ds| - 1].length && d.hwBuf == ds[|ds| - 1].hwBuf
    requires QtdLength(d.hwToken) == d.length && QtdPid(d.hwToken) == pid
    ensures Covers(ds[|ds| - 1 := d], buf, len, maxpacket, pid)
  {
    assert ds[|ds| - 1 := d][..|ds| - 1] == ds[..|ds| - 1];
  }

  class Controller {
    const pool: array<Qtd>
    var used: nat

    ghost predicate Valid()
      reads this, pool
    {
      pool.Length == EHCI_MAX_QTD && used <= EHCI_MAX_QTD && forall k :: 0 <= k < pool.Length ==> |pool[k].hwBuf| == 5
    }

    constructor ()
      ensures Valid() && used == 0 && fresh(pool)
    {
      pool := new Qtd[EHCI_MAX_QTD](_ => Qtd([0, 0, 0, 0, 0], QTD_STS_HALT, 0, NO_QTD));
      used := 0;
    }

    // ehci_qtd_alloc; its BUG_ON is the precondition.
    method QtdAlloc() returns (q: nat)
      requires Valid() && used < EHCI_MAX_QTD
      modifies this`used, pool
      ensures Valid() && q == old(used) && used == q + 1 && pool[..q] == old(pool[..q])
      ensures pool[q] == Qtd([0, 0, 0, 0, 0], QTD_STS_HALT, 0, NO_QTD)
    {
      q := used;
      used := used + 1;
      pool[q] := Qtd([0, 0, 0, 0, 0], QTD_STS_HALT, 0, NO_QTD);
    }

    /** qtd_fill: as much of the buffer as one descriptor holds. */
    method QtdFill(q: nat, buf: nat, len: nat, token: nat, maxpacket: nat) returns (count: nat)
      requires Valid() && q < used && buf + len <= 0x1_0000_0000 && token < 0x8000
      requires len <= Room(buf) || IsMaxPacket(maxpacket)
      modifies pool
      ensures Valid() && count == Taken(buf, len, maxpacket) && pool[..q] == old(pool[..q])
      ensures pool[q].length == count && pool[q].next == old(pool[q].next) && IsPiece(pool[q], buf, token / 0x100 % 4)
      ensures pool[q].hwToken == count * 0x1_0000 + token && !InterruptsOnCompletion(pool[q].hwToken)
    {
      var hwBuf := pool[q].hwBuf[0 := buf];
      count := PAGE - buf % PAGE;
      if len < count {
        count := len;
        PagesHold(hwBuf, buf, 1, count);
      } else {
        hwBuf, count := FillPages(hwBuf, buf, len);
        if count != len {
          TakenFull(buf, len, maxpacket);
          count := count - count % maxpacket;
        }
      }
      TokenFields(count, token);
      pool[q] := Qtd(hwBuf, count * 0x1_0000 + token, count, pool[q].next);
    }

    // The loop of qtd_fill over the pages behind the first one.
    static method FillPages(hwBuf0: seq<nat>, buf0: nat, len: nat) returns (hwBuf: seq<nat>, count: nat)
      requires |hwBuf0| == 5 && hwBuf0[0] == buf0 && PAGE - buf0 % PAGE <= len
      ensures count == if len <= Room(buf0) then len else Room(buf0)
      ensures InPages(hwBuf, buf0, count)
    {
      hwBuf := hwBuf0;
      count := PAGE - buf0 % PAGE;
      var buf := buf0 + PAGE;
      buf := buf - buf % PAGE;
      NextPage(buf0);
      var i := 1;
      while count < len && i < 5
        invariant 1 <= i <= 5 && PagesTo(hwBuf, buf0, i) && buf == buf0 - buf0 % PAGE + i * PAGE
        invariant count <= len && buf0 % PAGE + count <= i * PAGE
        invariant count < len ==> buf0 % PAGE + count == i * PAGE
      {
        hwBuf := hwBuf[i := buf];
        buf := buf + PAGE;
        if count + PAGE < len {
          count := count + PAGE;
        } else {
          count := len;
        }
        i := i + 1;
      }
      PagesHold(hwBuf, buf0, i, count);
    }

    static lemma NextPage(buf: nat)
      ensures (buf + PAGE) % PAGE == buf % PAGE
    {
    }

    // Descriptors first to last of the pool are linked one to the next.
    ghost predicate Linked(first: nat, last: nat)
      reads this, pool
    {
      first <= last < used <= pool.Length && forall k :: first <= k < last ==> pool[k].next == k + 1
    }

    // A new descriptor behind q.
    method Append(q: nat) returns (r: nat)
      requires Valid() && q + 1 == used < EHCI_MAX_QTD
      modifies this`used, pool
      ensures Valid() && r == q + 1 && used == r + 1 && pool[..q] == old(pool[..q])
      ensures pool[q] == old(pool[q]).(next := r) && pool[r] == Qtd([0, 0, 0, 0, 0], QTD_STS_HALT, 0, NO_QTD)
    {
      r := QtdAlloc();
      assert pool[..r][q] == old(pool[..used][q]);
      assert pool[..q] == pool[..r][..q];
      pool[q] := pool[q].(next := r);
    }

    lemma FullMore(ds: seq<Qtd>, d: Qtd, buf: nat, n: nat, maxpacket: nat, pid: nat)
      requires 0 < maxpacket && FullPieces(ds, buf, n, maxpacket, pid)
      requires 0x4000 <= d.length && WholePackets(d.length, maxpacket) && !InterruptsOnCompletion(d.hwToken)
               && IsPiece(d, buf + n, pid)
      ensures FullPieces(ds + [d], buf, n + d.length, maxpacket, pid)
    {
      assert (ds + [d])[..|ds|] == ds;
    }

    // The data stage so far: descriptors first to q - 1 hold the first n bytes, and q is the next one, still empty.
    ghost predicate StageTo(first: nat, q: nat, buf: nat, n: nat, maxpacket: nat, pid: nat)
      requires 0 < maxpacket
      reads this, pool
    {
      && Valid() && first <= q && used == q + 1 && Linked(first, q) && pool[q].next == NO_QTD
      && FullPieces(pool[first..q], buf, n, maxpacket, pid)
    }

    // The data stage done, with last as its last descriptor.
    ghost predicate StageDone(first: nat, last: nat, buf: nat, len: nat, token: nat, maxpacket: nat, pid: nat)
      requires 0 < maxpacket
      reads this, pool
    {
      && Valid() && first <= last && used == last + 1 && Linked(first, last) && pool[last].next == NO_QTD
      && Covers(pool[first..used], buf, len, maxpacket, pid)
      && pool[last].length < 0x8000 && pool[last].hwToken == pool[last].length * 0x1_0000 + token
    }

    // The SETUP descriptor, if there is one, is left alone.
    twostate predicate FrontKept(first: nat)
      reads pool
    {
      0 < first <= pool.Length ==> pool[0] == old(pool[0])
    }

    // The part of a turn that fills the descriptor.
    method FillPiece(first: nat, q: nat, buf: nat, len: nat, token: nat, maxpacket: nat, ghost pid: nat)
      returns (count: nat)
      requires Valid() && Linked(first, q) && used == q + 1 && pool[q].next == NO_QTD
      requires IsMaxPacket(maxpacket) && buf + len <= 0x1_0000_0000 && token < 0x8000 && pid == token / 0x100 % 4
      modifies pool
      ensures Valid() && Linked(first, q) && pool[q].next == NO_QTD
      ensures pool[first..q] == old(pool[first..q]) && FrontKept(first)
      ensures count == pool[q].length && IsPiece(pool[q], buf, pid)
      ensures count == len || (0x4000 <= count < len && WholePackets(count, maxpacket))
      ensures pool[q].hwToken == count * 0x1_0000 + token && !InterruptsOnCompletion(pool[q].hwToken)
    {
      Slices(pool[..q], first);
      if Room(buf) < len {
        TakenFull(buf, len, maxpacket);
      }
      count := QtdFill(q, buf, len, token, maxpacket);
      Slices(pool[..q], first);
      assert 0 < first ==> pool[0] == pool[..q][0];
      assert forall k :: first <= k < q ==> pool[k] == pool[first..q][k - first];
    }

    // The part of a turn that goes on to a new descriptor.
    method NextPiece(first: nat, q: nat, maxpacket: nat, ghost buf: nat, ghost n: nat, ghost pid: nat) returns (r: nat)
      requires 0 < maxpacket && Valid() && Linked(first, q) && used == q + 1 < EHCI_MAX_QTD && pool[q].next == NO_QTD
      requires FullPieces(pool[first..q], buf, n, maxpacket, pid)
      requires 0x4000 <= pool[q].length && WholePackets(pool[q].length, maxpacket)
               && !InterruptsOnCompletion(pool[q].hwToken)
      requires IsPiece(pool[q], buf + n, pid)
      modifies this`used, pool
      ensures r == q + 1 && StageTo(first, r, buf, n + old(pool[q].length), maxpacket, pid) && FrontKept(first)
    {
      hide AllDone, Moved, FullPieces;
      ghost var ds, d := pool[first..q], pool[q];
      FullMore(ds, d.(next := q + 1), buf, n, maxpacket, pid);
      Slices(pool[..q], first);
      r := Append(q);
      Slices(pool[..q], first);
      assert 0 < first ==> pool[0] == pool[..q][0];
      assert pool[first..r] == ds + [d.(next := q + 1)];
      assert forall k :: first <= k < q ==> pool[k] == ds[k - first];
    }

    lemma LastPiece(ds: seq<Qtd>, d: Qtd, buf: nat, n: nat, maxpacket: nat, pid: nat)
      requires 0 < maxpacket && FullPieces(ds, buf, n, maxpacket, pid) && IsPiece(d, buf + n, pid)
      ensures Covers(ds + [d], buf, n + d.length, maxpacket, pid)
    {
      assert (ds + [d])[..|ds|] == ds;
    }

    // The descriptor just filled is the last one.
    lemma StageEnds(first: nat, q: nat, token: nat, maxpacket: nat, buf: nat, n: nat, pid: nat)
      requires 0 < maxpacket && Valid() && Linked(first, q) && used == q + 1 && pool[q].next == NO_QTD
      requires FullPieces(pool[first..q], buf, n, maxpacket, pid) && IsPiece(pool[q], buf + n, pid)
      requires pool[q].hwToken == pool[q].length * 0x1_0000 + token
      ensures StageDone(first, q, buf, n + pool[q].length, token, maxpacket, pid)
    {
      LastPiece(pool[first..q], pool[q], buf, n, maxpacket, pid);
      assert pool[first..used] == pool[first..q] + [pool[q]];
    }

    // One turn of the loop of the data stage.
    method DataTurn(first: nat, q: nat, buf: nat, len: nat, token: nat, maxpacket: nat, ghost buf0: nat, ghost n: nat,
        ghost pid: nat)
      returns (count: nat, r: nat)
      requires IsMaxPacket(maxpacket) && StageTo(first, q, buf0, n, maxpacket, pid) && buf == buf0 + n
               && n + len < 0x1_0000
      requires first <= 1 && buf + len <= 0x1_0000_0000 && token < 0x8000 && pid == token / 0x100 % 4
      modifies this`used, pool
      ensures FrontKept(first) && count <= len
      ensures count == len ==> r == q && StageDone(first, r, buf0, n + len, token, maxpacket, pid)
      ensures count < len ==> 0 < count && r == q + 1 && StageTo(first, r, buf0, n + count, maxpacket, pid)
    {
      hide AllDone, Moved, FullPieces;
      ghost var ds := pool[first..q];
      FullBound(ds, buf0, n, maxpacket, pid);
      count := FillPiece(first, q, buf, len, token, maxpacket, pid);
      r := q;
      if count == len {
        StageEnds(first, q, token, maxpacket, buf0, n, pid);
        return;
      }
      r := NextPiece(first, q, maxpacket, buf0, n, pid);
    }

    // A part of a prefix.
    lemma Slices(s: seq<Qtd>, first: nat)
      requires s <= pool[..] && first <= |s|
      ensures s[first..] == pool[first..|s|]
    {
    }

    // The data stage from descriptor first on.
    method DataStage(first: nat, buf0: nat, len0: nat, token: nat, maxpacket: nat, ghost pid: nat) returns (last: nat)
      requires Valid() && first + 1 == used <= 2 && pool[first].next == NO_QTD
      requires IsMaxPacket(maxpacket) && len0 < 0x1_0000 && buf0 + len0 <= 0x1_0000_0000
      requires token < 0x8000 && pid == token / 0x100 % 4
      modifies this`used, pool
      ensures StageDone(first, last, buf0, len0, token, maxpacket, pid) && FrontKept(first)
      ensures last <= first + 3
    {
      hide IsPiece, WholePackets;
      var buf, len := buf0, len0;
      last := first;
      ghost var n := 0;
      assert pool[first..first] == [];
      assert StageTo(first, last, buf0, n, maxpacket, pid) && FrontKept(first);
      hide Covers, Valid, FrontKept, QtdLength;
      while true
        invariant StageTo(first, last, buf0, n, maxpacket, pid) && FrontKept(first)
        invariant buf == buf0 + n && n + len == len0
        decreases len
      {
        FullBound(pool[first..last], buf0, n, maxpacket, pid);
        var count;
        count, last := DataTurn(first, last, buf, len, token, maxpacket, buf0, n, pid);
        len := len - count;
        buf := buf + count;
        n := n + count;
        if len <= 0 {
          return;
        }
      }
    }

    // The SETUP descriptor, and an empty one behind it.
    method SetupStage(setupDma: nat, token: nat) returns (q: nat)
      requires Valid() && used == 1 && pool[0].next == NO_QTD && setupDma + 8 <= 0x1_0000_0000
               && token == QTD_STS_ACTIVE
      modifies this`used, pool
      ensures Valid() && q == 1 && used == 2 && pool[1].next == NO_QTD && pool[0].next == 1
      ensures pool[0].length == 8 && IsPiece(pool[0], setupDma, PID_SETUP) && !InterruptsOnCompletion(pool[0].hwToken)
    {
      var _ := QtdFill(0, setupDma, 8, token + PID_SETUP * 0x100, 8);
      q := Append(0);
    }

    // The status descriptor of a control transfer, behind the data stage.
    method StatusStage(ghost first: nat, last: nat, token: nat, ghost buf: nat, ghost len: nat, ghost maxpacket: nat,
        ghost pid: nat, ghost low: nat)
      returns (q: nat)
      requires 0 < maxpacket && first <= 1 && last <= 4 && StageDone(first, last, buf, len, low, maxpacket, pid)
               && token < 0x8000
      requires low < 0x8000 && low / 0x100 % 4 == pid
      modifies this`used, pool
      ensures Valid() && q == last + 1 && used == q + 1 && Linked(first, q) && pool[q].next == NO_QTD
              && FrontKept(first)
      ensures Covers(pool[first..q], buf, len, maxpacket, pid) && !InterruptsOnCompletion(pool[last].hwToken)
      ensures pool[q].length == 0 && QtdLength(pool[q].hwToken) == 0 && QtdPid(pool[q].hwToken) == token / 0x100 % 4
      ensures pool[q].hwToken == token
    {
      hide AllDone, Moved, FullPieces;
      hide Covers, IsPiece, QtdLength, QtdPid, InterruptsOnCompletion;
      ghost var ds, d := pool[first..used], pool[last].(next := last + 1);
      TokenFields(pool[last].length, low);
      CoversStill(ds, d, buf, len, maxpacket, pid);
      Slices(pool[..last], first);
      q := Append(last);
      Slices(pool[..last], first);
      assert pool[first..q] == ds[|ds| - 1 := d];
      assert forall k :: first <= k < last ==> pool[k] == ds[k - first];
      assert 0 < first && 0 < last ==> pool[0] == pool[..last][0];
      Slices(pool[..q], first);
      ghost var all := pool[first..q];
      TokenFields(0, token);
      var _ := QtdFill(q, 0, 0, token, 0);
      Slices(pool[..q], first);
      assert forall k :: first <= k < q ==> pool[k] == all[k - first];
      assert 0 < first ==> pool[0] == pool[..q][0];
    }

    // Only descriptor q asks for an interrupt.
    ghost predicate InterruptsAt(q: nat)
      reads this, pool
    {
      used <= pool.Length && forall k :: 0 <= k < used ==> (InterruptsOnCompletion(pool[k].hwToken) <==> k == q)
    }

    /** The descriptors of a request: a setup packet for a control transfer, the data from first to last, a status
        packet the other way behind it; linked in a row, and only the last one asks for an interrupt. */
    ghost predicate IsTransaction(urb: Urb, first: nat, last: nat)
      requires urb.Valid()
      reads this, pool
    {
      && Valid() && first == (if urb.control then 1 else 0) && first <= last < used <= 6
      && used == (if urb.HasStatus() then last + 2 else last + 1)
      && Linked(0, used - 1) && pool[used - 1].next == NO_QTD && InterruptsAt(used - 1)
      && (urb.control ==> pool[0].length == 8 && IsPiece(pool[0], urb.setupDma, PID_SETUP))
      && Covers(pool[first..last + 1], urb.dma, urb.len, urb.maxpacket, urb.Pid())
      && (urb.HasStatus() ==> pool[used - 1].length == 0 && QtdLength(pool[used - 1].hwToken) == 0
                              && QtdPid(pool[used - 1].hwToken) == 1 - urb.Pid())
    }

    // qtd->hw_token |= QTD_IOC on the last descriptor.
    method AskInterrupt(q: nat, ghost low: nat)
      requires Valid() && q + 1 == used && pool[q].hwToken == pool[q].length * 0x1_0000 + low
               && pool[q].length < 0x8000 && low < 0x8000
      modifies pool
      ensures Valid() && pool[..q] == old(pool[..q]) && pool[q] == old(pool[q]).(hwToken := pool[q].hwToken)
      ensures QtdLength(pool[q].hwToken) == pool[q].length && QtdPid(pool[q].hwToken) == low / 0x100 % 4
      ensures InterruptsOnCompletion(pool[q].hwToken)
    {
      TokenFields(pool[q].length, low);
      pool[q] := pool[q].(hwToken := pool[q].hwToken + QTD_IOC);
    }

    // No descriptor asks for an interrupt yet.
    ghost predicate Quiet()
      reads this, pool
    {
      used <= pool.Length && forall k :: 0 <= k < used ==> !InterruptsOnCompletion(pool[k].hwToken)
    }

    // The descriptors of a request before the interrupt is asked for; token is what the last one was filled with.
    ghost predicate Built(urb: Urb, first: nat, last: nat, token: nat)
      requires urb.Valid()
      reads this, pool
    {
      && Valid() && first == (if urb.control then 1 else 0) && first <= last < used <= 6
      && used == (if urb.HasStatus() then last + 2 else last + 1)
      && Linked(0, used - 1) && pool[used - 1].next == NO_QTD && Quiet()
      && (urb.control ==> pool[0].length == 8 && IsPiece(pool[0], urb.setupDma, PID_SETUP))
      && Covers(pool[first..last + 1], urb.dma, urb.len, urb.maxpacket, urb.Pid())
      && token < 0x8000 && pool[used - 1].length < 0x8000
      && pool[used - 1].hwToken == pool[used - 1].length * 0x1_0000 + token
      && (urb.HasStatus() ==> pool[used - 1].length == 0 && token / 0x100 % 4 == 1 - urb.Pid())
      && (!urb.HasStatus() ==> token / 0x100 % 4 == urb.Pid())
    }

    // The last statement of qh_urb_transaction.
    method Finish(ghost urb: Urb, q: nat, ghost first: nat, ghost last: nat, ghost token: nat)
      requires urb.Valid() && Built(urb, first, last, token) && q + 1 == used
      modifies pool
      ensures used == old(used) && IsTransaction(urb, first, last)
    {
      ghost var all := pool[..];
      AskInterrupt(q, token);
      assert forall k :: 0 <= k < q ==> pool[k] == pool[..q][k] == all[..q][k] == all[k];
      if urb.HasStatus() {
        assert pool[first..last + 1] == all[first..last + 1];
      } else {
        CoversStill(all[first..last + 1], pool[q], urb.dma, urb.len, urb.maxpacket, urb.Pid());
        assert pool[first..last + 1] == all[first..last + 1][last - first := pool[q]];
      }
    }

    // The setup packet and the data stage make a request without a status stage.
    lemma BuiltPlain(urb: Urb, first: nat, last: nat, token: nat)
      requires urb.Valid() && !urb.HasStatus() && first == (if urb.control then 1 else 0) && last <= first + 3
      requires StageDone(first, last, urb.dma, urb.len, token, urb.maxpacket, urb.Pid()) && token < 0x8000
               && token / 0x100 % 4 == urb.Pid()
      requires urb.control ==> pool[0].next == 1 && pool[0].length == 8 && IsPiece(pool[0], urb.setupDma, PID_SETUP)
                               && !InterruptsOnCompletion(pool[0].hwToken)
      ensures Built(urb, first, last, token)
    {
      TokenFields(pool[last].length, token);
      QuietStage(first, last, urb.dma, urb.len, urb.maxpacket, urb.Pid());
    }

    lemma QuietStage(first: nat, last: nat, buf: nat, len: nat, maxpacket: nat, pid: nat)
      requires 0 < maxpacket && first <= last < pool.Length && Covers(pool[first..last + 1], buf, len, maxpacket, pid)
      ensures forall k :: first <= k < last ==> !InterruptsOnCompletion(pool[k].hwToken)
    {
      var ds := pool[first..last + 1];
      FullQuiet(ds[..|ds| - 1], buf, len - ds[|ds| - 1].length, maxpacket, pid);
      assert forall k :: first <= k < last ==> pool[k] == ds[..|ds| - 1][k - first];
    }

    // The same with a status stage.
    lemma BuiltStatus(urb: Urb, first: nat, last: nat, token: nat)
      requires urb.Valid() && urb.HasStatus() && first == 1 && last <= 4 && Valid() && used == last + 2
      requires Linked(first, last + 1) && pool[last + 1].next == NO_QTD && pool[last + 1].hwToken == token
               && pool[last + 1].length == 0
      requires Covers(pool[first..last + 1], urb.dma, urb.len, urb.maxpacket, urb.Pid())
               && !InterruptsOnCompletion(pool[last].hwToken)
      requires token < 0x8000 && token / 0x100 % 4 == 1 - urb.Pid()
      requires pool[0].next == 1 && pool[0].length == 8 && IsPiece(pool[0], urb.setupDma, PID_SETUP)
               && !InterruptsOnCompletion(pool[0].hwToken)
      ensures Built(urb, first, last, token)
    {
      TokenFields(0, token);
      QuietStage(first, last, urb.dma, urb.len, urb.maxpacket, urb.Pid());
    }

    /** qh_urb_transaction: the request in descriptors of the pool, at most six of its eight. */
    method Transaction(urb: Urb) returns (head: nat, ghost first: nat, ghost last: nat)
      requires Valid() && used == 0 && urb.Valid()
      modifies this`used, pool
      ensures head == 0 && IsTransaction(urb, first, last)
    {
      hide Valid, IsTransaction, Built, Covers, IsPiece, StageDone, Linked;
      head := QtdAlloc();
      var q := head;
      var token := QTD_STS_ACTIVE;
      if urb.control {
        q := SetupStage(urb.setupDma, token);
      }
      if urb.input || (urb.control && urb.len == 0) {
        token := token + PID_IN * 0x100;
      }
      first := q;
      q := DataStage(q, urb.dma, urb.len, token, urb.maxpacket, urb.Pid());
      last := q;
      if urb.HasStatus() {
        ghost var low := token;
        token := if urb.input then token - 0x100 else token + 0x100;
        q := StatusStage(first, q, token, urb.dma, urb.len, urb.maxpacket, urb.Pid(), low);
        BuiltStatus(urb, first, last, token);
      } else {
        BuiltPlain(urb, first, last, token);
      }
      Finish(urb, q, first, last, token);
    }

    // The controller's part, where every transfer succeeds: it clears the length fields and the status bits.
    method Complete()
      requires Valid()
      modifies pool
      ensures Valid() && used == old(used) && AllDone(old(pool[..used]), pool[..used])
    {
      var k := 0;
      while k < used
        invariant 0 <= k <= used && Valid()
        invariant forall j :: k <= j < used ==> pool[j] == old(pool[j])
        invariant AllDone(old(pool[..used])[..k], pool[..k])
      {
        ghost var was := pool[..k];
        TokenFields(0, QtdPid(pool[k].hwToken) * 0x100);
        pool[k] := pool[k].(hwToken := QtdPid(pool[k].hwToken) * 0x100);
        assert pool[..k + 1] == was + [pool[k]];
        k := k + 1;
      }
      assert old(pool[..used])[..used] == old(pool[..used]);
    }

    // The descriptor was halted, and not as an empty one whose status says nothing else.
    static predicate HaltedInError(d: Qtd) {
      d.hwToken / QTD_STS_HALT % 2 == 1 && !(d.length == 0 && d.hwToken % 0x100 == QTD_STS_HALT)
    }

    /** qh_end_transfer: adds up what was moved, notices an error of any descriptor, and gives the pool back. */
    method EndTransfer(head: nat) returns (actual: int, error: bool)
      requires Valid() && head == 0 < used && Linked(0, used - 1) && pool[used - 1].next == NO_QTD
      modifies this`used
      ensures used == 0 && actual == Moved(old(pool[..used]))
      ensures error <==> exists k :: 0 <= k < old(used) && HaltedInError(pool[k])
    {
      actual, error := 0, false;
      var qtd: int := head;
      while qtd != NO_QTD
        invariant 0 <= qtd < used || qtd == NO_QTD
        invariant actual == Moved(pool[..if qtd == NO_QTD then used else qtd])
        invariant error <==> exists k :: 0 <= k < (if qtd == NO_QTD then used else qtd) && HaltedInError(pool[k])
        decreases if qtd == NO_QTD then 0 else used - qtd
      {
        assert pool[..qtd + 1][..qtd] == pool[..qtd];
        var token := pool[qtd].hwToken;
        if QtdPid(token) != PID_SETUP {
          actual := actual + (pool[qtd].length - QtdLength(token));
        }
        if HaltedInError(pool[qtd]) {
          error := true;
        }
        qtd := pool[qtd].next;
      }
      used := 0;
    }

    lemma SliceOfSlice(s: seq<Qtd>, n: nat, a: nat, b: nat)
      requires a <= b <= n <= |s|
      ensures s[..n][a..b] == s[a..b]
    {
    }

    // The sum over a completed request is the length of its buffer.
    lemma MovedTransaction(urb: Urb, first: nat, last: nat, done: seq<Qtd>)
      requires urb.Valid() && IsTransaction(urb, first, last) && AllDone(pool[..used], done)
      ensures Moved(done) == urb.len
    {
      MovedEnds(urb, first, last, done);
      DoneSlice(pool[..used], done, first, last + 1);
      SliceOfSlice(pool[..], used, first, last + 1);
      assert pool[..][..used] == pool[..used] && pool[..][first..last + 1] == pool[first..last + 1];
      MovedCovers(pool[first..last + 1], done[first..last + 1], urb.dma, urb.len, urb.maxpacket, urb.Pid());
      MovedParts(done, first, last + 1);
    }

    lemma MovedEnds(urb: Urb, first: nat, last: nat, done: seq<Qtd>)
      requires urb.Valid() && IsTransaction(urb, first, last) && AllDone(pool[..used], done)
      ensures Moved(done[..first]) == 0 && Moved(done[last + 1..]) == 0
    {
      assert forall k :: 0 <= k < used ==> pool[..used][k] == pool[k];
      if urb.control {
        assert done[..1][..0] == [];
      }
      if urb.HasStatus() {
        assert done[last + 1..] == [done[last + 1]];
        assert [done[last + 1]][..0] == [];
      }
    }

    lemma MovedAny(urb: Urb, first: nat, last: nat)
      requires urb.Valid() && IsTransaction(urb, first, last)
      ensures forall done: seq<Qtd> :: AllDone(pool[..used], done) ==> Moved(done) == urb.len
    {
      forall done: seq<Qtd> | AllDone(pool[..used], done) ensures Moved(done) == urb.len {
        MovedTransaction(urb, first, last, done);
      }
    }

    /** Any run of successful requests: the pool is never exhausted, it is given back after each, and each moves exactly
        the bytes of its buffer. */
    method DoAll(urbs: seq<Urb>) returns (actuals: seq<int>)
      requires Valid() && used == 0 && forall i :: 0 <= i < |urbs| ==> urbs[i].Valid()
      modifies this`used, pool
      ensures Valid() && used == 0 && |actuals| == |urbs| && forall i :: 0 <= i < |urbs| ==> actuals[i] == urbs[i].len
    {
      actuals := [];
      while |actuals| < |urbs|
        invariant Valid() && used == 0 && |actuals| <= |urbs|
        invariant forall i :: 0 <= i < |actuals| ==> actuals[i] == urbs[i].len
      {
        var actual, _ := DoUrb(urbs[|actuals|]);
        actuals := actuals + [actual];
      }
    }

    static lemma NoError(ds: seq<Qtd>, done: seq<Qtd>)
      requires AllDone(ds, done)
      ensures forall k :: 0 <= k < |done| ==> !HaltedInError(done[k])
    {
    }

    // ehci_do_urb, as far as the descriptors are concerned.
    method DoUrb(urb: Urb) returns (actual: int, error: bool)
      requires Valid() && used == 0 && urb.Valid()
      modifies this`used, pool
      ensures Valid() && used == 0 && actual == urb.len && !error
    {
      hide AllDone, Moved, IsPiece, Covers, HaltedInError;
      ghost var first, last;
      var head;
      head, first, last := Transaction(urb);
      ghost var ds, n := pool[..used], used;
      MovedAny(urb, first, last);
      Complete();
      NoError(ds, pool[..n]);
      assert forall k :: 0 <= k < n ==> pool[k] == pool[..n][k];
      actual, error := EndTransfer(head);
    }
  }
}
