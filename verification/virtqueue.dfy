/** The descriptor, avail and used rings of kernel/virtio_disk.c as one value, with the requests they
    stand for. Requesters, the device and the interrupt handler each take steps on it. */
module VirtQueue {

  const NUM := 8
  const TWO16 := 0x10000
  const F_NEXT := 1
  const F_WRITE := 2

  datatype Desc = Desc(len: nat, flags: nat, next: nat)
  datatype Info = Info(b: nat, status: nat)   // b == 0: no buffer

  const EMPTY := Desc(0, 0, 0)

  /** Where a request is: published, taken by the device, completed, or seen by the interrupt handler. */
  datatype Phase = Published | Taken | Completed | Seen

  /** A request: its other two descriptors, its buffer, its number, and where it is. */
  datatype Req = Req(mid: nat, tail: nat, buf: nat, serial: nat, phase: Phase)

  datatype Queue = Queue(
    desc: seq<Desc>, free: seq<bool>, avail: seq<nat>, availIdx: nat, used: seq<nat>, usedIdx: nat, seen: nat,
    info: seq<Info>, busy: set<nat>,                       // busy: buffers with b->disk == 1
    owner: seq<nat>, reqs: map<nat, Req>, pend: seq<nat>, fin: seq<nat>, taken: nat, acked: nat,
    issued: nat, completed: set<nat>, cleared: seq<nat>) {

    ghost predicate Shape()
    {
      && |desc| == |free| == |avail| == |used| == |info| == |owner| == NUM
      && availIdx < TWO16 && usedIdx < TWO16 && seen < TWO16
    }

    /** Request `h` is a chain of three descriptors of its own. */
    ghost predicate Chain(h: nat)
      requires Shape() && h in reqs
    {
      var r := reqs[h];
      && h < NUM && r.mid < NUM && r.tail < NUM && h != r.mid && h != r.tail && r.mid != r.tail
      && owner[h] == h && owner[r.mid] == h && owner[r.tail] == h && !free[h] && !free[r.mid] && !free[r.tail]
      && desc[h].flags == F_NEXT && desc[h].next == r.mid
      && desc[r.mid].flags % 2 == 1 && desc[r.mid].next == r.tail && desc[r.tail].flags % 2 == 0
    }

    ghost predicate Finished(h: nat)
      requires h in reqs
    {
      reqs[h].phase == Completed || reqs[h].phase == Seen
    }

    /** Its buffer's flag, its status and its place in the record are those of its phase. */
    ghost predicate Tracked(h: nat)
      requires Shape() && h in reqs
    {
      var r := reqs[h];
      && h < NUM && info[h].b == r.buf && (Finished(h) ==> info[h].status == 0) && (r.buf in busy <==> r.phase != Seen)
      && r.serial < issued && (r.serial in completed <==> Finished(h)) && (r.serial in cleared <==> r.phase == Seen)
    }

    /** A descriptor is free, or part of the chain of its owner. */
    ghost predicate Part(i: nat)
      requires Shape() && i < NUM
    {
      if free[i] then desc[i] == EMPTY
      else owner[i] in reqs && (i == owner[i] || i == reqs[owner[i]].mid || i == reqs[owner[i]].tail)
    }

    ghost predicate Chains()
      requires Shape()
    {
      (forall h: nat :: Chained(h)) && (forall i: nat :: PartAt(i))
    }

    ghost predicate Chained(h: nat)
      requires Shape()
    {
      h in reqs ==> Chain(h)
    }

    ghost predicate PartAt(i: nat)
      requires Shape()
    {
      i < NUM ==> Part(i)
    }

    ghost predicate Requests()
      requires Shape()
    {
      (forall h: nat :: TrackedAt(h)) && (forall g: nat, h: nat :: Alone(g, h))
    }

    ghost predicate TrackedAt(h: nat)
      requires Shape()
    {
      h in reqs ==> Tracked(h)
    }

    /** No two requests have the same buffer or number. */
    ghost predicate Alone(g: nat, h: nat)
    {
      g in reqs && h in reqs && (reqs[g].buf == reqs[h].buf || reqs[g].serial == reqs[h].serial) ==> g == h
    }

    /** The published requests are in the avail ring, those completed in the used ring, oldest first. */
    ghost predicate Rings()
    {
      InRing(avail, taken, pend, availIdx) && InRing(used, acked, fin, usedIdx) && seen == acked % TWO16
    }

    ghost predicate Queued()
    {
      forall h: nat :: QueuedAt(h)
    }

    ghost predicate QueuedAt(h: nat)
    {
      && (h in pend <==> h in reqs && reqs[h].phase == Published)
      && (h in fin <==> h in reqs && reqs[h].phase == Completed)
    }

    /** Every buffer flag was cleared at most once, after its request completed. */
    ghost predicate Record()
    {
      Distinct(cleared) && forall s: nat :: RecordAt(s)
    }

    ghost predicate RecordAt(s: nat) { (s in cleared ==> s in completed) && (s in completed ==> s < issued) }

    ghost predicate InFlight(s: nat) { exists h :: h in reqs && reqs[h].serial == s }

    /** No request is dropped: it is in flight until its buffer's flag was cleared. */
    ghost predicate Accounted() { forall s: nat :: AccountedAt(s) }

    ghost predicate AccountedAt(s: nat) { s < issued ==> s in cleared || InFlight(s) }

    ghost predicate Ok() { Shape() && Chains() && Requests() && Rings() && Queued() && Record() && Accounted() }
  }

  /** `q` has no repetition, its element `j` is in the slot for index from + j, and the next free
      index is `idx`, in 16 bits. */
  ghost predicate InRing(ring: seq<nat>, from: nat, q: seq<nat>, idx: nat)
  {
    && |ring| == NUM && |q| <= NUM && idx == (from + |q|) % TWO16 && Distinct(q)
    && (forall j: nat :: j < |q| ==> q[j] < NUM && At(ring, from, j) == q[j])
  }

  ghost predicate Distinct(q: seq<nat>) { forall i, j :: 0 <= i < j < |q| ==> q[i] != q[j] }

  ghost function At(ring: seq<nat>, from: nat, j: nat): nat
    requires |ring| == NUM
  {
    ring[(from + j) % NUM]
  }

  type OkQueue = q: Queue | q.Ok() ghost witness
    Queue(seq(NUM, _ => EMPTY), seq(NUM, _ => true), seq(NUM, _ => 0), 0, seq(NUM, _ => 0), 0, 0,
          seq(NUM, _ => Info(0, 0)), {}, seq(NUM, _ => 0), map[], [], [], 0, 0, 0, {}, [])

  // Ring arithmetic: 16-bit indices pick the same slots as unbounded ones.

  lemma SlotOf(n: nat)
    ensures n % TWO16 % NUM == n % NUM && (n % TWO16 + 1) % TWO16 == (n + 1) % TWO16
  {
    var q, r := n / TWO16, n % TWO16;
    assert n == q * TWO16 + r;
    InRound(n, 8192 * q + r / NUM, r % NUM);
    if r + 1 < TWO16 { Around(n + 1, q, r + 1); } else { Around(n + 1, q + 1, 0); }
  }

  lemma InRound(n: nat, q: nat, r: nat)
    requires n == q * NUM + r && r < NUM
    ensures n % NUM == r
  {
    assert n == n / NUM * NUM + n % NUM;
  }

  lemma Around(n: nat, q: nat, r: nat)
    requires n == q * TWO16 + r && r < TWO16
    ensures n % TWO16 == r
  {
    assert n == n / TWO16 * TWO16 + n % TWO16;
  }

  lemma {:induction false} AtMost(q: seq<nat>, n: nat)
    requires Distinct(q) && forall i :: 0 <= i < |q| ==> q[i] < n
    ensures |q| <= n
    decreases n
  {
    if |q| > 0 {
      assert q[0] < n;
      if k :| 0 <= k < |q| && q[k] == n - 1 {
        var r := q[..k] + q[k + 1..];
        forall i | 0 <= i < |r| ensures r[i] < n - 1 { assert r[i] == if i < k then q[i] else q[i + 1]; }
        AtMost(r, n - 1);
      } else {
        AtMost(q, n - 1);
      }
    }
  }

  lemma SlotsDiffer(from: nat, j: nat, k: nat)
    requires j < k < j + NUM
    ensures (from + j) % NUM != (from + k) % NUM
  {
  }

  /** The ring with `x` in the slot of index `idx`. */
  function Pushed(ring: seq<nat>, idx: nat, x: nat): seq<nat>
    requires |ring| == NUM
  {
    ring[idx % NUM := x]
  }

  /** A new element goes into a slot no pending one uses. */
  lemma Enqueue(ring: seq<nat>, from: nat, q: seq<nat>, idx: nat, x: nat)
    requires InRing(ring, from, q, idx) && x !in q && x < NUM
    ensures InRing(Pushed(ring, idx, x), from, q + [x], (idx + 1) % TWO16)
  {
    SlotOf(from + |q|);
    var r, s := Pushed(ring, idx, x), q + [x];
    AtMost(s, NUM);
    forall j: nat | j < |s| ensures s[j] < NUM && At(r, from, j) == s[j] {
      if j < |q| {
        assert At(ring, from, j) == q[j];
        SlotsDiffer(from, j, |q|);
      }
    }
  }

  lemma Dequeue(ring: seq<nat>, from: nat, q: seq<nat>, idx: nat)
    requires InRing(ring, from, q, idx) && |q| > 0
    ensures InRing(ring, from + 1, q[1..], idx) && ring[from % TWO16 % NUM] == q[0] && from % TWO16 != idx
    ensures (from % TWO16 + 1) % TWO16 == (from + 1) % TWO16 && forall x :: x in q[1..] <==> x in q && x != q[0]
  {
    SlotOf(from);
    assert At(ring, from, 0) == q[0];
    forall j: nat | j < |q[1..]| ensures q[1..][j] < NUM && At(ring, from + 1, j) == q[1..][j] { assert At(ring, from, j + 1) == q[j + 1]; }
    assert q == [q[0]] + q[1..];
  }

  // The steps.

  function DataFlags(write: bool): nat { (if write then 0 else F_WRITE) + F_NEXT }

  /** virtio_disk_rw up to the notification, with descriptors h, m, t for buffer `b`. */
  ghost function Publish(q: OkQueue, h: nat, m: nat, t: nat, b: nat, write: bool): Queue
    requires h < NUM && m < NUM && t < NUM
  {
    q.(desc := q.desc[h := Desc(16, F_NEXT, m)][m := Desc(1024, DataFlags(write), t)][t := Desc(1, F_WRITE, 0)],
       free := q.free[h := false][m := false][t := false], owner := q.owner[h := h][m := h][t := h],
       info := q.info[h := Info(b, 0xff)], busy := q.busy + {b},
       avail := Pushed(q.avail, q.availIdx, h), availIdx := (q.availIdx + 1) % TWO16, pend := q.pend + [h],
       reqs := q.reqs[h := Req(m, t, b, q.issued, Published)], issued := q.issued + 1)
  }

  ghost predicate CanPublish(q: OkQueue, h: nat, m: nat, t: nat, b: nat)
  {
    && h < NUM && m < NUM && t < NUM && h != m && h != t && m != t && q.free[h] && q.free[m] && q.free[t]
    && b != 0 && b !in q.busy && forall g :: g in q.reqs ==> q.reqs[g].buf != b
  }

  lemma Unused(q: OkQueue, h: nat)
    requires h < NUM && q.free[h]
    ensures h !in q.reqs && forall g :: g in q.reqs ==> q.reqs[g].mid != h && q.reqs[g].tail != h
  {
    forall g | g in q.reqs ensures g != h && q.reqs[g].mid != h && q.reqs[g].tail != h { assert q.Chained(g); }
  }

  lemma PublishChain(q: OkQueue, h: nat, m: nat, t: nat, b: nat, write: bool, g: nat)
    requires CanPublish(q, h, m, t, b) && g in Publish(q, h, m, t, b, write).reqs
    ensures Publish(q, h, m, t, b, write).Chain(g)
  {
    if g != h {
      assert q.Chained(g);
      var d := q.reqs[g];
      assert g !in {h, m, t} && d.mid !in {h, m, t} && d.tail !in {h, m, t};
    }
  }

  lemma PublishPart(q: OkQueue, h: nat, m: nat, t: nat, b: nat, write: bool, i: nat)
    requires CanPublish(q, h, m, t, b) && i < NUM
    ensures Publish(q, h, m, t, b, write).Part(i)
  {
    assert q.PartAt(i);
    Unused(q, h);
  }

  lemma PublishChains(q: OkQueue, h: nat, m: nat, t: nat, b: nat, write: bool)
    requires CanPublish(q, h, m, t, b)
    ensures Publish(q, h, m, t, b, write).Chains()
  {
    var n := Publish(q, h, m, t, b, write);
    forall g: nat ensures n.Chained(g) { if g in n.reqs { PublishChain(q, h, m, t, b, write, g); } }
    forall i: nat ensures n.PartAt(i) { if i < NUM { PublishPart(q, h, m, t, b, write, i); } }
  }

  lemma PublishRequests(q: OkQueue, h: nat, m: nat, t: nat, b: nat, write: bool)
    requires CanPublish(q, h, m, t, b)
    ensures Publish(q, h, m, t, b, write).Requests()
  {
    var n := Publish(q, h, m, t, b, write);
    Unused(q, h);
    assert q.RecordAt(q.issued);
    forall g: nat ensures n.TrackedAt(g) { assert q.TrackedAt(g); }
    forall x: nat, y: nat ensures n.Alone(x, y) { assert q.Alone(x, y) && q.TrackedAt(x) && q.TrackedAt(y); }
  }

  lemma PublishOk(q: OkQueue, h: nat, m: nat, t: nat, b: nat, write: bool)
    requires CanPublish(q, h, m, t, b)
    ensures h !in q.reqs && Publish(q, h, m, t, b, write).Ok()
  {
    Unused(q, h);
    PublishChains(q, h, m, t, b, write);
    PublishRequests(q, h, m, t, b, write);
    PublishRings(q, h, m, t, b, write);
    PublishAccounted(q, h, m, t, b, write);
  }

  lemma PublishRings(q: OkQueue, h: nat, m: nat, t: nat, b: nat, write: bool)
    requires CanPublish(q, h, m, t, b)
    ensures Publish(q, h, m, t, b, write).Rings() && Publish(q, h, m, t, b, write).Queued()
  {
    Unused(q, h);
    assert q.QueuedAt(h);
    Enqueue(q.avail, q.taken, q.pend, q.availIdx, h);
    var n := Publish(q, h, m, t, b, write);
    forall g: nat ensures n.QueuedAt(g) { assert q.QueuedAt(g); }
  }

  lemma PublishAccounted(q: OkQueue, h: nat, m: nat, t: nat, b: nat, write: bool)
    requires CanPublish(q, h, m, t, b)
    ensures Publish(q, h, m, t, b, write).Accounted() && Publish(q, h, m, t, b, write).Record()
  {
    Unused(q, h);
    var n := Publish(q, h, m, t, b, write);
    assert n.reqs[h].serial == q.issued;
    StillAccounted(q, n, q.issued);
    forall s: nat ensures n.AccountedAt(s) { if s < q.issued { assert q.AccountedAt(s); } }
    forall s: nat ensures n.RecordAt(s) { assert q.RecordAt(s); }
  }

  /** Serial numbers below `top` stay accounted for. */
  lemma StillAccounted(q: OkQueue, n: Queue, top: nat)
    requires top <= q.issued && forall s :: s in q.cleared ==> s in n.cleared
    requires forall h :: h in q.reqs ==> (h in n.reqs && n.reqs[h].serial == q.reqs[h].serial) || q.reqs[h].serial in n.cleared
    ensures forall s: nat :: s < top ==> s in n.cleared || n.InFlight(s)
  {
    forall s: nat | s < top ensures s in n.cleared || n.InFlight(s) {
      assert q.AccountedAt(s);
      if s !in q.cleared {
        var h :| h in q.reqs && q.reqs[h].serial == s;
      }
    }
  }

  /** A step that issues and clears nothing keeps the record. */
  lemma StillRecorded(q: OkQueue, n: Queue)
    requires n.issued == q.issued && n.cleared == q.cleared && n.completed == q.completed && n.reqs.Keys == q.reqs.Keys
    requires forall h :: h in q.reqs ==> n.reqs[h].serial == q.reqs[h].serial
    ensures n.Record() && n.Accounted()
  {
    StillAccounted(q, n, q.issued);
    forall s: nat ensures n.AccountedAt(s) && n.RecordAt(s) { assert q.RecordAt(s); }
  }

  /** The device takes the oldest published request. */
  ghost function Fetch(q: OkQueue): Queue
    requires |q.pend| > 0
  {
    var h := q.pend[0];
    assert h in q.pend && q.QueuedAt(h);
    q.(pend := q.pend[1..], taken := q.taken + 1, reqs := q.reqs[h := q.reqs[h].(phase := Taken)])
  }

  lemma FetchRings(q: OkQueue)
    requires |q.pend| > 0
    ensures Fetch(q).Rings() && Fetch(q).Queued() && q.avail[q.taken % TWO16 % NUM] == q.pend[0] && q.taken % TWO16 != q.availIdx
  {
    assert q.pend[0] in q.pend && q.QueuedAt(q.pend[0]);
    Dequeue(q.avail, q.taken, q.pend, q.availIdx);
    forall g: nat ensures Fetch(q).QueuedAt(g) { assert q.QueuedAt(g); }
  }

  lemma FetchOk(q: OkQueue)
    requires |q.pend| > 0
    ensures Fetch(q).Ok() && q.avail[q.taken % TWO16 % NUM] == q.pend[0] && q.taken % TWO16 != q.availIdx
  {
    assert q.pend[0] in q.pend && q.QueuedAt(q.pend[0]);
    FetchRings(q);
    SameChains(q, Fetch(q));
    StillRecorded(q, Fetch(q));
    FetchRequests(q);
  }

  lemma FetchRequests(q: OkQueue)
    requires |q.pend| > 0
    ensures Fetch(q).Requests()
  {
    var n := Fetch(q);
    assert q.pend[0] in q.pend && q.QueuedAt(q.pend[0]);
    forall g: nat ensures n.TrackedAt(g) { assert q.TrackedAt(g); }
    forall x: nat, y: nat ensures n.Alone(x, y) { assert q.Alone(x, y); }
  }

  /** A step that moves a request along leaves the chains alone. */
  lemma SameChains(q: OkQueue, n: Queue)
    requires n.Shape() && n.desc == q.desc && n.free == q.free && n.owner == q.owner && n.reqs.Keys == q.reqs.Keys
    requires forall g :: g in q.reqs ==> n.reqs[g].mid == q.reqs[g].mid && n.reqs[g].tail == q.reqs[g].tail
    ensures n.Chains()
  {
    forall g: nat ensures n.Chained(g) { assert q.Chained(g); }
    forall i: nat ensures n.PartAt(i) { assert q.PartAt(i); }
  }

  /** The device completes request `h`, in any order: status 0, and an entry in the used ring. */
  ghost function Complete(q: OkQueue, h: nat): Queue
    requires h in q.reqs && h < NUM
  {
    q.(info := q.info[h := q.info[h].(status := 0)], used := Pushed(q.used, q.usedIdx, h), usedIdx := (q.usedIdx + 1) % TWO16,
       fin := q.fin + [h], reqs := q.reqs[h := q.reqs[h].(phase := Completed)], completed := q.completed + {q.reqs[h].serial})
  }

  lemma CompleteRings(q: OkQueue, h: nat)
    requires h in q.reqs && q.reqs[h].phase == Taken && h < NUM
    ensures Complete(q, h).Rings() && Complete(q, h).Queued()
  {
    assert q.QueuedAt(h);
    Enqueue(q.used, q.acked, q.fin, q.usedIdx, h);
    forall g: nat ensures Complete(q, h).QueuedAt(g) { assert q.QueuedAt(g); }
  }

  lemma CompleteOk(q: OkQueue, h: nat)
    requires h in q.reqs && q.reqs[h].phase == Taken
    ensures h < NUM && Complete(q, h).Ok()
  {
    assert q.TrackedAt(h);
    var n := Complete(q, h);
    CompleteRings(q, h);
    SameChains(q, n);
    CompleteRecord(q, h);
    CompleteRequests(q, h);
  }

  lemma CompleteRecord(q: OkQueue, h: nat)
    requires h in q.reqs && q.reqs[h].phase == Taken && h < NUM
    ensures Complete(q, h).Record() && Complete(q, h).Accounted()
  {
    var n := Complete(q, h);
    assert q.TrackedAt(h);
    StillAccounted(q, n, q.issued);
    forall s: nat ensures n.AccountedAt(s) && n.RecordAt(s) { assert q.RecordAt(s); }
  }

  lemma CompleteRequests(q: OkQueue, h: nat)
    requires h in q.reqs && q.reqs[h].phase == Taken && h < NUM
    ensures Complete(q, h).Requests()
  {
    var n := Complete(q, h);
    forall g: nat ensures n.TrackedAt(g) { assert q.TrackedAt(g) && q.TrackedAt(h) && q.Alone(g, h); }
    forall x: nat, y: nat ensures n.Alone(x, y) { assert q.Alone(x, y); }
  }

  /** One round of virtio_disk_intr's loop: the oldest completion clears its buffer's flag. */
  ghost function Ack(q: OkQueue): Queue
    requires |q.fin| > 0
  {
    var h := q.fin[0];
    assert h in q.fin && q.QueuedAt(h);
    q.(fin := q.fin[1..], acked := q.acked + 1, seen := (q.seen + 1) % TWO16, busy := q.busy - {q.reqs[h].buf},
       reqs := q.reqs[h := q.reqs[h].(phase := Seen)], cleared := q.cleared + [q.reqs[h].serial])
  }

  lemma AckRings(q: OkQueue)
    requires |q.fin| > 0
    ensures Ack(q).Rings() && q.fin[0] in q.reqs && q.fin[0] < NUM && q.used[q.seen % NUM] == q.fin[0] && q.seen != q.usedIdx
    ensures q.info[q.fin[0]] == Info(q.reqs[q.fin[0]].buf, 0)
  {
    assert q.fin[0] in q.fin && q.QueuedAt(q.fin[0]) && q.TrackedAt(q.fin[0]);
    Dequeue(q.used, q.acked, q.fin, q.usedIdx);
  }

  lemma AckOk(q: OkQueue)
    requires |q.fin| > 0
    ensures Ack(q).Ok() && q.fin[0] in q.reqs && q.fin[0] < NUM && q.used[q.seen % NUM] == q.fin[0] && q.seen != q.usedIdx
    ensures q.info[q.fin[0]] == Info(q.reqs[q.fin[0]].buf, 0)
  {
    AckRings(q);
    assert q.QueuedAt(q.fin[0]);
    SameChains(q, Ack(q));
    AckRequests(q);
    AckRecord(q);
  }

  lemma AckRecord(q: OkQueue)
    requires |q.fin| > 0
    ensures Ack(q).Record() && Ack(q).Accounted() && Ack(q).Queued()
  {
    var h, n := q.fin[0], Ack(q);
    assert h in q.fin && q.QueuedAt(h) && q.TrackedAt(h);
    Dequeue(q.used, q.acked, q.fin, q.usedIdx);
    StillAccounted(q, n, q.issued);
    forall s: nat ensures n.AccountedAt(s) && n.RecordAt(s) { assert q.RecordAt(s); }
    forall g: nat ensures n.QueuedAt(g) { assert q.QueuedAt(g); }
  }

  lemma AckRequests(q: OkQueue)
    requires |q.fin| > 0
    ensures Ack(q).Requests()
  {
    var h, n := q.fin[0], Ack(q);
    assert h in q.fin && q.QueuedAt(h);
    forall g: nat ensures n.TrackedAt(g) { assert q.TrackedAt(g) && q.TrackedAt(h) && q.Alone(g, h); }
    forall x: nat, y: nat ensures n.Alone(x, y) { assert q.Alone(x, y); }
  }

  /** virtio_disk_rw after its buffer's flag was cleared: the chain is freed. */
  ghost function Retire(q: OkQueue, h: nat): Queue
    requires h in q.reqs && h < NUM && q.reqs[h].mid < NUM && q.reqs[h].tail < NUM
  {
    var m, t := q.reqs[h].mid, q.reqs[h].tail;
    q.(info := q.info[h := q.info[h].(b := 0)], desc := q.desc[h := EMPTY][m := EMPTY][t := EMPTY],
       free := q.free[h := true][m := true][t := true], reqs := q.reqs - {h})
  }

  lemma RetireOk(q: OkQueue, h: nat)
    requires h in q.reqs && q.reqs[h].phase == Seen
    ensures h < NUM && q.reqs[h].mid < NUM && q.reqs[h].tail < NUM && Retire(q, h).Ok()
  {
    assert q.Chained(h);
    RetireChains(q, h);
    RetireRequests(q, h);
    RetireRecord(q, h);
  }

  lemma RetireChain(q: OkQueue, h: nat, g: nat)
    requires h in q.reqs && q.Chain(h) && g in q.reqs && g != h
    ensures Retire(q, h).Chain(g)
  {
    assert q.Chained(g);
  }

  lemma RetirePart(q: OkQueue, h: nat, i: nat)
    requires h in q.reqs && q.Chain(h) && i < NUM
    ensures Retire(q, h).Part(i)
  {
    assert q.PartAt(i);
  }

  lemma RetireChains(q: OkQueue, h: nat)
    requires h in q.reqs && q.Chain(h)
    ensures Retire(q, h).Chains()
  {
    var n := Retire(q, h);
    forall g: nat ensures n.Chained(g) { if g in n.reqs { RetireChain(q, h, g); } }
    forall i: nat ensures n.PartAt(i) { if i < NUM { RetirePart(q, h, i); } }
  }

  lemma RetireRequests(q: OkQueue, h: nat)
    requires h in q.reqs && q.Chain(h) && q.reqs[h].phase == Seen
    ensures Retire(q, h).Requests()
  {
    var n := Retire(q, h);
    forall g: nat ensures n.TrackedAt(g) { assert q.TrackedAt(g); }
    forall x: nat, y: nat ensures n.Alone(x, y) { assert q.Alone(x, y); }
  }

  lemma RetireRecord(q: OkQueue, h: nat)
    requires h in q.reqs && q.Chain(h) && q.reqs[h].phase == Seen
    ensures Retire(q, h).Accounted() && Retire(q, h).Record() && Retire(q, h).Queued()
  {
    var n := Retire(q, h);
    assert q.TrackedAt(h);
    StillAccounted(q, n, q.issued);
    forall s: nat ensures n.AccountedAt(s) && n.RecordAt(s) { assert q.RecordAt(s); }
    forall g: nat ensures n.QueuedAt(g) { assert q.QueuedAt(g); }
  }

  // What the invariant says, in every state every interleaving can reach.

  ghost predicate InChain(q: OkQueue, i: nat, h: nat) { h in q.reqs && (i == h || i == q.reqs[h].mid || i == q.reqs[h].tail) }

  /** The chains in flight are disjoint and are exactly the descriptors that are not free. */
  lemma ChainsComplement(q: OkQueue, i: nat)
    requires i < NUM
    ensures q.free[i] <==> forall h :: !InChain(q, i, h)
    ensures forall g, h :: InChain(q, i, g) && InChain(q, i, h) ==> g == h
  {
    assert q.PartAt(i);
    forall h | InChain(q, i, h) ensures !q.free[i] && q.owner[i] == h { assert q.Chained(h); }
    if !q.free[i] { assert InChain(q, i, q.owner[i]); }
  }

  /** Whenever a request is no longer in flight, its buffer's flag was cleared exactly once, and its
      own completion came first. */
  lemma ExactlyOnce(q: OkQueue, s: nat)
    requires s < q.issued && !q.InFlight(s)
    ensures s in q.completed
    ensures exists i :: 0 <= i < |q.cleared| && q.cleared[i] == s && forall j :: 0 <= j < |q.cleared| && q.cleared[j] == s ==> j == i
  {
    assert q.AccountedAt(s) && q.RecordAt(s);
    var i :| 0 <= i < |q.cleared| && q.cleared[i] == s;
    assert forall j :: 0 <= j < |q.cleared| && q.cleared[j] == s ==> j == i;
  }
}
