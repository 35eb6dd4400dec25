/** The driver half of kernel/virtio_disk.c in place, and the steps of the device it talks to. Every
    method below runs under vdisk_lock, or is one step of the device; they may come in any order. */
module Virtio {
  import opened Options
  import opened VirtQueue

  class Disk {
    var desc: seq<Desc>
    var free: seq<bool>
    var avail: seq<nat>
    var availIdx: nat
    var used: seq<nat>
    var usedIdx: nat     // disk.used->idx, the device's
    var seen: nat        // disk.used_idx
    var devIdx: nat      // the device's own position in the avail ring
    var info: seq<Info>
    var busy: set<nat>   // buffers with b->disk == 1
    ghost var q: OkQueue

    /** Memory shows the queue `p`. */
    ghost predicate Shows(p: Queue)
      reads this
    {
      && p.desc == desc && p.free == free && p.avail == avail && p.availIdx == availIdx
      && p.used == used && p.usedIdx == usedIdx && p.seen == seen && p.info == info && p.busy == busy
      && p.taken % TWO16 == devIdx
    }

    ghost predicate Valid() reads this { Shows(q) }

    /** virtio_disk_init: all descriptors free, both rings empty. */
    constructor ()
      ensures Valid() && q.reqs == map[] && q.issued == 0 && q.cleared == []
    {
      desc, free, avail, used := seq(NUM, _ => EMPTY), seq(NUM, _ => true), seq(NUM, _ => 0), seq(NUM, _ => 0);
      availIdx, usedIdx, seen, devIdx, info, busy := 0, 0, 0, 0, seq(NUM, _ => Info(0, 0)), {};
      q := Queue(seq(NUM, _ => EMPTY), seq(NUM, _ => true), seq(NUM, _ => 0), 0, seq(NUM, _ => 0), 0, 0,
                 seq(NUM, _ => Info(0, 0)), {}, seq(NUM, _ => 0), map[], [], [], 0, 0, 0, {}, []);
    }

    /** alloc_desc: the first free descriptor, or -1. */
    method AllocDesc() returns (i: int)
      requires |free| == NUM
      modifies this`free
      ensures i == -1 ==> free == old(free) && forall j :: 0 <= j < NUM ==> !free[j]
      ensures i != -1 ==> 0 <= i < NUM && old(free)[i] && free == old(free)[i := false] && forall j :: 0 <= j < i ==> !old(free)[j]
    {
      i := 0;
      while i < NUM && !free[i]
        invariant 0 <= i <= NUM && forall j :: 0 <= j < i ==> !free[j]
      {
        i := i + 1;
      }
      if i < NUM { free := free[i := false]; } else { i := -1; }
    }

    /** free_desc of a descriptor in use: neither panic can happen. */
    method FreeDesc(i: nat)
      requires i < NUM == |free| == |desc| && !free[i]
      modifies this`free, this`desc
      ensures desc == old(desc)[i := EMPTY] && free == old(free)[i := true]
    {
      desc := desc[i := EMPTY];
      free := free[i := true];
    }

    /** alloc3_desc: three descriptors, or none and nothing changed. */
    method Alloc3() returns (idx: seq<nat>)
      requires |free| == |desc| == NUM && forall i :: 0 <= i < NUM && free[i] ==> desc[i] == EMPTY
      modifies this`free, this`desc
      ensures desc == old(desc) && (|idx| == 3 || (idx == [] && free == old(free) && FewFree(free)))
      ensures |idx| == 3 ==> idx[0] < NUM && idx[1] < NUM && idx[2] < NUM && idx[0] != idx[1] && idx[0] != idx[2] && idx[1] != idx[2]
      ensures |idx| == 3 ==> old(free)[idx[0]] && old(free)[idx[1]] && old(free)[idx[2]]
      ensures |idx| == 3 ==> free == old(free)[idx[0] := false][idx[1] := false][idx[2] := false]
    {
      idx := [];
      var ok := true;
      while ok && |idx| < 3
        invariant desc == old(desc) && |free| == NUM && |idx| <= 3 && (ok ==> Marked(old(free), free, idx))
        invariant !ok ==> idx == [] && free == old(free) && FewFree(free)
        decreases ok, 3 - |idx|
      {
        var i := AllocDesc();
        if i < 0 {
          ok := false;
          TooFew(old(free), free, idx);
          Unwind(idx, old(free));
          idx := [];
        } else {
          idx := idx + [i];
        }
      }
    }

    /** alloc3_desc's inner loop: the descriptors already taken go back. */
    method Unwind(idx: seq<nat>, ghost was: seq<bool>)
      requires |free| == |desc| == NUM && Marked(was, free, idx) && forall i :: 0 <= i < NUM && was[i] ==> desc[i] == EMPTY
      modifies this`free, this`desc
      ensures desc == old(desc) && free == was
    {
      var j := 0;
      while j < |idx|
        invariant 0 <= j <= |idx| && |free| == NUM && Marked(was, free, idx[j..]) && desc == old(desc)
      {
        assert idx[j..][0] == idx[j] && idx[j..][1..] == idx[j + 1..];
        FreeDesc(idx[j]);
        assert desc == old(desc);
        j := j + 1;
      }
      assert free == was;
    }

    /** virtio_disk_rw for a buffer that is not with the disk, up to the notification: the request is
        published with three descriptors of its own; None means that it has to sleep, and nothing changed. */
    method Submit(b: nat, write: bool) returns (h: Option<nat>)
      requires Valid() && b != 0 && b !in busy && forall g :: g in q.reqs ==> q.reqs[g].buf != b
      modifies this
      ensures Valid() && (h.None? ==> q == old(q) && FewFree(free))
      ensures h.Some? ==> h.value in q.reqs && h.value !in old(q).reqs && b in busy
      ensures h.Some? ==> var r := q.reqs[h.value];
        h.value < NUM && r.mid < NUM && r.tail < NUM && q == Publish(old(q), h.value, r.mid, r.tail, b, write)
      ensures h.Some? ==> q.reqs == old(q).reqs[h.value := Req(q.reqs[h.value].mid, q.reqs[h.value].tail, b, old(q).issued, Published)]
      ensures h.Some? ==> q.issued == old(q).issued + 1 && q.cleared == old(q).cleared && q.completed == old(q).completed
    {
      FreeEmpty(q);
      var idx := Alloc3();
      h := None;
      if |idx| == 3 {
        Format(idx[0], idx[1], idx[2], b, write);
        h := Some(idx[0]);
      }
    }

    method Format(i0: nat, i1: nat, i2: nat, b: nat, write: bool)
      requires CanPublish(q, i0, i1, i2, b) && Shows(q.(free := q.free[i0 := false][i1 := false][i2 := false]))
      modifies this
      ensures Valid() && q == Publish(old(q), i0, i1, i2, b, write) && i0 !in old(q).reqs
    {
      PublishOk(q, i0, i1, i2, b, write);
      Offer(q.(free := q.free[i0 := false][i1 := false][i2 := false]), i0, i1, i2, b, write);
      q := Publish(q, i0, i1, i2, b, write);
    }

    /** The three descriptors of a request, its buffer's flag and its entry in the avail ring. */
    method Offer(ghost p: Queue, i0: nat, i1: nat, i2: nat, b: nat, write: bool)
      requires Shows(p) && |desc| == |info| == |avail| == NUM && i0 < NUM && i1 < NUM && i2 < NUM
      modifies this`desc, this`busy, this`info, this`avail, this`availIdx
      ensures Shows(p.(desc := p.desc[i0 := Desc(16, F_NEXT, i1)][i1 := Desc(1024, DataFlags(write), i2)][i2 := Desc(1, F_WRITE, 0)],
        busy := p.busy + {b}, info := p.info[i0 := Info(b, 0xff)], avail := Pushed(p.avail, p.availIdx, i0), availIdx := (p.availIdx + 1) % TWO16))
    {
      desc := desc[i0 := Desc(16, F_NEXT, i1)];
      desc := desc[i1 := Desc(1024, DataFlags(write), i2)];
      desc := desc[i2 := Desc(1, F_WRITE, 0)];
      busy := busy + {b};
      info := info[i0 := Info(b, 0xff)];
      avail := Pushed(avail, availIdx, i0);
      availIdx := (availIdx + 1) % TWO16;
    }

    /** The device takes the next published request, if there is one. */
    method DeviceFetch() returns (h: Option<nat>)
      requires Valid()
      modifies this
      ensures Valid() && if |old(q).pend| == 0 then h == None && q == old(q) else h == Some(old(q).pend[0]) && q == Fetch(old(q))
    {
      h := None;
      NonePublished(q);
      if devIdx != availIdx {
        FetchOk(q);
        h := Some(avail[devIdx % NUM]);
        devIdx := (devIdx + 1) % TWO16;
        SlotOf(q.taken);
        q := Fetch(q);
      }
    }

    /** The device completes a request it has taken. */
    method DeviceComplete(h: nat)
      requires Valid() && h in q.reqs && q.reqs[h].phase == Taken
      modifies this
      ensures Valid() && h < NUM && q == Complete(old(q), h)
    {
      CompleteOk(q, h);
      Answer(q, h);
      q := Complete(q, h);
    }

    /** The status byte of request `h`, and its entry in the used ring. */
    method Answer(ghost p: Queue, h: nat)
      requires Shows(p) && |info| == |used| == NUM && h < NUM
      modifies this`info, this`used, this`usedIdx
      ensures Shows(p.(info := p.info[h := p.info[h].(status := 0)], used := Pushed(p.used, p.usedIdx, h), usedIdx := (p.usedIdx + 1) % TWO16))
    {
      info, used, usedIdx := info[h := info[h].(status := 0)], Pushed(used, usedIdx, h), (usedIdx + 1) % TWO16;
    }

    /** One round of virtio_disk_intr: the status panic cannot happen, and the flag that is cleared is
        that of a buffer whose own request completed. */
    method IntrRound() returns (b: Option<nat>)
      requires Valid()
      modifies this
      ensures Valid() && (b.None? <==> |old(q).fin| == 0) && (b.None? ==> q == old(q))
      ensures b.Some? ==> q == Ack(old(q)) && b.value in old(busy) && old(q).fin[0] in old(q).reqs && b.value == old(q).reqs[old(q).fin[0]].buf
    {
      b := None;
      EmptyIff(q);
      if seen != usedIdx {
        AckOk(q);
        var id := used[seen % NUM];
        assert info[id].status == 0;
        b := Some(info[id].b);
        busy := busy - {b.value};
        seen := (seen + 1) % TWO16;
        assert q.fin[0] in q.fin && q.QueuedAt(q.fin[0]) && q.TrackedAt(q.fin[0]);
        q := Ack(q);
      }
    }

    /** virtio_disk_intr: every completion there is gets acknowledged. */
    method Intr()
      requires Valid()
      modifies this
      ensures Valid() && q.fin == [] && q.completed == old(q).completed && |q.cleared| == |old(q).cleared| + |old(q).fin|
    {
      var more := true;
      while more
        invariant Valid() && q.completed == old(q).completed && |q.cleared| + |q.fin| == |old(q).cleared| + |old(q).fin|
        invariant !more ==> q.fin == []
        decreases more, |q.fin|
      {
        var b := IntrRound();
        more := b.Some?;
      }
    }

    /** virtio_disk_rw once its buffer's flag is clear: the three descriptors are free again. */
    method Finish(h: nat)
      requires Valid() && h in q.reqs && q.reqs[h].buf !in busy
      modifies this
      ensures Valid() && h !in q.reqs && q.reqs == old(q).reqs - {h} && q.cleared == old(q).cleared && old(q).reqs[h].serial in q.cleared
    {
      assert q.TrackedAt(h);
      RetireOk(q, h);
      assert q.Chained(h);
      info := info[h := info[h].(b := 0)];
      FreeChain(h, q.reqs[h].mid, q.reqs[h].tail);
      q := Retire(q, h);
    }

    /** free_chain over a chain h, m, t. */
    method FreeChain(h: nat, ghost m: nat, ghost t: nat)
      requires |desc| == |free| == NUM && h < NUM && m < NUM && t < NUM && h != m && h != t && m != t && !free[h] && !free[m] && !free[t]
      requires desc[h].flags % 2 == 1 && desc[h].next == m && desc[m].flags % 2 == 1 && desc[m].next == t && desc[t].flags % 2 == 0
      modifies this`desc, this`free
      ensures desc == old(desc)[h := EMPTY][m := EMPTY][t := EMPTY] && free == old(free)[h := true][m := true][t := true]
    {
      var i, more := h, true;
      ghost var k := 0;
      while more
        invariant 0 <= k <= 3 && (more <==> k < 3) && i == (if k == 0 then h else if k == 1 then m else t)
        invariant desc == (if k == 0 then old(desc) else if k == 1 then old(desc)[h := EMPTY]
          else if k == 2 then old(desc)[h := EMPTY][m := EMPTY] else old(desc)[h := EMPTY][m := EMPTY][t := EMPTY])
        invariant free == (if k == 0 then old(free) else if k == 1 then old(free)[h := true]
          else if k == 2 then old(free)[h := true][m := true] else old(free)[h := true][m := true][t := true])
        decreases 3 - k
      {
        var flag, nxt := desc[i].flags, desc[i].next;
        FreeDesc(i);
        more := flag % 2 == 1;
        if more { i := nxt; }
        k := k + 1;
      }
    }
  }

  lemma FreeEmpty(q: OkQueue)
    ensures forall i :: 0 <= i < NUM && q.free[i] ==> q.desc[i] == EMPTY
  {
    forall i | 0 <= i < NUM && q.free[i] ensures q.desc[i] == EMPTY { assert q.PartAt(i); }
  }

  lemma NonePublished(q: OkQueue)
    ensures q.taken % TWO16 == q.availIdx <==> |q.pend| == 0
  {
  }

  /** The handler's test for completions, on 16-bit indices, is exact. */
  lemma EmptyIff(q: OkQueue)
    ensures q.seen == q.usedIdx <==> |q.fin| == 0
  {
  }

  /** No three descriptors are free. */
  ghost predicate FewFree(free: seq<bool>)
  {
    |free| == NUM && forall i, j, k :: 0 <= i < j < k < NUM ==> !(free[i] && free[j] && free[k])
  }

  lemma TooFew(was: seq<bool>, now: seq<bool>, idx: seq<nat>)
    requires Marked(was, now, idx) && |idx| < 3 && forall i :: 0 <= i < NUM ==> !now[i]
    ensures FewFree(was)
  {
    forall i: nat, j: nat, k: nat | i < j < k < NUM ensures !(was[i] && was[j] && was[k]) {
      assert was[i] ==> i in idx;
      assert was[j] ==> j in idx;
      assert was[k] ==> k in idx;
    }
  }

  /** `now` is `was` with exactly the entries `idx`, free before and all different, taken. */
  ghost predicate Marked(was: seq<bool>, now: seq<bool>, idx: seq<nat>)
  {
    && |was| == |now| == NUM && Distinct(idx) && (forall k :: 0 <= k < |idx| ==> idx[k] < NUM && was[idx[k]])
    && (forall i :: 0 <= i < NUM ==> now[i] == (was[i] && i !in idx))
  }
}
