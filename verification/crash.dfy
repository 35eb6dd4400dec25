/** The redo log of kernel/log.c as the sequence of disk images it writes: what
    commit and recovery put on disk, write by write, and what recovery makes of
    the image a crash leaves behind. */
module Crash {
  import opened Blocks

  const MAXOPBLOCKS := 10
  const LOGSIZE := 30  // MAXOPBLOCKS * 3

  type Image = seq<Block>

  // The log header block: a count, then that many home block numbers.

  function HeadCount(h: Block): nat { GetWord(h, 0) }

  function HeadBlock(h: Block, i: nat): nat
    requires i < LOGSIZE
  {
    GetWord(h, i + 1)
  }

  /** write_head after `k` rounds of its copy loop. */
  function PutHead(h: Block, homes: seq<nat>, k: nat): Block
    requires k <= |homes| <= LOGSIZE
    requires forall i :: 0 <= i < |homes| ==> homes[i] < TWO32
  {
    if k == 0 then PutWord(h, 0, |homes|) else PutWord(PutHead(h, homes, k - 1), k, homes[k - 1])
  }

  lemma {:induction false} PutHeadReads(h: Block, homes: seq<nat>, k: nat, i: nat)
    requires k <= |homes| <= LOGSIZE && i <= k
    requires forall i :: 0 <= i < |homes| ==> homes[i] < TWO32
    ensures GetWord(PutHead(h, homes, k), i) == if i == 0 then |homes| else homes[i - 1]
  {
    if k == 0 {
      GetPut(h, 0, |homes|, i);
    } else {
      GetPut(PutHead(h, homes, k - 1), k, homes[k - 1], i);
      if i < k { PutHeadReads(h, homes, k - 1, i); }
    }
  }

  /** The place of the log on disk: header at `start`, then size - 1 log blocks. */
  datatype Layout = Layout(start: nat, size: nat, disk: nat) {
    predicate Ok() { start + size <= disk <= TWO32 && size > 0 }

    predicate Home(b: nat) { b < disk && !(start <= b < start + size) }

    predicate HomesOk(homes: seq<nat>) {
      |homes| <= LOGSIZE && |homes| < size && forall i :: 0 <= i < |homes| ==> Home(homes[i])
    }

    ghost function Homes(img: Image): seq<nat>
      requires Ok() && |img| == disk && HeadCount(img[start]) <= LOGSIZE
    {
      seq(HeadCount(img[start]), i requires 0 <= i < LOGSIZE => HeadBlock(img[start], i))
    }

    /** The image has a log the recovery code can follow. */
    ghost predicate LogOk(img: Image) {
      Ok() && |img| == disk && HeadCount(img[start]) <= LOGSIZE && HomesOk(Homes(img))
    }

    /** install_trans after `k` rounds. */
    ghost function Install(img: Image, homes: seq<nat>, k: nat): (r: Image)
      requires Ok() && |img| == disk && HomesOk(homes) && k <= |homes|
      ensures |r| == disk
    {
      if k == 0 then img
      else var p := Install(img, homes, k - 1); p[homes[k - 1] := p[start + k]]
    }

    /** The first `k` installs from log image `base`, applied to `f`. */
    ghost function InstallInto(f: Image, base: Image, homes: seq<nat>, k: nat): (r: Image)
      requires Ok() && |f| == |base| == disk && HomesOk(homes) && k <= |homes|
      ensures |r| == disk
    {
      if k == 0 then f else InstallInto(f, base, homes, k - 1)[homes[k - 1] := base[start + k]]
    }

    lemma {:induction false} InstallIntoFrame(f: Image, base: Image, homes: seq<nat>, k: nat, b: nat)
      requires Ok() && |f| == |base| == disk && HomesOk(homes) && k <= |homes| && b < disk && !Home(b)
      ensures InstallInto(f, base, homes, k)[b] == f[b]
    {
      if k > 0 { InstallIntoFrame(f, base, homes, k - 1, b); }
    }

    lemma {:induction false} InstallIntoSelf(base: Image, homes: seq<nat>, k: nat)
      requires Ok() && |base| == disk && HomesOk(homes) && k <= |homes|
      ensures InstallInto(base, base, homes, k) == Install(base, homes, k)
    {
      if k > 0 {
        InstallIntoSelf(base, homes, k - 1);
        InstallFrame(base, homes, k - 1, start + k);
      }
    }

    lemma {:induction false} InstallIntoSame(f: Image, base: Image, homes: seq<nat>, k: nat)
      requires Ok() && |f| == |base| == disk && HomesOk(homes) && k <= |homes|
      requires forall i :: 0 <= i < k ==> f[homes[i]] == base[start + i + 1]
      ensures InstallInto(f, base, homes, k) == f
    {
      if k > 0 { InstallIntoSame(f, base, homes, k - 1); }
    }

    function Clear(img: Image): Image
      requires Ok() && |img| == disk
    {
      img[start := PutWord(img[start], 0, 0)]
    }

    /** recover_from_log, run to completion. */
    ghost function Recover(img: Image): Image
      requires LogOk(img)
    {
      Clear(Install(img, Homes(img), |Homes(img)|))
    }

    /** Installing leaves the log area and every other block alone. */
    lemma {:induction false} InstallFrame(img: Image, homes: seq<nat>, k: nat, b: nat)
      requires Ok() && |img| == disk && HomesOk(homes) && k <= |homes| && b < disk
      requires b !in homes[..k]
      ensures Install(img, homes, k)[b] == img[b]
    {
      if k > 0 {
        assert homes[k - 1] == homes[..k][k - 1];
        assert forall x :: x in homes[..k - 1] ==> x in homes[..k];
        InstallFrame(img, homes, k - 1, b);
      }
    }

    ghost predicate SameLog(a: Image, b: Image)
      requires |a| == |b| == disk && Ok()
    {
      forall i :: start <= i < start + size ==> a[i] == b[i]
    }

    /** What a block holds after `k` rounds depends only on the log area, once it has been
        installed, and otherwise only on what it held before. */
    lemma {:induction false} InstallDetermined(a: Image, b: Image, homes: seq<nat>, k: nat, i: nat)
      requires Ok() && |a| == |b| == disk && HomesOk(homes) && k <= |homes| && i < disk
      requires SameLog(a, b) && (i in homes[..k] || a[i] == b[i])
      ensures Install(a, homes, k)[i] == Install(b, homes, k)[i]
    {
      if k > 0 {
        InstallFrame(a, homes, k - 1, start + k);
        InstallFrame(b, homes, k - 1, start + k);
        if i != homes[k - 1] {
          assert homes[..k] == homes[..k - 1] + [homes[k - 1]];
          InstallDetermined(a, b, homes, k - 1, i);
        }
      }
    }

    /** A crash after any number of installs recovers to the same image as no crash at all. */
    lemma {:induction false} RecoverMidway(img: Image, j: nat)
      requires LogOk(img) && j <= |Homes(img)|
      ensures LogOk(Install(img, Homes(img), j))
      ensures Recover(Install(img, Homes(img), j)) == Recover(img)
    {
      var homes, n := Homes(img), |Homes(img)|;
      var mid := Install(img, homes, j);
      assert SameLog(mid, img) by {
        forall i | start <= i < start + size ensures mid[i] == img[i] { InstallFrame(img, homes, j, i); }
      }
      assert Homes(mid) == homes;
      forall i | 0 <= i < disk ensures Install(mid, homes, n)[i] == Install(img, homes, n)[i] {
        assert homes[..n] == homes;
        if i !in homes { InstallFrame(img, homes, j, i); }
        InstallDetermined(mid, img, homes, n, i);
      }
      assert Install(mid, homes, n) == Install(img, homes, n);
    }

    lemma ClearIdempotent(img: Image)
      requires Ok() && |img| == disk
      ensures Clear(Clear(img)) == Clear(img) && LogOk(Clear(img)) && Recover(Clear(img)) == Clear(img)
    {
      var h := img[start];
      GetPut(h, 0, 0, 0);
      assert PutWord(PutWord(h, 0, 0), 0, 0) == PutWord(h, 0, 0);
    }

    /** The image recovery's write number `k` leaves: the installs, then the cleared header. */
    ghost function RecoverAt(img: Image, k: nat): Image
      requires LogOk(img) && k <= |Homes(img)|
    {
      if k < |Homes(img)| then Install(img, Homes(img), k + 1) else Recover(img)
    }

    /** The images of the first `k` installs. */
    ghost function InstallImages(img: Image, homes: seq<nat>, k: nat): (r: seq<Image>)
      requires Ok() && |img| == disk && HomesOk(homes) && k <= |homes|
      ensures |r| == k
    {
      if k == 0 then [] else InstallImages(img, homes, k - 1) + [Install(img, homes, k)]
    }

    lemma {:induction false} InstallImagesAt(img: Image, homes: seq<nat>, k: nat, j: nat)
      requires Ok() && |img| == disk && HomesOk(homes) && j < k <= |homes|
      ensures InstallImages(img, homes, k)[j] == Install(img, homes, j + 1)
    {
      if j < k - 1 { InstallImagesAt(img, homes, k - 1, j); }
    }

    /** The first `w` images of installing `homes` and then clearing the header. */
    ghost function ClearImages(img: Image, homes: seq<nat>, w: nat): (r: seq<Image>)
      requires Ok() && |img| == disk && HomesOk(homes) && w <= |homes| + 1
      ensures |r| == w
    {
      if w <= |homes| then InstallImages(img, homes, w)
      else InstallImages(img, homes, |homes|) + [Clear(Install(img, homes, |homes|))]
    }

    /** The first `w` images recovery writes. */
    ghost function RecoverImages(img: Image, w: nat): seq<Image>
      requires LogOk(img) && w <= |Homes(img)| + 1
    {
      ClearImages(img, Homes(img), w)
    }

    lemma InstallImagesMore(h: seq<Image>, h': seq<Image>, img: Image, homes: seq<nat>, k: nat)
      requires Ok() && |img| == disk && HomesOk(homes) && k < |homes|
      requires h' == h + InstallImages(img, homes, k)
      ensures h' + [Install(img, homes, k + 1)] == h + InstallImages(img, homes, k + 1)
    {
    }

    lemma RecoverImagesAt(img: Image, w: nat, k: nat)
      requires LogOk(img) && k < w <= |Homes(img)| + 1
      ensures RecoverImages(img, w)[k] == RecoverAt(img, k)
    {
      var n := |Homes(img)|;
      if k < n { InstallImagesAt(img, Homes(img), if w <= n then w else n, k); }
    }

    /** Recovery is idempotent at every crash point. */
    lemma RecoverAtStable(img: Image, k: nat)
      requires LogOk(img) && k <= |Homes(img)|
      ensures LogOk(RecoverAt(img, k)) && Recover(RecoverAt(img, k)) == Recover(img)
    {
      var homes := Homes(img);
      if k < |homes| {
        RecoverMidway(img, k + 1);
        SameStable(RecoverAt(img, k), Install(img, homes, k + 1), img);
      } else {
        RecoverTwice(img);
        SameStable(RecoverAt(img, k), Recover(img), img);
      }
    }

    lemma SameStable(r: Image, s: Image, img: Image)
      requires r == s && LogOk(s) && LogOk(img) && Recover(s) == Recover(img)
      ensures LogOk(r) && Recover(r) == Recover(img)
    {
    }

    lemma RecoverTwice(img: Image)
      requires LogOk(img)
      ensures LogOk(Recover(img)) && Recover(Recover(img)) == Recover(img) && HeadCount(Recover(img)[start]) == 0
    {
      var mid := Install(img, Homes(img), |Homes(img)|);
      ClearIdempotent(mid);
      GetPut(mid[start], 0, 0, 0);
    }

    /** Recovery is a fixed point, also when block and copy are both the disk's own. */
    lemma RecoverIs(img: Image)
      requires LogOk(img)
      ensures var hs := Homes(img);
        InstallInto(img, img, hs, |hs|) == Install(img, hs, |hs|) && LogOk(Recover(img)) && Recover(Recover(img)) == Recover(img)
      ensures HeadCount(Recover(img)[start]) == 0
    {
      InstallIntoSelf(img, Homes(img), |Homes(img)|);
      RecoverTwice(img);
    }

    /** A boot that crashed: recovery started from `a` and left `b`, after some number of its writes. */
    ghost predicate CrashedBoot(a: Image, b: Image)
      requires LogOk(a)
    {
      b == a || exists k :: 0 <= k <= |Homes(a)| && b == RecoverAt(a, k)
    }

    /** Boots that crash one after another. */
    ghost predicate CrashedBoots(imgs: seq<Image>)
    {
      && |imgs| > 0
      && forall i :: 0 <= i < |imgs| - 1 ==> LogOk(imgs[i]) && CrashedBoot(imgs[i], imgs[i + 1])
    }

    /** However many boots crash, the one that completes leaves what the first would have. */
    lemma {:induction false} AnyNumberOfCrashes(imgs: seq<Image>)
      requires CrashedBoots(imgs) && LogOk(imgs[0])
      ensures LogOk(imgs[|imgs| - 1]) && Recover(imgs[|imgs| - 1]) == Recover(imgs[0])
    {
      if |imgs| > 1 {
        assert LogOk(imgs[0]) && CrashedBoot(imgs[0], imgs[1]);
        if imgs[1] != imgs[0] {
          var k :| 0 <= k <= |Homes(imgs[0])| && imgs[1] == RecoverAt(imgs[0], k);
          RecoverAtStable(imgs[0], k);
        }
        AnyNumberOfCrashes(imgs[1..]);
      }
    }

    // Commit.

    /** write_log after `k` rounds. */
    function WriteLog(img: Image, datas: seq<Block>, k: nat): (r: Image)
      requires Ok() && |img| == disk && |datas| < size && k <= |datas|
      ensures |r| == disk
    {
      if k == 0 then img else WriteLog(img, datas, k - 1)[start + k := datas[k - 1]]
    }

    lemma {:induction false} WriteLogAt(img: Image, datas: seq<Block>, k: nat, i: nat)
      requires Ok() && |img| == disk && |datas| < size && k <= |datas| && i < disk
      ensures WriteLog(img, datas, k)[i] == if start < i <= start + k then datas[i - start - 1] else img[i]
    {
      if k > 0 { WriteLogAt(img, datas, k - 1, i); }
    }

    /** The image once the header naming `homes` is on disk: the commit point. */
    function Committed(img: Image, homes: seq<nat>, datas: seq<Block>): (r: Image)
      requires Ok() && |img| == disk && HomesOk(homes) && |datas| == |homes|
      ensures |r| == disk
    {
      var w := WriteLog(img, datas, |datas|);
      w[start := PutHead(w[start], homes, |homes|)]
    }

    lemma CommittedHead(img: Image, homes: seq<nat>, datas: seq<Block>)
      requires Ok() && |img| == disk && HomesOk(homes) && |datas| == |homes|
      ensures LogOk(Committed(img, homes, datas)) && Homes(Committed(img, homes, datas)) == homes
    {
      var h := WriteLog(img, datas, |datas|)[start];
      PutHeadReads(h, homes, |homes|, 0);
      var c := Committed(img, homes, datas);
      assert c[start] == PutHead(h, homes, |homes|);
      forall i | 0 <= i < |homes| ensures GetWord(PutHead(h, homes, |homes|), i + 1) == homes[i] {
        PutHeadReads(h, homes, |homes|, i + 1);
      }
      assert Homes(c) == homes;
    }

    /** The image commit's write number `k` leaves: the log blocks, the header that commits,
        the installs, the cleared header. */
    ghost function CommitAt(img: Image, homes: seq<nat>, datas: seq<Block>, k: nat): Image
      requires Ok() && |img| == disk && HomesOk(homes) && |datas| == |homes| && k < 2 * |homes| + 2
    {
      var n, c := |homes|, Committed(img, homes, datas);
      if k < n then WriteLog(img, datas, k + 1)
      else if k <= 2 * n then Install(c, homes, k - n)
      else Clear(Install(c, homes, n))
    }

    /** The images of the first `k` log writes. */
    ghost function LogImages(img: Image, datas: seq<Block>, k: nat): (r: seq<Image>)
      requires Ok() && |img| == disk && |datas| < size && k <= |datas|
      ensures |r| == k
    {
      if k == 0 then [] else LogImages(img, datas, k - 1) + [WriteLog(img, datas, k)]
    }

    lemma LogImagesMore(h: seq<Image>, h': seq<Image>, img: Image, datas: seq<Block>, k: nat)
      requires Ok() && |img| == disk && |datas| < size && k < |datas|
      requires h' == h + LogImages(img, datas, k)
      ensures h' + [WriteLog(img, datas, k + 1)] == h + LogImages(img, datas, k + 1)
    {
    }

    /** The first `w` images commit writes. */
    ghost function CommitImages(img: Image, homes: seq<nat>, datas: seq<Block>, w: nat): (r: seq<Image>)
      requires Ok() && |img| == disk && HomesOk(homes) && |datas| == |homes| && w <= 2 * |homes| + 2
      ensures |r| == w
    {
      var n, c := |homes|, Committed(img, homes, datas);
      if w <= n then LogImages(img, datas, w) else LogImages(img, datas, n) + [c] + ClearImages(c, homes, w - n - 1)
    }

    lemma {:induction false} LogImagesAt(img: Image, datas: seq<Block>, k: nat, j: nat)
      requires Ok() && |img| == disk && |datas| < size && j < k <= |datas|
      ensures LogImages(img, datas, k)[j] == WriteLog(img, datas, j + 1)
    {
      if j < k - 1 { LogImagesAt(img, datas, k - 1, j); }
    }

    lemma CommitImagesHead(h: seq<Image>, h1: seq<Image>, img: Image, homes: seq<nat>, datas: seq<Block>)
      requires Ok() && |img| == disk && HomesOk(homes) && |datas| == |homes| && h1 == h + LogImages(img, datas, |homes|)
      ensures h1 == h + CommitImages(img, homes, datas, |homes|)
      ensures h1 + [Committed(img, homes, datas)] == h + CommitImages(img, homes, datas, |homes| + 1)
    {
      assert ClearImages(Committed(img, homes, datas), homes, 0) == [];
    }

    lemma CommitImagesJoin(h: seq<Image>, h1: seq<Image>, h2: seq<Image>, img: Image, homes: seq<nat>, datas: seq<Block>, w: nat)
      requires Ok() && |img| == disk && HomesOk(homes) && |datas| == |homes| && w <= |homes| + 1
      requires h1 == h + CommitImages(img, homes, datas, |homes| + 1)
      requires h2 == h1 + ClearImages(Committed(img, homes, datas), homes, w)
      ensures h2 == h + CommitImages(img, homes, datas, |homes| + 1 + w)
    {
      assert ClearImages(Committed(img, homes, datas), homes, 0) == [];
    }

    lemma CommitImagesAt(img: Image, homes: seq<nat>, datas: seq<Block>, w: nat, k: nat)
      requires Ok() && |img| == disk && HomesOk(homes) && |datas| == |homes| && k < w <= 2 * |homes| + 2
      ensures CommitImages(img, homes, datas, w)[k] == CommitAt(img, homes, datas, k)
    {
      var n := |homes|;
      if k < n {
        LogImagesAt(img, datas, if w < n then w else n, k);
      } else if n < k <= 2 * n {
        InstallImagesAt(Committed(img, homes, datas), homes, if w - n - 1 < n then w - n - 1 else n, k - n - 1);
      }
    }

    /** Every home block holds its transaction's data, and no other home block changed. */
    ghost predicate Post(img: Image, homes: seq<nat>, datas: seq<Block>, r: Image)
      requires |img| == disk && |datas| == |homes|
    {
      && |r| == disk
      && (forall i :: 0 <= i < |homes| ==> homes[i] < disk && r[homes[i]] == datas[i])
      && (forall b: nat :: Home(b) && b !in homes ==> r[b] == img[b])
    }

    ghost predicate Pre(img: Image, r: Image)
      requires |img| == disk
    {
      |r| == disk && forall b: nat :: Home(b) ==> r[b] == img[b]
    }

    lemma {:induction false} InstallPuts(img: Image, homes: seq<nat>, k: nat, i: nat)
      requires Ok() && |img| == disk && HomesOk(homes) && i < k <= |homes|
      requires forall i, j :: 0 <= i < j < |homes| ==> homes[i] != homes[j]
      ensures Install(img, homes, k)[homes[i]] == img[start + i + 1]
    {
      if i == k - 1 {
        InstallFrame(img, homes, k - 1, start + k);
      } else {
        InstallPuts(img, homes, k - 1, i);
      }
    }

    lemma RecoverCommitted(img: Image, homes: seq<nat>, datas: seq<Block>)
      requires Ok() && |img| == disk && HomesOk(homes) && |datas| == |homes|
      requires forall i, j :: 0 <= i < j < |homes| ==> homes[i] != homes[j]
      ensures LogOk(Committed(img, homes, datas)) && Homes(Committed(img, homes, datas)) == homes
      ensures Post(img, homes, datas, Recover(Committed(img, homes, datas)))
    {
      var c, n := Committed(img, homes, datas), |homes|;
      CommittedHead(img, homes, datas);
      forall i | 0 <= i < n ensures Install(c, homes, n)[homes[i]] == datas[i] {
        WriteLogAt(img, datas, n, start + i + 1);
        InstallPuts(c, homes, n, i);
      }
      forall b: nat | Home(b) && b !in homes ensures Install(c, homes, n)[b] == img[b] {
        WriteLogAt(img, datas, n, b);
        InstallFrame(c, homes, n, b);
      }
    }

    lemma Uncommitted(img: Image, datas: seq<Block>, k: nat)
      requires LogOk(img) && HeadCount(img[start]) == 0 && |datas| < size && k <= |datas|
      ensures LogOk(WriteLog(img, datas, k)) && Pre(img, Recover(WriteLog(img, datas, k)))
    {
      var w := WriteLog(img, datas, k);
      forall b | 0 <= b < disk && !(start < b < start + size) ensures w[b] == img[b] { WriteLogAt(img, datas, k, b); }
      assert Homes(w) == [];
    }

    /** Once the header is on disk, every later image of the commit recovers to the same image. */
    lemma CommittedStable(img: Image, homes: seq<nat>, datas: seq<Block>, k: nat)
      requires Ok() && |img| == disk && HomesOk(homes) && |datas| == |homes| <= k < 2 * |homes| + 2
      ensures LogOk(Committed(img, homes, datas)) && LogOk(CommitAt(img, homes, datas, k))
      ensures Recover(CommitAt(img, homes, datas, k)) == Recover(Committed(img, homes, datas))
    {
      var c, n := Committed(img, homes, datas), |homes|;
      CommittedHead(img, homes, datas);
      if k == n {
      } else if k <= 2 * n {
        RecoverAtStable(c, k - n - 1);
      } else {
        RecoverAtStable(c, n);
      }
    }

    /** Crash atomicity: recovery from the image left by write number `k` of a commit yields the
        home blocks of before the transaction or of after it as a whole, and the latter exactly
        when the header write, number |homes|, had reached the disk. */
    lemma CrashAtomic(img: Image, homes: seq<nat>, datas: seq<Block>, k: nat)
      requires LogOk(img) && HeadCount(img[start]) == 0
      requires HomesOk(homes) && |datas| == |homes| && k < 2 * |homes| + 2
      requires forall i, j :: 0 <= i < j < |homes| ==> homes[i] != homes[j]
      ensures LogOk(CommitAt(img, homes, datas, k))
      ensures k < |homes| ==> Pre(img, Recover(CommitAt(img, homes, datas, k)))
      ensures k >= |homes| ==> Post(img, homes, datas, Recover(CommitAt(img, homes, datas, k)))
    {
      if k < |homes| {
        Uncommitted(img, datas, k + 1);
      } else {
        CommittedStable(img, homes, datas, k);
        RecoverCommitted(img, homes, datas);
      }
    }

    /** Crash atomicity through any number of crashes: commit stops after write number `k`, then
        boots crash one after another; the boot that completes finds the home blocks of before the
        transaction, or of after it when the header write had reached the disk. */
    lemma CrashAtomicForever(img: Image, homes: seq<nat>, datas: seq<Block>, k: nat, boots: seq<Image>)
      requires LogOk(img) && HeadCount(img[start]) == 0
      requires HomesOk(homes) && |datas| == |homes| && k < 2 * |homes| + 2
      requires forall i, j :: 0 <= i < j < |homes| ==> homes[i] != homes[j]
      requires CrashedBoots(boots) && boots[0] == CommitAt(img, homes, datas, k)
      ensures LogOk(boots[|boots| - 1])
      ensures k < |homes| ==> Pre(img, Recover(boots[|boots| - 1]))
      ensures k >= |homes| ==> Post(img, homes, datas, Recover(boots[|boots| - 1]))
    {
      CrashAtomic(img, homes, datas, k);
      AnyNumberOfCrashes(boots);
    }

    /** From image `r` on, however many boots crash, the one that completes finds the home blocks of before the
        transaction, or of after it as a whole if `committed`. */
    ghost predicate Survives(img: Image, homes: seq<nat>, datas: seq<Block>, r: Image, committed: bool)
      requires |img| == disk && |datas| == |homes|
    {
      forall boots :: CrashedBoots(boots) && boots[0] == r ==>
        && LogOk(boots[|boots| - 1])
        && if committed then Post(img, homes, datas, Recover(boots[|boots| - 1])) else Pre(img, Recover(boots[|boots| - 1]))
    }

    /** Every image that the first `w` writes of a commit leave survives, committed exactly from the header on. */
    lemma TraceSurvives(img: Image, homes: seq<nat>, datas: seq<Block>, w: nat, k: nat)
      requires LogOk(img) && HeadCount(img[start]) == 0
      requires HomesOk(homes) && |datas| == |homes| && k < w <= 2 * |homes| + 2
      requires forall i, j :: 0 <= i < j < |homes| ==> homes[i] != homes[j]
      ensures Survives(img, homes, datas, CommitImages(img, homes, datas, w)[k], k >= |homes|)
    {
      CommitImagesAt(img, homes, datas, w, k);
      forall boots | CrashedBoots(boots) && boots[0] == CommitAt(img, homes, datas, k)
        ensures LogOk(boots[|boots| - 1])
        ensures if k >= |homes| then Post(img, homes, datas, Recover(boots[|boots| - 1])) else Pre(img, Recover(boots[|boots| - 1]))
      {
        CrashAtomicForever(img, homes, datas, k, boots);
      }
    }

    /** From image `r` on, however many boots crash, the one that completes leaves image `done`. */
    ghost predicate Settles(r: Image, done: Image)
    {
      forall boots :: CrashedBoots(boots) && boots[0] == r ==> LogOk(boots[|boots| - 1]) && Recover(boots[|boots| - 1]) == done
    }

    /** Every image that the first `w` writes of a recovery leave settles to what the recovery is after. */
    lemma RecoverySettles(img: Image, w: nat, k: nat)
      requires LogOk(img) && k < w <= |Homes(img)| + 1
      ensures Settles(RecoverImages(img, w)[k], Recover(img))
    {
      RecoverImagesAt(img, w, k);
      RecoverAtStable(img, k);
      forall boots | CrashedBoots(boots) && boots[0] == RecoverAt(img, k)
        ensures LogOk(boots[|boots| - 1]) && Recover(boots[|boots| - 1]) == Recover(img)
      {
        AnyNumberOfCrashes(boots);
      }
    }
  }
}
