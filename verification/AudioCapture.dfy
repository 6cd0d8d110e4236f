/** The sample recorder: the polling loop with its two-level stop rule, and the interrupt-mode backlog. */
module AudioCapture {
  import opened Hdf

  const PERIOD_SIZE := 1024
  const AUDIO_BUFF_SIZE := 16384
  const AUDIO_TOTALSIZE_15M := 15360
  const MAX_FAILURES := 300000

  /** One answer of `CaptureFrame`: its return code and the bytes it reports. */
  datatype Reply = Reply(ret: int, bytes: seq<UInt8>)

  /** The driver answers with at most what was asked for. */
  ghost predicate Fits(r: nat -> Reply) { forall i :: |r(i).bytes| <= AUDIO_BUFF_SIZE }

  // ---------- polling mode ----------

  /** Kilobytes counted and consecutive failures. */
  datatype Tally = Tally(kb: nat, fails: nat)

  function After(r: nat -> Reply, n: nat): Tally {
    if n == 0 then Tally(0, 0) else
      var t := After(r, n - 1);
      if r(n - 1).ret < 0 then Tally(t.kb, t.fails + 1) else Tally(t.kb + |r(n - 1).bytes| / PERIOD_SIZE, 0)
  }

  function Written(r: nat -> Reply, n: nat): seq<UInt8> {
    if n == 0 then [] else Written(r, n - 1) + if r(n - 1).ret < 0 then [] else r(n - 1).bytes
  }

  /** How many of the first `n` attempts succeeded. */
  function Successes(r: nat -> Reply, n: nat): nat {
    if n == 0 then 0 else Successes(r, n - 1) + if r(n - 1).ret < 0 then 0 else 1
  }

  /** The counter against the bytes written: whole kilobytes are counted, and each successful answer can
      lose at most the part beyond its last whole one. */
  lemma {:induction false} CountIsWritten(r: nat -> Reply, n: nat)
    ensures var kb := After(r, n).kb;
      PERIOD_SIZE * kb <= |Written(r, n)| <= PERIOD_SIZE * kb + (PERIOD_SIZE - 1) * Successes(r, n)
  {
    if n == 0 {
    } else {
      CountIsWritten(r, n - 1);
    }
  }

  /** If every successful answer is a whole number of periods, nothing is lost. */
  lemma {:induction false} CountIsExact(r: nat -> Reply, n: nat)
    requires forall i :: r(i).ret >= 0 ==> |r(i).bytes| % PERIOD_SIZE == 0
    ensures |Written(r, n)| == PERIOD_SIZE * After(r, n).kb
  {
    if n == 0 {
    } else {
      CountIsExact(r, n - 1);
    }
  }

  /** The file's contents by position: a successful answer stands right behind what was written before
      it, a failed one leaves no trace, and what is written stays. */
  lemma {:induction false} WrittenHolds(r: nat -> Reply, k: nat, n: nat)
    requires k < n
    ensures Written(r, k) <= Written(r, n)
    ensures r(k).ret >= 0 ==> Written(r, k) + r(k).bytes <= Written(r, n)
    ensures r(k).ret < 0 ==> Written(r, k + 1) == Written(r, k)
  {
    if k == n - 1 {
    } else {
      WrittenHolds(r, k, n - 1);
    }
  }

  /** The attempts from `a` up to but not including `b` all failed. */
  ghost predicate AllFail(r: nat -> Reply, a: int, b: nat) { forall j: nat :: a <= j < b ==> r(j).ret < 0 }

  /** The failure count is the length of the run of failures that ends here. */
  lemma {:induction false} FailsIsRun(r: nat -> Reply, n: nat)
    ensures var f := After(r, n).fails; f <= n && AllFail(r, n - f, n) && (f < n ==> r(n - f - 1).ret >= 0)
  {
    if n == 0 {
    } else {
      FailsIsRun(r, n - 1);
    }
  }

  /** The loop gives up at `k` if and only if this attempt fails for a reason other than having been
      stopped and so did all of the 300000 attempts before it. */
  lemma GivesUpIff(r: nat -> Reply, k: nat)
    ensures GivesUp(r, k) <==>
            r(k).ret < 0 && r(k).ret != HDF_ERR_INVALID_OBJECT && k >= MAX_FAILURES && AllFail(r, k - MAX_FAILURES, k)
  {
    FailsIsRun(r, k);
    hide After;
    var f := After(r, k).fails;
    if f < MAX_FAILURES && k >= MAX_FAILURES { assert k - MAX_FAILURES <= k - f - 1 < k; }
  }

  /** Attempt `k` gives up after too many failures in a row. */
  predicate GivesUp(r: nat -> Reply, k: nat) {
    r(k).ret < 0 && r(k).ret != HDF_ERR_INVALID_OBJECT && After(r, k).fails >= MAX_FAILURES
  }

  /** The loop ends with attempt `k`. */
  predicate Exits(r: nat -> Reply, closing: nat -> bool, k: nat) {
    || r(k).ret == HDF_ERR_INVALID_OBJECT
    || GivesUp(r, k)
    || After(r, k + 1).kb > AUDIO_TOTALSIZE_15M
    || closing(k)
  }

  /** `k` is the first attempt that ends the loop. */
  ghost predicate FirstExit(r: nat -> Reply, closing: nat -> bool, k: nat) {
    Exits(r, closing, k) && forall j: nat :: j < k ==> !Exits(r, closing, j)
  }

  /** Before the loop ends both counters are within their limits. */
  lemma {:induction false} WithinLimits(r: nat -> Reply, closing: nat -> bool, n: nat)
    requires forall j: nat :: j < n ==> !Exits(r, closing, j)
    ensures After(r, n).kb <= AUDIO_TOTALSIZE_15M && After(r, n).fails <= MAX_FAILURES
  {
    if n == 0 {
    } else {
      WithinLimits(r, closing, n - 1);
      assert !Exits(r, closing, n - 1);
    }
  }

  /** The count therefore ends at most one full buffer above the mark. */
  lemma CountBound(r: nat -> Reply, closing: nat -> bool, n: nat)
    requires Fits(r) && forall j: nat :: j < n ==> !Exits(r, closing, j)
    ensures After(r, n).kb <= AUDIO_TOTALSIZE_15M && After(r, n).fails <= MAX_FAILURES
    ensures After(r, n + 1).kb <= AUDIO_TOTALSIZE_15M + AUDIO_BUFF_SIZE / PERIOD_SIZE
  {
    WithinLimits(r, closing, n);
    assert |r(n).bytes| <= AUDIO_BUFF_SIZE;
  }

  /** If every successful answer carries at least one period, the loop ends: each success lowers the
      kilobytes left, and each failure lowers the failures left. */
  lemma {:induction false} EnoughDataEnds(r: nat -> Reply, closing: nat -> bool, n: nat) returns (k: nat)
    requires forall i :: r(i).ret >= 0 ==> |r(i).bytes| >= PERIOD_SIZE
    requires forall j: nat :: j < n ==> !Exits(r, closing, j)
    ensures FirstExit(r, closing, k)
    decreases AUDIO_TOTALSIZE_15M - After(r, n).kb, MAX_FAILURES - After(r, n).fails
  {
    WithinLimits(r, closing, n);
    if Exits(r, closing, n) {
      k := n;
    } else {
      assert After(r, n + 1).kb <= AUDIO_TOTALSIZE_15M;
      k := EnoughDataEnds(r, closing, n + 1);
    }
  }

  /** Without that, it need not: answers of less than a period never move the counter. */
  lemma {:induction false} ShortAnswersNeverEnd(r: nat -> Reply, closing: nat -> bool, n: nat)
    requires forall i :: r(i).ret >= 0 && |r(i).bytes| < PERIOD_SIZE && !closing(i)
    ensures After(r, n) == Tally(0, 0) && !Exits(r, closing, n)
  {
    if n == 0 {
    } else {
      ShortAnswersNeverEnd(r, closing, n - 1);
    }
  }

  ghost predicate Ends(r: nat -> Reply, closing: nat -> bool) { exists k: nat :: FirstExit(r, closing, k) }

  /** Every successful answer carries at least `m` bytes. */
  ghost predicate AtLeast(r: nat -> Reply, m: nat) { forall i :: r(i).ret >= 0 ==> |r(i).bytes| >= m }

  /** A guaranteed minimum answer makes the loop end, whatever the driver and whoever closes, if and
      only if it is at least one period. */
  lemma EndsIffPeriod(m: nat)
    ensures (forall r: nat -> Reply, closing: nat -> bool :: AtLeast(r, m) ==> Ends(r, closing)) <==> m >= PERIOD_SIZE
  {
    if m >= PERIOD_SIZE {
      forall r: nat -> Reply, closing: nat -> bool | AtLeast(r, m) ensures Ends(r, closing) {
        var k := EnoughDataEnds(r, closing, 0);
      }
    } else {
      var answer := Reply(HDF_SUCCESS, seq(m, _ => 0));
      var r: nat -> Reply := _ => answer;
      var closing: nat -> bool := _ => false;
      forall k: nat ensures !FirstExit(r, closing, k) { ShortAnswersNeverEnd(r, closing, k); }
      assert AtLeast(r, m) && !Ends(r, closing);
    }
  }

  // ---------- interrupt mode ----------

  /** A threshold notification: whether its checks pass, whether the frame is allocated, and what the
      capture calls made while handling it answer. */
  datatype Notice = Notice(accepted: bool, granted: bool, replies: nat -> Reply)

  /** Successful answers among the first `n`, in order. */
  function Good(r: nat -> Reply, n: nat): seq<Reply> {
    if n == 0 then [] else Good(r, n - 1) + if r(n - 1).ret == HDF_SUCCESS then [r(n - 1)] else []
  }

  function Bytes(replies: seq<Reply>): seq<UInt8> {
    if replies == [] then [] else Bytes(replies[..|replies| - 1]) + replies[|replies| - 1].bytes
  }

  /** Whole periods in each answer, added up. */
  function Kilobytes(replies: seq<Reply>): nat {
    if replies == [] then 0 else
      Kilobytes(replies[..|replies| - 1]) + |replies[|replies| - 1].bytes| / PERIOD_SIZE
  }

  lemma {:induction false} GoodAtMost(r: nat -> Reply, n: nat)
    ensures |Good(r, n)| <= n
  {
    if n == 0 {
    } else {
      GoodAtMost(r, n - 1);
    }
  }

  /** The successful answers by position: each stands right behind those before it, and no other is
      there. */
  lemma {:induction false} GoodHolds(r: nat -> Reply, k: nat, n: nat)
    requires k < n
    ensures Good(r, k) <= Good(r, n)
    ensures r(k).ret == HDF_SUCCESS ==> Good(r, k) + [r(k)] <= Good(r, n)
    ensures r(k).ret != HDF_SUCCESS ==> Good(r, k + 1) == Good(r, k)
  {
    if k == n - 1 {
    } else {
      GoodHolds(r, k, n - 1);
    }
  }

  /** The kilobytes counted against the bytes captured. */
  lemma {:induction false} KilobytesOfBytes(replies: seq<Reply>)
    ensures var kb := Kilobytes(replies);
      PERIOD_SIZE * kb <= |Bytes(replies)| <= PERIOD_SIZE * kb + (PERIOD_SIZE - 1) * |replies|
    ensures (forall i :: 0 <= i < |replies| ==> |replies[i].bytes| % PERIOD_SIZE == 0) ==>
      |Bytes(replies)| == PERIOD_SIZE * Kilobytes(replies)
  {
    if replies == [] {
    } else {
      var n := |replies| - 1;
      KilobytesOfBytes(replies[..n]);
      assert forall i :: 0 <= i < n ==> replies[..n][i] == replies[i];
    }
  }

  /** What one more attempt adds. */
  lemma GoodStep(r: nat -> Reply, n: nat)
    ensures var ok := r(n).ret == HDF_SUCCESS;
      && Bytes(Good(r, n + 1)) == (if ok then Bytes(Good(r, n)) + r(n).bytes else Bytes(Good(r, n)))
      && |Good(r, n + 1)| == |Good(r, n)| + (if ok then 1 else 0)
      && Kilobytes(Good(r, n + 1)) == Kilobytes(Good(r, n)) + (if ok then |r(n).bytes| / PERIOD_SIZE else 0)
  {
    hide Bytes;
    hide Kilobytes;
    BytesSnoc(Good(r, n), r(n));
    assert Good(r, n) + [] == Good(r, n);
  }

  lemma BytesSnoc(replies: seq<Reply>, x: Reply)
    ensures Bytes(replies + [x]) == Bytes(replies) + x.bytes
    ensures Kilobytes(replies + [x]) == Kilobytes(replies) + |x.bytes| / PERIOD_SIZE
  {
    assert (replies + [x])[..|replies|] == replies;
  }

  lemma {:induction false} BytesConcat(a: seq<Reply>, b: seq<Reply>)
    ensures Bytes(a + b) == Bytes(a) + Bytes(b)
  {
    if b == [] {
      assert a + b == a;
    } else {
      var n := |b| - 1;
      BytesConcat(a, b[..n]);
      assert a + b == (a + b[..n]) + [b[n]] && b == b[..n] + [b[n]];
      hide Bytes;
      JoinBytes(Bytes(a), Bytes(b[..n]), b[n].bytes);
      BytesSnoc(a + b[..n], b[n]);
      BytesSnoc(b[..n], b[n]);
    }
  }

  lemma {:induction false} KilobytesConcat(a: seq<Reply>, b: seq<Reply>)
    ensures Kilobytes(a + b) == Kilobytes(a) + Kilobytes(b)
  {
    if b == [] {
      assert a + b == a;
    } else {
      var n := |b| - 1;
      KilobytesConcat(a, b[..n]);
      assert a + b == (a + b[..n]) + [b[n]] && b == b[..n] + [b[n]];
      hide Kilobytes;
      BytesSnoc(a + b[..n], b[n]);
      BytesSnoc(b[..n], b[n]);
    }
  }

  /** Notifications that count: checks passed and a frame was allocated. */
  function Accepted(run: seq<Notice>): nat {
    if run == [] then 0 else
      Accepted(run[..|run| - 1]) + if run[|run| - 1].accepted && run[|run| - 1].granted then 1 else 0
  }

  /** The listener's counters and the file it appends to. */
  datatype Session = Session(backlog: int, totalSize: nat, file: seq<UInt8>)

  /** What one notification does: it retries the whole backlog, itself included. */
  function Receive(s: Session, note: Notice): (t: Session)
    requires s.backlog >= 0
    ensures t.backlog >= 0
  {
    if !note.accepted || !note.granted then s else
      var good := Good(note.replies, s.backlog + 1);
      GoodAtMost(note.replies, s.backlog + 1);
      Session(s.backlog + 1 - |good|, s.totalSize + Kilobytes(good), s.file + Bytes(good))
  }

  /** A session that starts with cleared counters and an existing file. */
  function Listen(file: seq<UInt8>, run: seq<Notice>): (s: Session)
    ensures s.backlog >= 0
  {
    if run == [] then Session(0, 0, file) else Receive(Listen(file, run[..|run| - 1]), run[|run| - 1])
  }

  /** All successful answers of a session, in order: each accepted notification is good for as many
      capture calls as have been accepted, itself included, and not yet answered. */
  function Captured(run: seq<Notice>): (got: seq<Reply>)
    ensures |got| <= Accepted(run)
  {
    if run == [] then [] else
      var n := |run| - 1;
      var before := Captured(run[..n]);
      if run[n].accepted && run[n].granted then
        var calls := Accepted(run) - |before|;
        GoodAtMost(run[n].replies, calls);
        before + Good(run[n].replies, calls)
      else before
  }

  /** The backlog is what was accepted and not captured; the file holds what was captured. */
  ghost predicate Balanced(file: seq<UInt8>, s: Session, got: seq<Reply>, accepted: nat) {
    && s.backlog == accepted - |got| && s.backlog >= 0
    && s.file == file + Bytes(got) && s.totalSize == Kilobytes(got)
  }

  lemma ReceiveBalanced(file: seq<UInt8>, s: Session, got: seq<Reply>, accepted: nat, note: Notice)
    requires Balanced(file, s, got, accepted) && note.accepted && note.granted
    ensures Balanced(file, Receive(s, note), got + Good(note.replies, s.backlog + 1), accepted + 1)
  {
    var t, good := Receive(s, note), Good(note.replies, s.backlog + 1);
    assert t.backlog == s.backlog + 1 - |good|;
    assert t.totalSize == s.totalSize + Kilobytes(good);
    assert t.file == s.file + Bytes(good);
    hide Receive;
    hide Good;
    hide Bytes;
    hide Kilobytes;
    BytesConcat(got, good);
    KilobytesConcat(got, good);
    JoinBytes(file, Bytes(got), Bytes(good));
  }

  lemma JoinBytes(a: seq<UInt8>, b: seq<UInt8>, c: seq<UInt8>)
    ensures a + b + c == a + (b + c)
  {
  }

  /** Conservation: over any sequence of notifications the backlog is what was accepted and not yet
      captured, never negative, and the file holds exactly what was captured, in order. */
  lemma {:induction false} BacklogLaw(file: seq<UInt8>, run: seq<Notice>)
    ensures Balanced(file, Listen(file, run), Captured(run), Accepted(run))
  {
    if run == [] {
    } else {
      var n := |run| - 1;
      BacklogLaw(file, run[..n]);
      SessionStep(file, run);
      hide Listen;
      hide Captured;
      hide Accepted;
      hide Receive;
      hide Good;
      if run[n].accepted && run[n].granted {
        ReceiveBalanced(file, Listen(file, run[..n]), Captured(run[..n]), Accepted(run[..n]), run[n]);
      }
    }
  }

  /** What the last notification adds to the session, to the count and to the answers. */
  lemma SessionStep(file: seq<UInt8>, run: seq<Notice>)
    requires run != []
    ensures var n := |run| - 1; var p, note := run[..n], run[n]; var counts := note.accepted && note.granted;
      && Listen(file, run) == (if counts then Receive(Listen(file, p), note) else Listen(file, p))
      && Accepted(run) == Accepted(p) + (if counts then 1 else 0)
      && Captured(run) == (if counts then Captured(p) + Good(note.replies, Accepted(p) + 1 - |Captured(p)|) else Captured(p))
  {
    hide Good;
  }

  /** `now` is `before` after the first `done` capture calls of a notification. */
  ghost predicate Drained(before: Session, now: Session, replies: nat -> Reply, done: nat) {
    var good := Good(replies, done);
    now == Session(before.backlog - |good|, before.totalSize + Kilobytes(good), before.file + Bytes(good))
  }

  lemma DrainedNone(before: Session, replies: nat -> Reply)
    ensures Drained(before, before, replies, 0)
  {
    assert before.file + [] == before.file;
  }

  lemma DrainedMore(before: Session, now: Session, replies: nat -> Reply, done: nat)
    requires Drained(before, now, replies, done)
    ensures var r := replies(done);
      Drained(before, if r.ret == HDF_SUCCESS
                      then Session(now.backlog - 1, now.totalSize + |r.bytes| / PERIOD_SIZE, now.file + r.bytes) else now,
              replies, done + 1)
  {
    hide Good;
    hide Bytes;
    hide Kilobytes;
    GoodStep(replies, done);
    JoinBytes(before.file, Bytes(Good(replies, done)), replies(done).bytes);
  }

  class Recorder {
    var receiveFrameCount: int
    var totalSize: nat
    var file: seq<UInt8>

    ghost function Snapshot(): Session
      reads this
    {
      Session(receiveFrameCount, totalSize, file)
    }

    constructor (file: seq<UInt8>)
      ensures Snapshot() == Listen(file, [])
    {
      receiveFrameCount, totalSize, this.file := 0, 0, file;
    }

    /** `given` says that a capture is passed in, `available` that the kernel's service manager and a
        listener are there, and `status` is what registering the listener answers.  The counters are
        reset even if registering then fails. */
    method RegisterListen(given: bool, available: bool, status: int) returns (ret: int)
      modifies this
      ensures ret == if given && available && status == HDF_SUCCESS then 0 else -1
      ensures Snapshot() == if given then Listen(old(file), []) else old(Snapshot())
    {
      if !given {
        return -1;
      }
      totalSize := 0;
      receiveFrameCount := 0;
      if !available {
        return -1;
      }
      if status != HDF_SUCCESS {
        return -1;
      }
      return 0;
    }

    method AudioPnpSvcEvenReceived(note: Notice)
      requires receiveFrameCount >= 0
      modifies this
      ensures Snapshot() == Receive(old(Snapshot()), note)
    {
      if !note.accepted || !note.granted {
        return;
      }
      receiveFrameCount := receiveFrameCount + 1;
      DrainBacklog(note.replies);
    }

    /** As many capture calls as the backlog counted at the start. */
    method DrainBacklog(replies: nat -> Reply)
      requires receiveFrameCount >= 0
      modifies this`receiveFrameCount, this`file, this`totalSize
      ensures Drained(old(Snapshot()), Snapshot(), replies, old(receiveFrameCount))
    {
      ghost var before := Snapshot();
      var index := receiveFrameCount;
      var done := 0;
      DrainedNone(before, replies);
      hide Drained;
      while index > 0
        modifies this`receiveFrameCount, this`file, this`totalSize
        invariant 0 <= index && done == before.backlog - index
        invariant Drained(before, Snapshot(), replies, done)
      {
        var r := replies(done);
        DrainedMore(before, Snapshot(), replies, done);
        if r.ret == HDF_SUCCESS {
          file := file + r.bytes;
          receiveFrameCount := receiveFrameCount - 1;
          totalSize := totalSize + |r.bytes| / PERIOD_SIZE;
        }
        index := index - 1;
        done := done + 1;
      }
    }

    /** The polling loop, watched for at most `watch` attempts.  It has ended by then if and only if one
        of these attempts ends it; it ends with the first such attempt, having written exactly the
        successful answers up to there; and as long as it has not ended it has written those so far. */
    method FrameStartCapture(r: nat -> Reply, closing: nat -> bool, closedAtEnd: bool, stopRet: int, watch: nat)
      returns (ended: bool, ret: int, kb: nat, last: nat)
      modifies this`file
      ensures ended <==> exists k: nat :: k < watch && FirstExit(r, closing, k)
      ensures ended ==> FirstExit(r, closing, last) && last < watch && file == old(file) + Written(r, last + 1)
      ensures ended && !GivesUp(r, last) ==> kb == After(r, last + 1).kb
      ensures ended ==> ret == if GivesUp(r, last) || (!closedAtEnd && stopRet < 0) then HDF_FAILURE else HDF_SUCCESS
      ensures !ended ==> file == old(file) + Written(r, watch) && kb == After(r, watch).kb <= AUDIO_TOTALSIZE_15M
      ensures Fits(r) ==> kb <= AUDIO_TOTALSIZE_15M + AUDIO_BUFF_SIZE / PERIOD_SIZE
      ensures !ended || !GivesUp(r, last) ==>
        PERIOD_SIZE * kb <= |file| - |old(file)| <= PERIOD_SIZE * kb + (PERIOD_SIZE - 1) * Successes(r, last + 1)
      ensures ended && kb > AUDIO_TOTALSIZE_15M ==> |file| - |old(file)| > PERIOD_SIZE * AUDIO_TOTALSIZE_15M
    {
      ended, ret, kb, last := false, HDF_SUCCESS, 0, 0;
      assert old(file) + [] == old(file);
      var failCount := 0;
      while last < watch
        invariant !ended && last <= watch
        invariant After(r, last) == Tally(kb, failCount) && kb <= AUDIO_TOTALSIZE_15M
        invariant forall j: nat :: j < last ==> !Exits(r, closing, j)
        invariant file == old(file) + Written(r, last)
      {
        var reply := r(last);
        OneAttempt(r, closing, last);
        if Fits(r) { assert |reply.bytes| <= AUDIO_BUFF_SIZE; }
        hide Fits;
        hide After;
        hide Written;
        hide Exits;
        if reply.ret < 0 {
          if reply.ret == HDF_ERR_INVALID_OBJECT {
            ended := true;
            break;
          }
          if failCount >= MAX_FAILURES {
            assert FirstExit(r, closing, last);
            return true, HDF_FAILURE, kb, last;
          }
          failCount := failCount + 1;
        } else {
          failCount := 0;
          JoinBytes(old(file), Written(r, last), reply.bytes);
          file := file + reply.bytes;
          kb := kb + |reply.bytes| / PERIOD_SIZE;
        }
        if !(kb <= AUDIO_TOTALSIZE_15M && !closing(last)) {
          ended := true;
          break;
        }
        last := last + 1;
      }
      hide After;
      hide Written;
      hide Exits;
      hide Successes;
      CountIsWritten(r, last);
      CountIsWritten(r, last + 1);
      SuccessesGrow(r, last);
      assert ended ==> FirstExit(r, closing, last);
      if ended && !closedAtEnd {
        if stopRet < 0 {
          ret := HDF_FAILURE;
        }
      }
    }
  }

  lemma SuccessesGrow(r: nat -> Reply, n: nat)
    ensures Successes(r, n) <= Successes(r, n + 1)
  {
  }

  /** One round of the loop: what it adds to the counters and the file, and when it is the last. */
  lemma OneAttempt(r: nat -> Reply, closing: nat -> bool, k: nat)
    ensures var t := After(r, k + 1); var ok := r(k).ret >= 0;
      && t.kb == After(r, k).kb + (if ok then |r(k).bytes| / PERIOD_SIZE else 0)
      && t.fails == (if ok then 0 else After(r, k).fails + 1)
      && Written(r, k + 1) == (if ok then Written(r, k) + r(k).bytes else Written(r, k))
      && (Exits(r, closing, k) <==> r(k).ret == HDF_ERR_INVALID_OBJECT || GivesUp(r, k) || t.kb > AUDIO_TOTALSIZE_15M || closing(k))
  {
  }
}
