/** judge_entry: one request after the other, for as long as the kernel runs. */
module JudgeService {
  import opened Bytes
  import opened AddressSpace
  import opened Isolation
  import opened JudgeBuild
  import opened JudgeIsolation
  import opened JudgeLayout
  import opened JudgeRequest
  import opened TftpBlocks
  import Judge
  import Tftp
  import TftpRead
  import TftpReadNet
  import TftpReadProgress
  import TrapHandler

  // ---- the downloads of a request ----

  /** What do_judge goes on with when tftp_get_file has returned. */
  function DownloadOf(c: TftpRead.Reader): Download
    requires c.Done?
  {
    if c.ret == 0 then Received(c.data) else Failed(c.ret)
  }

  lemma {:induction false} DoneCodes(events: seq<Tftp.Event>, n: nat)
    requires n <= |events|
    ensures var c := TftpRead.RunClient(events, n); c.Done? ==> c.ret <= 0
  {
    hide Tftp.CheckResp;
    if n > 0 {
      DoneCodes(events, n - 1);
    }
  }

  /** From a server with a file that fits the buffer do_judge gets that file or an error, whatever
      the network does: the downloads are as a request needs them. */
  lemma DownloadIsFile(x: TftpReadNet.Setup, acts: seq<TftpReadNet.Action>)
    requires TftpReadNet.Proper(x) && |x.file| <= 0x40_0000 && TftpReadNet.Run(x, acts).c.Done?
    ensures var w := TftpReadNet.Run(x, acts);
            var d := DownloadOf(w.c);
            && Sound(d) && (d.Received? ==> d.data == x.file) && (d.Failed? ==> w.trouble)
  {
    hide TftpReadNet.Run, TftpReadNet.Proper, TftpRead.RunClient;
    TftpReadNet.ReadIsExact(x, acts);
    var events := TftpReadNet.ClientOfRun(x, acts);
    DoneCodes(events, |events|);
  }

  const ELF: seq<byte> := [101, 108, 102] // "elf"

  /** A file of 4 MiB and one byte makes tftp_get_file leave the buffer of do_judge, with no packet
      lost. */
  lemma DownloadOverruns() returns (events: seq<Tftp.Event>)
    ensures |TftpRead.DataOf(TftpRead.RunClient(events, |events|))| == 0x40_0001
  {
    hide TftpRead.RunClient;
    Tftp.RequestIsRead(Tftp.OP_RRQ, ELF);
    var x := TftpReadNet.Setup(Zeros(BUFFER_SIZE + 1), Tftp.BuildReq(Tftp.OP_RRQ, ELF).value);
    assert |x.file| / CHUNK + 1 < Tftp.WRAP;
    var acts;
    acts, events := TftpReadProgress.OverrunIsReached(x, BUFFER_SIZE);
  }

  // ---- many requests ----

  ghost predicate AllSound(requests: seq<Request>) {
    forall k :: 0 <= k < |requests| ==> Sound(requests[k].elf) && Sound(requests[k].stdin)
  }

  /** Each request got the reply it would have got as the first one from state s. */
  ghost predicate AllJudged(s: State, requests: seq<Request>, replies: seq<Reply>)
    requires Idle(s) && AllSound(requests) && |replies| <= |requests|
  {
    forall k :: 0 <= k < |replies| ==> Judged(s, requests[k], replies[k])
  }

  /** The frames taken at the start have not been written. */
  ghost predicate FramesKept(s: State, t: State) {
    && |t.mem| == |s.mem| == |s.mm.bits|
    && forall f: nat :: f < |s.mem| && s.mm.bits[f] ==> t.mem[f] == s.mem[f]
  }

  lemma AgreeBack(s: State, t: State)
    requires Agree(s, t)
    ensures Agree(t, s)
  {}

  lemma AgreeFrames(s: State, t: State, u: State)
    requires Agree(s, t) && |u.mem| == |t.mem|
    requires forall f: nat :: f < |t.mem| && f < |t.mm.bits| && t.mm.bits[f] ==> u.mem[f] == t.mem[f]
    ensures FramesKept(s, u) && (u.mm == t.mm ==> Agree(s, u))
  {}

  lemma OneMoreJudged(s: State, requests: seq<Request>, replies: seq<Reply>, r: Reply)
    requires Idle(s) && AllSound(requests) && |replies| < |requests| && AllJudged(s, requests, replies)
    requires Judged(s, requests[|replies|], r)
    ensures AllJudged(s, requests, replies + [r])
  {
    hide Judged, Idle;
  }

  /** However many requests have been served, and however their programs have used the memory they
      were given: every reply is the one the request would get from a kernel just started, and while
      no upload is still running the allocator is back where it was. No frame of the kernel has been
      written. The next request is served when do_judge has returned. */
  method ServeRequests(d: Judge.Daemon, user: TrapHandler.UserTask, requests: seq<Request>, packet: array<byte>)
    returns (replies: seq<Reply>)
    requires Idle(d.vm.State()) && d.buff.Length == BUFFER_SIZE && AllSound(requests)
    requires packet.Length >= CHUNK && packet != d.buff
    modifies d.vm.alloc, d.vm.mem, d.buff, user, packet
    ensures |replies| <= |requests| && AllJudged(old(d.vm.State()), requests, replies)
    ensures |replies| < |requests| ==> replies != [] && !replies[|replies| - 1].out
    ensures forall k :: 0 <= k < |replies| - 1 ==> replies[k].out
    ensures replies == [] || replies[|replies| - 1].out ==> Agree(old(d.vm.State()), d.vm.State())
    ensures FramesKept(old(d.vm.State()), d.vm.State())
  {
    hide Agree, Judged, Idle, AllSound, AllJudged, Sound, FramesKept;
    ghost var s := d.vm.State();
    replies := [];
    Start(s, requests);
    while |replies| < |requests|
      invariant |replies| <= |requests| && AllJudged(s, requests, replies)
      invariant Agree(s, d.vm.State()) && Idle(d.vm.State()) && FramesKept(s, d.vm.State())
      invariant forall k :: 0 <= k < |replies| ==> replies[k].out
    {
      ghost var t := d.vm.State();
      OneSound(requests, |replies|);
      var r := ServeRequest(d, user, requests[|replies|], packet);
      AgreeBack(s, t);
      AgreeJudged(t, s, requests[|replies|], r);
      AgreeFrames(s, t, d.vm.State());
      OneMoreJudged(s, requests, replies, r);
      replies := replies + [r];
      if !r.out {
        return;
      }
    }
  }

  lemma OneSound(requests: seq<Request>, k: nat)
    requires AllSound(requests) && k < |requests|
    ensures Sound(requests[k].elf) && Sound(requests[k].stdin)
  {}

  lemma Start(s: State, requests: seq<Request>)
    requires Idle(s) && AllSound(requests)
    ensures AllJudged(s, requests, []) && Agree(s, s) && FramesKept(s, s)
  {}
}
