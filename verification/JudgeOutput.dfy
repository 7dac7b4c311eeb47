/** The end of do_judge: reading the user's standard output back through the page table. */
module JudgeOutput {
  import opened Bytes
  import opened Sv39
  import opened PageTable
  import opened AddressSpace
  import opened CopyIn
  import opened JudgeLayout
  import opened TftpBlocks
  import Judge
  import Vm

  /** The bytes the user has at va, read through the page table. */
  function UserBytes(v: View, va: nat, len: nat): (bs: seq<byte>)
    ensures |bs| == len
  {
    seq(len, i requires 0 <= i < len => ByteAt(v, (va + i) / PGSIZE, (va + i) % PGSIZE))
  }

  /** ctx_t */
  class ReadContext {
    var pt: nat
    var buff: nat
    var len: nat

    constructor (pt: nat, buff: nat, len: nat)
      ensures this.pt == pt && this.buff == buff && this.len == len
    {
      this.pt, this.buff, this.len := pt, buff, len;
    }
  }

  /** What call number k of judge_read_block finds is block k of the output. */
  lemma BlockOfOutput(v: View, va: nat, len: nat, k: nat)
    requires k < len / CHUNK + 1
    ensures UserBytes(v, va + CHUNK * k, if len - CHUNK * k < CHUNK then len - CHUNK * k else CHUNK)
            == Block(UserBytes(v, va, len), k)
  {}

  lemma ByteOfPage(v: View, vpn: nat, o: nat, n: nat, i: nat)
    requires vpn in v && o + n <= PGSIZE && i < n
    ensures UserBytes(v, PGSIZE * vpn + o, n)[i] == v[vpn].bytes[o..o + n][i]
  {
    InPage(vpn, o + i);
    var va := PGSIZE * vpn + o + i;
    assert va / PGSIZE == vpn && va % PGSIZE == o + i;
    assert UserBytes(v, PGSIZE * vpn + o, n)[i] == ByteAt(v, va / PGSIZE, va % PGSIZE);
  }

  lemma BytesOfPage(v: View, vpn: nat, o: nat, n: nat)
    requires vpn in v && o + n <= PGSIZE
    ensures UserBytes(v, PGSIZE * vpn + o, n) == v[vpn].bytes[o..o + n]
  {
    hide UserBytes;
    var bs := v[vpn].bytes[o..o + n];
    forall i: nat | i < n
      ensures UserBytes(v, PGSIZE * vpn + o, n)[i] == bs[i]
    {
      ByteOfPage(v, vpn, o, n, i);
    }
  }

  /** judge_read_block: the next 512 bytes of output, or what is left. */
  method ReadBlock(d: Judge.Daemon, c: ReadContext, out: array<byte>) returns (n: nat)
    requires c.pt != 0 && d.vm.Holds(c.pt) && out.Length >= CHUNK && c.buff % CHUNK == 0
    requires c.buff / PGSIZE < VPNS && c.buff / PGSIZE in d.vm.View(c.pt)
    modifies d.vm.alloc`next, d.vm.alloc`used, d.vm.alloc`bits, d.vm.mem, c, out
    ensures d.vm.State() == old(d.vm.State())
    ensures n == if old(c.len) < CHUNK then old(c.len) else CHUNK
    ensures out[..n] == UserBytes(old(d.vm.View(c.pt)), old(c.buff), n)
    ensures c.pt == old(c.pt) && c.buff == old(c.buff) + n && c.len == old(c.len) - n
  {
    hide Inv, ViewOf, Node, UserBytes;
    n := CHUNK;
    if c.len < n {
      n := c.len;
    }
    ghost var v := d.vm.View(c.pt);
    var vpn, o := c.buff / PGSIZE, c.buff % PGSIZE;
    VpnIsPage(c.buff);
    var page := d.MapAgain(c.pt, c.buff, vpn);
    FrameOfPage(d.vm.State(), c.pt, vpn, page);
    WithinPage(c.buff, n);
    BytesOfPage(v, vpn, o, n);
    ghost var s := d.vm.State();
    CopyOut(d.vm, page, o, out, n);
    c.buff := c.buff + n;
    c.len := c.len - n;
  }

  /** Blocks that start at a multiple of 512 never leave their page. */
  lemma WithinPage(va: nat, n: nat)
    requires va % CHUNK == 0 && n <= CHUNK
    ensures va % PGSIZE + n <= PGSIZE && va == PGSIZE * (va / PGSIZE) + va % PGSIZE
  {}

  /** memcpy from page f. */
  method CopyOut(vm: Vm.Kernel, f: nat, o: nat, out: array<byte>, n: nat)
    requires f < vm.mem.Length && o + n <= PGSIZE && n <= out.Length
    modifies out
    ensures out[..n] == vm.mem[f][o..o + n]
  {
    for i := 0 to n
      invariant out[..i] == vm.mem[f][o..o + i]
    {
      out[i] := vm.mem[f][o + i];
    }
  }

  // ---- aux->stdout_len ----

  const LEN_OFFSET: nat := AUX_OFFSET + 32

  /** aux->stdout_len as the user left it, clipped to the buffer. */
  method OutputLength(d: Judge.Daemon, page: nat) returns (len: nat)
    requires page < d.vm.mem.Length
    modifies d.vm.mem
    ensures var said := FromLe(old(d.vm.mem[page])[LEN_OFFSET..LEN_OFFSET + 8]);
            && len == (if said > STDOUT_LIMIT then STDOUT_LIMIT else said)
            && d.vm.State() == if said > STDOUT_LIMIT
                               then Write(old(d.vm.State()), page, LEN_OFFSET, ToLe(STDOUT_LIMIT, 8))
                               else old(d.vm.State())
  {
    len := FromLe(d.vm.mem[page][LEN_OFFSET..LEN_OFFSET + 8]);
    if len > STDOUT_LIMIT {
      d.vm.Poke(page, LEN_OFFSET, ToLe(STDOUT_LIMIT, 8));
      len := STDOUT_LIMIT;
    }
  }
}
