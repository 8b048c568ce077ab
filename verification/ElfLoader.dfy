// `elf32_probe`, `elf32_download` and the skips of `load_block`: however the
// file is cut into blocks, memory ends as the batch loader leaves it.
module ElfLoader {
  import opened Words
  import opened ElfImage

  /** What is still to come: `toread` bytes for `curaddr` after `skip` bytes, when a segment is current. */
  datatype Cursor = Cursor(segment: int, skip: nat, toread: nat, curaddr: nat)

  /** The cursor, at position `at` of the file, points at bytes that the file and memory have. */
  ghost predicate Points(c: Cursor, fileSize: nat, memSize: nat, at: nat) {
    c.segment != -1 ==> 0 < c.toread && at + c.skip + c.toread <= fileSize && c.curaddr + c.toread <= memSize
  }

  /** What memory becomes if the loader, at position `at`, finishes its segment and then loads the rest as a batch. */
  ghost function Finish(ps: seq<Phdr>, file: seq<u8>, c: Cursor, at: nat, mem: seq<u8>): (r: seq<u8>)
    requires Sound(ps, |file|, |mem|) && Points(c, |file|, |mem|, at)
    ensures |r| == |mem|
  {
    if c.segment == -1 then Load(ps, file, at, mem)
    else
      var a := at + c.skip;
      Load(ps, file, a + c.toread, Blit(mem, c.curaddr, Bytes(file, a, a + c.toread)))
  }

  /** Skipping ahead changes nothing that is still to be loaded. */
  lemma FinishSkips(ps: seq<Phdr>, file: seq<u8>, c: Cursor, at: nat, mem: seq<u8>, n: nat)
    requires Sound(ps, |file|, |mem|) && Points(c, |file|, |mem|, at) && c.segment != -1 && n <= c.skip
    ensures Points(c.(skip := c.skip - n), |file|, |mem|, at + n)
    ensures Finish(ps, file, c.(skip := c.skip - n), at + n, mem) == Finish(ps, file, c, at, mem)
  {
    hide Load, Blit, Bytes, Sound, Next;
  }

  /** Copying the next `n` bytes of the current segment leaves the rest of it to copy. */
  lemma FinishCopies(ps: seq<Phdr>, file: seq<u8>, c: Cursor, at: nat, mem: seq<u8>, n: nat)
    requires Sound(ps, |file|, |mem|) && Points(c, |file|, |mem|, at)
    requires c.segment != -1 && c.skip == 0 && n < c.toread
    ensures var c' := c.(toread := c.toread - n, curaddr := c.curaddr + n);
            var mem' := Blit(mem, c.curaddr, Bytes(file, at, at + n));
            Points(c', |file|, |mem|, at + n) && Finish(ps, file, c', at + n, mem') == Finish(ps, file, c, at, mem)
  {
    hide Load, Blit, Bytes, Sound;
    BlitTwice(mem, c.curaddr, file, at, at + n, at + c.toread);
  }

  /** Copying all of it leaves the later segments. */
  lemma FinishEnds(ps: seq<Phdr>, file: seq<u8>, c: Cursor, at: nat, mem: seq<u8>)
    requires Sound(ps, |file|, |mem|) && Points(c, |file|, |mem|, at)
    requires c.segment != -1 && c.skip == 0
    ensures var mem' := Blit(mem, c.curaddr, Bytes(file, at, at + c.toread));
            Finish(ps, file, c, at, mem) == Load(ps, file, at + c.toread, mem')
  {
  }

  /** With no segment current, what remains is the batch load. */
  lemma FinishIdle(ps: seq<Phdr>, file: seq<u8>, c: Cursor, at: nat, mem: seq<u8>)
    requires Sound(ps, |file|, |mem|) && c.segment == -1
    ensures Finish(ps, file, c, at, mem) == Load(ps, file, at, mem)
  {
  }

  lemma LoadDone(ps: seq<Phdr>, file: seq<u8>, at: nat, mem: seq<u8>)
    requires Sound(ps, |file|, |mem|) && Next(ps, at) == -1
    ensures Load(ps, file, at, mem) == mem
  {
  }

  /** Making the next segment current changes nothing. */
  lemma {:induction false} FinishSelects(ps: seq<Phdr>, file: seq<u8>, at: nat, mem: seq<u8>, k: nat)
    requires Sound(ps, |file|, |mem|) && Next(ps, at) == k
    ensures var c := Cursor(k, ps[k].offset - at, ps[k].filesz, ps[k].paddr);
            Points(c, |file|, |mem|, at) && Finish(ps, file, c, at, mem) == Load(ps, file, at, mem)
  {
    hide Next, Blit, Bytes, Load, Sound;
    LoadStep(ps, file, at, mem, k);
  }

  lemma LoadStep(ps: seq<Phdr>, file: seq<u8>, at: nat, mem: seq<u8>, k: nat)
    requires Sound(ps, |file|, |mem|) && k < |ps| && Next(ps, at) == k
    ensures var p := ps[k];
            && p.filesz > 0 && at <= p.offset && p.FileEnd() <= |file| && p.paddr + p.filesz <= |mem|
            && Load(ps, file, at, mem) == Load(ps, file, p.FileEnd(), Blit(mem, p.paddr, Bytes(file, p.offset, p.FileEnd())))
  {
    hide Next, Blit, Bytes;
  }

  /** A piece of a block is that piece of the file. */
  lemma BlockBytes(file: seq<u8>, loc: nat, data: seq<u8>, offset: nat, n: nat)
    requires offset + n <= |data| && loc + |data| <= |file| && data == file[loc..loc + |data|]
    ensures data[offset..offset + n] == Bytes(file, loc + offset, loc + offset + n)
  {
    var a, b := data[offset..offset + n], Bytes(file, loc + offset, loc + offset + n);
    forall i | 0 <= i < n ensures a[i] == b[i] { assert a[i] == data[offset + i] == file[loc + (offset + i)]; }
    assert a == b;
  }

  class Loader {
    const phdrs: seq<Phdr>
    const ramMap: seq<Region>
    const mem: array<u8>
    // the static `estate`
    var segment: int
    var loc: u32
    var skip: u32
    var toread: u32
    var curaddr: nat
    // the statics of `load_block`
    var skipSectors: u32
    var skipBytes: u32
    /** Bytes of the file received so far, and whether the kernel has been started. */
    ghost var fed: nat
    var started: bool

    ghost function Where(): Cursor
      reads this
    {
      Cursor(segment, skip, toread, curaddr)
    }

    constructor (phdrs: seq<Phdr>, ramMap: seq<Region>, mem: array<u8>)
      ensures this.phdrs == phdrs && this.ramMap == ramMap && this.mem == mem && !started
    {
      this.phdrs, this.ramMap, this.mem := phdrs, ramMap, mem;
      segment, loc, skip, toread, curaddr, skipSectors, skipBytes, started := -1, 0, 0, 0, 0, 0, 0, false;
      fed := 0;
    }

    /** The search for the next segment in file order. */
    method FindNext(pos: nat) returns (k: int)
      ensures k == Next(phdrs, pos)
    {
      k := -1;
      for i := 0 to |phdrs|
        invariant k == Best(phdrs, pos, i)
      {
        if phdrs[i].ptype != PT_LOAD { continue; }
        if phdrs[i].filesz == 0 { continue; }
        if phdrs[i].offset < pos { continue; }
        if k != -1 && phdrs[i].offset >= phdrs[k].offset { continue; }
        k := i;
      }
    }

    /** `memcpy` */
    method Copy(addr: nat, data: seq<u8>)
      requires addr + |data| <= mem.Length
      modifies mem
      ensures mem[..] == Blit(old(mem[..]), addr, data)
    {
      for i := 0 to |data|
        invariant mem[..] == Blit(old(mem[..]), addr, data[..i])
      {
        mem[addr + i] := data[i];
      }
      assert data[..|data|] == data;
    }

    /** `memset(mid, 0, end - mid)` */
    method ZeroBss(mid: nat, end: nat)
      requires mid <= end <= mem.Length
      modifies mem
      ensures mem[..] == Blit(old(mem[..]), mid, Zeros(end - mid))
    {
      for i := mid to end
        invariant mem[..] == Blit(old(mem[..]), mid, Zeros(i - mid))
      {
        mem[i] := 0;
      }
    }

    /** `prep_segment` */
    method PrepSegment(start: u32, mid: u32, end: u32) returns (ok: bool)
      requires Backed(ramMap, mem.Length)
      modifies mem
      ensures (ok, mem[..]) == Prep(ramMap, old(mem[..]), start, mid, end)
    {
      if mid > end { return false; }
      var fit, i := false, 0;
      while i < |ramMap| && !fit
        invariant i <= |ramMap| && (fit ==> Fits(ramMap, start, end))
        invariant !fit ==> forall j :: 0 <= j < i ==> !(ramMap[j].ram && ramMap[j].addr <= start && end <= ramMap[j].addr + ramMap[j].size)
        decreases |ramMap| - i, !fit
      {
        if ramMap[i].ram && start >= ramMap[i].addr && end <= ramMap[i].addr + ramMap[i].size {
          fit := true;
        } else {
          i := i + 1;
        }
      }
      if !fit { return false; }
      if end > mid { ZeroBss(mid, end); }
      return true;
    }

    /** The segment checks and the final resets of `elf32_probe`. */
    method ProbeImage() returns (ok: bool)
      requires Backed(ramMap, mem.Length)
      modifies this`segment, this`loc, this`skip, this`toread, mem
      ensures (ok, mem[..]) == Probe(ramMap, phdrs, 0, old(mem[..]))
      ensures ok ==> segment == -1 && loc == 0 && skip == 0 && toread == 0
    {
      var i := 0;
      ok := true;
      hide Prep, Backed;
      while ok && i < |phdrs|
        invariant i <= |phdrs| && Backed(ramMap, mem.Length)
        invariant if ok then Probe(ramMap, phdrs, i, mem[..]) == Probe(ramMap, phdrs, 0, old(mem[..]))
                  else Probe(ramMap, phdrs, 0, old(mem[..])) == (false, mem[..])
        decreases |phdrs| - i, ok
      {
        var p := phdrs[i];
        if p.ptype == PT_LOAD { ok := PrepSegment(p.paddr, ToU32(p.paddr + p.filesz), ToU32(p.paddr + p.memsz)); }
        i := i + 1;
      }
      if ok { segment, loc, skip, toread := -1, 0, 0, 0; }
    }

    /** The loader stands at true file position `loc`, its cursor on bytes of `file`. */
    ghost predicate Ready(file: seq<u8>)
      reads this
    {
      Sound(phdrs, |file|, mem.Length) && |file| < 0x1_0000_0000 && Points(Where(), |file|, mem.Length, loc)
    }

    /** What memory will hold once the rest of the file is loaded. */
    ghost function Target(file: seq<u8>): seq<u8>
      requires Ready(file)
      reads this, mem
    {
      Finish(phdrs, file, Where(), loc, mem[..])
    }

    /**
     * The part of the loop for a current segment: skips and copies from `data[offset..]`.  `blocked`
     * when the data runs out first; else the segment is complete and the data used up to `o`.
     */
    method Consume(data: seq<u8>, offset: nat, ghost file: seq<u8>) returns (o: nat, blocked: bool)
      requires Sound(phdrs, |file|, mem.Length) && |file| < 0x1_0000_0000 && offset <= |data|
      requires loc + |data| <= |file| && data == file[loc..loc + |data|]
      requires segment != -1 && Points(Where(), |file|, mem.Length, loc + offset)
      modifies this`skip, this`toread, this`curaddr, mem
      ensures blocked ==> Points(Where(), |file|, mem.Length, loc + |data|)
                          && Finish(phdrs, file, Where(), loc + |data|, mem[..]) == old(Finish(phdrs, file, Where(), loc + offset, mem[..]))
      ensures !blocked ==> offset < o <= |data|
                           && Load(phdrs, file, loc + o, mem[..]) == old(Finish(phdrs, file, Where(), loc + offset, mem[..]))
    {
      hide Finish, Load, Blit, Sound, Next;
      o := offset;
      if skip > 0 {
        if skip >= |data| - o {
          FinishSkips(phdrs, file, Where(), loc + o, mem[..], |data| - o);
          skip := skip - (|data| - o);
          return o, true;
        }
        FinishSkips(phdrs, file, Where(), loc + o, mem[..], skip);
        o := o + skip;
        skip := 0;
      }
      o, blocked := CopyOn(data, o, file);
    }

    /** The copy of what the block holds of the current segment. */
    method CopyOn(data: seq<u8>, offset: nat, ghost file: seq<u8>) returns (o: nat, blocked: bool)
      requires Sound(phdrs, |file|, mem.Length) && |file| < 0x1_0000_0000 && offset <= |data|
      requires loc + |data| <= |file| && data == file[loc..loc + |data|]
      requires segment != -1 && skip == 0 && Points(Where(), |file|, mem.Length, loc + offset)
      modifies this`toread, this`curaddr, mem
      ensures blocked ==> Points(Where(), |file|, mem.Length, loc + |data|)
                          && Finish(phdrs, file, Where(), loc + |data|, mem[..]) == old(Finish(phdrs, file, Where(), loc + offset, mem[..]))
      ensures !blocked ==> offset < o <= |data|
                           && Load(phdrs, file, loc + o, mem[..]) == old(Finish(phdrs, file, Where(), loc + offset, mem[..]))
    {
      hide Finish, Load, Blit, Sound, Next;
      ghost var before, was, at := mem[..], Where(), loc + offset;
      var cplen := if |data| - offset >= toread then toread else |data| - offset;
      BlockBytes(file, loc, data, offset, cplen);
      if cplen < toread {
        FinishCopies(phdrs, file, was, at, before, cplen);
      } else {
        FinishEnds(phdrs, file, was, at, before);
      }
      Copy(curaddr, data[offset..offset + cplen]);
      curaddr, toread := curaddr + cplen, toread - cplen;
      o, blocked := offset + cplen, toread > 0;
    }

    /**
     * `elf32_download` on the bytes of the file at `loc`.  `done` when the last segment is complete;
     * otherwise the caller is to drop the next `sectors` sectors of the file.
     */
    method Download(data: seq<u8>, eof: bool, ghost file: seq<u8>) returns (sectors: u32, done: bool)
      requires Ready(file) && loc + |data| <= |file| && data == file[loc..loc + |data|]
      modifies this`segment, this`loc, this`skip, this`toread, this`curaddr, this`started, mem
      ensures started == (old(started) || done || eof)
      ensures done ==> mem[..] == old(Target(file))
      ensures !done ==> Ready(file) && segment != -1 && skip < 512 && Target(file) == old(Target(file))
      ensures !done ==> loc == old(loc) + |data| + 512 * sectors
    {
      hide Finish, Load, Blit, Sound, Next;
      sectors := 0;
      done := ScanBlock(data, file);
      if done {
        started := true;
        return;
      }
      FinishSkips(phdrs, file, Where(), loc + |data|, mem[..], skip / 512 * 512);
      loc, sectors, skip := loc + |data| + skip / 512 * 512, skip / 512, skip % 512;
      if eof { started := true; }
    }

    /** The loop of `elf32_download`: the block is used up, or the last segment is complete. */
    method ScanBlock(data: seq<u8>, ghost file: seq<u8>) returns (done: bool)
      requires Ready(file) && loc + |data| <= |file| && data == file[loc..loc + |data|]
      modifies this`segment, this`skip, this`toread, this`curaddr, mem
      ensures done ==> mem[..] == old(Target(file))
      ensures !done ==> segment != -1 && Points(Where(), |file|, mem.Length, loc + |data|)
                        && Finish(phdrs, file, Where(), loc + |data|, mem[..]) == old(Target(file))
    {
      hide Finish, Load, Blit, Sound, Next;
      ghost var target := Target(file);
      var offset := 0;
      while true
        invariant offset <= |data|
        invariant Points(Where(), |file|, mem.Length, loc + offset)
        invariant Finish(phdrs, file, Where(), loc + offset, mem[..]) == target
        decreases |data| - offset, segment == -1
      {
        if segment != -1 {
          var o, blocked := Consume(data, offset, file);
          if blocked { return false; }
          offset := o;
        } else {
          FinishIdle(phdrs, file, Where(), loc + offset, mem[..]);
        }
        var next := FindNext(loc + offset);
        if next == -1 {
          LoadDone(phdrs, file, loc + offset, mem[..]);
          return true;
        }
        FinishSelects(phdrs, file, loc + offset, mem[..], next);
        segment := next;
        curaddr, skip, toread := phdrs[next].paddr, phdrs[next].offset - (loc + offset), phdrs[next].filesz;
        if offset >= |data| { return false; }
      }
    }

    /** Between two blocks: the loader wants the bytes from `loc` on, which lie past all it was fed. */
    ghost predicate Streaming(file: seq<u8>)
      reads this
    {
      Ready(file) && segment != -1 && skipBytes < 512 && loc == fed + 512 * skipSectors + skipBytes
    }

    /** A loader that waits for more is not at the end of the file. */
    lemma StreamingInside(file: seq<u8>)
      requires Streaming(file)
      ensures fed < |file|
    {
    }

    /** `load_block` after the first block: drops what is to be skipped and hands the rest to the loader. */
    method PassOn(data: seq<u8>, eof: bool, ghost file: seq<u8>) returns (done: bool)
      requires !started && Ready(file) && skipBytes < 512 && loc == fed + 512 * skipSectors + skipBytes
      requires segment != -1 || (0 < |data| && loc == fed)
      requires |data| < 0x8000_0000 && fed + |data| <= |file| && data == file[fed..fed + |data|]
      requires eof ==> fed + |data| == |file|
      modifies this, mem
      ensures fed == old(fed) + |data| && started == done && (eof ==> done)
      ensures done ==> mem[..] == old(Target(file))
      ensures !done ==> Streaming(file) && Target(file) == old(Target(file))
    {
      hide Sound, Finish;
      done := false;
      var len := |data|;
      if skipSectors > len / 512 || (skipSectors == len / 512 && skipBytes >= len % 512) {
        if skipBytes < len {
          var borrow := (len - skipBytes + 511) / 512;
          skipSectors, skipBytes := skipSectors - borrow, skipBytes + borrow * 512;
        }
        skipBytes := skipBytes - len;
      } else {
        var drop := 512 * skipSectors + skipBytes;
        assert data[drop..] == file[loc..loc + (len - drop)];
        skipSectors, done := Download(data[drop..], eof, file);
        skipBytes := 0;
      }
      fed := fed + len;
      started := done;
    }

    /** If the probe accepts the image, no segment of it wraps, and all of them are in the file. */
    ghost predicate Loadable(file: seq<u8>)
      requires Backed(ramMap, mem.Length)
      reads mem
    {
      Probe(ramMap, phdrs, 0, mem[..]).0 ==> NoWrap(phdrs) && SegmentsIn(phdrs, |file|)
    }

    /** `load_block`; `done` when the kernel is started. */
    method LoadBlock(data: seq<u8>, block: nat, eof: bool, ghost file: seq<u8>) returns (ok: bool, done: bool)
      requires !started && Backed(ramMap, mem.Length) && |file| < 0x1_0000_0000
      requires block == 1 ==> fed == 0 && Loadable(file)
      requires block != 1 ==> Streaming(file)
      requires |data| < 0x8000_0000 && fed + |data| <= |file| && data == file[fed..fed + |data|]
      requires eof ==> fed + |data| == |file|
      modifies this, mem
      ensures ok == (block != 1 || (|data| >= EHDR_SIZE && Probe(ramMap, phdrs, 0, old(mem[..])).0))
      ensures ok ==> fed == old(fed) + |data| && started == done && (eof ==> done)
      ensures ok && block == 1 ==> Sound(phdrs, |file|, mem.Length)
      ensures ok ==>
        var goal := if block == 1 then Load(phdrs, file, 0, Probe(ramMap, phdrs, 0, old(mem[..])).1) else old(Target(file));
        if done then mem[..] == goal else Streaming(file) && Target(file) == goal
    {
      ok, done := true, false;
      if block == 1 {
        skipSectors, skipBytes := 0, 0;
        if |data| < EHDR_SIZE { return false, false; }
        ghost var before := mem[..];
        ok := ProbeImage();
        if !ok { return; }
        ProbeSound(ramMap, phdrs, before, |file|);
        FinishIdle(phdrs, file, Where(), 0, mem[..]);
      }
      hide Probe, Load, Finish, Sound;
      done := PassOn(data, eof, file);
    }

    /**
     * The caller's loop, as in `nfs`: the blocks of the file in order, the last one marked, until the
     * kernel starts.  However the file is cut, a file that starts with its headers ends up in memory
     * as the batch loader puts it there, and the kernel starts at the block that completes it.
     */
    method Feed(blocks: seq<seq<u8>>, ghost file: seq<u8>) returns (ok: bool)
      requires !started && fed == 0 && Backed(ramMap, mem.Length) && |file| < 0x1_0000_0000 && Loadable(file)
      requires blocks != [] && Concat(blocks) == file && forall b :: b in blocks ==> |b| < 0x8000_0000
      modifies this, mem
      ensures ok == (|blocks[0]| >= EHDR_SIZE && Probe(ramMap, phdrs, 0, old(mem[..])).0)
      ensures ok ==> started && Sound(phdrs, |file|, mem.Length)
                     && mem[..] == Load(phdrs, file, 0, Probe(ramMap, phdrs, 0, old(mem[..])).1)
    {
      var size := TotalSize(blocks);
      ConcatAt(blocks, 0);
      var eof := |blocks[0]| == size;
      var done;
      ok, done := LoadBlock(blocks[0], 1, eof, file);
      if ok {
        ghost var goal := Load(phdrs, file, 0, Probe(ramMap, phdrs, 0, old(mem[..])).1);
        hide Probe, Load, Finish, Sound, Backed, Loadable, Points;
        FeedRest(blocks, size, done, file, goal);
      }
    }

    /** The blocks behind the first, as long as the loader wants them. */
    method FeedRest(blocks: seq<seq<u8>>, size: nat, done0: bool, ghost file: seq<u8>, ghost goal: seq<u8>)
      requires Backed(ramMap, mem.Length) && |file| < 0x1_0000_0000
      requires blocks != [] && Concat(blocks) == file && size == |file| && forall b :: b in blocks ==> |b| < 0x8000_0000
      requires started == done0 && fed == |blocks[0]| == |Concat(blocks[..1])| && (|blocks| == 1 ==> fed == |file|)
      requires if done0 then mem[..] == goal else Streaming(file) && Target(file) == goal
      modifies this, mem
      ensures started && mem[..] == goal
    {
      hide Probe, Load, Finish, Sound, Backed, Loadable, Points, Concat;
      var done, ok := done0, true;
      var n, offs := 1, |blocks[0]|;
      while n < |blocks| && !done
        invariant 1 <= n <= |blocks| && offs == fed == |Concat(blocks[..n])| && started == done
        invariant if done then mem[..] == goal else Streaming(file) && Target(file) == goal
        invariant n == |blocks| ==> fed == |file|
      {
        ConcatAt(blocks, n);
        var eof := offs + |blocks[n]| == size;
        ok, done := LoadBlock(blocks[n], n + 1, eof, file);
        offs := offs + |blocks[n]|;
        n := n + 1;
      }
      if !done { StreamingInside(file); }
    }
  }

  const EHDR_SIZE := 52

  ghost predicate SegmentsIn(ps: seq<Phdr>, fileSize: nat) {
    forall i :: 0 <= i < |ps| && ps[i].Loads() ==> ps[i].FileEnd() <= fileSize
  }

  ghost function Concat(blocks: seq<seq<u8>>): seq<u8> {
    if blocks == [] then [] else Concat(blocks[..|blocks| - 1]) + blocks[|blocks| - 1]
  }

  /** Where block `n` stands in the file. */
  lemma {:induction false} ConcatAt(blocks: seq<seq<u8>>, n: nat)
    requires n < |blocks|
    ensures var a := |Concat(blocks[..n])|;
            && a + |blocks[n]| <= |Concat(blocks)| && Concat(blocks)[a..a + |blocks[n]|] == blocks[n]
            && |Concat(blocks[..n + 1])| == a + |blocks[n]|
    ensures n + 1 == |blocks| ==> |Concat(blocks[..n + 1])| == |Concat(blocks)|
    decreases |blocks|
  {
    assert blocks[..n + 1][..n] == blocks[..n];
    if n + 1 < |blocks| {
      var init := blocks[..|blocks| - 1];
      ConcatAt(init, n);
      assert init[..n] == blocks[..n] && init[..n + 1] == blocks[..n + 1];
    } else {
      assert blocks[..n + 1] == blocks;
    }
  }

  method TotalSize(blocks: seq<seq<u8>>) returns (size: nat)
    ensures size == |Concat(blocks)|
  {
    size := 0;
    for i := 0 to |blocks|
      invariant size == |Concat(blocks[..i])|
    {
      ConcatAt(blocks, i);
      size := size + |blocks[i]|;
    }
    assert blocks[..|blocks|] == blocks;
  }
}
