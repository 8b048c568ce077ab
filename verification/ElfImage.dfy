// What loading an ELF image means: the batch loader that the streaming loader
// of etherboot/core/elf_loader.c has to agree with, and the memory it leaves.
module ElfImage {
  import opened Words

  const PT_LOAD := 1

  /** The fields of an `Elf32_Phdr` that loading uses. */
  datatype Phdr = Phdr(ptype: u32, offset: u32, paddr: u32, filesz: u32, memsz: u32) {
    /** The segment has bytes in the file. */
    predicate Loads() { ptype == PT_LOAD && filesz != 0 }
    function FileEnd(): int { offset + filesz }
    /** `x` is an address of the segment's file bytes. */
    predicate HasByte(x: int) { paddr <= x < paddr + filesz }
    /** `x` is an address of the segment's memory, bss included. */
    predicate HasCell(x: int) { paddr <= x < paddr + memsz }
    /** `x` is an address of the segment that the file does not fill. */
    predicate HasBss(x: int) { ptype == PT_LOAD && paddr + filesz <= x < paddr + memsz }
    /** The ends of the segment as the program computes them. */
    function FileTop(): u32 { ToU32(paddr + filesz) }
    function Top(): u32 { ToU32(paddr + memsz) }
    /** The probe zeroes `x` for this segment. */
    predicate Clears(x: int) { ptype == PT_LOAD && FileTop() <= x < Top() }
  }

  /**
   * Among the first `n` headers the segment to load next from file position `pos` on: the one of
   * lowest offset, the first of them if several share it, or -1.
   */
  function Best(ps: seq<Phdr>, pos: int, n: nat): (k: int)
    requires n <= |ps|
    ensures -1 <= k < n && (k >= 0 ==> ps[k].Loads() && pos <= ps[k].offset)
  {
    if n == 0 then -1
    else
      var b := Best(ps, pos, n - 1);
      var p := ps[n - 1];
      if !p.Loads() || p.offset < pos || (b != -1 && p.offset >= ps[b].offset) then b else n - 1
  }

  function Next(ps: seq<Phdr>, pos: int): (k: int)
    ensures -1 <= k < |ps| && (k >= 0 ==> ps[k].Loads() && pos <= ps[k].offset)
  {
    Best(ps, pos, |ps|)
  }

  /** Nothing loadable lies between `pos` and the segment chosen. */
  lemma {:induction false} BestIsLowest(ps: seq<Phdr>, pos: int, n: nat, j: nat)
    requires j < n <= |ps| && ps[j].Loads() && pos <= ps[j].offset
    ensures var k := Best(ps, pos, n); 0 <= k && ps[k].offset <= ps[j].offset && (ps[k].offset == ps[j].offset ==> k <= j)
  {
    if j < n - 1 { BestIsLowest(ps, pos, n - 1, j); }
  }

  // ----- Memory

  function Bytes(file: seq<u8>, a: nat, b: nat): (r: seq<u8>)
    requires a <= b <= |file|
    ensures |r| == b - a
  {
    file[a..b]
  }

  /** Copying in two goes is copying at once. */
  lemma BlitTwice(mem: seq<u8>, addr: nat, file: seq<u8>, a: nat, b: nat, c: nat)
    requires a <= b <= c <= |file| && addr + (c - a) <= |mem|
    ensures Blit(Blit(mem, addr, Bytes(file, a, b)), addr + (b - a), Bytes(file, b, c)) == Blit(mem, addr, Bytes(file, a, c))
  {
  }

  /** Every loadable segment lies inside the file, and in memory below `size` without wrapping. */
  ghost predicate Sound(ps: seq<Phdr>, fileSize: nat, size: nat) {
    forall i :: 0 <= i < |ps| && ps[i].Loads() ==>
      ps[i].FileEnd() <= fileSize && ps[i].filesz <= ps[i].memsz && ps[i].paddr + ps[i].memsz <= size
  }

  /** The batch loader: from position `pos` on, copy segment after segment in file order, never going back. */
  ghost function Load(ps: seq<Phdr>, file: seq<u8>, pos: nat, mem: seq<u8>): (r: seq<u8>)
    requires Sound(ps, |file|, |mem|)
    ensures |r| == |mem|
    decreases |file| - pos
  {
    var k := Next(ps, pos);
    if k == -1 then mem
    else
      var p := ps[k];
      Load(ps, file, p.FileEnd(), Blit(mem, p.paddr, Bytes(file, p.offset, p.FileEnd())))
  }

  // ----- What is loaded

  ghost predicate FilesApart(p: Phdr, q: Phdr) { p.FileEnd() <= q.offset || q.FileEnd() <= p.offset }

  /** The file ranges of the loadable segments do not overlap. */
  ghost predicate FilesDisjoint(ps: seq<Phdr>) {
    forall i, j :: 0 <= i < j < |ps| && ps[i].Loads() && ps[j].Loads() ==> FilesApart(ps[i], ps[j])
  }

  ghost predicate CellsApart(p: Phdr, q: Phdr) {
    p.memsz == 0 || q.memsz == 0 || p.paddr + p.memsz <= q.paddr || q.paddr + q.memsz <= p.paddr
  }

  /** No two PT_LOAD segments share memory. */
  ghost predicate MemoryDisjoint(ps: seq<Phdr>) {
    forall i, j :: 0 <= i < j < |ps| && ps[i].ptype == PT_LOAD && ps[j].ptype == PT_LOAD ==> CellsApart(ps[i], ps[j])
  }

  /** The segments that the batch loader copies from `pos` on. */
  ghost function Chosen(ps: seq<Phdr>, pos: nat): set<int>
    decreases 0x1_0000_0000 - pos
  {
    var k := Next(ps, pos);
    if k == -1 then {} else {k} + Chosen(ps, ps[k].FileEnd())
  }

  lemma {:induction false} ChosenFrom(ps: seq<Phdr>, pos: nat, i: int)
    requires i in Chosen(ps, pos)
    ensures 0 <= i < |ps| && ps[i].Loads() && pos <= ps[i].offset
    decreases 0x1_0000_0000 - pos
  {
    var k := Next(ps, pos);
    if i != k { ChosenFrom(ps, ps[k].FileEnd(), i); }
  }

  lemma {:induction false} ChosenApart(ps: seq<Phdr>, pos: nat, i: int, j: int)
    requires i in Chosen(ps, pos) && j in Chosen(ps, pos) && i != j
    ensures 0 <= i < |ps| && 0 <= j < |ps| && FilesApart(ps[i], ps[j])
    decreases 0x1_0000_0000 - pos
  {
    var k := Next(ps, pos);
    if i == k {
      ChosenFrom(ps, ps[k].FileEnd(), j);
    } else if j == k {
      ChosenFrom(ps, ps[k].FileEnd(), i);
    } else {
      ChosenApart(ps, ps[k].FileEnd(), i, j);
    }
  }

  lemma {:induction false} DisjointChosen(ps: seq<Phdr>, pos: nat, i: nat)
    requires FilesDisjoint(ps) && i < |ps| && ps[i].Loads() && pos <= ps[i].offset
    ensures i in Chosen(ps, pos)
    decreases 0x1_0000_0000 - pos
  {
    BestIsLowest(ps, pos, |ps|, i);
    var k := Next(ps, pos);
    if i != k {
      assert FilesApart(ps[if i < k then i else k], ps[if i < k then k else i]);
      DisjointChosen(ps, ps[k].FileEnd(), i);
    }
  }

  /** The loader can only seek forward: it copies every segment exactly when no two overlap in the file. */
  lemma AllChosenIffDisjoint(ps: seq<Phdr>)
    ensures (forall i :: 0 <= i < |ps| && ps[i].Loads() ==> i in Chosen(ps, 0)) <==> FilesDisjoint(ps)
  {
    if FilesDisjoint(ps) {
      forall i | 0 <= i < |ps| && ps[i].Loads() ensures i in Chosen(ps, 0) { DisjointChosen(ps, 0, i); }
    }
    if forall i :: 0 <= i < |ps| && ps[i].Loads() ==> i in Chosen(ps, 0) {
      forall i, j | 0 <= i < j < |ps| && ps[i].Loads() && ps[j].Loads() ensures FilesApart(ps[i], ps[j]) {
        ChosenApart(ps, 0, i, j);
      }
    }
  }

  lemma SkippedNext(p: Phdr, q: Phdr)
    requires p.Loads() && q.Loads() && p.offset < q.offset < p.FileEnd()
    ensures Next([p, q], 0) == 0 && Next([p, q], p.FileEnd()) == -1
  {
    var ps := [p, q];
    assert Best(ps, 0, 1) == 0 && Best(ps, 0, 2) == 0;
    assert Best(ps, p.FileEnd(), 1) == -1 && Best(ps, p.FileEnd(), 2) == -1;
  }

  /** Of two segments that share five bytes of the file, the second is never loaded. */
  lemma SegmentSkipped(p: Phdr, q: Phdr, file: seq<u8>, mem: seq<u8>)
    requires p == Phdr(PT_LOAD, 0, 0, 10, 10) && q == Phdr(PT_LOAD, 5, 100, 10, 10) && |file| >= 15 && |mem| >= 110
    ensures Sound([p, q], |file|, |mem|) && MemoryDisjoint([p, q]) && Chosen([p, q], 0) == {0}
    ensures Load([p, q], file, 0, mem) == Blit(mem, 0, Bytes(file, 0, 10))
  {
    hide Next, Bytes, Blit;
    SkippedNext(p, q);
    var ps, m := [p, q], Blit(mem, 0, Bytes(file, 0, 10));
    assert Chosen(ps, 10) == {} && Load(ps, file, 10, m) == m;
  }

  /** Loading leaves alone every address that holds no byte of a segment still to come. */
  lemma {:induction false} LoadKeeps(ps: seq<Phdr>, file: seq<u8>, pos: nat, mem: seq<u8>, x: nat)
    requires Sound(ps, |file|, |mem|) && x < |mem|
    requires forall i :: 0 <= i < |ps| && ps[i].Loads() && pos <= ps[i].offset ==> !ps[i].HasByte(x)
    ensures Load(ps, file, pos, mem)[x] == mem[x]
    decreases |file| - pos
  {
    var k := Next(ps, pos);
    if k != -1 {
      var p := ps[k];
      LoadKeeps(ps, file, p.FileEnd(), Blit(mem, p.paddr, Bytes(file, p.offset, p.FileEnd())), x);
    }
  }

  /** One step of the batch loader: it copies the segment chosen, and only the later ones are still to come. */
  lemma LoadNext(ps: seq<Phdr>, file: seq<u8>, pos: nat, mem: seq<u8>)
    requires Sound(ps, |file|, |mem|) && Chosen(ps, pos) != {}
    ensures var k := Next(ps, pos);
            && 0 <= k < |ps| && ps[k].Loads() && ps[k].FileEnd() <= |file| && ps[k].paddr + ps[k].filesz <= |mem|
            && pos <= ps[k].offset < ps[k].FileEnd()
            && Chosen(ps, pos) == {k} + Chosen(ps, ps[k].FileEnd())
            && Load(ps, file, pos, mem)
               == Load(ps, file, ps[k].FileEnd(), Blit(mem, ps[k].paddr, Bytes(file, ps[k].offset, ps[k].FileEnd())))
  {
  }

  lemma LoadNothing(ps: seq<Phdr>, file: seq<u8>, pos: nat, mem: seq<u8>)
    requires Sound(ps, |file|, |mem|) && Chosen(ps, pos) == {}
    ensures Load(ps, file, pos, mem) == mem
  {
    assert Next(ps, pos) != -1 ==> Next(ps, pos) in Chosen(ps, pos);
  }

  /** An address that no segment copied has a byte for keeps what it held. */
  lemma {:induction false} LoadMisses(ps: seq<Phdr>, file: seq<u8>, pos: nat, mem: seq<u8>, x: nat)
    requires Sound(ps, |file|, |mem|) && x < |mem| && forall j :: j in Chosen(ps, pos) ==> 0 <= j < |ps| && !ps[j].HasByte(x)
    ensures Load(ps, file, pos, mem)[x] == mem[x]
    decreases |file| - pos
  {
    hide Load, Chosen, Next, Sound;
    if Chosen(ps, pos) == {} {
      LoadNothing(ps, file, pos, mem);
    } else {
      LoadNext(ps, file, pos, mem);
      var k := Next(ps, pos);
      assert k in Chosen(ps, pos);
      LoadMisses(ps, file, ps[k].FileEnd(), Blit(mem, ps[k].paddr, Bytes(file, ps[k].offset, ps[k].FileEnd())), x);
    }
  }

  /** Of several segments copied that have a byte for an address, the last in the file has it. */
  lemma {:induction false} LoadLast(ps: seq<Phdr>, file: seq<u8>, pos: nat, mem: seq<u8>, i: nat, x: nat)
    requires Sound(ps, |file|, |mem|) && i in Chosen(ps, pos) && i < |ps| && ps[i].Loads() && ps[i].HasByte(x)
    requires forall j :: j in Chosen(ps, pos) ==> 0 <= j < |ps| && (ps[i].offset < ps[j].offset ==> !ps[j].HasByte(x))
    ensures x < |mem| && Load(ps, file, pos, mem)[x] == file[ps[i].offset + (x - ps[i].paddr)]
    decreases |file| - pos
  {
    LoadNext(ps, file, pos, mem);
    hide Load, Chosen, Next;
    var k := Next(ps, pos);
    var p := ps[k];
    var mem' := Blit(mem, p.paddr, Bytes(file, p.offset, p.FileEnd()));
    if i == k {
      assert mem'[x] == file[p.offset + (x - p.paddr)];
      forall j | j in Chosen(ps, p.FileEnd()) ensures 0 <= j < |ps| && !ps[j].HasByte(x) { ChosenFrom(ps, p.FileEnd(), j); }
      hide Sound, Blit, Bytes;
      LoadMisses(ps, file, p.FileEnd(), mem', x);
    } else {
      hide Sound, Blit, Bytes;
      LoadLast(ps, file, p.FileEnd(), mem', i, x);
    }
  }

  /** Loading puts every byte of a disjoint image in its place. */
  lemma {:induction false} LoadPlaces(ps: seq<Phdr>, file: seq<u8>, pos: nat, mem: seq<u8>, i: nat, x: nat)
    requires Sound(ps, |file|, |mem|) && FilesDisjoint(ps) && MemoryDisjoint(ps)
    requires i < |ps| && ps[i].Loads() && pos <= ps[i].offset && ps[i].HasByte(x)
    ensures Load(ps, file, pos, mem)[x] == file[ps[i].offset + (x - ps[i].paddr)]
    decreases |file| - pos
  {
    BestIsLowest(ps, pos, |ps|, i);
    var k := Next(ps, pos);
    var p := ps[k];
    var mem' := Blit(mem, p.paddr, Bytes(file, p.offset, p.FileEnd()));
    assert Load(ps, file, pos, mem) == Load(ps, file, p.FileEnd(), mem');
    hide Next, Best, Blit;
    if i == k {
      assert mem'[x] == file[p.offset + (x - p.paddr)];
      OthersMiss(ps, |file|, |mem|, i, x);
      hide FilesDisjoint, MemoryDisjoint, Bytes;
      LoadKeeps(ps, file, p.FileEnd(), mem', x);
    } else {
      assert if i < k then FilesApart(ps[i], ps[k]) else FilesApart(ps[k], ps[i]);
      hide Bytes;
      LoadPlaces(ps, file, p.FileEnd(), mem', i, x);
    }
  }

  /** No segment further on in the file has the byte as well. */
  lemma OthersMiss(ps: seq<Phdr>, fileSize: nat, memSize: nat, i: nat, x: int)
    requires Sound(ps, fileSize, memSize) && MemoryDisjoint(ps) && i < |ps| && ps[i].Loads() && ps[i].HasByte(x)
    ensures forall j :: 0 <= j < |ps| && ps[j].Loads() && ps[i].FileEnd() <= ps[j].offset ==> !ps[j].HasByte(x)
  {
    forall j | 0 <= j < |ps| && ps[j].Loads() && ps[i].FileEnd() <= ps[j].offset ensures !ps[j].HasByte(x) {
    }
  }

  // ----- prep_segment and the checks of elf32_probe

  /** An entry of the memory map; `size` bytes of RAM from `addr` when `ram`. */
  datatype Region = Region(addr: nat, size: nat, ram: bool)

  predicate Fits(map_: seq<Region>, start: u32, end: u32) {
    exists i :: 0 <= i < |map_| && map_[i].ram && map_[i].addr <= start && end <= map_[i].addr + map_[i].size
  }

  /** The segment's memory lies in one region of RAM, which it may fill from the first byte to the last. */
  ghost predicate InRam(map_: seq<Region>, p: Phdr) {
    exists i :: 0 <= i < |map_| && map_[i].ram && map_[i].addr <= p.paddr && p.paddr + p.memsz <= map_[i].addr + map_[i].size
  }

  /** The RAM that the map describes is memory there is. */
  ghost predicate Backed(map_: seq<Region>, size: nat) {
    forall i :: 0 <= i < |map_| && map_[i].ram ==> map_[i].addr + map_[i].size <= size
  }

  /** `prep_segment`: accepts [start, end) if it fits in RAM, and zeroes [mid, end). */
  ghost function Prep(map_: seq<Region>, mem: seq<u8>, start: u32, mid: u32, end: u32): (r: (bool, seq<u8>))
    requires Backed(map_, |mem|)
    ensures |r.1| == |mem|
  {
    if mid > end || !Fits(map_, start, end) then (false, mem)
    else (true, if end > mid then Blit(mem, mid, Zeros(end - mid)) else mem)
  }

  /** One header's check; addresses are computed in 32 bits. */
  ghost function PrepHeader(map_: seq<Region>, mem: seq<u8>, p: Phdr): (r: (bool, seq<u8>))
    requires Backed(map_, |mem|)
    ensures |r.1| == |mem|
  {
    if p.ptype != PT_LOAD then (true, mem)
    else Prep(map_, mem, p.paddr, p.FileTop(), p.Top())
  }

  /** The checks on headers `n` and up, until one fails. */
  ghost function Probe(map_: seq<Region>, ps: seq<Phdr>, n: nat, mem: seq<u8>): (r: (bool, seq<u8>))
    requires n <= |ps| && Backed(map_, |mem|)
    ensures |r.1| == |mem|
    decreases |ps| - n
  {
    if n == |ps| then (true, mem)
    else
      var p := PrepHeader(map_, mem, ps[n]);
      if p.0 then Probe(map_, ps, n + 1, p.1) else p
  }

  /** The header's segment fits its own memory size, and that lies in memory. */
  predicate LiesIn(p: Phdr, size: nat) {
    p.filesz <= p.memsz && p.paddr + p.memsz <= size
  }

  /** Neither end of the segment wraps around the 32-bit address space. */
  predicate Straight(p: Phdr) {
    p.paddr + p.filesz < 0x1_0000_0000 && p.paddr + p.memsz < 0x1_0000_0000
  }

  /** With memory below 4 GiB, an accepted header lies in memory if and only if its addresses do not wrap. */
  lemma AcceptedLiesIff(map_: seq<Region>, mem: seq<u8>, p: Phdr)
    requires Backed(map_, |mem|) && |mem| < 0x1_0000_0000 && p.ptype == PT_LOAD && PrepHeader(map_, mem, p).0
    ensures LiesIn(p, |mem|) <==> Straight(p)
  {
  }

  /** Two headers that are accepted with 64 MiB of RAM: one lies outside it, the other is longer in the file than in memory. */
  lemma AcceptsWrapping(map_: seq<Region>, mem: seq<u8>)
    requires map_ == [Region(0, 0x400_0000, true)] && |mem| == 0x400_0000
    ensures var above := Phdr(PT_LOAD, 0, 0xffff_f000, 0x2000, 0x2000);
            && PrepHeader(map_, mem, above).0 && (forall x :: 0 <= x < |mem| ==> !above.HasByte(x)) && above.Loads()
    ensures var long := Phdr(PT_LOAD, 0, 0x1000, 0xffff_fff0, 0x100);
            && PrepHeader(map_, mem, long).0 && long.filesz > long.memsz
  {
    assert map_[0].ram;
  }

  /** No segment wraps around the 32-bit address space. */
  ghost predicate NoWrap(ps: seq<Phdr>) {
    forall i :: 0 <= i < |ps| && ps[i].ptype == PT_LOAD ==> Straight(ps[i])
  }

  /** What an accepted header means, wrapping or not. */
  lemma PrepHeaderMeans(map_: seq<Region>, mem: seq<u8>, p: Phdr, x: nat)
    requires Backed(map_, |mem|) && PrepHeader(map_, mem, p).0
    ensures p.ptype == PT_LOAD ==> p.FileTop() <= p.Top() && Fits(map_, p.paddr, p.Top())
    ensures x < |mem| ==> PrepHeader(map_, mem, p).1[x] == if p.Clears(x) then 0 else mem[x]
  {
  }

  /** A header that does not wrap is refused only if it is longer in the file than in memory, or outside every region of RAM. */
  lemma PrepHeaderIff(map_: seq<Region>, mem: seq<u8>, p: Phdr)
    requires Backed(map_, |mem|) && Straight(p)
    ensures PrepHeader(map_, mem, p).0 <==> p.ptype != PT_LOAD || (p.filesz <= p.memsz && InRam(map_, p))
  {
  }

  /** An image that does not wrap is accepted if and only if each PT_LOAD segment fits its memory size and the RAM. */
  lemma {:induction false} ProbeIff(map_: seq<Region>, ps: seq<Phdr>, n: nat, mem: seq<u8>)
    requires n <= |ps| && Backed(map_, |mem|) && NoWrap(ps)
    ensures Probe(map_, ps, n, mem).0 <==>
            forall i :: n <= i < |ps| && ps[i].ptype == PT_LOAD ==> ps[i].filesz <= ps[i].memsz && InRam(map_, ps[i])
    decreases |ps| - n
  {
    if n < |ps| {
      if ps[n].ptype == PT_LOAD { PrepHeaderIff(map_, mem, ps[n]); }
      assert ps[n].ptype != PT_LOAD ==> PrepHeader(map_, mem, ps[n]) == (true, mem);
      hide PrepHeader, InRam;
      ProbeIff(map_, ps, n + 1, PrepHeader(map_, mem, ps[n]).1);
    }
  }

  /** A probe that succeeds has checked every PT_LOAD segment. */
  lemma {:induction false} ProbeChecks(map_: seq<Region>, ps: seq<Phdr>, n: nat, mem: seq<u8>, i: nat)
    requires Backed(map_, |mem|) && n <= i < |ps| && Probe(map_, ps, n, mem).0 && ps[i].ptype == PT_LOAD
    ensures ps[i].FileTop() <= ps[i].Top() && Fits(map_, ps[i].paddr, ps[i].Top())
    decreases |ps| - n
  {
    PrepHeaderMeans(map_, mem, ps[n], 0);
    hide PrepHeader, Fits;
    if n < i { ProbeChecks(map_, ps, n + 1, PrepHeader(map_, mem, ps[n]).1, i); }
  }

  ghost predicate Cleared(ps: seq<Phdr>, n: nat, x: int) {
    exists i :: n <= i < |ps| && ps[i].Clears(x)
  }

  /** It has zeroed what the headers ask for, and touched nothing else. */
  lemma {:induction false} ProbeZeroes(map_: seq<Region>, ps: seq<Phdr>, n: nat, mem: seq<u8>, x: nat)
    requires Backed(map_, |mem|) && n <= |ps| && Probe(map_, ps, n, mem).0 && x < |mem|
    ensures Probe(map_, ps, n, mem).1[x] == if Cleared(ps, n, x) then 0 else mem[x]
    decreases |ps| - n
  {
    if n < |ps| {
      PrepHeaderMeans(map_, mem, ps[n], x);
      hide PrepHeader;
      ProbeZeroes(map_, ps, n + 1, PrepHeader(map_, mem, ps[n]).1, x);
      assert Cleared(ps, n, x) <==> ps[n].Clears(x) || Cleared(ps, n + 1, x);
    }
  }

  ghost predicate InBss(ps: seq<Phdr>, x: int) {
    exists i :: 0 <= i < |ps| && ps[i].HasBss(x)
  }

  /** Without wrapping, that is every bss. */
  lemma ClearsBss(ps: seq<Phdr>, x: int)
    requires NoWrap(ps)
    ensures Cleared(ps, 0, x) <==> InBss(ps, x)
  {
    assert forall i :: 0 <= i < |ps| ==> (ps[i].Clears(x) <==> ps[i].HasBss(x));
  }

  /** Each header that an accepting probe has looked at was accepted, with memory as it was by then. */
  lemma {:induction false} ProbeAccepts(map_: seq<Region>, ps: seq<Phdr>, n: nat, mem: seq<u8>, i: nat)
    returns (atThen: seq<u8>)
    requires Backed(map_, |mem|) && n <= i < |ps| && Probe(map_, ps, n, mem).0
    ensures |atThen| == |mem| && PrepHeader(map_, atThen, ps[i]).0
    decreases |ps| - n
  {
    hide PrepHeader;
    atThen := mem;
    if n < i { atThen := ProbeAccepts(map_, ps, n + 1, PrepHeader(map_, mem, ps[n]).1, i); }
  }

  /** What the probe accepts lies in memory if and only if no segment wraps. */
  lemma ProbeSoundIff(map_: seq<Region>, ps: seq<Phdr>, mem: seq<u8>)
    requires Backed(map_, |mem|) && |mem| < 0x1_0000_0000 && Probe(map_, ps, 0, mem).0
    ensures (forall i :: 0 <= i < |ps| && ps[i].ptype == PT_LOAD ==> LiesIn(ps[i], |mem|)) <==> NoWrap(ps)
  {
    forall i | 0 <= i < |ps| && ps[i].ptype == PT_LOAD ensures LiesIn(ps[i], |mem|) <==> Straight(ps[i]) {
      var atThen := ProbeAccepts(map_, ps, 0, mem, i);
      AcceptedLiesIff(map_, atThen, ps[i]);
    }
  }

  /** A disjoint image that the probe accepts, with its segments inside the file. */
  ghost predicate Accepted(map_: seq<Region>, ps: seq<Phdr>, fileSize: nat, mem: seq<u8>) {
    && Backed(map_, |mem|) && Probe(map_, ps, 0, mem).0
    && NoWrap(ps) && FilesDisjoint(ps) && MemoryDisjoint(ps)
    && Sound(ps, fileSize, |mem|)
  }

  /** The memory that the probe and the batch loader leave. */
  ghost function Image(map_: seq<Region>, ps: seq<Phdr>, file: seq<u8>, mem: seq<u8>): (r: seq<u8>)
    requires Accepted(map_, ps, |file|, mem)
    ensures |r| == |mem|
  {
    Load(ps, file, 0, Probe(map_, ps, 0, mem).1)
  }

  /** Every segment's file bytes stand at its address. */
  lemma ImageBytes(map_: seq<Region>, ps: seq<Phdr>, file: seq<u8>, mem: seq<u8>, i: nat, x: nat)
    requires Accepted(map_, ps, |file|, mem) && i < |ps| && ps[i].Loads() && ps[i].HasByte(x)
    ensures x < |mem| && Image(map_, ps, file, mem)[x] == file[ps[i].offset + (x - ps[i].paddr)]
  {
    LoadPlaces(ps, file, 0, Probe(map_, ps, 0, mem).1, i, x);
  }

  /** Beyond them, up to its memory size, are zeros. */
  lemma ImageBss(map_: seq<Region>, ps: seq<Phdr>, file: seq<u8>, mem: seq<u8>, i: nat, x: nat)
    requires Accepted(map_, ps, |file|, mem) && i < |ps| && ps[i].HasBss(x)
    ensures x < |mem| && Image(map_, ps, file, mem)[x] == 0
  {
    ProbeChecks(map_, ps, 0, mem, i);
    ProbeZeroes(map_, ps, 0, mem, x);
    ClearsBss(ps, x);
    hide Probe, Cleared;
    forall j | 0 <= j < |ps| && ps[j].Loads() ensures !ps[j].HasByte(x) {
    }
    LoadKeeps(ps, file, 0, Probe(map_, ps, 0, mem).1, x);
  }

  /** Everything else is as it was. */
  lemma ImageElsewhere(map_: seq<Region>, ps: seq<Phdr>, file: seq<u8>, mem: seq<u8>, x: nat)
    requires Accepted(map_, ps, |file|, mem) && x < |mem|
    requires forall i :: 0 <= i < |ps| && ps[i].ptype == PT_LOAD ==> !ps[i].HasCell(x)
    ensures Image(map_, ps, file, mem)[x] == mem[x]
  {
    ProbeZeroes(map_, ps, 0, mem, x);
    ClearsBss(ps, x);
    hide Probe, Cleared;
    forall j | 0 <= j < |ps| ensures !ps[j].HasBss(x) && (ps[j].Loads() ==> !ps[j].HasByte(x)) {
      assert ps[j].ptype == PT_LOAD ==> !ps[j].HasCell(x);
    }
    LoadKeeps(ps, file, 0, Probe(map_, ps, 0, mem).1, x);
  }

  /** What the probe accepts lies in memory. */
  lemma ProbeSound(map_: seq<Region>, ps: seq<Phdr>, mem: seq<u8>, fileSize: nat)
    requires Backed(map_, |mem|) && NoWrap(ps) && Probe(map_, ps, 0, mem).0
    requires forall i :: 0 <= i < |ps| && ps[i].Loads() ==> ps[i].FileEnd() <= fileSize
    ensures Sound(ps, fileSize, |mem|)
    ensures forall i :: 0 <= i < |ps| && ps[i].ptype == PT_LOAD ==> ps[i].filesz <= ps[i].memsz
  {
    hide Probe, InRam, Backed;
    ProbeIff(map_, ps, 0, mem);
    forall i | 0 <= i < |ps| && ps[i].ptype == PT_LOAD ensures ps[i].paddr + ps[i].memsz <= |mem| {
      InRamFits(map_, ps[i], |mem|);
    }
  }

  lemma InRamFits(map_: seq<Region>, p: Phdr, size: nat)
    requires Backed(map_, size) && InRam(map_, p)
    ensures p.paddr + p.memsz <= size
  {
  }
}
