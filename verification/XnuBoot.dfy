/**
 Loading an XNU kernel from the payload of the running one: the image stays where it is, the firmware,
 the boot arguments and the jump stub are copied behind it, the memory map is rewritten to where the
 stub will move everything, and the stub moves it.
 */
module XnuBoot {
  import opened Bits
  import opened Wrappers
  import AddrRanges
  import opened JumpStub
  import opened MemoryMap

  /** What is read from the Mach-O header of the payload; `pc` is missing without a thread command. */
  datatype Kernel = Kernel(magicGood: bool, segments: seq<Segment>, pc: Option<nat>)

  datatype StubCall = StubCall(entry: nat, bootArgs: nat, image: nat, base: nat, size: nat, pc: nat)

  datatype Outcome =
    | Prepared(call: StubCall)
    | MissingProperty(name: string)
    | BadMagic
    | FileNotAtZero
    | SizesDiffer
    | NoThread
    | TooManySegments

  function VmRanges(segs: seq<Segment>): seq<AddrRanges.Range> {
    seq(|segs|, i requires 0 <= i < |segs| => AddrRanges.Range(segs[i].vmaddr, segs[i].vmaddr + segs[i].vmsize))
  }

  function FileRanges(segs: seq<Segment>): seq<AddrRanges.Range> {
    seq(|segs|, i requires 0 <= i < |segs| => AddrRanges.Range(segs[i].fileoff, segs[i].fileoff + segs[i].filesize))
  }

  function VmRange(kc: Kernel): AddrRanges.Range {
    AddrRanges.Collapse(VmRanges(kc.segments))
  }

  function FileRange(kc: Kernel): AddrRanges.Range {
    AddrRanges.Collapse(FileRanges(kc.segments))
  }

  /** Segment ranges are address ranges, and a segment is as long in the file as in memory. */
  predicate SegmentsOk(kc: Kernel) {
    forall s | s in kc.segments ::
      && |s.segname| == 16
      && s.vmaddr + s.vmsize < TWO_TO_64 && s.fileoff + s.filesize < TWO_TO_64 && s.vmsize == s.filesize
  }

  /** Position of the first property with that name. */
  function Find(ps: seq<Prop>, name: string): (p: nat)
    ensures p <= |ps|
    ensures p < |ps| ==> ps[p].name == name
    ensures forall j | 0 <= j < p :: ps[j].name != name
  {
    if ps == [] || ps[0].name == name then 0 else 1 + Find(ps[1..], name)
  }

  method PropertyNamed(props: array<Prop>, name: string) returns (p: nat)
    ensures p == Find(props[..], name)
  {
    p := 0;
    ghost var ps := props[..];
    assert ps[0..] == ps;
    while p < props.Length
      invariant p <= props.Length && Find(ps, name) == p + Find(ps[p..], name)
    {
      assert ps[p..][1..] == ps[p + 1..];
      if props[p].name == name {
        return;
      }
      p := p + 1;
    }
  }

  /** Where everything is: the map on entry, and the size of the image. */
  datatype Layout = Layout(base: nat, payload: nat, size: nat, sepfw: Data, bootArgs: Data, stub: Bytes)
  {
    predicate Registers() {
      sepfw.Register? && bootArgs.Register?
    }

    function SepfwCopy(): nat {
      payload + size
    }

    function BootArgsCopy(): nat
      requires Registers()
    {
      SepfwCopy() + sepfw.size
    }

    function StubCopy(): nat
      requires Registers()
    {
      BootArgsCopy() + bootArgs.size
    }

    /** The number of bytes the stub moves. */
    function Extent(): nat
      requires Registers()
    {
      StubCopy() - payload
    }

    /** The move stays off the stub's own code: it goes down, or beyond the stub's end. */
    predicate Clear()
      requires Registers()
    {
      base <= payload || base >= StubCopy() + |stub|
    }

    /** The address that something at `copy` will have after the stub has run. */
    function AfterMove(copy: nat): nat {
      (copy - payload + base) % TWO_TO_64
    }

    /** All regions lie in memory, and nothing that is copied lies where the copies go. */
    predicate Fits(memory: nat) {
      && Registers()
      && memory <= TWO_TO_64
      && StubCopy() + |stub| <= memory
      && base + Extent() <= memory
      && Apart(sepfw, memory)
      && Apart(bootArgs, memory)
    }

    predicate Apart(r: Data, memory: nat)
      requires r.Register? && Registers()
    {
      && r.base + r.size <= memory
      && (r.base + r.size <= SepfwCopy() || r.base >= StubCopy() + |stub|)
    }
  }

  /** The data of the first property with that name, or the empty register. */
  function DataNamed(ps: seq<Prop>, name: string): Data {
    if Find(ps, name) < |ps| then ps[Find(ps, name)].data else Register(0, 0)
  }

  function BaseOf(d: Data): nat {
    if d.Register? then d.base else 0
  }

  function LayoutOf(ps: seq<Prop>, kc: Kernel, stub: Bytes): Layout {
    Layout(BaseOf(DataNamed(ps, "Kernel-mach_header")), BaseOf(DataNamed(ps, "Kernel-PYLD")),
           AddrRanges.Size(VmRange(kc)), DataNamed(ps, "SEPFW"), DataNamed(ps, "BootArgs"), stub)
  }

  /** Memory when the stub is entered. */
  function Laid(mem: Bytes, l: Layout): (mem': Bytes)
    requires l.Fits(|mem|)
    ensures |mem'| == |mem|
  {
    var m1 := Moved(mem, l.sepfw.base, l.SepfwCopy(), l.sepfw.size);
    var m2 := Moved(m1, l.bootArgs.base, l.BootArgsCopy(), l.bootArgs.size);
    Stored(m2, l.StubCopy(), l.stub)
  }

  /** The memory map when the stub is entered. */
  function Mapped(ps: seq<Prop>, segs: seq<Segment>, l: Layout): (r: seq<Prop>)
    requires l.Registers() && Find(ps, "SEPFW") < |ps| && Find(ps, "BootArgs") < |ps|
    ensures |r| == |ps|
  {
    var r := Rewritten(ps, segs, l.base);
    var sepfw := Find(ps, "SEPFW");
    var bootArgs := Find(ps, "BootArgs");
    var r1 := r[sepfw := r[sepfw].(data := Register(l.AfterMove(l.SepfwCopy()), l.sepfw.size))];
    r1[bootArgs := r1[bootArgs].(data := Register(l.AfterMove(l.BootArgsCopy()), l.bootArgs.size))]
  }

  /** All properties the loader reads as registers have the size of one. */
  predicate MapOk(ps: seq<Prop>) {
    forall p | p in ps && (IsSlot(p) || IsMachHeader(p) || p.name == "SEPFW" || p.name == "BootArgs") ::
      p.data.Register?
  }

  // memcpy, for ranges that do not overlap
  method Memcpy(mem: array<Byte>, dst: nat, src: nat, n: nat)
    requires src + n <= mem.Length && dst + n <= mem.Length
    requires src + n <= dst || dst + n <= src
    modifies mem
    ensures mem[..] == Moved(old(mem[..]), src, dst, n)
  {
    forall i | 0 <= i < n {
      mem[dst + i] := mem[src + i];
    }
  }

  method CopyIn(mem: array<Byte>, dst: nat, code: Bytes)
    requires dst + |code| <= mem.Length
    modifies mem
    ensures mem[..] == Stored(old(mem[..]), dst, code)
  {
    forall i | 0 <= i < |code| {
      mem[dst + i] := code[i];
    }
  }

  /** The check before the first copy that ends the call, if any. */
  function EarlyRejection(ps: seq<Prop>, kc: Kernel): Option<Outcome> {
    if Find(ps, "Kernel-mach_header") == |ps| then Some(MissingProperty("Kernel-mach_header"))
    else if Find(ps, "Kernel-PYLD") == |ps| then Some(MissingProperty("Kernel-PYLD"))
    else if !kc.magicGood then Some(BadMagic)
    else if FileRange(kc).min != 0 then Some(FileNotAtZero)
    else if AddrRanges.Size(FileRange(kc)) != AddrRanges.Size(VmRange(kc)) then Some(SizesDiffer)
    else if kc.pc.None? then Some(NoThread)
    else if Find(ps, "SEPFW") == |ps| then Some(MissingProperty("SEPFW"))
    else None
  }

  /** Everything that ends the call without a stub to jump to. */
  function Rejection(ps: seq<Prop>, kc: Kernel): Option<Outcome> {
    if EarlyRejection(ps, kc).Some? then EarlyRejection(ps, kc)
    else if Find(ps, "BootArgs") == |ps| then Some(MissingProperty("BootArgs"))
    else if |kc.segments| > SlotsBefore(ps, |ps|) then Some(TooManySegments)
    else None
  }

  /** What the stub is called with. */
  function CallFor(kc: Kernel, l: Layout): StubCall
    requires l.Registers() && kc.pc.Some?
  {
    StubCall(l.StubCopy(), l.AfterMove(l.BootArgsCopy()), l.payload, l.base, l.Extent(),
             (l.base + (kc.pc.value - VmRange(kc).min)) % TWO_TO_64)
  }

  method EarlyChecks(props: array<Prop>, kc: Kernel) returns (r: Option<Outcome>)
    ensures r == EarlyRejection(props[..], kc)
  {
    var macho := PropertyNamed(props, "Kernel-mach_header");
    if macho == props.Length {
      return Some(MissingProperty("Kernel-mach_header"));
    }
    var payload := PropertyNamed(props, "Kernel-PYLD");
    if payload == props.Length {
      return Some(MissingProperty("Kernel-PYLD"));
    }
    if !kc.magicGood {
      return Some(BadMagic);
    }
    var vm := AddrRanges.CollapseRange(VmRanges(kc.segments));
    var file := AddrRanges.CollapseRange(FileRanges(kc.segments));
    if file.min != 0 {
      return Some(FileNotAtZero);
    }
    if AddrRanges.Size(file) != AddrRanges.Size(vm) {
      return Some(SizesDiffer);
    }
    if kc.pc.None? {
      return Some(NoThread);
    }
    var sepfw := PropertyNamed(props, "SEPFW");
    r := if sepfw == props.Length then Some(MissingProperty("SEPFW")) else None;
  }

  // The new places of the firmware and of the boot arguments.
  method UpdateRegisters(props: array<Prop>, l: Layout, ghost ps: seq<Prop>, segs: seq<Segment>, sepfw: nat,
                         bootArgs: nat)
    requires l.Registers() && sepfw == Find(ps, "SEPFW") < |ps| && bootArgs == Find(ps, "BootArgs") < |ps|
    requires props[..] == Rewritten(ps, segs, l.base)
    modifies props
    ensures props[..] == Mapped(ps, segs, l)
  {
    props[sepfw] := props[sepfw].(data := Register(l.AfterMove(l.SepfwCopy()), l.sepfw.size));
    props[bootArgs] := props[bootArgs].(data := Register(l.AfterMove(l.BootArgsCopy()), l.bootArgs.size));
  }

  method LoadAndPrepXnuKernelcache(mem: array<Byte>, props: array<Prop>, kc: Kernel, stub: Bytes) returns (r: Outcome)
    requires MapOk(props[..]) && SegmentsOk(kc)
    requires EarlyRejection(props[..], kc).None? ==> LayoutOf(props[..], kc, stub).Fits(mem.Length)
    modifies mem, props
    ensures r.Prepared? <==> Rejection(old(props[..]), kc).None?
    ensures !r.Prepared? ==> Rejection(old(props[..]), kc) == Some(r)
    ensures r.Prepared? ==> LayoutOf(old(props[..]), kc, stub).Registers() && kc.pc.Some?
    ensures r.Prepared? ==> r.call == CallFor(kc, LayoutOf(old(props[..]), kc, stub))
    ensures r.Prepared? ==> mem[..] == Laid(old(mem[..]), LayoutOf(old(props[..]), kc, stub))
    ensures r.Prepared? ==> props[..] == Mapped(old(props[..]), kc.segments, LayoutOf(old(props[..]), kc, stub))
  {
    hide VmRange, FileRange, Moved, Stored, Rewritten, Mapped;
    ghost var ps := props[..];
    var early := EarlyChecks(props, kc);
    if early.Some? {
      return early.value;
    }
    var sepfw := PropertyNamed(props, "SEPFW");
    var l := LayoutOf(props[..], kc, stub);
    Memcpy(mem, l.SepfwCopy(), l.sepfw.base, l.sepfw.size);
    var bootArgs := PropertyNamed(props, "BootArgs");
    if bootArgs == props.Length {
      return MissingProperty("BootArgs");
    }
    Memcpy(mem, l.BootArgsCopy(), l.bootArgs.base, l.bootArgs.size);
    CopyIn(mem, l.StubCopy(), stub);
    SlotsAreRegisters(props[..]);
    var ok := RewriteMap(props, kc.segments, l.base);
    if !ok {
      return TooManySegments;
    }
    UpdateRegisters(props, l, ps, kc.segments, sepfw, bootArgs);
    r := Prepared(CallFor(kc, l));
  }

  lemma {:induction false} SlotsAreRegisters(ps: seq<Prop>)
    requires MapOk(ps)
    ensures forall j | 0 <= j < |ps| && IsSlot(ps[j]) :: ps[j].data.Register?
  {
    forall j | 0 <= j < |ps| && IsSlot(ps[j]) ensures ps[j].data.Register? {
      assert ps[j] in ps;
    }
  }

  // After the stub

  /** Memory after the stub's n rounds, from the memory before the load. */
  function Booted(mem: Bytes, l: Layout, n: nat): (mem': Bytes)
    requires l.Fits(|mem|) && 16 * n == l.Extent()
    ensures |mem'| == |mem|
  {
    Chunks(Laid(mem, l), l.payload, l.base, n)
  }

  /** The bytes from `from` on in the new memory are those from `was` on in the old one. */
  ghost predicate Carried(mem: Bytes, mem': Bytes, was: nat, from: nat, n: nat) {
    was + n <= |mem| && from + n <= |mem'| && mem'[from..from + n] == mem[was..was + n]
  }

  /** The three copies, one after the other. */
  lemma LaidSteps(mem: Bytes, l: Layout) returns (firmware: Bytes, m1: Bytes, args: Bytes, m2: Bytes)
    requires l.Fits(|mem|)
    ensures firmware == mem[l.sepfw.base..l.sepfw.base + l.sepfw.size]
    ensures m1 == Stored(mem, l.SepfwCopy(), firmware)
    ensures args == m1[l.bootArgs.base..l.bootArgs.base + l.bootArgs.size]
    ensures m2 == Stored(m1, l.BootArgsCopy(), args)
    ensures Laid(mem, l) == Stored(m2, l.StubCopy(), l.stub)
  {
    firmware := mem[l.sepfw.base..l.sepfw.base + l.sepfw.size];
    m1 := Stored(mem, l.SepfwCopy(), firmware);
    args := m1[l.bootArgs.base..l.bootArgs.base + l.bootArgs.size];
    m2 := Stored(m1, l.BootArgsCopy(), args);
  }

  lemma LaidImage(mem: Bytes, l: Layout)
    requires l.Fits(|mem|)
    ensures Carried(mem, Laid(mem, l), l.payload, l.payload, l.size)
    ensures Laid(mem, l)[l.StubCopy()..l.StubCopy() + |l.stub|] == l.stub
  {
    hide Laid, Stored;
    var firmware, m1, args, m2 := LaidSteps(mem, l);
    StoredElsewhere(mem, l.SepfwCopy(), firmware, l.payload, l.size);
    StoredElsewhere(m1, l.BootArgsCopy(), args, l.payload, l.size);
    StoredElsewhere(m2, l.StubCopy(), l.stub, l.payload, l.size);
    StoredRead(m2, l.StubCopy(), l.stub);
  }

  lemma LaidFirmware(mem: Bytes, l: Layout)
    requires l.Fits(|mem|)
    ensures Carried(mem, Laid(mem, l), l.sepfw.base, l.SepfwCopy(), l.sepfw.size)
  {
    hide Laid, Stored;
    var firmware, m1, args, m2 := LaidSteps(mem, l);
    StoredRead(mem, l.SepfwCopy(), firmware);
    StoredElsewhere(m1, l.BootArgsCopy(), args, l.SepfwCopy(), l.sepfw.size);
    StoredElsewhere(m2, l.StubCopy(), l.stub, l.SepfwCopy(), l.sepfw.size);
  }

  lemma LaidBootArgs(mem: Bytes, l: Layout)
    requires l.Fits(|mem|)
    ensures Carried(mem, Laid(mem, l), l.bootArgs.base, l.BootArgsCopy(), l.bootArgs.size)
  {
    hide Laid, Stored;
    var firmware, m1, args, m2 := LaidSteps(mem, l);
    StoredElsewhere(mem, l.SepfwCopy(), firmware, l.bootArgs.base, l.bootArgs.size);
    StoredRead(m1, l.BootArgsCopy(), args);
    StoredElsewhere(m2, l.StubCopy(), l.stub, l.BootArgsCopy(), l.bootArgs.size);
  }

  /** Memory below the copies and from their end on is as it was. */
  lemma LaidElsewhere(mem: Bytes, l: Layout, a: nat, n: nat)
    requires l.Fits(|mem|) && a + n <= |mem| && (a + n <= l.SepfwCopy() || a >= l.StubCopy() + |l.stub|)
    ensures Laid(mem, l)[a..a + n] == mem[a..a + n]
  {
    hide Laid, Stored;
    var firmware, m1, args, m2 := LaidSteps(mem, l);
    StoredElsewhere(mem, l.SepfwCopy(), firmware, a, n);
    StoredElsewhere(m1, l.BootArgsCopy(), args, a, n);
    StoredElsewhere(m2, l.StubCopy(), l.stub, a, n);
  }

  /** And the whole boot changes nothing outside the copies and the image's new place. */
  lemma BootedElsewhere(mem: Bytes, l: Layout, n: nat, a: nat, k: nat)
    requires l.Fits(|mem|) && 16 * n == l.Extent() && a + k <= |mem|
    requires a + k <= l.SepfwCopy() || a >= l.StubCopy() + |l.stub|
    requires a + k <= l.base || a >= l.base + l.Extent()
    ensures Booted(mem, l, n)[a..a + k] == mem[a..a + k]
  {
    hide Laid, Chunks;
    LaidElsewhere(mem, l, a, k);
    OutsideStays(Laid(mem, l), l.payload, l.base, n, a, k);
  }

  /** A region of the layout, after the move, is where `AfterMove` says. */
  lemma MovedRegion(mem: Bytes, l: Layout, n: nat, was: nat, copy: nat, size: nat)
    requires l.Fits(|mem|) && 16 * n == l.Extent() && l.Clear()
    requires l.payload <= copy && copy + size <= l.StubCopy() && Carried(mem, Laid(mem, l), was, copy, size)
    ensures size == 0 || Carried(mem, Booted(mem, l, n), was, l.AfterMove(copy), size)
  {
    hide Laid;
    if size != 0 {
      var m, off := Laid(mem, l), copy - l.payload;
      UpwardsIsMove(m, l.payload, l.base, n, 16 * n);
      var from := off + l.base;
      ModUnique(from, TWO_TO_64, 0, from);
      MovedPart(m, l.payload, l.base, 16 * n, off, size);
    }
  }

  lemma MovedPart(m: Bytes, src: nat, dst: nat, total: nat, off: nat, size: nat)
    requires src + total <= |m| && dst + total <= |m| && off + size <= total
    ensures Moved(m, src, dst, total)[dst + off..dst + off + size] == m[src + off..src + off + size]
  {
    var moved := Moved(m, src, dst, total);
    SubSlice(m, src, total, off, size);
    SubSlice(moved, dst, total, off, size);
    assert moved[dst..dst + total] == m[src..src + total];
  }

  lemma SubSlice(s: Bytes, a: nat, size: nat, off: nat, n: nat)
    requires a + size <= |s| && off + n <= size
    ensures s[a..a + size][off..off + n] == s[a + off..a + off + n]
  {
    var whole := s[a..a + size];
    assert forall i | off <= i < off + n :: whole[i] == s[a + i];
  }

  /** lo is the least address of the segments, and hi the greatest end. */
  ghost predicate SpansMemory(kc: Kernel, lo: nat, hi: nat) {
    && (forall k | 0 <= k < |kc.segments| ::
          lo <= kc.segments[k].vmaddr && kc.segments[k].vmaddr + kc.segments[k].vmsize <= hi)
    && (exists k | 0 <= k < |kc.segments| :: kc.segments[k].vmaddr == lo)
    && (exists k | 0 <= k < |kc.segments| :: kc.segments[k].vmaddr + kc.segments[k].vmsize == hi)
  }

  /** lo is the least file offset of the segments, and hi the greatest end. */
  ghost predicate SpansFile(kc: Kernel, lo: nat, hi: nat) {
    && (forall k | 0 <= k < |kc.segments| ::
          lo <= kc.segments[k].fileoff && kc.segments[k].fileoff + kc.segments[k].filesize <= hi)
    && (exists k | 0 <= k < |kc.segments| :: kc.segments[k].fileoff == lo)
    && (exists k | 0 <= k < |kc.segments| :: kc.segments[k].fileoff + kc.segments[k].filesize == hi)
  }

  /** The range the loader works with reaches from the least address of any segment to the greatest end. */
  lemma {:induction false} VmRangeSpans(kc: Kernel)
    requires SegmentsOk(kc) && kc.segments != []
    ensures SpansMemory(kc, VmRange(kc).min, VmRange(kc).max)
  {
    var rs, h := VmRanges(kc.segments), VmRange(kc);
    forall i | 0 <= i < |rs| ensures AddrRanges.IsRange(rs[i]) && rs[i] != AddrRanges.NULL {
      assert kc.segments[i] in kc.segments;
    }
    AddrRanges.CollapseIsHull(rs);
    assert rs[0] != AddrRanges.NULL;
    forall k | 0 <= k < |kc.segments|
      ensures h.min <= kc.segments[k].vmaddr && kc.segments[k].vmaddr + kc.segments[k].vmsize <= h.max
    {
      assert rs[k] == AddrRanges.Range(kc.segments[k].vmaddr, kc.segments[k].vmaddr + kc.segments[k].vmsize);
    }
    var a :| 0 <= a < |rs| && rs[a] != AddrRanges.NULL && rs[a].min == h.min;
    var b :| 0 <= b < |rs| && rs[b] != AddrRanges.NULL && rs[b].max == h.max;
    assert kc.segments[a].vmaddr == h.min && kc.segments[b].vmaddr + kc.segments[b].vmsize == h.max;
  }

  /** And the same in the file. */
  lemma {:induction false} FileRangeSpans(kc: Kernel)
    requires SegmentsOk(kc) && kc.segments != []
    ensures SpansFile(kc, FileRange(kc).min, FileRange(kc).max)
  {
    var rs, h := FileRanges(kc.segments), FileRange(kc);
    forall i | 0 <= i < |rs| ensures AddrRanges.IsRange(rs[i]) && rs[i] != AddrRanges.NULL {
      assert kc.segments[i] in kc.segments;
    }
    AddrRanges.CollapseIsHull(rs);
    assert rs[0] != AddrRanges.NULL;
    forall k | 0 <= k < |kc.segments|
      ensures h.min <= kc.segments[k].fileoff && kc.segments[k].fileoff + kc.segments[k].filesize <= h.max
    {
      assert rs[k] == AddrRanges.Range(kc.segments[k].fileoff, kc.segments[k].fileoff + kc.segments[k].filesize);
    }
    var a :| 0 <= a < |rs| && rs[a] != AddrRanges.NULL && rs[a].min == h.min;
    var b :| 0 <= b < |rs| && rs[b] != AddrRanges.NULL && rs[b].max == h.max;
    assert kc.segments[a].fileoff == h.min && kc.segments[b].fileoff + kc.segments[b].filesize == h.max;
  }

  /** A span of the segments' fields is the range, so what follows can be said in the fields. */
  lemma {:induction false} SpansAreRanges(kc: Kernel, lo: nat, hi: nat, fileLo: nat, fileHi: nat)
    requires SegmentsOk(kc) && SpansMemory(kc, lo, hi) && SpansFile(kc, fileLo, fileHi)
    ensures VmRange(kc) == AddrRanges.Range(lo, hi) && FileRange(kc) == AddrRanges.Range(fileLo, fileHi)
    ensures lo <= hi && fileLo <= fileHi
    ensures AddrRanges.Size(VmRange(kc)) == hi - lo && AddrRanges.Size(FileRange(kc)) == fileHi - fileLo
  {
    hide VmRange, FileRange;
    assert kc.segments[0] in kc.segments;
    VmRangeSpans(kc);
    FileRangeSpans(kc);
    assert forall k | 0 <= k < |kc.segments| :: kc.segments[k] in kc.segments;
    var v, f := VmRange(kc), FileRange(kc);
    assert v == AddrRanges.Range(lo, hi) && f == AddrRanges.Range(fileLo, fileHi);
    ModUnique(hi - lo, TWO_TO_64, 0, hi - lo);
    ModUnique(fileHi - fileLo, TWO_TO_64, 0, fileHi - fileLo);
  }

  lemma {:induction false} SegmentInside(kc: Kernel, k: nat)
    requires SegmentsOk(kc) && k < |kc.segments|
    requires FileRange(kc).min == 0 && AddrRanges.Size(FileRange(kc)) == AddrRanges.Size(VmRange(kc))
    ensures kc.segments[k].fileoff + kc.segments[k].filesize <= AddrRanges.Size(VmRange(kc))
  {
    var rs := FileRanges(kc.segments);
    forall i | 0 <= i < |rs| ensures AddrRanges.IsRange(rs[i]) && rs[i] != AddrRanges.NULL {
      assert kc.segments[i] in kc.segments;
    }
    AddrRanges.CollapseIsHull(rs);
    assert rs[k].max <= FileRange(kc).max;
  }

  /** The register says where the old bytes are now. */
  ghost predicate Describes(mem: Bytes, after: Bytes, d: Data, was: nat, size: nat) {
    d.Register? && d.size == size && (size == 0 || Carried(mem, after, was, d.base, size))
  }

  /** Some entry has the segment's name, and its register says where the segment's bytes are now. */
  ghost predicate SegmentPresent(mem: Bytes, after: Bytes, map': seq<Prop>, l: Layout, seg: Segment) {
    exists p | 0 <= p < |map'| ::
      && map'[p].name == "Kernel-" + PrintedName(seg)
      && Describes(mem, after, map'[p].data, l.payload + seg.fileoff, seg.filesize)
  }

  lemma {:induction false} FindStable(ps: seq<Prop>, rs: seq<Prop>, name: string)
    requires |ps| == |rs| && forall j | 0 <= j < |ps| :: ps[j].name == name <==> rs[j].name == name
    ensures Find(rs, name) == Find(ps, name)
  {
    var p, r := Find(ps, name), Find(rs, name);
    assert p < |ps| ==> rs[p].name == name;
    assert r < |rs| ==> ps[r].name == name;
  }

  /** Rewriting moves no entry of another name, and gives that name to none. */
  lemma {:induction false} OtherNamesStay(ps: seq<Prop>, segs: seq<Segment>, machoBase: nat, name: string)
    requires name != [] && name[0] != 'K' && name[0] != 'M'
    ensures Find(Rewritten(ps, segs, machoBase), name) == Find(ps, name)
  {
    var rs := Rewritten(ps, segs, machoBase);
    forall j | 0 <= j < |ps| ensures ps[j].name == name <==> rs[j].name == name {
      RewrittenAt(ps, segs, machoBase, j);
      KernelEntriesAfter(ps, segs, machoBase, j);
      NameStarts(ps[j]);
      NameStarts(rs[j]);
    }
    FindStable(ps, rs, name);
  }

  lemma {:induction false} MappedData(ps: seq<Prop>, segs: seq<Segment>, l: Layout)
    requires l.Registers() && Find(ps, "SEPFW") < |ps| && Find(ps, "BootArgs") < |ps|
    ensures var map' := Mapped(ps, segs, l);
      && map'[Find(ps, "SEPFW")].data == Register(l.AfterMove(l.SepfwCopy()), l.sepfw.size)
      && map'[Find(ps, "BootArgs")].data == Register(l.AfterMove(l.BootArgsCopy()), l.bootArgs.size)
      && forall j | 0 <= j < |map'| :: map'[j].name == Rewritten(ps, segs, l.base)[j].name
  {
    hide Rewritten;
    assert "SEPFW"[0] != "BootArgs"[0];
  }

  /** The rewritten map entry by entry, before and after the two registers are updated. */
  lemma {:induction false} MappedAt(ps: seq<Prop>, segs: seq<Segment>, l: Layout, p: nat)
    requires l.Registers() && Find(ps, "SEPFW") < |ps| && Find(ps, "BootArgs") < |ps| && p < |ps|
    ensures var r := Rewritten(ps, segs, l.base)[p];
      Mapped(ps, segs, l)[p]
      == if p == Find(ps, "BootArgs") then Prop(r.name, Register(l.AfterMove(l.BootArgsCopy()), l.bootArgs.size))
         else if p == Find(ps, "SEPFW") then Prop(r.name, Register(l.AfterMove(l.SepfwCopy()), l.sepfw.size))
         else r
  {
    hide Rewritten, Find;
  }

  lemma {:induction false} FindInMapped(ps: seq<Prop>, segs: seq<Segment>, l: Layout, name: string)
    requires l.Registers() && Find(ps, "SEPFW") < |ps| && Find(ps, "BootArgs") < |ps|
    requires name != [] && name[0] != 'K' && name[0] != 'M'
    ensures Find(Mapped(ps, segs, l), name) == Find(ps, name)
  {
    hide Rewritten, Mapped;
    MappedData(ps, segs, l);
    OtherNamesStay(ps, segs, l.base, name);
    FindStable(Rewritten(ps, segs, l.base), Mapped(ps, segs, l), name);
  }

  /** The registers of the firmware and of the boot arguments in the rewritten map. */
  lemma {:induction false} MappedRegisters(ps: seq<Prop>, segs: seq<Segment>, l: Layout)
    requires l.Registers() && Find(ps, "SEPFW") < |ps| && Find(ps, "BootArgs") < |ps|
    ensures DataNamed(Mapped(ps, segs, l), "SEPFW") == Register(l.AfterMove(l.SepfwCopy()), l.sepfw.size)
    ensures DataNamed(Mapped(ps, segs, l), "BootArgs") == Register(l.AfterMove(l.BootArgsCopy()), l.bootArgs.size)
  {
    hide Mapped;
    MappedData(ps, segs, l);
    FindInMapped(ps, segs, l, "SEPFW");
    FindInMapped(ps, segs, l, "BootArgs");
  }

  /** The entry of the k-th segment in the rewritten map. */
  lemma {:induction false} MappedSegment(ps: seq<Prop>, segs: seq<Segment>, l: Layout, k: nat) returns (p: nat)
    requires l.Registers() && Find(ps, "SEPFW") < |ps| && Find(ps, "BootArgs") < |ps|
    requires k < |segs| <= SlotsBefore(ps, |ps|)
    ensures p < |ps| && Mapped(ps, segs, l)[p] == ForSegment(segs[k], l.base)
  {
    p := SlotOfSegment(ps, |ps|, k);
    RewrittenAt(ps, segs, l.base, p);
    NameStarts(ps[p]);
    NotASlot(ps, "SEPFW");
    NotASlot(ps, "BootArgs");
  }

  lemma {:induction false} NotASlot(ps: seq<Prop>, name: string)
    requires name != [] && name[0] != 'K' && name[0] != 'M'
    ensures Find(ps, name) < |ps| ==> !IsSlot(ps[Find(ps, name)])
  {
    if Find(ps, name) < |ps| {
      NameStarts(ps[Find(ps, name)]);
    }
  }

  lemma {:induction false} SegmentCarried(mem: Bytes, kc: Kernel, l: Layout, n: nat, k: nat)
    requires SegmentsOk(kc) && k < |kc.segments|
    requires FileRange(kc).min == 0 && AddrRanges.Size(FileRange(kc)) == AddrRanges.Size(VmRange(kc)) == l.size
    requires l.Fits(|mem|) && l.Clear() && 16 * n == l.Extent()
    ensures Describes(mem, Booted(mem, l, n), ForSegment(kc.segments[k], l.base).data,
                      l.payload + kc.segments[k].fileoff, kc.segments[k].filesize)
  {
    hide Laid, Booted, VmRange, FileRange, Carried;
    var seg := kc.segments[k];
    SegmentInside(kc, k);
    LaidImage(mem, l);
    var copy := l.payload + seg.fileoff;
    CarriedPart(mem, Laid(mem, l), l.payload, l.payload, l.size, seg.fileoff, seg.filesize);
    MovedRegion(mem, l, n, copy, copy, seg.filesize);
  }

  lemma CarriedPart(mem: Bytes, mem': Bytes, was: nat, from: nat, size: nat, off: nat, n: nat)
    requires Carried(mem, mem', was, from, size) && off + n <= size
    ensures Carried(mem, mem', was + off, from + off, n)
  {
    SubSlice(mem, was, size, off, n);
    SubSlice(mem', from, size, off, n);
  }

  lemma CopiesCarried(mem: Bytes, l: Layout, n: nat)
    requires l.Fits(|mem|) && l.Clear() && 16 * n == l.Extent()
    ensures Describes(mem, Booted(mem, l, n), Register(l.AfterMove(l.SepfwCopy()), l.sepfw.size),
                      l.sepfw.base, l.sepfw.size)
    ensures Describes(mem, Booted(mem, l, n), Register(l.AfterMove(l.BootArgsCopy()), l.bootArgs.size),
                      l.bootArgs.base, l.bootArgs.size)
  {
    hide Laid, Booted;
    LaidFirmware(mem, l);
    LaidBootArgs(mem, l);
    MovedRegion(mem, l, n, l.sepfw.base, l.SepfwCopy(), l.sepfw.size);
    MovedRegion(mem, l, n, l.bootArgs.base, l.BootArgsCopy(), l.bootArgs.size);
  }

  /**
   The map tells the truth about memory after the boot: the firmware, the boot arguments and every segment
   are found, unharmed, in the registers of their entries.
   */
  ghost predicate MapIsTrue(mem: Bytes, after: Bytes, map': seq<Prop>, l: Layout, segs: seq<Segment>)
    requires l.Registers()
  {
    && Describes(mem, after, DataNamed(map', "SEPFW"), l.sepfw.base, l.sepfw.size)
    && Describes(mem, after, DataNamed(map', "BootArgs"), l.bootArgs.base, l.bootArgs.size)
    && forall k: nat | k < |segs| :: SegmentPresent(mem, after, map', l, segs[k])
  }

  ghost predicate Named(ps: seq<Prop>, name: string) {
    exists p | 0 <= p < |ps| :: ps[p].name == name
  }

  lemma {:induction false} FindIff(ps: seq<Prop>, name: string)
    ensures Named(ps, name) <==> Find(ps, name) != |ps|
  {
    var p := Find(ps, name);
    assert p < |ps| ==> ps[p].name == name;
  }

  /**
   The loader goes through exactly if the four properties are there, the magic number is good, the segments
   start at file offset 0 and span as much in the file as in memory, there is a thread command, and there
   are slots for all segments.
   */
  lemma {:induction false} AcceptedIff(ps: seq<Prop>, kc: Kernel, lo: nat, hi: nat, fileLo: nat, fileHi: nat)
    requires SegmentsOk(kc) && SpansMemory(kc, lo, hi) && SpansFile(kc, fileLo, fileHi)
    ensures Rejection(ps, kc).None? <==>
      && Named(ps, "Kernel-mach_header") && Named(ps, "Kernel-PYLD") && Named(ps, "SEPFW") && Named(ps, "BootArgs")
      && kc.magicGood && kc.pc.Some?
      && fileLo == 0 && fileHi == hi - lo
      && |kc.segments| <= SlotsBefore(ps, |ps|)
  {
    hide VmRange, FileRange, Find, Named, SlotsBefore;
    SpansAreRanges(kc, lo, hi, fileLo, fileHi);
    FindIff(ps, "Kernel-mach_header");
    FindIff(ps, "Kernel-PYLD");
    FindIff(ps, "SEPFW");
    FindIff(ps, "BootArgs");
  }

  /** Without segments there is nothing at file offset 0, and the loader refuses. */
  lemma {:induction false} NothingRefused(ps: seq<Prop>, kc: Kernel)
    requires kc.segments == []
    ensures Rejection(ps, kc).Some?
  {
    hide Find, SlotsBefore;
    assert FileRanges([]) == [] && FileRange(kc) == AddrRanges.NULL;
  }

  /** The reason given for a refusal is true. */
  lemma {:induction false} RejectionIsTrue(ps: seq<Prop>, kc: Kernel)
    requires Rejection(ps, kc).Some?
    ensures match Rejection(ps, kc).value
      case Prepared(_) => false
      case MissingProperty(name) =>
        !Named(ps, name) && name in {"Kernel-mach_header", "Kernel-PYLD", "SEPFW", "BootArgs"}
      case BadMagic => !kc.magicGood
      case FileNotAtZero => FileRange(kc).min != 0
      case SizesDiffer => AddrRanges.Size(FileRange(kc)) != AddrRanges.Size(VmRange(kc))
      case NoThread => kc.pc.None?
      case TooManySegments => |kc.segments| > SlotsBefore(ps, |ps|)
  {
    hide VmRange, FileRange, Find, Named, SlotsBefore;
    FindIff(ps, "Kernel-mach_header");
    FindIff(ps, "Kernel-PYLD");
    FindIff(ps, "SEPFW");
    FindIff(ps, "BootArgs");
  }

  /** The i-th property is the first of that name, and a register. */
  ghost predicate FirstRegister(ps: seq<Prop>, name: string, i: nat) {
    i < |ps| && ps[i].name == name && ps[i].data.Register? && forall j | 0 <= j < i :: ps[j].name != name
  }

  lemma {:induction false} FirstIsFound(ps: seq<Prop>, name: string, i: nat)
    requires FirstRegister(ps, name, i)
    ensures Find(ps, name) == i && DataNamed(ps, name) == ps[i].data && BaseOf(DataNamed(ps, name)) == ps[i].data.base
  {
  }

  /** Where everything is, and what the stub is called with, in the fields of the map and of the segments. */
  lemma {:induction false} CallInFields(ps: seq<Prop>, kc: Kernel, stub: Bytes, lo: nat, hi: nat, fileLo: nat,
                                        fileHi: nat, header: nat, payload: nat, sepfw: nat, bootArgs: nat)
    requires SegmentsOk(kc) && SpansMemory(kc, lo, hi) && SpansFile(kc, fileLo, fileHi) && kc.pc.Some?
    requires FirstRegister(ps, "Kernel-mach_header", header) && FirstRegister(ps, "Kernel-PYLD", payload)
    requires FirstRegister(ps, "SEPFW", sepfw) && FirstRegister(ps, "BootArgs", bootArgs)
    ensures var l := LayoutOf(ps, kc, stub);
      var base, image, size := ps[header].data.base, ps[payload].data.base, hi - lo;
      var firmware, args := ps[sepfw].data, ps[bootArgs].data;
      && l == Layout(base, image, size, firmware, args, stub)
      && l.SepfwCopy() == image + size
      && l.BootArgsCopy() == image + size + firmware.size
      && l.StubCopy() == image + size + firmware.size + args.size
      && CallFor(kc, l) == StubCall(image + size + firmware.size + args.size, (base + size + firmware.size) % TWO_TO_64,
                                    image, base, size + firmware.size + args.size,
                                    (base + (kc.pc.value - lo)) % TWO_TO_64)
  {
    hide VmRange, FileRange, Find, FirstRegister, DataNamed;
    SpansAreRanges(kc, lo, hi, fileLo, fileHi);
    FirstIsFound(ps, "Kernel-mach_header", header);
    FirstIsFound(ps, "Kernel-PYLD", payload);
    FirstIsFound(ps, "SEPFW", sepfw);
    FirstIsFound(ps, "BootArgs", bootArgs);
  }

  /** What a call that nothing rejects can rely on. */
  lemma {:induction false} Accepted(ps: seq<Prop>, kc: Kernel)
    requires Rejection(ps, kc).None?
    ensures Find(ps, "SEPFW") < |ps| && Find(ps, "BootArgs") < |ps| && kc.pc.Some? && kc.magicGood
    ensures |kc.segments| <= SlotsBefore(ps, |ps|)
    ensures FileRange(kc).min == 0 && AddrRanges.Size(FileRange(kc)) == AddrRanges.Size(VmRange(kc))
  {
    hide VmRange, FileRange, SlotsBefore, Find;
  }

  /** After the layout and the stub's copy the rewritten map is true, and the stub's first argument is in it. */
  lemma {:induction false} BootedMapIsTrue(mem: Bytes, ps: seq<Prop>, kc: Kernel, stub: Bytes, n: nat)
    requires SegmentsOk(kc) && Rejection(ps, kc).None?
    requires LayoutOf(ps, kc, stub).Fits(|mem|) && LayoutOf(ps, kc, stub).Clear()
    requires 16 * n == LayoutOf(ps, kc, stub).Extent()
    ensures Find(ps, "SEPFW") < |ps| && Find(ps, "BootArgs") < |ps| && kc.pc.Some?
    ensures var l := LayoutOf(ps, kc, stub);
      var map' := Mapped(ps, kc.segments, l);
      && MapIsTrue(mem, Booted(mem, l, n), map', l, kc.segments)
      && CallFor(kc, l).bootArgs == BaseOf(DataNamed(map', "BootArgs"))
  {
    hide Booted, Mapped, Describes, VmRange, FileRange, SlotsBefore, SegmentPresent, Rejection, Find, SegmentsOk;
    Accepted(ps, kc);
    var l := LayoutOf(ps, kc, stub);
    var after, map' := Booted(mem, l, n), Mapped(ps, kc.segments, l);
    MappedRegisters(ps, kc.segments, l);
    CopiesCarried(mem, l, n);
    forall k: nat | k < |kc.segments|
      ensures SegmentPresent(mem, after, map', l, kc.segments[k])
    {
      SegmentFound(mem, ps, kc, l, n, k);
    }
  }

  lemma {:induction false} SegmentFound(mem: Bytes, ps: seq<Prop>, kc: Kernel, l: Layout, n: nat, k: nat)
    requires SegmentsOk(kc) && k < |kc.segments| <= SlotsBefore(ps, |ps|)
    requires FileRange(kc).min == 0 && AddrRanges.Size(FileRange(kc)) == AddrRanges.Size(VmRange(kc)) == l.size
    requires l.Fits(|mem|) && l.Clear() && 16 * n == l.Extent()
    requires Find(ps, "SEPFW") < |ps| && Find(ps, "BootArgs") < |ps|
    ensures SegmentPresent(mem, Booted(mem, l, n), Mapped(ps, kc.segments, l), l, kc.segments[k])
  {
    hide Booted, Mapped, Describes, VmRange, FileRange, SlotsBefore, ForSegment, Find, SegmentsOk;
    var p := MappedSegment(ps, kc.segments, l, k);
    SegmentCarried(mem, kc, l, n, k);
    ForSegmentName(kc.segments[k], l.base);
  }

  lemma ForSegmentName(seg: Segment, machoBase: nat)
    ensures ForSegment(seg, machoBase).name == "Kernel-" + PrintedName(seg)
  {
  }

  /** The entry point is at the same offset of the moved image as in the payload. */
  lemma {:induction false} EntryCarried(mem: Bytes, kc: Kernel, l: Layout, n: nat)
    requires kc.pc.Some? && VmRange(kc).min <= kc.pc.value < VmRange(kc).min + l.size
    requires l.Fits(|mem|) && l.Clear() && 16 * n == l.Extent()
    ensures var off := kc.pc.value - VmRange(kc).min;
      Carried(mem, Booted(mem, l, n), l.payload + off, CallFor(kc, l).pc, 1)
  {
    hide Laid, Booted, VmRange, Carried;
    var off := kc.pc.value - VmRange(kc).min;
    LaidImage(mem, l);
    CarriedPart(mem, Laid(mem, l), l.payload, l.payload, l.size, off, 1);
    MovedRegion(mem, l, n, l.payload + off, l.payload + off, 1);
    assert l.AfterMove(l.payload + off) == CallFor(kc, l).pc;
  }

  /** The stub's own code is intact when its loop ends. */
  lemma StubIntact(mem: Bytes, l: Layout, n: nat)
    requires l.Fits(|mem|) && l.Clear() && 16 * n == l.Extent()
    ensures Booted(mem, l, n)[l.StubCopy()..l.StubCopy() + |l.stub|] == l.stub
  {
    hide Laid, Chunks;
    LaidImage(mem, l);
    OutsideStays(Laid(mem, l), l.payload, l.base, n, l.StubCopy(), |l.stub|);
  }

  /** The destination meets the stub's code exactly when the layout is not clear. */
  lemma ClearIff(l: Layout)
    requires l.Registers() && l.Extent() > 0 && l.stub != []
    ensures l.Clear() <==> !Meets(l.base, l.Extent(), l.StubCopy(), |l.stub|)
  {
  }

  lemma StoredConstant(mem: Bytes, addr: nat, block: Bytes, v: Byte)
    requires addr + |block| <= |mem|
    requires (forall i | 0 <= i < |mem| :: mem[i] == v) && forall i | 0 <= i < |block| :: block[i] == v
    ensures forall i | 0 <= i < |mem| :: Stored(mem, addr, block)[i] == v
  {
  }

  /** In memory of equal bytes the copies change nothing but where the stub goes. */
  lemma LaidConstant(mem: Bytes, l: Layout, v: Byte)
    requires l.Fits(|mem|) && forall i | 0 <= i < |mem| :: mem[i] == v
    ensures forall i | l.payload <= i < l.StubCopy() :: Laid(mem, l)[i] == v
  {
    hide Laid, Stored;
    var firmware, m1, args, m2 := LaidSteps(mem, l);
    StoredConstant(mem, l.SepfwCopy(), firmware, v);
    StoredConstant(m1, l.BootArgsCopy(), args, v);
    StoredElsewhere(m2, l.StubCopy(), l.stub, l.payload, l.Extent());
    var was, now := m2[l.payload..l.payload + l.Extent()], Laid(mem, l)[l.payload..l.payload + l.Extent()];
    forall i | l.payload <= i < l.StubCopy() ensures Laid(mem, l)[i] == v {
      assert Laid(mem, l)[i] == now[i - l.payload] == was[i - l.payload] == m2[i];
    }
  }

  /** Memory in which a stub in the way of the copy does not survive it. */
  lemma StubLost(len: nat, l: Layout, n: nat) returns (mem: Bytes)
    requires l.Fits(len) && !l.Clear() && l.stub != [] && 16 * n == l.Extent() > 0
    ensures |mem| == len
    ensures Booted(mem, l, n)[l.StubCopy()..l.StubCopy() + |l.stub|] != l.stub
  {
    hide Laid, Chunks;
    var at := if l.base >= l.StubCopy() then l.base else l.StubCopy();
    var v: Byte := if l.stub[at - l.StubCopy()] == 0 then 1 else 0;
    mem := seq(len, _ => v);
    LaidConstant(mem, l, v);
    ConstantCopied(Laid(mem, l), l.payload, l.base, n, v, at);
    var code := Booted(mem, l, n)[l.StubCopy()..l.StubCopy() + |l.stub|];
    assert code[at - l.StubCopy()] == v;
  }

  /** The copy leaves the stub's code whole, whatever memory holds, exactly in clear layouts. */
  lemma StubIntactIff(len: nat, l: Layout, n: nat)
    requires l.Fits(len) && l.stub != [] && 16 * n == l.Extent() > 0
    ensures l.Clear() <==>
      forall mem: Bytes | |mem| == len :: Booted(mem, l, n)[l.StubCopy()..l.StubCopy() + |l.stub|] == l.stub
  {
    hide Booted;
    if l.Clear() {
      forall mem: Bytes | |mem| == len
        ensures Booted(mem, l, n)[l.StubCopy()..l.StubCopy() + |l.stub|] == l.stub
      {
        StubIntact(mem, l, n);
      }
    } else {
      var mem := StubLost(len, l, n);
    }
  }

  /** A payload below its new place: two of three rounds leave nothing of the stub. */
  lemma StubCanOverwriteItself()
    ensures var l := Layout(32, 0, 32, Register(80, 0), Register(80, 16), seq(16, _ => 1));
      var mem: Bytes := seq(128, _ => 0);
      && l.Fits(|mem|) && !l.Clear() && l.StubCopy() == l.Extent() == 48
      && Chunks(Laid(mem, l), l.payload, l.base, 2)[48..64] == seq(16, _ => 0)
  {
    var l := Layout(32, 0, 32, Register(80, 0), Register(80, 16), seq(16, _ => 1));
    var mem: Bytes := seq(128, _ => 0);
    hide Chunks, Laid;
    LaidConstant(mem, l, 0);
    var after := Chunks(Laid(mem, l), 0, 32, 2);
    forall i | 48 <= i < 64 ensures after[i] == 0 {
      ConstantCopied(Laid(mem, l), 0, 32, 2, 0, i);
    }
    assert forall i | 0 <= i < 16 :: after[48..64][i] == after[48 + i];
  }

  /** What the kernel finds when it is entered with x0 at pc. */
  ghost predicate KernelReady(mem: Bytes, after: Bytes, map': seq<Prop>, l: Layout, kc: Kernel, x0: nat, pc: nat)
    requires l.Registers() && kc.pc.Some?
  {
    && MapIsTrue(mem, after, map', l, kc.segments)
    && x0 == BaseOf(DataNamed(map', "BootArgs"))
    && (VmRange(kc).min <= kc.pc.value < VmRange(kc).min + l.size ==>
          Carried(mem, after, l.payload + (kc.pc.value - VmRange(kc).min), pc, 1))
  }

  lemma {:induction false} BootedIsReady(mem: Bytes, ps: seq<Prop>, kc: Kernel, stub: Bytes, n: nat)
    requires SegmentsOk(kc) && Rejection(ps, kc).None?
    requires LayoutOf(ps, kc, stub).Fits(|mem|) && LayoutOf(ps, kc, stub).Clear()
    requires 16 * n == LayoutOf(ps, kc, stub).Extent()
    ensures Find(ps, "SEPFW") < |ps| && Find(ps, "BootArgs") < |ps| && kc.pc.Some?
    ensures var l := LayoutOf(ps, kc, stub);
      KernelReady(mem, Booted(mem, l, n), Mapped(ps, kc.segments, l), l, kc, CallFor(kc, l).bootArgs, CallFor(kc, l).pc)
  {
    hide Booted, Mapped, MapIsTrue, VmRange, Rejection, Find, Carried, CallFor, DataNamed, BaseOf;
    BootedMapIsTrue(mem, ps, kc, stub, n);
    var l := LayoutOf(ps, kc, stub);
    if VmRange(kc).min <= kc.pc.value < VmRange(kc).min + l.size {
      EntryCarried(mem, kc, l, n);
    }
  }

  /** How a boot ends: in the loader, in the kernel, or in the stub. */
  datatype BootEnd =
    | Refused(why: Outcome)
    | Entered(x0: nat, pc: nat)
    | StubFaulted
    | StubOverwritten

  /** The stub is given a size it can stop at. */
  predicate SizeStops(l: Layout)
    requires l.Registers()
  {
    l.Extent() > 0 && l.Extent() % 16 == 0
  }

  /** The whole boot: the loader, and then the stub, where it has been copied, with the arguments it was given. */
  method Boot(mem: array<Byte>, props: array<Prop>, kc: Kernel, stub: Bytes) returns (end: BootEnd)
    requires mem.Length < TWO_TO_64 && MapOk(props[..]) && SegmentsOk(kc) && stub != []
    requires EarlyRejection(props[..], kc).None? ==> LayoutOf(props[..], kc, stub).Fits(mem.Length)
    modifies mem, props
    ensures end.Refused? <==> Rejection(old(props[..]), kc).Some?
    ensures end.Refused? ==> Rejection(old(props[..]), kc) == Some(end.why)
    ensures !end.Refused? ==> kc.pc.Some? && LayoutOf(old(props[..]), kc, stub).Fits(mem.Length)
    ensures !end.Refused? ==>
      var l := LayoutOf(old(props[..]), kc, stub);
      && (end.Entered? <==> SizeStops(l) && l.Clear())
      && (SizeStops(l) && !l.Clear() ==> end.StubOverwritten?)
    ensures end.Entered? ==>
      var l := LayoutOf(old(props[..]), kc, stub);
      && KernelReady(old(mem[..]), mem[..], props[..], l, kc, end.x0, end.pc)
      && mem[..][l.StubCopy()..l.StubCopy() + |stub|] == stub
  {
    hide Booted, Laid, Chunks, Mapped, KernelReady, VmRange, Find, Rejection, EarlyRejection, MapOk, SegmentsOk;
    hide LayoutOf, SizeStops;
    ghost var m, ps := mem[..], props[..];
    var r := LoadAndPrepXnuKernelcache(mem, props, kc, stub);
    if !r.Prepared? {
      return Refused(r);
    }
    RejectedEarlyOrLate(ps, kc);
    LayoutStub(ps, kc, stub);
    ghost var l := LayoutOf(ps, kc, stub);
    var stubEnd, x0, pc, n := RunStub(mem, r.call, |stub|, m, l);
    match stubEnd
    case Branched =>
      BootedIsReady(m, ps, kc, stub, n);
      StubIntact(m, l, n);
      end := Entered(x0, pc);
    case Faulted => end := StubFaulted;
    case Overwritten => end := StubOverwritten;
  }

  // The call of the stub that the loader leaves to its caller.
  method RunStub(mem: array<Byte>, call: StubCall, stubSize: nat, ghost m: Bytes, ghost l: Layout)
    returns (end: StubEnd, x0: nat, pc: nat, ghost n: nat)
    requires mem.Length < TWO_TO_64 && |m| == mem.Length && l.Fits(|m|) && mem[..] == Laid(m, l)
    requires stubSize == |l.stub| > 0
    requires call.entry == l.StubCopy() && call.image == l.payload && call.base == l.base && call.size == l.Extent()
    modifies mem
    ensures end.Branched? <==> SizeStops(l) && l.Clear()
    ensures SizeStops(l) && !l.Clear() ==> end.Overwritten?
    ensures end.Branched? ==>
      16 * n == l.Extent() && mem[..] == Booted(m, l, n) && x0 == call.bootArgs && pc == call.pc
  {
    hide Laid, Chunks, Meets;
    if l.Extent() > 0 {
      ClearIff(l);
    }
    end, x0, pc, n := XnuJumpStub(mem, call.entry, stubSize, call.bootArgs, call.image, call.base, call.size, call.pc);
  }

  lemma {:induction false} LayoutStub(ps: seq<Prop>, kc: Kernel, stub: Bytes)
    ensures LayoutOf(ps, kc, stub).stub == stub
  {
  }

  lemma {:induction false} RejectedEarlyOrLate(ps: seq<Prop>, kc: Kernel)
    ensures Rejection(ps, kc).None? ==> EarlyRejection(ps, kc).None?
  {
  }

  // An example: two segments, the second one first in memory and in the file, and one slot more than needed

  const EXAMPLE_MAP: seq<Prop> := [Prop("Kernel-mach_header", Register(0, 0)), Prop("Kernel-PYLD", Register(0x400, 0)),
                                   Prop("SEPFW", Register(0x900, 16)), Prop("BootArgs", Register(0x910, 16)),
                                   Prop("MemoryMapReserved-0", Register(7, 7)), Prop("Else", Other([1])),
                                   Prop("Kernel-old", Register(8, 8))]

  const EXAMPLE_KERNEL: Kernel := Kernel(true, [Segment("0123456789abcdef", 0x4100, 0x100, 0x100, 0x100),
                                                Segment("ABCDEFGHIJKLMNOP", 0x4000, 0x100, 0, 0x100)], Some(0x4010))

  lemma ExampleSpans()
    ensures SegmentsOk(EXAMPLE_KERNEL)
    ensures SpansMemory(EXAMPLE_KERNEL, 0x4000, 0x4200) && SpansFile(EXAMPLE_KERNEL, 0, 0x200)
  {
    var segs := EXAMPLE_KERNEL.segments;
    assert segs[0].vmaddr + segs[0].vmsize == 0x4200 && segs[1].vmaddr == 0x4000;
    assert segs[0].fileoff + segs[0].filesize == 0x200 && segs[1].fileoff == 0;
    assert |segs[0].segname| == 16 && |segs[1].segname| == 16;
  }

  lemma ExampleFirst()
    ensures FirstRegister(EXAMPLE_MAP, "Kernel-mach_header", 0) && FirstRegister(EXAMPLE_MAP, "Kernel-PYLD", 1)
    ensures FirstRegister(EXAMPLE_MAP, "SEPFW", 2) && FirstRegister(EXAMPLE_MAP, "BootArgs", 3)
    ensures MapOk(EXAMPLE_MAP)
  {
    var ps := EXAMPLE_MAP;
    assert |ps[0].name| == 18 && |ps[1].name| == 11 && |ps[2].name| == 5 && |ps[3].name| == 8;
    assert !IsSlot(ps[5]) && !IsMachHeader(ps[5]) by {
      NameStarts(ps[5]);
    }
  }

  lemma ExampleKinds()
    ensures var ps := EXAMPLE_MAP;
      && !IsSlot(ps[0]) && IsSlot(ps[1]) && !IsSlot(ps[2]) && !IsSlot(ps[3])
      && IsSlot(ps[4]) && !IsSlot(ps[5]) && IsSlot(ps[6])
      && !IsBlanked(ps[0]) && IsBlanked(ps[1]) && !IsBlanked(ps[2]) && !IsBlanked(ps[3])
      && !IsBlanked(ps[4]) && !IsBlanked(ps[5]) && IsBlanked(ps[6])
  {
    var ps := EXAMPLE_MAP;
    NameStarts(ps[0]);
    NameStarts(ps[2]);
    NameStarts(ps[3]);
    NameStarts(ps[4]);
    NameStarts(ps[5]);
    assert "Kernel-" <= ps[1].name && "Kernel-" <= ps[6].name && "MemoryMapReserved-" <= ps[4].name;
    assert |ps[1].name| == 11 && |ps[6].name| == 10 && |"Kernel-mach_header"| == 18;
  }

  lemma ExampleSlots()
    ensures var ps := EXAMPLE_MAP;
      SlotsBefore(ps, 1) == 0 && SlotsBefore(ps, 4) == 1 && SlotsBefore(ps, 6) == 2 && SlotsBefore(ps, 7) == 3
    ensures BlanksBefore(EXAMPLE_MAP, 6) == 1
  {
    hide IsSlot, IsBlanked;
    var ps := EXAMPLE_MAP;
    ExampleKinds();
    CountSeven(ps);
  }

  lemma CountSeven(ps: seq<Prop>)
    requires |ps| == 7
    requires !IsSlot(ps[0]) && IsSlot(ps[1]) && !IsSlot(ps[2]) && !IsSlot(ps[3])
    requires IsSlot(ps[4]) && !IsSlot(ps[5]) && IsSlot(ps[6])
    requires !IsBlanked(ps[0]) && IsBlanked(ps[1]) && !IsBlanked(ps[2]) && !IsBlanked(ps[3])
    requires !IsBlanked(ps[4]) && !IsBlanked(ps[5])
    ensures SlotsBefore(ps, 1) == 0 && SlotsBefore(ps, 4) == 1 && SlotsBefore(ps, 6) == 2 && SlotsBefore(ps, 7) == 3
    ensures BlanksBefore(ps, 6) == 1
  {
    hide IsSlot, IsBlanked, SlotsBefore, BlanksBefore;
    NoneBefore(ps);
    CountNext(ps, 0);
    CountNext(ps, 1);
    CountNext(ps, 2);
    CountNext(ps, 3);
    CountNext(ps, 4);
    CountNext(ps, 5);
    CountNext(ps, 6);
  }

  lemma {:induction false} NoneBefore(ps: seq<Prop>)
    ensures SlotsBefore(ps, 0) == 0 && BlanksBefore(ps, 0) == 0
  {
  }

  lemma {:induction false} CountNext(ps: seq<Prop>, p: nat)
    requires p < |ps|
    ensures SlotsBefore(ps, p + 1) == SlotsBefore(ps, p) + if IsSlot(ps[p]) then 1 else 0
    ensures BlanksBefore(ps, p + 1) == BlanksBefore(ps, p) + if IsBlanked(ps[p]) then 1 else 0
  {
  }

  lemma ExampleLayout(stub: Bytes)
    ensures var l := Layout(0, 0x400, 0x200, Register(0x900, 16), Register(0x910, 16), stub);
      && LayoutOf(EXAMPLE_MAP, EXAMPLE_KERNEL, stub) == l
      && CallFor(EXAMPLE_KERNEL, l) == StubCall(0x620, 0x210, 0x400, 0, 0x220, 0x10)
  {
    hide FirstRegister, SpansMemory, SpansFile, LayoutOf, SegmentsOk, VmRange;
    ExampleSpans();
    ExampleFirst();
    CallInFields(EXAMPLE_MAP, EXAMPLE_KERNEL, stub, 0x4000, 0x4200, 0, 0x200, 0, 1, 2, 3);
  }

  lemma ExampleAccepted()
    ensures SegmentsOk(EXAMPLE_KERNEL) && Rejection(EXAMPLE_MAP, EXAMPLE_KERNEL).None?
  {
    hide Named, SpansMemory, SpansFile, Rejection, SegmentsOk, SlotsBefore;
    ExampleSpans();
    ExampleSlots();
    ExampleNamed();
    AcceptedIff(EXAMPLE_MAP, EXAMPLE_KERNEL, 0x4000, 0x4200, 0, 0x200);
  }

  /** This kernel is accepted, and the stub gets these arguments. */
  lemma ExampleBoots(stub: Bytes)
    requires |stub| == 8
    ensures MapOk(EXAMPLE_MAP) && SegmentsOk(EXAMPLE_KERNEL) && Rejection(EXAMPLE_MAP, EXAMPLE_KERNEL).None?
    ensures var l := LayoutOf(EXAMPLE_MAP, EXAMPLE_KERNEL, stub);
      && l.Fits(0x1000) && l.Clear() && SizeStops(l)
      && CallFor(EXAMPLE_KERNEL, l) == StubCall(0x620, 0x210, 0x400, 0, 0x220, 0x10)
  {
    hide Rejection, LayoutOf, MapOk, SegmentsOk, FirstRegister;
    ExampleFirst();
    ExampleAccepted();
    ExampleLayout(stub);
  }

  lemma ExampleNamed()
    ensures Named(EXAMPLE_MAP, "Kernel-mach_header") && Named(EXAMPLE_MAP, "Kernel-PYLD")
    ensures Named(EXAMPLE_MAP, "SEPFW") && Named(EXAMPLE_MAP, "BootArgs")
  {
    var ps := EXAMPLE_MAP;
    assert ps[0].name == "Kernel-mach_header" && ps[1].name == "Kernel-PYLD";
    assert ps[2].name == "SEPFW" && ps[3].name == "BootArgs";
  }

  /** A full name field in front of a page-aligned address is printed as it is. */
  lemma FullName(seg: Segment)
    requires '\0' !in seg.segname && seg.vmaddr % 0x100 == 0
    ensures PrintedName(seg) == seg.segname
  {
    PrintedNameIff(seg);
    UntilNulAppend(seg.segname, []);
    assert seg.segname + [] == seg.segname;
  }

  /** And this is the map that the new kernel finds. */
  lemma ExampleMapped(stub: Bytes)
    requires |stub| == 8
    ensures Find(EXAMPLE_MAP, "SEPFW") == 2 && Find(EXAMPLE_MAP, "BootArgs") == 3
    ensures LayoutOf(EXAMPLE_MAP, EXAMPLE_KERNEL, stub).Registers()
    ensures var m := Mapped(EXAMPLE_MAP, EXAMPLE_KERNEL.segments, LayoutOf(EXAMPLE_MAP, EXAMPLE_KERNEL, stub));
      && |m| == 7
      && m[0] == Prop("Kernel-mach_header", Register(0, 0))
      && m[1] == Prop("Kernel-" + "0123456789abcdef", Register(0x100, 0x100))
      && m[2] == Prop("SEPFW", Register(0x200, 16))
      && m[3] == Prop("BootArgs", Register(0x210, 16))
      && m[4] == Prop("Kernel-" + "ABCDEFGHIJKLMNOP", Register(0, 0x100))
      && m[5] == Prop("Else", Other([1]))
      && m[6] == Prop("MemoryMapReserved-98", Register(0, 0))
  {
    hide Find, LayoutOf, Rewritten, Mapped;
    ExampleFound();
    ExampleLayout(stub);
    ExampleRewritten();
    MappedSeven(EXAMPLE_MAP, EXAMPLE_KERNEL.segments, LayoutOf(EXAMPLE_MAP, EXAMPLE_KERNEL, stub));
  }

  lemma ExampleFound()
    ensures Find(EXAMPLE_MAP, "SEPFW") == 2 && Find(EXAMPLE_MAP, "BootArgs") == 3
  {
    hide Find, FirstRegister;
    ExampleFirst();
    FirstIsFound(EXAMPLE_MAP, "SEPFW", 2);
    FirstIsFound(EXAMPLE_MAP, "BootArgs", 3);
  }

  lemma {:induction false} MappedSeven(ps: seq<Prop>, segs: seq<Segment>, l: Layout)
    requires l.Registers() && |ps| == 7 && Find(ps, "SEPFW") == 2 && Find(ps, "BootArgs") == 3
    ensures var m, r := Mapped(ps, segs, l), Rewritten(ps, segs, l.base);
      && |m| == 7 && m[0] == r[0] && m[1] == r[1] && m[4] == r[4] && m[5] == r[5] && m[6] == r[6]
      && m[2] == Prop(r[2].name, Register(l.AfterMove(l.SepfwCopy()), l.sepfw.size))
      && m[3] == Prop(r[3].name, Register(l.AfterMove(l.BootArgsCopy()), l.bootArgs.size))
  {
    hide Mapped, Rewritten, Find;
    MappedAt(ps, segs, l, 0);
    MappedAt(ps, segs, l, 1);
    MappedAt(ps, segs, l, 2);
    MappedAt(ps, segs, l, 3);
    MappedAt(ps, segs, l, 4);
    MappedAt(ps, segs, l, 5);
    MappedAt(ps, segs, l, 6);
  }

  lemma ExampleRewritten()
    ensures var m := Rewritten(EXAMPLE_MAP, EXAMPLE_KERNEL.segments, 0);
      && m[0] == EXAMPLE_MAP[0] && m[2] == EXAMPLE_MAP[2] && m[3] == EXAMPLE_MAP[3] && m[5] == EXAMPLE_MAP[5]
      && m[1] == Prop("Kernel-" + "0123456789abcdef", Register(0x100, 0x100))
      && m[4] == Prop("Kernel-" + "ABCDEFGHIJKLMNOP", Register(0, 0x100))
      && m[6] == Prop("MemoryMapReserved-98", Register(0, 0))
  {
    hide Rewritten, SlotsBefore, BlanksBefore, IsBlanked, IsSlot, IsReserved, ForSegment, Blank;
    var ps, segs := EXAMPLE_MAP, EXAMPLE_KERNEL.segments;
    ExampleSlots();
    ExampleKinds();
    RewrittenAt(ps, segs, 0, 0);
    RewrittenAt(ps, segs, 0, 1);
    RewrittenAt(ps, segs, 0, 2);
    RewrittenAt(ps, segs, 0, 3);
    RewrittenAt(ps, segs, 0, 4);
    RewrittenAt(ps, segs, 0, 5);
    RewrittenAt(ps, segs, 0, 6);
    ExampleSegments();
    BlankNames();
    EmptyBlank(98);
  }

  lemma EmptyBlank(i: int)
    ensures Blank(i).data == Register(0, 0)
  {
  }

  lemma ExampleSegments()
    ensures ForSegment(EXAMPLE_KERNEL.segments[0], 0) == Prop("Kernel-" + "0123456789abcdef", Register(0x100, 0x100))
    ensures ForSegment(EXAMPLE_KERNEL.segments[1], 0) == Prop("Kernel-" + "ABCDEFGHIJKLMNOP", Register(0, 0x100))
  {
    hide PrintedName;
    FullName(EXAMPLE_KERNEL.segments[0]);
    FullName(EXAMPLE_KERNEL.segments[1]);
  }
}
