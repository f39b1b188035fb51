/** Rewriting the chosen/memory-map properties of the device tree for the new kernel. */
module MemoryMap {
  import opened Bits
  import opened Wrappers
  import Hex

  datatype Data = Register(base: nat, size: nat) | Other(bytes: Bytes)

  datatype Prop = Prop(name: string, data: Data)

  /** `segname` is a field of 16 characters, and vmaddr is the field behind it. */
  datatype Segment = Segment(segname: string, vmaddr: nat, vmsize: nat, fileoff: nat, filesize: nat)

  function UntilNul(s: string): (r: string)
    ensures |r| <= |s|
  {
    if s == [] || s[0] == '\0' then [] else [s[0]] + UntilNul(s[1..])
  }

  /** The segment's name, with or without a terminator in the field. */
  function Name(seg: Segment): string {
    UntilNul(seg.segname)
  }

  /** The first k bytes of a little-endian number. */
  function Characters(n: nat, k: nat): (s: string)
    ensures |s| == k
  {
    if k == 0 then [] else [(n % 0x100) as char] + Characters(n / 0x100, k - 1)
  }

  /**
   What "Kernel-%s" makes of the field in a buffer of 32 characters: it reads on to a zero byte, and no
   further than 24 characters, which are those of the field and of vmaddr.
   */
  function PrintedName(seg: Segment): string {
    UntilNul(seg.segname + Characters(seg.vmaddr, 8))
  }

  predicate IsKernel(p: Prop) {
    "Kernel-" <= p.name
  }

  predicate IsMachHeader(p: Prop) {
    p.name == "Kernel-mach_header"
  }

  predicate IsReserved(p: Prop) {
    "MemoryMapReserved-" <= p.name
  }

  /** The old kernel's entries, which the first pass blanks. */
  predicate IsBlanked(p: Prop) {
    IsKernel(p) && !IsMachHeader(p)
  }

  /** Entries that a segment may take: reserved ones, and the old kernel's own. */
  predicate IsSlot(p: Prop) {
    IsReserved(p) || IsBlanked(p)
  }

  /** Decimal digits, without leading zeros. */
  function Digits(n: nat): string {
    if n <= 9 then [('0' as int + n) as char] else Digits(n / 10) + Digits(n % 10)
  }

  // snprintf "%d"
  function Numeral(i: int): string {
    if i < 0 then "-" + Digits(-i) else Digits(i)
  }

  // The counter runs down from 99 and may pass zero.
  function Blank(i: int): Prop {
    Prop("MemoryMapReserved-" + Numeral(i), Register(0, 0))
  }

  function ForSegment(seg: Segment, machoBase: nat): Prop {
    Prop("Kernel-" + PrintedName(seg), Register((machoBase + seg.fileoff) % TWO_TO_64, seg.filesize))
  }

  /** The first pass: every kernel entry but the Mach-O header becomes a reserved one, numbered down from i. */
  function Blanked(ps: seq<Prop>, i: int): (r: seq<Prop>)
    ensures |r| == |ps|
  {
    if ps == [] then []
    else if IsBlanked(ps[0]) then [Blank(i)] + Blanked(ps[1..], i - 1)
    else [ps[0]] + Blanked(ps[1..], i)
  }

  /** The second pass: the reserved entries, in order, become those of the segments. */
  function Assigned(ps: seq<Prop>, segs: seq<Segment>, machoBase: nat): (r: seq<Prop>)
    ensures |r| == |ps|
  {
    if ps == [] then []
    else if IsReserved(ps[0]) && segs != [] then
      [ForSegment(segs[0], machoBase)] + Assigned(ps[1..], segs[1..], machoBase)
    else [ps[0]] + Assigned(ps[1..], segs, machoBase)
  }

  /** The number of reserved entries before position p. */
  function ReservedBefore(ps: seq<Prop>, p: nat): nat
    requires p <= |ps|
  {
    if p == 0 then 0 else ReservedBefore(ps, p - 1) + if IsReserved(ps[p - 1]) then 1 else 0
  }

  /** The number of slots before position p. */
  function SlotsBefore(ps: seq<Prop>, p: nat): nat
    requires p <= |ps|
  {
    if p == 0 then 0 else SlotsBefore(ps, p - 1) + if IsSlot(ps[p - 1]) then 1 else 0
  }

  /** The number of kernel entries that the first pass blanks before position p. */
  function BlanksBefore(ps: seq<Prop>, p: nat): nat
    requires p <= |ps|
  {
    if p == 0 then 0 else BlanksBefore(ps, p - 1) + if IsBlanked(ps[p - 1]) then 1 else 0
  }

  // Entry by entry

  lemma {:induction false} BlanksShift(ps: seq<Prop>, p: nat)
    requires 1 <= p <= |ps|
    ensures BlanksBefore(ps, p)
         == BlanksBefore(ps[1..], p - 1) + if IsBlanked(ps[0]) then 1 else 0
  {
    if p > 1 {
      BlanksShift(ps, p - 1);
    }
  }

  lemma {:induction false} BlankedAt(ps: seq<Prop>, i: int, p: nat)
    requires p < |ps|
    ensures Blanked(ps, i)[p]
         == if IsBlanked(ps[p]) then Blank(i - BlanksBefore(ps, p)) else ps[p]
  {
    hide Blank, IsBlanked;
    if p != 0 {
      BlankedAt(ps[1..], if IsBlanked(ps[0]) then i - 1 else i, p - 1);
      BlanksShift(ps, p);
    }
  }

  lemma {:induction false} ReservedShift(ps: seq<Prop>, p: nat)
    requires 1 <= p <= |ps|
    ensures ReservedBefore(ps, p) == ReservedBefore(ps[1..], p - 1) + if IsReserved(ps[0]) then 1 else 0
  {
    if p > 1 {
      ReservedShift(ps, p - 1);
    }
  }

  lemma {:induction false} AssignedAt(ps: seq<Prop>, segs: seq<Segment>, machoBase: nat, p: nat)
    requires p < |ps|
    ensures Assigned(ps, segs, machoBase)[p]
         == if IsReserved(ps[p]) && ReservedBefore(ps, p) < |segs|
            then ForSegment(segs[ReservedBefore(ps, p)], machoBase) else ps[p]
  {
    if p != 0 {
      AssignedAt(ps[1..], if IsReserved(ps[0]) && segs != [] then segs[1..] else segs, machoBase, p - 1);
      ReservedShift(ps, p);
    }
  }

  lemma {:induction false} ReservedGrows(ps: seq<Prop>, p: nat, q: nat)
    requires p <= q <= |ps|
    ensures ReservedBefore(ps, p) <= ReservedBefore(ps, q)
    ensures (forall j | p <= j < q :: !IsReserved(ps[j])) ==> ReservedBefore(ps, p) == ReservedBefore(ps, q)
    decreases q
  {
    if p < q {
      ReservedGrows(ps, p, q - 1);
    }
  }

  // The loops, in place

  method BlankPass(props: array<Prop>)
    requires forall j | 0 <= j < props.Length && IsBlanked(props[j]) ::
               props[j].data.Register?
    modifies props
    ensures props[..] == Blanked(old(props[..]), 99)
  {
    hide Blanked, Blank, IsBlanked;
    var i := 99;
    ghost var before := props[..];
    for j := 0 to props.Length
      invariant i == 99 - BlanksBefore(before, j)
      invariant forall p | 0 <= p < j :: props[p] == Blanked(before, 99)[p]
      invariant forall p | j <= p < props.Length :: props[p] == before[p]
    {
      BlankedAt(before, 99, j);
      if IsBlanked(props[j]) {
        props[j] := Blank(i);
        i := i - 1;
      }
    }
  }

  // Moves a filtered iterator to the next reserved entry.
  method NextReserved(props: array<Prop>, from: nat) returns (cur: nat)
    requires from <= props.Length
    ensures from <= cur <= props.Length
    ensures forall j | from <= j < cur :: !IsReserved(props[j])
    ensures cur < props.Length ==> IsReserved(props[cur])
  {
    cur := from;
    while cur < props.Length && !IsReserved(props[cur])
      invariant from <= cur <= props.Length
      invariant forall j | from <= j < cur :: !IsReserved(props[j])
    {
      cur := cur + 1;
    }
  }

  /** Positions p <= j < q hold what the second pass leaves there. */
  ghost predicate AssignedOn(before: seq<Prop>, now: seq<Prop>, segs: seq<Segment>, machoBase: nat, p: nat, q: nat) {
    |now| == |before| && forall j | p <= j < q <= |before| :: now[j] == Assigned(before, segs, machoBase)[j]
  }

  lemma {:induction false} SkippedStay(before: seq<Prop>, now: seq<Prop>, segs: seq<Segment>, machoBase: nat, p: nat,
                                       q: nat)
    requires p <= q <= |before| == |now| && forall j | p <= j < q :: now[j] == before[j]
    requires (forall j | p <= j < q :: !IsReserved(before[j])) || ReservedBefore(before, p) >= |segs|
    ensures AssignedOn(before, now, segs, machoBase, p, q)
  {
    forall j | p <= j < q ensures now[j] == Assigned(before, segs, machoBase)[j] {
      AssignedAt(before, segs, machoBase, j);
      ReservedGrows(before, p, j);
    }
  }

  /** False when the segments outnumber the reserved entries: the original then follows a null pointer. */
  method AssignPass(props: array<Prop>, segs: seq<Segment>, machoBase: nat) returns (ok: bool)
    requires forall j | 0 <= j < props.Length && IsReserved(props[j]) :: props[j].data.Register?
    requires forall s | s in segs :: s.vmsize == s.filesize
    modifies props
    ensures ok <==> |segs| <= ReservedBefore(old(props[..]), props.Length)
    ensures ok ==> props[..] == Assigned(old(props[..]), segs, machoBase)
  {
    ghost var before := props[..];
    var cur: nat := 0;
    for j := 0 to |segs|
      invariant cur <= props.Length && ReservedBefore(before, cur) == j
      invariant AssignedOn(before, props[..], segs, machoBase, 0, cur)
      invariant forall p | cur <= p < props.Length :: props[p] == before[p]
    {
      ghost var from := cur;
      cur := NextReserved(props, cur);
      ReservedGrows(before, from, cur);
      SkippedStay(before, props[..], segs, machoBase, from, cur);
      if cur == props.Length {
        return false;
      }
      AssignedAt(before, segs, machoBase, cur);
      props[cur] := ForSegment(segs[j], machoBase);
      cur := cur + 1;
    }
    ReservedGrows(before, cur, props.Length);
    SkippedStay(before, props[..], segs, machoBase, cur, props.Length);
    ok := true;
  }

  // What the two passes achieve

  lemma NameStarts(p: Prop)
    ensures IsKernel(p) ==> p.name[0] == 'K'
    ensures IsReserved(p) ==> p.name[0] == 'M'
    ensures IsMachHeader(p) ==> IsKernel(p)
  {
    assert IsKernel(p) ==> p.name[0] == "Kernel-"[0];
    assert IsReserved(p) ==> p.name[0] == "MemoryMapReserved-"[0];
  }

  /** After the first pass the slots, and only they, are reserved. */
  lemma {:induction false} BlankedSlots(ps: seq<Prop>, i: int, p: nat)
    requires p < |ps|
    ensures IsReserved(Blanked(ps, i)[p]) <==> IsSlot(ps[p])
  {
    BlankedAt(ps, i, p);
    NameStarts(ps[p]);
    assert "MemoryMapReserved-" <= Blank(i - BlanksBefore(ps, p)).name;
  }

  lemma {:induction false} SlotsOfBlanked(ps: seq<Prop>, i: int, p: nat)
    requires p <= |ps|
    ensures ReservedBefore(Blanked(ps, i), p) == SlotsBefore(ps, p)
  {
    hide Blanked, IsSlot, IsReserved;
    if p != 0 {
      SlotsOfBlanked(ps, i, p - 1);
      BlankedSlots(ps, i, p - 1);
    }
  }

  function Rewritten(ps: seq<Prop>, segs: seq<Segment>, machoBase: nat): (r: seq<Prop>)
    ensures |r| == |ps|
  {
    Assigned(Blanked(ps, 99), segs, machoBase)
  }

  /**
   The k-th slot holds the k-th segment; slots left over are as they were, or blanked and then empty; and every
   entry that was neither of the kernel nor reserved, as well as the Mach-O header, is untouched.
   */
  lemma {:induction false} RewrittenAt(ps: seq<Prop>, segs: seq<Segment>, machoBase: nat, p: nat)
    requires p < |ps|
    ensures var r := Rewritten(ps, segs, machoBase)[p];
      && (IsSlot(ps[p]) && SlotsBefore(ps, p) < |segs| ==> r == ForSegment(segs[SlotsBefore(ps, p)], machoBase))
      && (IsSlot(ps[p]) && SlotsBefore(ps, p) >= |segs| ==>
            IsReserved(r) && r == if IsBlanked(ps[p]) then Blank(99 - BlanksBefore(ps, p)) else ps[p])
      && (IsBlanked(ps[p]) && SlotsBefore(ps, p) >= |segs| ==> r.data == Register(0, 0))
      && (!IsSlot(ps[p]) ==> r == ps[p])
  {
    AssignedAt(Blanked(ps, 99), segs, machoBase, p);
    SlotsOfBlanked(ps, 99, p);
    BlankedSlots(ps, 99, p);
    BlankedAt(ps, 99, p);
  }

  /** The kernel entries afterwards are the Mach-O header and one per segment. */
  lemma {:induction false} KernelEntriesAfter(ps: seq<Prop>, segs: seq<Segment>, machoBase: nat, p: nat)
    requires p < |ps|
    ensures IsKernel(Rewritten(ps, segs, machoBase)[p])
       <==> IsMachHeader(ps[p]) || (IsSlot(ps[p]) && SlotsBefore(ps, p) < |segs|)
  {
    RewrittenAt(ps, segs, machoBase, p);
    NameStarts(Rewritten(ps, segs, machoBase)[p]);
    NameStarts(ps[p]);
    if SlotsBefore(ps, p) < |segs| {
      assert IsKernel(ForSegment(segs[SlotsBefore(ps, p)], machoBase));
    }
  }

  /** Every segment that a slot is left for has its entry. */
  lemma {:induction false} SlotOfSegment(ps: seq<Prop>, n: nat, k: nat) returns (p: nat)
    requires n <= |ps| && k < SlotsBefore(ps, n)
    ensures p < n && IsSlot(ps[p]) && SlotsBefore(ps, p) == k
  {
    if IsSlot(ps[n - 1]) && SlotsBefore(ps, n - 1) == k {
      p := n - 1;
    } else {
      p := SlotOfSegment(ps, n - 1, k);
    }
  }

  /** The printed digits are read back as the number. */
  lemma {:induction false} DigitsRoundTrip(n: nat)
    ensures Hex.DecDigits(Digits(n)) && Hex.DecValue(Digits(n)) == n
    ensures Digits(n) != []
  {
    if n > 9 {
      DigitsRoundTrip(n / 10);
      var s, d := Digits(n / 10), Digits(n % 10);
      assert (s + d)[..|s|] == s && (s + d)[|s|] == d[0];
    } else {
      assert Digits(n)[..0] == [];
    }
  }

  lemma SameDigits(m: nat, n: nat)
    requires Digits(m) == Digits(n)
    ensures m == n
  {
    hide Digits;
    DigitsRoundTrip(m);
    DigitsRoundTrip(n);
  }

  lemma SameTail(head: string, s: string, t: string)
    requires head + s == head + t
    ensures s == t
  {
    assert (head + s)[|head|..] == s && (head + t)[|head|..] == t;
  }

  /** A minus sign is no digit. */
  lemma NotNegative(m: nat, n: nat)
    ensures "-" + Digits(m) != Digits(n)
  {
    hide Digits;
    DigitsRoundTrip(n);
    assert Hex.IsDecimalDigit(Digits(n)[0]);
    assert ("-" + Digits(m))[0] == '-';
  }

  lemma SameBlank(i: int, j: int)
    requires Blank(i).name == Blank(j).name
    ensures i == j
  {
    hide Digits;
    SameTail("MemoryMapReserved-", Numeral(i), Numeral(j));
    if i < 0 && j < 0 {
      SameTail("-", Digits(-i), Digits(-j));
      SameDigits(-i, -j);
    } else if i < 0 {
      NotNegative(-i, j);
    } else if j < 0 {
      NotNegative(-j, i);
    } else {
      SameDigits(i, j);
    }
  }

  lemma {:induction false} BlanksGrow(ps: seq<Prop>, p: nat, q: nat)
    requires p < q <= |ps| && IsBlanked(ps[p])
    ensures BlanksBefore(ps, p) < BlanksBefore(ps, q)
    decreases q
  {
    if p < q - 1 {
      BlanksGrow(ps, p, q - 1);
    }
  }

  /** No two entries that the first pass blanks get the same name. */
  lemma {:induction false} BlankedNamesDiffer(ps: seq<Prop>, p: nat, q: nat)
    requires p < q < |ps| && IsBlanked(ps[p]) && IsBlanked(ps[q])
    ensures Blanked(ps, 99)[p].name != Blanked(ps, 99)[q].name
  {
    hide Blanked, Blank, IsBlanked, BlanksBefore;
    BlankedAt(ps, 99, p);
    BlankedAt(ps, 99, q);
    BlanksGrow(ps, p, q);
    if Blanked(ps, 99)[p].name == Blanked(ps, 99)[q].name {
      SameBlank(99 - BlanksBefore(ps, p), 99 - BlanksBefore(ps, q));
    }
  }

  ghost predicate NamesDistinct(ps: seq<Prop>) {
    forall p, q | 0 <= p < q < |ps| :: ps[p].name != ps[q].name
  }

  /** The name that the first pass gives to the i-th entry it blanks. */
  function BlankName(i: nat): string {
    Blank(99 - i).name
  }

  /** The entry has a name that the first pass gives away. */
  ghost predicate NameIsTaken(ps: seq<Prop>, name: string) {
    exists i: nat | i < BlanksBefore(ps, |ps|) :: name == BlankName(i)
  }

  lemma {:induction false} BlankOfNumber(ps: seq<Prop>, n: nat, i: nat) returns (q: nat)
    requires n <= |ps| && i < BlanksBefore(ps, n)
    ensures q < n && IsBlanked(ps[q]) && BlanksBefore(ps, q) == i
  {
    if IsBlanked(ps[n - 1]) && BlanksBefore(ps, n - 1) == i {
      q := n - 1;
    } else {
      q := BlankOfNumber(ps, n - 1, i);
    }
  }

  lemma {:induction false} TakenBy(ps: seq<Prop>, p: nat)
    requires p < |ps| && !IsBlanked(ps[p]) && NameIsTaken(ps, ps[p].name)
    ensures !NamesDistinct(Blanked(ps, 99))
  {
    hide Blanked, Blank, IsBlanked, BlanksBefore;
    var i: nat :| i < BlanksBefore(ps, |ps|) && ps[p].name == BlankName(i);
    var q := BlankOfNumber(ps, |ps|, i);
    BlankedAt(ps, 99, p);
    BlankedAt(ps, 99, q);
  }

  lemma {:induction false} NotTaken(ps: seq<Prop>, p: nat, q: nat)
    requires p < |ps| && q < |ps| && !IsBlanked(ps[p]) && IsBlanked(ps[q]) && !NameIsTaken(ps, ps[p].name)
    ensures Blanked(ps, 99)[p].name != Blanked(ps, 99)[q].name
  {
    hide Blanked, Blank, IsBlanked, BlanksBefore;
    BlankedAt(ps, 99, p);
    BlankedAt(ps, 99, q);
    BlanksGrow(ps, q, |ps|);
    assert Blanked(ps, 99)[q].name == BlankName(BlanksBefore(ps, q));
  }

  lemma {:induction false} BothKept(ps: seq<Prop>, p: nat, q: nat)
    requires p < q < |ps| && NamesDistinct(ps) && !IsBlanked(ps[p]) && !IsBlanked(ps[q])
    ensures Blanked(ps, 99)[p].name != Blanked(ps, 99)[q].name
  {
    BlankedAt(ps, 99, p);
    BlankedAt(ps, 99, q);
  }

  /**
   Names stay distinct in the first pass exactly if no entry that is kept is already called
   MemoryMapReserved-99, or 98, and so on for as many numbers as entries are blanked.
   */
  lemma {:induction false} NamesStayDistinctIff(ps: seq<Prop>)
    requires NamesDistinct(ps)
    ensures NamesDistinct(Blanked(ps, 99))
       <==> forall p | 0 <= p < |ps| && !IsBlanked(ps[p]) :: !NameIsTaken(ps, ps[p].name)
  {
    hide Blanked, IsBlanked, NameIsTaken, NamesDistinct;
    if forall p | 0 <= p < |ps| && !IsBlanked(ps[p]) :: !NameIsTaken(ps, ps[p].name) {
      forall p, q | 0 <= p < q < |ps| ensures Blanked(ps, 99)[p].name != Blanked(ps, 99)[q].name {
        if IsBlanked(ps[p]) && IsBlanked(ps[q]) {
          BlankedNamesDiffer(ps, p, q);
        } else if IsBlanked(ps[q]) {
          NotTaken(ps, p, q);
        } else if IsBlanked(ps[p]) {
          NotTaken(ps, q, p);
        } else {
          BothKept(ps, p, q);
        }
      }
      assert NamesDistinct(Blanked(ps, 99)) by {
        DistinctByPairs(Blanked(ps, 99));
      }
    } else {
      var p :| 0 <= p < |ps| && !IsBlanked(ps[p]) && NameIsTaken(ps, ps[p].name);
      TakenBy(ps, p);
    }
  }

  lemma {:induction false} DistinctByPairs(ps: seq<Prop>)
    requires forall p, q | 0 <= p < q < |ps| :: ps[p].name != ps[q].name
    ensures NamesDistinct(ps)
  {
  }

  /** An entry MemoryMapReserved-99 in front of the old kernel's text gets a namesake. */
  lemma NamesCanCollide()
    ensures var ps := [Blank(99), Prop("Kernel-__TEXT", Register(0, 0))];
      NamesDistinct(ps) && !NamesDistinct(Blanked(ps, 99))
  {
    var ps := [Blank(99), Prop("Kernel-__TEXT", Register(0, 0))];
    NameStarts(ps[0]);
    assert "Kernel-" <= "Kernel-__TEXT";
    assert BlanksBefore(ps, 1) == 0;
    BlankedAt(ps, 99, 0);
    BlankedAt(ps, 99, 1);
    assert "MemoryMapReserved-" <= ps[0].name;
    assert ps[0].name[0] == 'M' && ps[1].name[0] == 'K';
  }

  // Names

  lemma {:induction false} UntilNulAppend(s: string, t: string)
    ensures UntilNul(s + t) == if '\0' in s then UntilNul(s) else s + UntilNul(t)
  {
    hide UntilNul;
    if s == [] {
      assert s + t == t && s + UntilNul(t) == UntilNul(t);
    } else {
      var c, rest := s[0], s[1..];
      assert s == [c] + rest;
      UntilNulAppend(rest, t);
      UntilNulFirst(c, rest);
      UntilNulFirst(c, rest + t);
      Associate([c], rest, t);
      Associate([c], rest, UntilNul(t));
    }
  }

  lemma Associate(a: string, b: string, c: string)
    ensures (a + b) + c == a + (b + c)
  {
  }

  lemma UntilNulFirst(c: char, rest: string)
    ensures UntilNul([c] + rest) == if c == '\0' then [] else [c] + UntilNul(rest)
  {
    assert ([c] + rest)[1..] == rest;
  }

  /** The entry has the segment's name exactly if the field is terminated or vmaddr's lowest byte is zero. */
  lemma PrintedNameIff(seg: Segment)
    ensures PrintedName(seg) == Name(seg) <==> '\0' in seg.segname || seg.vmaddr % 0x100 == 0
  {
    var behind := Characters(seg.vmaddr, 8);
    UntilNulAppend(seg.segname, behind);
    UntilNulAppend(seg.segname, []);
    assert seg.segname + [] == seg.segname;
    assert behind == [(seg.vmaddr % 0x100) as char] + Characters(seg.vmaddr / 0x100, 7);
    assert UntilNul(behind) == [] <==> seg.vmaddr % 0x100 == 0;
  }

  /** A full field in front of a vmaddr that ends in 'B' and 'A': the name gets two characters too many. */
  lemma NameCanRunOn(field: string)
    requires |field| == 16 && '\0' !in field
    ensures var seg := Segment(field, 0x4241, 0, 0, 0);
      Name(seg) == field && PrintedName(seg) == field + "AB"
  {
    hide UntilNul, Characters;
    LettersAB();
    UntilNulAppend(field, Characters(0x4241, 8));
    UntilNulAppend(field, []);
    assert field + [] == field;
    assert UntilNul([]) == [] by {
      assert |UntilNul([])| <= 0;
    }
  }

  lemma LettersAB()
    ensures UntilNul(Characters(0x4241, 8)) == "AB"
  {
    hide Characters;
    FirstCharacter(0x4241, 7);
    FirstCharacter(0x42, 6);
    FirstCharacter(0, 5);
    var tail, rest := Characters(0x42, 7), Characters(0, 6);
    assert rest[0] == '\0' && UntilNul(rest) == [];
    assert tail == ['B'] + rest && tail[1..] == rest;
    assert Characters(0x4241, 8) == ['A'] + tail && (['A'] + tail)[1..] == tail;
  }

  lemma FirstCharacter(n: nat, k: nat)
    ensures Characters(n, k + 1) == [(n % 0x100) as char] + Characters(n / 0x100, k)
  {
  }

  lemma {:induction false} NoLeadingZero(n: nat)
    ensures Digits(n) != [] && (Digits(n)[0] == '0' <==> n == 0)
  {
    if n > 9 {
      NoLeadingZero(n / 10);
    }
  }

  /** Parsing a printed number gives it back, modulo the width. */
  lemma DigitsParse(n: nat, width: nat)
    ensures Hex.Parsed(Digits(n), width) == Some(n % Pow2(8 * width))
  {
    var s := Digits(n);
    DigitsRoundTrip(n);
    assert |s| > 1 ==> Hex.IsDecimalDigit(s[1]);
    HexPrefix(s);
  }

  lemma HexPrefix(s: string)
    ensures "0x" <= s ==> |s| > 1 && s[1] == 'x'
  {
    assert "0x" <= s ==> s[1] == "0x"[1];
  }

  /** The first two names given away, and the first with a negative number. */
  lemma BlankNames()
    ensures BlankName(0) == "MemoryMapReserved-99" && BlankName(1) == "MemoryMapReserved-98"
    ensures BlankName(99) == "MemoryMapReserved-0" && BlankName(100) == "MemoryMapReserved--1"
  {
    assert Digits(99) == Digits(9) + Digits(9) && Digits(98) == Digits(9) + Digits(8);
  }

  lemma {:induction false} DigitsFit(n: nat, k: nat)
    requires 1 <= k && n < Pow10(k)
    ensures |Digits(n)| <= k
  {
    if n > 9 {
      DigitsFit(n / 10, k - 1);
      assert |Digits(n % 10)| == 1;
    }
  }

  function Pow10(k: nat): nat {
    if k == 0 then 1 else 10 * Pow10(k - 1)
  }

  /** Every name written fits the 32 characters of a property name, whatever the number of properties. */
  lemma NamesFit(seg: Segment, machoBase: nat, i: int)
    requires |seg.segname| == 16 && i + TWO_TO_32 > 0 && i <= 99
    ensures |ForSegment(seg, machoBase).name| < 32 && |Blank(i).name| < 32
  {
    assert Pow10(10) == 100000 * Pow10(5);
    DigitsFit(if i < 0 then -i else i, 10);
  }

  /** Both passes on the property array. */
  method RewriteMap(props: array<Prop>, segs: seq<Segment>, machoBase: nat) returns (ok: bool)
    requires forall j | 0 <= j < props.Length && IsSlot(props[j]) :: props[j].data.Register?
    requires forall s | s in segs :: s.vmsize == s.filesize
    modifies props
    ensures ok <==> |segs| <= SlotsBefore(old(props[..]), props.Length)
    ensures ok ==> props[..] == Rewritten(old(props[..]), segs, machoBase)
  {
    ghost var ps := props[..];
    forall j | 0 <= j < props.Length && IsBlanked(props[j])
      ensures props[j].data.Register?
    {
      assert IsSlot(props[j]);
    }
    BlankPass(props);
    forall j | 0 <= j < props.Length && IsReserved(props[j])
      ensures props[j].data.Register?
    {
      BlankedSlots(ps, 99, j);
      BlankedAt(ps, 99, j);
    }
    SlotsOfBlanked(ps, 99, props.Length);
    ok := AssignPass(props, segs, machoBase);
  }
}
