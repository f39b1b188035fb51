/** The copy loop of `xnu_jump_stub`: 16 bytes at a time, upwards, over possibly overlapping ranges. */
module JumpStub {
  import opened Bits

  /** Memory with `block` stored at addr. */
  function Stored(mem: Bytes, addr: nat, block: Bytes): (mem': Bytes)
    requires addr + |block| <= |mem|
    ensures |mem'| == |mem|
  {
    mem[..addr] + block + mem[addr + |block|..]
  }

  /** Memory after an ideal move: the destination holds what the source held before. */
  function Moved(mem: Bytes, src: nat, dst: nat, size: nat): (mem': Bytes)
    requires src + size <= |mem| && dst + size <= |mem|
    ensures |mem'| == |mem|
  {
    Stored(mem, dst, mem[src..src + size])
  }

  lemma StoredRead(mem: Bytes, addr: nat, block: Bytes)
    requires addr + |block| <= |mem|
    ensures Stored(mem, addr, block)[addr..addr + |block|] == block
  {
  }

  lemma StoredElsewhere(mem: Bytes, addr: nat, block: Bytes, a: nat, n: nat)
    requires addr + |block| <= |mem| && a + n <= |mem|
    requires a + n <= addr || addr + |block| <= a
    ensures Stored(mem, addr, block)[a..a + n] == mem[a..a + n]
  {
  }

  /** Memory after n rounds of the loop. */
  function Chunks(mem: Bytes, src: nat, dst: nat, n: nat): (mem': Bytes)
    requires src + 16 * n <= |mem| && dst + 16 * n <= |mem|
    ensures |mem'| == |mem|
  {
    if n == 0 then mem
    else Moved(Chunks(mem, src, dst, n - 1), src + 16 * (n - 1), dst + 16 * (n - 1), 16)
  }

  /** x3 after n rounds. */
  function Counter(size: nat, n: nat): nat {
    (size - 16 * n) % TWO_TO_64
  }

  /** The byte ranges [a, a + m) and [b, b + n) have an address in common. */
  predicate Meets(a: nat, m: nat, b: nat, n: nat) {
    m > 0 && n > 0 && a < b + n && b < a + m
  }

  /**
   How the stub ends: in the kernel, at an access outside memory, or about to store over its own code, from
   where on what it does is undefined.
   */
  datatype StubEnd = Branched | Faulted | Overwritten

  /**
   The stub, whose code of `codeSize` bytes lies at `code`; `rounds` counts the rounds it completes. Where it
   branches to the kernel, x0 and pc are what it does so with.
   */
  method XnuJumpStub(mem: array<Byte>, code: nat, codeSize: nat, newBootargsAddr: nat, imageAddr: nat, newBase: nat,
                     imageSize: nat, imageEntry: nat)
    returns (end: StubEnd, x0: nat, pc: nat, ghost rounds: nat)
    requires mem.Length < TWO_TO_64 && imageSize < TWO_TO_64
    requires imageAddr <= mem.Length && newBase <= mem.Length
    modifies mem
    ensures end.Branched? <==>
      && imageSize > 0 && imageSize % 16 == 0
      && imageAddr + imageSize <= mem.Length && newBase + imageSize <= mem.Length
      && !Meets(newBase, imageSize, code, codeSize)
    ensures imageAddr + 16 * rounds <= mem.Length && newBase + 16 * rounds <= mem.Length
    ensures mem[..] == Chunks(old(mem[..]), imageAddr, newBase, rounds)
    ensures !Meets(newBase, 16 * rounds, code, codeSize)
    ensures end.Branched? ==> 16 * rounds == imageSize && x0 == newBootargsAddr && pc == imageEntry
    ensures end.Faulted? <==>
      !end.Branched? && (imageAddr + 16 * rounds + 16 > mem.Length || newBase + 16 * rounds + 16 > mem.Length)
    ensures end.Overwritten? ==> Meets(newBase + 16 * rounds, 16, code, codeSize)
    ensures !end.Branched? && imageSize > 0 && imageSize % 16 == 0 ==> 16 * rounds < imageSize
  {
    hide Moved;
    var x1, x2, x3 := imageAddr, newBase, imageSize;
    x0, pc, rounds := newBootargsAddr, 0, 0;
    while true
      invariant x3 == Counter(imageSize, rounds)
      invariant forall n: nat | 1 <= n <= rounds :: Counter(imageSize, n) != 0
      invariant x1 == imageAddr + 16 * rounds <= mem.Length && x2 == newBase + 16 * rounds <= mem.Length
      invariant !Meets(newBase, 16 * rounds, code, codeSize)
      invariant mem[..] == Chunks(old(mem[..]), imageAddr, newBase, rounds)
      decreases mem.Length - x1
    {
      StubGoesOn(imageSize, rounds);
      if x1 + 16 > mem.Length || x2 + 16 > mem.Length {
        return Faulted, x0, pc, rounds;
      }
      if Meets(x2, 16, code, codeSize) {
        return Overwritten, x0, pc, rounds;
      }
      LoadStorePair(mem, x1, x2);
      x1 := x1 + 16;
      x2 := x2 + 16;
      CounterStep(imageSize, rounds);
      x3 := (x3 - 16) % TWO_TO_64;
      rounds := rounds + 1;
      if x3 == 0 {
        break;
      }
    }
    CounterEnds(imageSize, rounds);
    end, pc := Branched, imageEntry;
  }

  lemma CounterStep(size: nat, n: nat)
    ensures Counter(size, n + 1) == (Counter(size, n) - 16) % TWO_TO_64
  {
  }

  lemma CounterEnds(size: nat, n: nat)
    requires size < TWO_TO_64 && n >= 1 && 16 * n < TWO_TO_64 && Counter(size, n) == 0
    ensures size == 16 * n
  {
  }

  /** While the counter has not reached zero, a size it can reach zero from is not yet copied. */
  lemma StubGoesOn(size: nat, n: nat)
    requires forall i: nat | 1 <= i <= n :: Counter(size, i) != 0
    ensures size > 0 && size % 16 == 0 ==> 16 * n < size
  {
    if size > 0 && size % 16 == 0 {
      assert Counter(size, size / 16) == 0;
    }
  }

  // ldp x5, x6, [x1], #16; stp x5, x6, [x2]: both loads come before both stores.
  method LoadStorePair(mem: array<Byte>, x1: nat, x2: nat)
    requires x1 + 16 <= mem.Length && x2 + 16 <= mem.Length
    modifies mem
    ensures mem[..] == Moved(old(mem[..]), x1, x2, 16)
  {
    var x5, x6 := mem[x1..x1 + 8], mem[x1 + 8..x1 + 16];
    forall i | 0 <= i < 8 {
      mem[x2 + i] := x5[i];
    }
    forall i | 0 <= i < 8 {
      mem[x2 + 8 + i] := x6[i];
    }
    assert x5 + x6 == old(mem[..])[x1..x1 + 16];
  }

  /** The loop's exit is reached, ever, exactly when the size is a multiple of 16. */
  lemma StubStopsIff(size: nat)
    requires size < TWO_TO_64
    ensures (exists n: nat | n >= 1 :: Counter(size, n) == 0) <==> size % 16 == 0
  {
    if size % 16 == 0 {
      var n := if size == 0 then TWO_TO_64 / 16 else size / 16;
      assert Counter(size, n) == 0;
    }
  }

  /** With a size of 8 it never is. */
  lemma StubCanRunOn(n: nat)
    ensures n >= 1 ==> Counter(8, n) != 0
  {
  }

  /** And then after size / 16 rounds, except that size 0 takes 2^60 rounds. */
  lemma StubRounds(size: nat, n: nat)
    requires size < TWO_TO_64 && size % 16 == 0
    requires 1 <= n <= if size == 0 then TWO_TO_64 / 16 else size / 16
    ensures Counter(size, n) == 0 <==> n == if size == 0 then TWO_TO_64 / 16 else size / 16
  {
  }

  lemma NothingStored(mem: Bytes, addr: nat)
    requires addr <= |mem|
    ensures Stored(mem, addr, []) == mem
  {
  }

  /** Copying upwards is right when the destination is below the source, or beyond it. */
  lemma {:induction false} UpwardsIsMove(mem: Bytes, src: nat, dst: nat, n: nat, size: nat)
    requires 16 * n <= size && src + size <= |mem| && dst + size <= |mem|
    requires dst <= src || dst >= src + size
    ensures Chunks(mem, src, dst, n) == Moved(mem, src, dst, 16 * n)
  {
    hide Stored;
    if n == 0 {
      assert mem[src..src + 0] == [];
      NothingStored(mem, dst);
    } else {
      UpwardsIsMove(mem, src, dst, n - 1, size);
      var m, k := Moved(mem, src, dst, 16 * (n - 1)), 16 * (n - 1);
      SourceIntact(mem, src, dst, k);
      MoveMore(mem, src, dst, k);
    }
  }

  /** The next chunk of the source has not been written yet. */
  lemma SourceIntact(mem: Bytes, src: nat, dst: nat, k: nat)
    requires src + k + 16 <= |mem| && dst + k + 16 <= |mem|
    requires dst <= src || dst >= src + k + 16
    ensures Moved(mem, src, dst, k)[src + k..src + k + 16] == mem[src + k..src + k + 16]
  {
  }

  lemma MoveMore(mem: Bytes, src: nat, dst: nat, k: nat)
    requires src + k + 16 <= |mem| && dst + k + 16 <= |mem|
    ensures Stored(Moved(mem, src, dst, k), dst + k, mem[src + k..src + k + 16]) == Moved(mem, src, dst, k + 16)
  {
  }

  /** A memory that is zero except for one byte. */
  function OneByte(len: nat, a: nat): (mem: Bytes)
    ensures |mem| == len
  {
    seq(len, i => if i == a then 1 else 0)
  }

  lemma {:induction false} ZeroStaysZero(mem: Bytes, src: nat, dst: nat, n: nat)
    requires src + 16 * n <= |mem| && dst + 16 * n <= |mem| && n >= 1
    requires forall i | 0 <= i < |mem| :: Chunks(mem, src, dst, 1)[i] == 0
    ensures forall i | 0 <= i < |mem| :: Chunks(mem, src, dst, n)[i] == 0
  {
    if n > 1 {
      ZeroStaysZero(mem, src, dst, n - 1);
    }
  }

  /** With the destination inside the source, the byte at the first reused address is lost. */
  lemma OverlapLosesByte(len: nat, src: nat, dst: nat, n: nat) returns (mem: Bytes)
    requires src + 16 * n <= len && dst + 16 * n <= len
    requires n >= 2 && src < dst < src + 16 * n
    ensures |mem| == len && Chunks(mem, src, dst, n) != Moved(mem, src, dst, 16 * n)
  {
    var a := if dst < src + 16 then src + 16 else dst;
    mem := OneByte(len, a);
    FirstChunkClears(len, src, dst, a);
    ZeroStaysZero(mem, src, dst, n);
    assert Moved(mem, src, dst, 16 * n)[dst + (a - src)] == mem[a] == 1;
  }

  lemma FirstChunkClears(len: nat, src: nat, dst: nat, a: nat)
    requires src + 16 <= len && dst + 16 <= len
    requires src + 16 <= a && dst <= a < dst + 16
    ensures forall i | 0 <= i < len :: Chunks(OneByte(len, a), src, dst, 1)[i] == 0
  {
    assert Chunks(OneByte(len, a), src, dst, 0) == OneByte(len, a);
  }

  ghost predicate CorrectForAll(len: nat, src: nat, dst: nat, n: nat)
    requires src + 16 * n <= len && dst + 16 * n <= len
  {
    forall mem: Bytes | |mem| == len :: Chunks(mem, src, dst, n) == Moved(mem, src, dst, 16 * n)
  }

  /** The loop is a correct move, whatever memory holds, exactly in these cases. */
  lemma StubCorrectIff(len: nat, src: nat, dst: nat, n: nat)
    requires src + 16 * n <= len && dst + 16 * n <= len
    ensures CorrectForAll(len, src, dst, n) <==> dst <= src || dst >= src + 16 * n || n == 1
  {
    if dst <= src || dst >= src + 16 * n {
      forall mem: Bytes | |mem| == len
        ensures Chunks(mem, src, dst, n) == Moved(mem, src, dst, 16 * n)
      {
        UpwardsIsMove(mem, src, dst, n, 16 * n);
      }
    } else if n == 1 {
      forall mem: Bytes | |mem| == len
        ensures Chunks(mem, src, dst, n) == Moved(mem, src, dst, 16 * n)
      {
        assert Chunks(mem, src, dst, 0) == mem;
      }
    } else {
      var mem := OverlapLosesByte(len, src, dst, n);
    }
  }

  /** Bytes outside the destination keep their value: those below it, and those from its end on. */
  lemma OutsideStays(mem: Bytes, src: nat, dst: nat, n: nat, a: nat, size: nat)
    requires src + 16 * n <= |mem| && dst + 16 * n <= |mem| && a + size <= |mem|
    requires a + size <= dst || dst + 16 * n <= a
    ensures Chunks(mem, src, dst, n)[a..a + size] == mem[a..a + size]
  {
    hide Stored;
    if n != 0 {
      var before := Chunks(mem, src, dst, n - 1);
      OutsideStays(mem, src, dst, n - 1, a, size);
      var from, to := src + 16 * (n - 1), dst + 16 * (n - 1);
      StoredElsewhere(before, to, before[from..from + 16], a, size);
    }
  }

  /** Equal bytes are copied as such, wherever the destination lies. */
  lemma ConstantCopied(mem: Bytes, src: nat, dst: nat, n: nat, v: Byte, i: nat)
    requires src + 16 * n <= |mem| && dst + 16 * n <= |mem|
    requires forall a | src <= a < src + 16 * n :: mem[a] == v
    requires dst <= i < dst + 16 * n
    ensures Chunks(mem, src, dst, n)[i] == v
  {
    ConstantAfter(mem, src, dst, n, n, v);
  }

  lemma {:induction false} ConstantAfter(mem: Bytes, src: nat, dst: nat, n: nat, k: nat, v: Byte)
    requires src + 16 * n <= |mem| && dst + 16 * n <= |mem| && k <= n
    requires forall a | src <= a < src + 16 * n :: mem[a] == v
    ensures forall a | src <= a < src + 16 * n :: Chunks(mem, src, dst, k)[a] == v
    ensures forall a | dst <= a < dst + 16 * k :: Chunks(mem, src, dst, k)[a] == v
  {
    if k != 0 {
      ConstantAfter(mem, src, dst, n, k - 1, v);
    }
  }
}
