/** The single-threaded ring buffer over doubly mapped memory. */
module RingBuffers {
  import opened Bits
  import opened Wrappers

  /** Memory after storing xs one at a time from raw index wr on. */
  function Stored<T>(mem: seq<T>, wr: nat, xs: seq<T>): (mem': seq<T>)
    requires |mem| >= 1
    ensures |mem'| == |mem|
  {
    if xs == [] then mem
    else
      var m := |xs| - 1;
      Stored(mem, wr, xs[..m])[(wr + m) % |mem| := xs[m]]
  }

  /** The elements at raw indices rd, ..., wr - 1. */
  function Window<T>(mem: seq<T>, rd: nat, wr: nat): (xs: seq<T>)
    requires |mem| >= 1 && rd <= wr
    ensures |xs| == wr - rd
  {
    seq(wr - rd, i requires 0 <= i < wr - rd => mem[(rd + i) % |mem|])
  }

  /** Storing beyond the window appends to it as long as no slot is used twice. */
  lemma {:induction false} WindowOfStored<T>(mem: seq<T>, rd: nat, wr: nat, xs: seq<T>)
    requires |mem| >= 1 && rd <= wr && wr + |xs| - rd <= |mem|
    ensures Window(Stored(mem, wr, xs), rd, wr + |xs|) == Window(mem, rd, wr) + xs
  {
    if xs != [] {
      var m := |xs| - 1;
      WindowOfStored(mem, rd, wr, xs[..m]);
      StoreAtEnd(Stored(mem, wr, xs[..m]), rd, wr + m, xs[m]);
    }
  }

  lemma StoreAtEnd<T>(mem: seq<T>, rd: nat, wr: nat, x: T)
    requires |mem| >= 1 && rd <= wr < rd + |mem|
    ensures Window(mem[wr % |mem| := x], rd, wr + 1) == Window(mem, rd, wr) + [x]
  {
    var mem' := mem[wr % |mem| := x];
    forall i | 0 <= i < wr - rd
      ensures Window(mem', rd, wr + 1)[i] == Window(mem, rd, wr)[i]
    {
      ModDistinct(rd + i, wr, |mem|);
    }
    assert Window(mem', rd, wr + 1)[wr - rd] == x;
  }

  lemma DropFirst<T>(mem: seq<T>, rd: nat, wr: nat)
    requires |mem| >= 1 && rd < wr
    ensures Window(mem, rd + 1, wr) == Window(mem, rd, wr)[1..]
    ensures Window(mem, rd, wr)[0] == mem[rd % |mem|]
  {
  }

  /** Index wr under the mask, advanced by i within both mappings, is the physical slot of wr + i. */
  lemma MaskedOffset(logSize: nat, wr: nat, i: nat)
    ensures And(wr, 2 * Pow2(logSize) - 1) < 2 * Pow2(logSize)
    ensures (And(wr, 2 * Pow2(logSize) - 1) + i) % Pow2(logSize) == (wr + i) % Pow2(logSize)
  {
    MaskIndex(wr, logSize);
    ModMod(wr, Pow2(logSize), i);
  }

  lemma MaskedSlot(logSize: nat, raw: nat)
    ensures And(raw, 2 * Pow2(logSize) - 1) % Pow2(logSize) == raw % Pow2(logSize)
  {
    MaskedOffset(logSize, raw, 0);
  }

  lemma StoredOneMore<T>(mem: seq<T>, wr: nat, xs: seq<T>, i: nat)
    requires |mem| >= 1 && i < |xs|
    ensures Stored(mem, wr, xs[..i + 1]) == Stored(mem, wr, xs[..i])[(wr + i) % |mem| := xs[i]]
  {
    assert xs[..i + 1][..i] == xs[..i];
  }

  lemma StoredOne<T>(mem: seq<T>, wr: nat, x: T)
    requires |mem| >= 1
    ensures Stored(mem, wr, [x]) == mem[wr % |mem| := x]
  {
    assert Stored(mem, wr, [x][..0]) == mem;
  }

  lemma {:induction false} StoredAtMask<T>(mem: seq<T>, logSize: nat, wr: nat, xs: seq<T>)
    requires |mem| == Pow2(logSize)
    ensures Stored(mem, And(wr, 2 * Pow2(logSize) - 1), xs) == Stored(mem, wr, xs)
  {
    if xs != [] {
      StoredAtMask(mem, logSize, wr, xs[..|xs| - 1]);
      MaskedOffset(logSize, wr, |xs| - 1);
    }
  }

  class RingBuffer<T> {
    const logSize: nat
    // Buffer element v < 2 * Size(), in either mapping, is mBuf[v % Size()].
    const mBuf: array<T>
    var rdIdxRaw: nat
    var wrIdxRaw: nat
    var done: bool

    function Size(): (n: nat)
      ensures n >= 1
    {
      Pow2(logSize)
    }

    ghost predicate Valid()
      reads this
    {
      && mBuf.Length == Size()
      && 2 * Size() <= TWO_TO_64
      && rdIdxRaw <= wrIdxRaw < TWO_TO_64
      && wrIdxRaw - rdIdxRaw < Size()
    }

    ghost function Contents(): (q: seq<T>)
      requires Valid()
      reads this, mBuf
      ensures |q| < Size()
    {
      Window(mBuf[..], rdIdxRaw, wrIdxRaw)
    }

    constructor (logSize: nat, zero: T)
      requires 2 * Pow2(logSize) <= TWO_TO_64
      ensures Valid() && this.logSize == logSize && fresh(mBuf)
      ensures Contents() == [] && !done
    {
      this.logSize := logSize;
      mBuf := new T[Pow2(logSize)](_ => zero);
      rdIdxRaw, wrIdxRaw, done := 0, 0, false;
    }

    function RdIdx(): nat
      reads this
    {
      And(rdIdxRaw, 2 * Size() - 1)
    }

    function WrIdx(): nat
      reads this
    {
      And(wrIdxRaw, 2 * Size() - 1)
    }

    method Count() returns (r: nat)
      requires Valid()
      ensures r == |Contents()|
    {
      var rd := rdIdxRaw;
      var wr := wrIdxRaw;
      ModUnique(wr - rd, TWO_TO_64, 0, wr - rd);
      r := (wr - rd) % TWO_TO_64;
    }

    method Remaining() returns (r: nat)
      requires Valid()
      ensures r + |Contents()| == Size() - 1
    {
      var count := Count();
      r := Size() - 1 - count;
    }

    // The comparison wraps in 64 bits and is still exact.
    method Full() returns (r: bool)
      requires Valid()
      ensures r <==> |Contents()| == Size() - 1
    {
      var wr := wrIdxRaw;
      var rdFullVal := (wr - Size() + 1) % TWO_TO_64;
      var rd := rdIdxRaw;
      FullTestExact(rd, wr, Size());
      r := rd == rdFullVal;
    }

    method Empty() returns (r: bool)
      requires Valid()
      ensures r <==> Contents() == []
    {
      var rd := rdIdxRaw;
      var wr := wrIdxRaw;
      r := rd == wr;
    }

    method Emplace(x: T) returns (res: T)
      requires Valid() && |Contents()| < Size() - 1 && wrIdxRaw + 1 < TWO_TO_64
      modifies this`wrIdxRaw, mBuf
      ensures Valid() && res == x
      ensures mBuf[..] == Stored(old(mBuf[..]), old(wrIdxRaw), [x])
      ensures Contents() == old(Contents()) + [x]
    {
      var slot := WrIdx() % Size();
      MaskedSlot(logSize, wrIdxRaw);
      StoredOne(mBuf[..], wrIdxRaw, x);
      mBuf[slot] := x;
      WindowOfStored(old(mBuf[..]), rdIdxRaw, wrIdxRaw, [x]);
      wrIdxRaw := wrIdxRaw + 1;
      res := mBuf[slot];
    }

    // memcpy to &mBuf[base], running on from the first mapping into the second
    method CopyBlock(base: nat, span: seq<T>)
      requires mBuf.Length == Size() && base + |span| <= 2 * Size()
      modifies mBuf
      ensures mBuf[..] == Stored(old(mBuf[..]), base, span)
    {
      for i := 0 to |span|
        invariant mBuf[..] == Stored(old(mBuf[..]), base, span[..i])
      {
        StoredOneMore(old(mBuf[..]), base, span, i);
        mBuf[(base + i) % mBuf.Length] := span[i];
      }
      assert span[..|span|] == span;
    }

    /**
     Copies the whole span behind the write index in one block. Nothing in the interface keeps the
     block inside the two mappings; the result says whether it stayed there. Outside, the original
     writes foreign memory, and nothing further is modelled.
     */
    method EmplaceMultiple(span: seq<T>) returns (inside: bool)
      requires Valid() && |span| + |Contents()| <= Size() - 1 && wrIdxRaw + |span| < TWO_TO_64
      modifies this`wrIdxRaw, mBuf
      ensures Valid()
      ensures inside <==> old(WrIdx()) + |span| <= 2 * Size()
      ensures inside ==> mBuf[..] == Stored(old(mBuf[..]), old(wrIdxRaw), span)
      ensures inside ==> wrIdxRaw == old(wrIdxRaw) + |span|
      ensures inside ==> Contents() == old(Contents()) + span
    {
      inside := WrIdx() + |span| <= 2 * Size();
      if inside {
        CopyBlock(WrIdx(), span);
        StoredAtMask(old(mBuf[..]), logSize, wrIdxRaw, span);
        WindowOfStored(old(mBuf[..]), rdIdxRaw, wrIdxRaw, span);
        wrIdxRaw := wrIdxRaw + |span|;
      }
    }

    method Peek() returns (r: Option<T>)
      requires Valid()
      ensures r == if Contents() == [] then None else Some(Contents()[0])
    {
      var empty := Empty();
      if empty {
        return None;
      }
      MaskedSlot(logSize, rdIdxRaw);
      r := Some(mBuf[RdIdx() % Size()]);
    }

    method Pop() returns (r: Option<T>)
      requires Valid()
      modifies this`rdIdxRaw
      ensures Valid()
      ensures old(Contents()) == [] ==> r == None && Contents() == []
      ensures old(Contents()) != [] ==> r == Some(old(Contents()[0])) && Contents() == old(Contents())[1..]
    {
      var empty := Empty();
      if empty {
        return None;
      }
      MaskedSlot(logSize, rdIdxRaw);
      DropFirst(mBuf[..], rdIdxRaw, wrIdxRaw);
      r := Some(mBuf[RdIdx() % Size()]);
      rdIdxRaw := rdIdxRaw + 1;
    }

    method Finish()
      requires Valid() && !done
      modifies this`done
      ensures Valid() && done && Contents() == old(Contents())
    {
      done := true;
    }

    method Clear(zero: T)
      requires Valid()
      modifies this, mBuf
      ensures Valid() && Contents() == [] && !done
      ensures forall j | 0 <= j < mBuf.Length :: mBuf[j] == zero
    {
      rdIdxRaw := 0;
      wrIdxRaw := 0;
      forall j | 0 <= j < mBuf.Length {
        mBuf[j] := zero;
      }
      done := false;
    }
  }

  /** Storing a span is storing its elements one push after the other. */
  lemma {:induction false} StoredIsPushes<T>(mem: seq<T>, wr: nat, xs: seq<T>, ys: seq<T>)
    requires |mem| >= 1
    ensures Stored(mem, wr, xs + ys) == Stored(Stored(mem, wr, xs), wr + |xs|, ys)
  {
    if ys == [] {
      assert xs + ys == xs;
    } else {
      var m := |ys| - 1;
      StoredIsPushes(mem, wr, xs, ys[..m]);
      assert (xs + ys)[..|xs| + m] == xs + ys[..m];
    }
  }

  /**
   The assertion `span.size() <= remaining()` does not keep the block inside the mappings: for every
   buffer and every span of two or more elements there is an empty buffer that accepts it and overruns.
   */
  lemma RemainingDoesNotBoundBlock(logSize: nat, len: nat) returns (wr: nat)
    requires 2 <= len <= Pow2(logSize) - 1
    ensures And(wr, 2 * Pow2(logSize) - 1) + len > 2 * Pow2(logSize)
  {
    wr := 2 * Pow2(logSize) - 1;
    MaskIndex(wr, logSize);
    ModUnique(wr, 2 * Pow2(logSize), 0, wr);
  }
}
