/** Address ranges and their hull. */
module AddrRanges {
  import opened Bits

  const MAX: nat := TWO_TO_64 - 1

  datatype Range = Range(min: nat, max: nat)

  const NULL: Range := Range(MAX, 0)

  /** The null range, or an ordered pair of 64-bit addresses. */
  predicate IsRange(r: Range) {
    r == NULL || r.min <= r.max <= MAX
  }

  function Size(r: Range): nat {
    (r.max - r.min) % TWO_TO_64
  }

  function Min(a: nat, b: nat): nat {
    if b < a then b else a
  }

  function Max(a: nat, b: nat): nat {
    if a < b then b else a
  }

  function Join(a: Range, b: Range): Range {
    if b == NULL then a
    else if a == NULL then b
    else Range(Min(a.min, b.min), Max(a.max, b.max))
  }

  function Shift(r: Range, d: nat): Range {
    if r == NULL then r else Range((r.min - d) % TWO_TO_64, (r.max - d) % TWO_TO_64)
  }

  class AddrRange {
    var min: nat
    var max: nat

    function Value(): Range
      reads this
    {
      Range(min, max)
    }

    constructor ()
      ensures Value() == NULL
    {
      min, max := MAX, 0;
    }

    predicate IsNull()
      reads this
    {
      min == MAX && max == 0
    }

    // operator|=
    method JoinWith(rhs: Range)
      modifies this
      ensures Value() == Join(old(Value()), rhs)
    {
      if rhs.min == MAX && rhs.max == 0 {
        return;
      }
      if IsNull() {
        min, max := rhs.min, rhs.max;
      } else {
        min := Min(min, rhs.min);
        max := Max(max, rhs.max);
      }
    }

    // operator-=
    method ShiftBy(rhs: nat)
      modifies this
      ensures Value() == Shift(old(Value()), rhs)
    {
      if IsNull() {
        return;
      }
      min := (min - rhs) % TWO_TO_64;
      max := (max - rhs) % TWO_TO_64;
    }
  }

  function Collapse(rs: seq<Range>): Range {
    if rs == [] then NULL else Join(Collapse(rs[..|rs| - 1]), rs[|rs| - 1])
  }

  method CollapseRange(rs: seq<Range>) returns (r: Range)
    ensures r == Collapse(rs)
  {
    var res := new AddrRange();
    for i := 0 to |rs|
      invariant fresh(res) && res.Value() == Collapse(rs[..i])
    {
      assert rs[..i + 1][..i] == rs[..i];
      res.JoinWith(rs[i]);
    }
    assert rs[..|rs|] == rs;
    r := res.Value();
  }

  /** Both ends of the hull lie in the list, and it reaches over every range of the list. */
  ghost predicate IsHull(rs: seq<Range>, h: Range) {
    && (forall i | 0 <= i < |rs| && rs[i] != NULL :: h.min <= rs[i].min && rs[i].max <= h.max)
    && (exists i | 0 <= i < |rs| :: rs[i] != NULL && rs[i].min == h.min)
    && (exists i | 0 <= i < |rs| :: rs[i] != NULL && rs[i].max == h.max)
  }

  ghost predicate AllNull(rs: seq<Range>) {
    forall i | 0 <= i < |rs| :: rs[i] == NULL
  }

  lemma HullOneMore(rs: seq<Range>, h: Range, r: Range)
    requires IsHull(rs, h) && IsRange(h) && IsRange(r) && h != NULL
    ensures IsHull(rs + [r], Join(h, r))
  {
    var rs' := rs + [r];
    var lo :| 0 <= lo < |rs| && rs[lo] != NULL && rs[lo].min == h.min;
    var hi :| 0 <= hi < |rs| && rs[hi] != NULL && rs[hi].max == h.max;
    assert rs'[lo] == rs[lo] && rs'[hi] == rs[hi] && rs'[|rs|] == r;
  }

  lemma HullFirst(rs: seq<Range>, r: Range)
    requires AllNull(rs) && r != NULL
    ensures IsHull(rs + [r], r)
  {
    assert (rs + [r])[|rs|] == r;
  }

  /** Collapsing gives the null range when there is nothing to cover, and the hull otherwise. */
  lemma {:induction false} CollapseIsHull(rs: seq<Range>)
    requires forall i | 0 <= i < |rs| :: IsRange(rs[i])
    ensures IsRange(Collapse(rs))
    ensures Collapse(rs) == NULL <==> AllNull(rs)
    ensures !AllNull(rs) ==> IsHull(rs, Collapse(rs))
  {
    if rs != [] {
      var rs', r := rs[..|rs| - 1], rs[|rs| - 1];
      assert rs == rs' + [r];
      CollapseIsHull(rs');
      if Collapse(rs') != NULL {
        HullOneMore(rs', Collapse(rs'), r);
        assert !AllNull(rs');
        var i :| 0 <= i < |rs'| && rs'[i] != NULL;
        assert rs[i] != NULL;
      } else if r != NULL {
        HullFirst(rs', r);
      }
    }
  }

  lemma HullReaches(rs: seq<Range>, ss: seq<Range>, h: Range, h': Range)
    requires forall r | r in rs :: r in ss
    requires IsHull(rs, h) && IsHull(ss, h')
    ensures h'.min <= h.min && h.max <= h'.max
  {
    var lo :| 0 <= lo < |rs| && rs[lo] != NULL && rs[lo].min == h.min;
    var hi :| 0 <= hi < |rs| && rs[hi] != NULL && rs[hi].max == h.max;
    assert rs[lo] in ss && rs[hi] in ss;
  }

  lemma NullsAgree(rs: seq<Range>, ss: seq<Range>)
    requires forall r | r in rs :: r in ss
    ensures AllNull(ss) ==> AllNull(rs)
  {
    forall i | 0 <= i < |rs| && AllNull(ss) ensures rs[i] == NULL {
      assert rs[i] in ss;
    }
  }

  /** The order of the segments, and how often one occurs, do not matter to the hull. */
  lemma CollapseOfSet(rs: seq<Range>, ss: seq<Range>)
    requires forall i | 0 <= i < |rs| :: IsRange(rs[i])
    requires forall i | 0 <= i < |ss| :: IsRange(ss[i])
    requires forall r :: r in rs <==> r in ss
    ensures Collapse(rs) == Collapse(ss)
  {
    CollapseIsHull(rs);
    CollapseIsHull(ss);
    NullsAgree(rs, ss);
    NullsAgree(ss, rs);
    if !AllNull(rs) {
      HullReaches(rs, ss, Collapse(rs), Collapse(ss));
      HullReaches(ss, rs, Collapse(ss), Collapse(rs));
    }
  }

  /** A range's size is the distance of its ends; the null range has size 1, by wrapping. */
  lemma SizeExact(r: Range)
    requires IsRange(r)
    ensures Size(r) == if r == NULL then 1 else r.max - r.min
  {
    if r != NULL {
      ModUnique(r.max - r.min, TWO_TO_64, 0, r.max - r.min);
    }
  }

  /** Shifting takes the distance away from both ends: adding it again gives them back. */
  lemma ShiftSubtracts(r: Range, d: nat)
    requires IsRange(r)
    ensures r == NULL ==> Shift(r, d) == NULL
    ensures r != NULL ==> (Shift(r, d).min + d) % TWO_TO_64 == r.min && (Shift(r, d).max + d) % TWO_TO_64 == r.max
  {
    if r != NULL {
      ModBack(r.min, d);
      ModBack(r.max, d);
    }
  }

  lemma ModBack(a: nat, d: nat)
    requires a < TWO_TO_64
    ensures ((a - d) % TWO_TO_64 + d) % TWO_TO_64 == a
  {
    var q, r := (a - d) / TWO_TO_64, (a - d) % TWO_TO_64;
    ModUnique(r + d, TWO_TO_64, -q, a);
  }

  /** Shifting keeps the size. */
  lemma ShiftKeepsSize(r: Range, d: nat)
    requires IsRange(r)
    ensures Size(Shift(r, d)) == Size(r)
  {
    if r != NULL {
      ModDifference(r.min - d, r.max - d);
    }
  }

  lemma ModDifference(a: int, b: int)
    ensures (b % TWO_TO_64 - a % TWO_TO_64) % TWO_TO_64 == (b - a) % TWO_TO_64
  {
  }
}
