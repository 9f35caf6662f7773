/**
 The growable array whose elements never move: a table of bins of 16 elements,
 allocated when first indexed.  Only the table is reallocated.
 */
module GrowArray {
  import opened Common
  import opened MapTypes

  const PER_BIN: nat := 16
  const MAX_ELEMENTS: nat := 0x1_0000  // 1 << QB_ARRAY_MAX_INDEX_BITS
  const MAX_BINS: nat := 0x1000         // 1 << (16 - 4)

  /** An element's address: its bin and its place in it. */
  datatype Address = Address(bin: Ptr, elem: nat)

  datatype Outcome = Placed(at: Address) | OutOfRange | Invalid

  function BinOf(i: nat): (b: nat) {
    i / PER_BIN
  }

  function ElemOf(i: nat): (e: nat)
    ensures e < PER_BIN
  {
    i % PER_BIN
  }

  class GrowingArray {
    var bins: seq<Ptr>        // NULL: not allocated
    var maxElements: nat
    var autogrow: nat
    var unused: Ptr           // addresses from here on are free
    ghost var given: map<nat, Address>  // every address ever handed out

    ghost predicate Valid()
      reads this
    {
      && maxElements <= MAX_ELEMENTS && unused != NULL
      && (forall b :: 0 <= b < |bins| ==> bins[b] < unused)
      && (forall b, c :: 0 <= b < c < |bins| && bins[b] != NULL ==> bins[b] != bins[c])
      && (forall i :: i in given ==> i < maxElements && BinOf(i) < |bins| && bins[BinOf(i)] != NULL)
      && (forall i :: i in given ==> given[i] == Address(bins[BinOf(i)], ElemOf(i)))
    }

    /** lib/array.c: qb_array_create_2, for sizes that it does not reject. */
    constructor (max: nat, auto: nat)
      requires max <= MAX_ELEMENTS && auto <= PER_BIN
      ensures Valid() && given == map[] && maxElements == max && autogrow == auto
    {
      maxElements, autogrow := max, auto;
      bins := seq(Min(max / PER_BIN + 1, MAX_BINS), _ => NULL);
      unused, given := 1, map[];
    }

    /** lib/array.c: _grow_bin_array. */
    method GrowBins(size: nat)
      requires Valid() && size >= |bins|
      modifies this`bins
      ensures Valid() && |bins| == size && old(bins) <= bins
    {
      bins := bins + seq(size - |bins|, _ => NULL);
    }

    /** lib/array.c: qb_array_grow. */
    method Grow(max: nat) returns (ok: bool)
      requires Valid()
      modifies this`bins, this`maxElements
      ensures Valid()
      ensures ok <==> max <= MAX_ELEMENTS
      ensures maxElements == if ok && max > old(maxElements) then max else old(maxElements)
      ensures old(bins) <= bins
    {
      if max > MAX_ELEMENTS {
        return false;
      }
      if max > maxElements {
        maxElements := max;
        var b := Min(max / PER_BIN + 1, MAX_BINS);
        if b > |bins| {
          GrowBins(b + 1);
        }
      }
      return true;
    }

    /**
     lib/array.c: qb_array_index.  An index that was ever answered is answered with
     the same address for good, and no two indices share one.
     */
    method Index(idx: int) returns (r: Outcome)
      requires Valid()
      modifies this
      ensures Valid()
      ensures r.OutOfRange? <==> idx < 0 || (idx >= old(maxElements) && autogrow == 0)
      ensures r.Invalid? <==> !r.OutOfRange? && idx >= MAX_ELEMENTS
      ensures given == if r.Placed? then old(given)[idx := r.at] else old(given)
      ensures idx in old(given) && r.Placed? ==> r.at == old(given)[idx]
      ensures autogrow == old(autogrow) && maxElements >= old(maxElements)
    {
      hide Valid, BinOf, ElemOf;
      if idx < 0 {
        return OutOfRange;
      }
      if idx >= maxElements {
        if autogrow == 0 {
          return OutOfRange;
        }
        var ok := Grow(idx + 1);
        if !ok {
          return Invalid;
        }
      }
      EnsureBin(BinOf(idx));
      r := Placed(Address(bins[BinOf(idx)], ElemOf(idx)));
      Give(idx);
    }

    /** The bin is there after this; bins that were there are left alone. */
    method EnsureBin(b: nat)
      requires Valid()
      modifies this`bins, this`unused
      ensures Valid() && b < |bins| && bins[b] != NULL
    {
      if b >= |bins| || bins[b] == NULL {
        if b >= |bins| {
          GrowBins(b + 1);
        }
        if bins[b] == NULL {
          NewBin(b);
        }
      }
    }

    ghost method Give(idx: nat)
      requires Valid() && idx < maxElements && BinOf(idx) < |bins| && bins[BinOf(idx)] != NULL
      modifies this`given
      ensures Valid() && given == old(given)[idx := Address(bins[BinOf(idx)], ElemOf(idx))]
      ensures idx in old(given) ==> given == old(given)
    {
      hide BinOf, ElemOf;
      given := given[idx := Address(bins[BinOf(idx)], ElemOf(idx))];
    }

    method NewBin(b: nat)
      requires Valid() && b < |bins| && bins[b] == NULL
      modifies this`bins, this`unused
      ensures Valid() && |bins| == |old(bins)| && bins[b] != NULL
    {
      bins, unused := bins[b := unused], unused + 1;
    }

    /** No two elements share an address. */
    lemma NoAliases(i: nat, j: nat)
      requires Valid() && i in given && j in given && i != j
      ensures given[i] != given[j]
    {
      var b, c := BinOf(i), BinOf(j);
      if b == c {
        assert ElemOf(i) != ElemOf(j);
      } else if b < c {
        assert bins[b] != bins[c];
      } else {
        assert bins[c] != bins[b];
      }
    }
  }
}
