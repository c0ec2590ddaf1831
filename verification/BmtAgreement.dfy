/** The concurrent hasher and the reference hasher give every chunk the same hash. */
module BmtAgreement {
  import opened Wrappers
  import opened BmtSpec
  import opened BmtMachine
  import opened BmtInvariant
  import opened BmtHasher

  function Flat(parts: seq<Bytes>): Bytes {
    if parts == [] then [] else Flat(parts[..|parts| - 1]) + parts[|parts| - 1]
  }

  function Truncated(d: Bytes, capacity: nat): Bytes {
    if |d| > capacity then d[..capacity] else d
  }

  /** The reference hasher for `count` segments. */
  method Reference(H: Hash, size: nat, count: nat, d: Bytes) returns (h: Bytes, span: nat)
    requires size > 0 && count > 0
    ensures IsSpan(size, span) && Offset(size, 1, LeafCount(count)) <= 2 * span
    ensures h == RefHash(H, size, Truncated(d, Capacity(size, count)), span)
  {
    hide Capacity, Offset, RefHash;
    var s := RefSpan(size, count);
    SpanHolds(size, count, s);
    var cap := Cap(size, count);
    var data := d;
    if |data| > cap {
      data := data[..cap];
    }
    h := HashSections(H, size, data, s);
    span := s;
  }

  method Cap(size: nat, count: nat) returns (cap: nat)
    ensures cap == Capacity(size, count)
  {
    CapacityIs(size, count);
    cap := size * count;
  }

  lemma SpanHolds(size: nat, count: nat, span: nat)
    requires size * ((count + 1) / 2) <= span
    ensures Offset(size, 1, LeafCount(count)) <= 2 * span
  {
    var leaves := LeafCount(count);
    OffsetLeaf(size, leaves);
    assert 2 * size * leaves == 2 * (size * leaves);
  }

  /** A write keeps of the chunk so far what the reference hasher would keep. */
  lemma KeepsTruncated(size: nat, count: nat, cur: nat, partial: nat, w: Bytes, d: Bytes, b: Bytes)
    requires size > 0 && count > 0 && cur < LeafCount(count) && partial <= 2 * size
    requires w == Truncated(d, Capacity(size, count)) && Offset(size, 1, cur) + partial == |w|
    requires count % 2 == 0 || |d| + |b| <= Capacity(size, count)
    ensures var n := Accepted(size, count, cur, partial, |b|);
            0 <= n <= |b| && w + b[..n] == Truncated(d + b, Capacity(size, count))
  {
    hide Capacity, Offset, LeafCount, Accepted;
    AcceptedTruncates(size, count, cur, partial, |b|);
  }

  /**
  However a chunk is split into writes, and however the goroutines interleave. What exceeds the
  capacity is cut off; of a chunk with an odd number of segments nothing may exceed it.
  */
  method HashInParts(h: Hasher, parts: seq<Bytes>) returns (r: Bytes, ref: Bytes, ghost span: nat)
    requires h.Valid() && !h.open && h.uses < LIFETIME
    requires h.count % 2 == 0 || |Flat(parts)| <= Capacity(h.size, h.count)
    modifies h
    ensures IsSpan(h.size, span) && Offset(h.size, 1, LeafCount(h.count)) <= 2 * span
    ensures r == ref == RefHash(h.H, h.size, Truncated(Flat(parts), Capacity(h.size, h.count)), span)
    ensures h.Valid() && !h.open && h.uses == old(h.uses) + 1
  {
    hide Hasher.UnderWay, Hasher.AtRest, RefHash, Accepted, Capacity, Offset, Width, LeafCount;
    ref, span := Reference(h.H, h.size, h.count, Flat(parts));
    h.Reset();
    for i := 0 to |parts|
      invariant h.Valid() && h.open && h.blockLength == None && h.uses == old(h.uses)
      invariant h.written == Truncated(Flat(parts[..i]), Capacity(h.size, h.count))
    {
      FlatGrows(parts, i);
      KeepsTruncated(h.size, h.count, h.cur, |h.segment|, h.written, Flat(parts[..i]), parts[i]);
      var n := h.Write(parts[i]);
    }
    assert parts[..|parts|] == parts;
    r := h.Sum(span);
  }

  lemma {:induction false} FlatGrows(parts: seq<Bytes>, i: nat)
    requires i < |parts|
    ensures Flat(parts[..i + 1]) == Flat(parts[..i]) + parts[i]
    ensures |Flat(parts[..i])| + |parts[i]| <= |Flat(parts)|
    decreases |parts|
  {
    assert parts[..i + 1][..i] == parts[..i];
    if i + 1 < |parts| {
      var init := parts[..|parts| - 1];
      FlatGrows(init, i);
      assert init[..i] == parts[..i] && init[..i + 1] == parts[..i + 1];
    } else {
      assert parts[..i + 1] == parts;
    }
  }

  /** A chunk of any length written at once, of which what exceeds the capacity is cut off. */
  method HashAtOnce(h: Hasher, b: Bytes) returns (r: Bytes, ref: Bytes, ghost span: nat)
    requires h.Valid() && !h.open && h.uses < LIFETIME
    modifies h
    ensures IsSpan(h.size, span) && Offset(h.size, 1, LeafCount(h.count)) <= 2 * span
    ensures r == ref == RefHash(h.H, h.size, Truncated(b, Capacity(h.size, h.count)), span)
    ensures h.Valid() && !h.open && h.uses == old(h.uses) + 1
  {
    hide Hasher.UnderWay, RefHash, Capacity, Width, LeafCount;
    ref, span := Reference(h.H, h.size, h.count, b);
    h.Reset();
    AcceptedTruncates(h.size, h.count, 0, 0, |b|);
    var n := h.Write(b);
    assert h.written == Truncated(b, Capacity(h.size, h.count));
    r := h.Sum(span);
  }
}
