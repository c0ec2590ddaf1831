/**
The value a binary Merkle tree gives to a chunk of data, and the reference hasher.

Positions in the tree are counted from the data upwards. A position of height 0 is a single
segment, height 1 is a leaf node (a pair of segments), and a position of height `h` covers
`2^h` segments. `Value` is the value a position passes to its parent.
*/
module BmtSpec {

  type Byte = x: int | 0 <= x < 256
  type Bytes = seq<Byte>
  type Hash = Bytes -> Bytes

  /** The bytes covered by a position of height `h` over segments of `size` bytes. */
  function Width(size: nat, h: nat): (w: nat)
    ensures size > 0 ==> w > 0
  {
    if h == 0 then size else 2 * Width(size, h - 1)
  }

  lemma {:induction false} WidthMonotonic(size: nat, g: nat, h: nat)
    requires g <= h
    ensures Width(size, g) <= Width(size, h)
  {
    if g < h {
      WidthMonotonic(size, g, h - 1);
    }
  }

  /**
  The Merkle value of a block of at most `Width(size, h)` bytes: a block that fits in the left
  half is passed up unchanged by this level, any other is the hash of the values of its halves.
  */
  function Value(H: Hash, size: nat, h: nat, block: Bytes): Bytes {
    if h == 0 then
      block
    else
      var half := Width(size, h - 1);
      if |block| <= half then
        Value(H, size, h - 1, block)
      else
        H(Value(H, size, h - 1, block[..half]) + Value(H, size, h - 1, block[half..]))
  }

  /** Levels that are wider than twice the block add nothing to its value. */
  lemma {:induction false} ValueLift(H: Hash, size: nat, g: nat, h: nat, block: Bytes)
    requires g <= h
    requires |block| <= Width(size, g)
    ensures Value(H, size, g, block) == Value(H, size, h, block)
  {
    if g < h {
      WidthMonotonic(size, g, h - 1);
      ValueLift(H, size, g, h - 1, block);
    }
  }

  // ----- the reference hasher -----

  /** The spans of the reference hasher: a double segment, doubled any number of times. */
  predicate IsSpan(size: nat, s: nat) {
    s == 2 * size || (s > 2 * size && s % 2 == 0 && IsSpan(size, s / 2))
  }

  /** The span left by the loop that halves `s` until it is below the length `l`. */
  function Halved(s: nat, l: nat): (r: nat)
    requires l > 0
    ensures r < l && r <= s
    ensures s >= l ==> 2 * r + 1 >= l
  {
    if s >= l then Halved(s / 2, l) else s
  }

  lemma {:induction false} HalvedIsSpan(size: nat, s: nat, l: nat)
    requires IsSpan(size, s) && l > 2 * size
    ensures IsSpan(size, Halved(s, l))
  {
    if s >= l {
      HalvedIsSpan(size, s / 2, l);
    }
  }

  /** The recursion of the reference hasher over the bytes `d` with span `s`. */
  function RefHash(H: Hash, size: nat, d: Bytes, s: nat): Bytes
    requires size > 0 && IsSpan(size, s)
    decreases |d|
  {
    if |d| <= 2 * size then
      H(d)
    else
      HalvedIsSpan(size, s, |d|);
      var s' := Halved(s, |d|);
      var left := RefHash(H, size, d[..s'], s');
      var right := if |d| - s' > size then RefHash(H, size, d[s'..], s') else d[s'..];
      H(left + right)
  }

  lemma {:induction false} SpanIsWidth(size: nat, s: nat) returns (j: nat)
    requires IsSpan(size, s)
    ensures j > 0 && s == Width(size, j)
  {
    if s == 2 * size {
      j := 1;
      assert Width(size, 1) == 2 * Width(size, 0);
    } else {
      j := SpanIsWidth(size, s / 2);
      j := j + 1;
    }
  }

  lemma {:induction false} WidthIsSpan(size: nat, j: nat)
    requires size > 0 && j > 0
    ensures IsSpan(size, Width(size, j))
  {
    assert Width(size, 1) == 2 * Width(size, 0);
    if j > 1 {
      WidthIsSpan(size, j - 1);
      WidthMonotonic(size, 1, j - 1);
    }
  }

  /** Halving a span stops at the largest span below `l`. */
  lemma {:induction false} HalvedBrackets(size: nat, s: nat, l: nat)
    requires size > 0 && IsSpan(size, s) && 2 * size < l <= 2 * s
    ensures Halved(s, l) < l <= 2 * Halved(s, l)
  {
    if s >= l {
      HalvedBrackets(size, s / 2, l);
    }
  }

  /** A block of at most two segments is hashed whole by either hasher. */
  lemma {:induction false} SmallValue(H: Hash, size: nat, h: nat, block: Bytes)
    requires size < |block| <= 2 * size && h > 0
    ensures Value(H, size, h, block) == H(block)
  {
    assert Width(size, 1) == 2 * Width(size, 0);
    ValueLift(H, size, 1, h, block);
    assert block[..size] + block[size..] == block;
    assert Value(H, size, 0, block[..size]) == block[..size];
    assert Value(H, size, 0, block[size..]) == block[size..];
  }

  /** A block of at most one segment is passed through every level. */
  lemma TinyValue(H: Hash, size: nat, h: nat, block: Bytes)
    requires |block| <= size
    ensures Value(H, size, h, block) == block
  {
    ValueLift(H, size, 0, h, block);
  }

  /**
  The reference hasher computes the Merkle value of every block of more than one segment,
  whatever sufficient span and sufficient height the two are started with.
  */
  lemma {:induction false} RefHashIsValue(H: Hash, size: nat, d: Bytes, s: nat, h: nat)
    requires size > 0 && IsSpan(size, s)
    requires size < |d| <= 2 * s && |d| <= Width(size, h)
    ensures RefHash(H, size, d, s) == Value(H, size, h, d)
    decreases |d|
  {
    if |d| <= 2 * size {
      SmallValue(H, size, h, d);
    } else {
      HalvedIsSpan(size, s, |d|);
      HalvedBrackets(size, s, |d|);
      var s' := Halved(s, |d|);
      var j := SpanIsWidth(size, s');
      if h < j + 1 {
        WidthMonotonic(size, h, j);
        assert false;
      }
      ValueLift(H, size, j + 1, h, d);
      RefHashIsValue(H, size, d[..s'], s', j);
      if |d| - s' > size {
        RefHashIsValue(H, size, d[s'..], s', j);
      } else {
        TinyValue(H, size, j, d[s'..]);
      }
    }
  }

  /** The recursion as the source runs it: the span is halved in a loop before the split. */
  method HashSections(H: Hash, size: nat, d: Bytes, span: nat) returns (h: Bytes)
    requires size > 0 && IsSpan(size, span)
    ensures h == RefHash(H, size, d, span)
    decreases |d|
  {
    var l := |d|;
    var s: nat := span;
    var left, right: Bytes := d, [];
    if l > 2 * size {
      while s >= l
        invariant Halved(s, l) == Halved(span, l)
      {
        s := s / 2;
      }
      HalvedIsSpan(size, span, l);
      left := HashSections(H, size, d[..s], s);
      right := d[s..];
      if l - s > size {
        right := HashSections(H, size, right, s);
      }
    } else {
      assert left + right == d;
    }
    h := H(left + right);
  }

  /** The width of level `j` holds `c` segments, for `c` the `j`-th power of two. */
  lemma {:induction false} WidthScales(size: nat, j: nat)
    ensures Width(size, j) == Width(1, j) * size
  {
    if j > 0 {
      WidthScales(size, j - 1);
      assert Width(1, j) * size == 2 * (Width(1, j - 1) * size);
    }
  }

  lemma ScaleMonotonic(a: nat, b: nat, size: nat)
    requires a <= b
    ensures a * size <= b * size
    ensures a < b && size > 0 ==> a * size < b * size
  {
  }

  /** The span chosen for a segment count: wide enough for the chunk, and at least one pair. */
  method RefSpan(size: nat, count: nat) returns (span: nat)
    requires size > 0
    ensures IsSpan(size, span)
    ensures size * ((count + 1) / 2) <= span
    ensures span > 2 * size ==> span < count * size
  {
    var c := 2;
    ghost var j: nat := 1;
    while c < count
      invariant j > 0 && c == Width(1, j)
      invariant j > 1 ==> Width(1, j - 1) < count
    {
      c := c * 2;
      j := j + 1;
    }
    if c > 2 {
      c := c / 2;
      j := j - 1;
      ScaleMonotonic(c, count, size);
    }
    WidthScales(size, j);
    WidthScales(size, 1);
    ScaleMonotonic((count + 1) / 2, c, size);
    WidthIsSpan(size, j);
    span := c * size;
  }
}
