/** 160-bit node identifiers: XOR distance, order, prefixes and bucket indices. */
module NodeIds {
  import opened Wrappers
  import opened ByteBits
  import opened BitStrings

  const KEY_LENGTH_BYTES: nat := 20
  const KEY_LENGTH_BITS: nat := 160

  type NodeId = bytes: seq<bv8> | |bytes| == KEY_LENGTH_BYTES witness seq(KEY_LENGTH_BYTES, _ => 0)

  /** Bit at a position counted from the most significant; false past the end. */
  predicate BitAt(id: NodeId, position: nat) {
    position < KEY_LENGTH_BITS && ByteBit(id[position / 8], position % 8)
  }

  function Bits(id: NodeId): (bits: seq<bool>)
    ensures |bits| == KEY_LENGTH_BITS
  {
    seq(KEY_LENGTH_BITS, p requires 0 <= p < KEY_LENGTH_BITS => BitAt(id, p))
  }

  /** The identifier read as a 160-bit number. */
  function IdValue(id: NodeId): nat {
    Value(Bits(id))
  }

  function Distance(a: NodeId, b: NodeId): NodeId {
    seq(KEY_LENGTH_BYTES, i requires 0 <= i < KEY_LENGTH_BYTES => a[i] ^ b[i])
  }

  /** The first set bit at or after `p`, or 160. */
  function FirstSetFrom(id: NodeId, p: nat): (r: nat)
    requires p <= KEY_LENGTH_BITS
    ensures p <= r <= KEY_LENGTH_BITS
    ensures r < KEY_LENGTH_BITS ==> BitAt(id, r)
    ensures forall q :: p <= q < r ==> !BitAt(id, q)
    decreases KEY_LENGTH_BITS - p
  {
    if p == KEY_LENGTH_BITS || BitAt(id, p) then p else FirstSetFrom(id, p + 1)
  }

  function LeadingZeros(id: NodeId): nat {
    FirstSetFrom(id, 0)
  }

  function CommonPrefixLength(a: NodeId, b: NodeId): nat {
    LeadingZeros(Distance(a, b))
  }

  function BucketIndex(a: NodeId, b: NodeId): Option<nat> {
    if Distance(a, b) == seq(KEY_LENGTH_BYTES, _ => 0) then None else Some(CommonPrefixLength(a, b))
  }

  /** Lexicographic order on byte strings of one length, as slices compare. */
  predicate BytesLess(a: seq<bv8>, b: seq<bv8>)
    requires |a| == |b|
  {
    a != [] && (a[0] < b[0] || (a[0] == b[0] && BytesLess(a[1..], b[1..])))
  }

  // ----- bits against bytes -----

  lemma DistanceBit(a: NodeId, b: NodeId, p: nat)
    requires p < KEY_LENGTH_BITS
    ensures BitAt(Distance(a, b), p) == (BitAt(a, p) != BitAt(b, p))
  {
    hide ByteBit;
    XorBit(a[p / 8], b[p / 8], p % 8);
  }

  lemma DistanceBits(a: NodeId, b: NodeId)
    ensures Bits(Distance(a, b)) == Xor(Bits(a), Bits(b))
  {
    forall p | 0 <= p < KEY_LENGTH_BITS
      ensures Bits(Distance(a, b))[p] == Xor(Bits(a), Bits(b))[p]
    {
      DistanceBit(a, b, p);
    }
  }

  lemma BitOfByte(id: NodeId, i: nat, j: nat)
    requires i < KEY_LENGTH_BYTES && j < 8
    ensures BitAt(id, 8 * i + j) == ByteBit(id[i], j)
  {
    assert (8 * i + j) / 8 == i && (8 * i + j) % 8 == j;
  }

  lemma SameBytesBelow(a: NodeId, b: NodeId, n: nat)
    requires n <= KEY_LENGTH_BYTES
    requires forall p :: 0 <= p < 8 * n ==> BitAt(a, p) == BitAt(b, p)
    ensures a[..n] == b[..n]
  {
    forall i | 0 <= i < n
      ensures a[i] == b[i]
    {
      forall j: nat | j < 8
        ensures ByteBit(a[i], j) == ByteBit(b[i], j)
      {
        BitOfByte(a, i, j);
        BitOfByte(b, i, j);
      }
      SameByte(a[i], b[i]);
    }
  }

  /** Identifiers with the same bits are the same identifier. */
  lemma SameBits(a: NodeId, b: NodeId)
    requires forall p :: 0 <= p < KEY_LENGTH_BITS ==> BitAt(a, p) == BitAt(b, p)
    ensures a == b
  {
    SameBytesBelow(a, b, KEY_LENGTH_BYTES);
    assert a == a[..KEY_LENGTH_BYTES] && b == b[..KEY_LENGTH_BYTES];
  }

  lemma {:induction false} BytesLessAt(a: seq<bv8>, b: seq<bv8>, i: nat)
    requires i < |a| == |b|
    requires a[..i] == b[..i] && a[i] != b[i]
    ensures BytesLess(a, b) <==> a[i] < b[i]
  {
    if i > 0 {
      assert a[0] == a[..i][0] && b[0] == b[..i][0];
      assert a[1..][..i - 1] == a[..i][1..] && b[1..][..i - 1] == b[..i][1..];
      BytesLessAt(a[1..], b[1..], i - 1);
    }
  }

  // ----- the first differing bit -----

  /** Distinct identifiers first differ at their common prefix length, and that
      bit decides the byte order and the numeric order alike. */
  lemma FirstDifference(a: NodeId, b: NodeId) returns (p: nat)
    requires a != b
    ensures p == CommonPrefixLength(a, b) < KEY_LENGTH_BITS
    ensures forall q :: 0 <= q < p ==> BitAt(a, q) == BitAt(b, q)
    ensures BitAt(a, p) != BitAt(b, p)
    ensures BytesLess(a, b) <==> BitAt(b, p)
    ensures if BitAt(b, p) then IdValue(a) < IdValue(b) else IdValue(b) < IdValue(a)
  {
    p := CommonPrefixLength(a, b);
    forall q | 0 <= q < KEY_LENGTH_BITS
      ensures BitAt(Distance(a, b), q) == (BitAt(a, q) != BitAt(b, q))
    {
      DistanceBit(a, b, q);
    }
    if p == KEY_LENGTH_BITS {
      SameBits(a, b);
      assert false;
    }
    assert Bits(a)[..p] == Bits(b)[..p];
    ValueOrder(Bits(a), Bits(b), p);
    BytesLessAtBit(a, b, p);
  }

  lemma BytesLessAtBit(a: NodeId, b: NodeId, p: nat)
    requires p < KEY_LENGTH_BITS
    requires forall q :: 0 <= q < p ==> BitAt(a, q) == BitAt(b, q)
    requires BitAt(a, p) != BitAt(b, p)
    ensures BytesLess(a, b) <==> BitAt(b, p)
  {
    var i := p / 8;
    SameBytesBelow(a, b, i);
    var j := FirstDifferingBit(a[i], b[i]);
    forall q: nat | q < 8
      ensures BitAt(a, 8 * i + q) == ByteBit(a[i], q) && BitAt(b, 8 * i + q) == ByteBit(b[i], q)
    {
      BitOfByte(a, i, q);
      BitOfByte(b, i, q);
    }
    assert p == 8 * i + p % 8;
    assert j == p % 8;
    BytesLessAt(a, b, i);
  }

  // ----- order and metric -----

  /** Comparing identifiers byte by byte compares them as numbers. */
  lemma OrderIsNumeric(a: NodeId, b: NodeId)
    ensures BytesLess(a, b) <==> IdValue(a) < IdValue(b)
    ensures a == b <==> IdValue(a) == IdValue(b)
  {
    if a == b {
      BytesLessIrreflexive(a);
    } else {
      var p := FirstDifference(a, b);
    }
  }

  lemma {:induction false} BytesLessIrreflexive(a: seq<bv8>)
    ensures !BytesLess(a, a)
  {
    if a != [] {
      BytesLessIrreflexive(a[1..]);
    }
  }

  lemma DistanceSymmetric(a: NodeId, b: NodeId)
    ensures Distance(a, b) == Distance(b, a)
  {
    forall i | 0 <= i < KEY_LENGTH_BYTES
      ensures a[i] ^ b[i] == b[i] ^ a[i]
    {
    }
  }

  /** XOR distance is a metric on the numbers, with distance zero only to itself. */
  lemma DistanceIsMetric(a: NodeId, b: NodeId, c: NodeId)
    ensures IdValue(Distance(a, b)) == 0 <==> a == b
    ensures Distance(a, b) == Distance(b, a)
    ensures IdValue(Distance(a, c)) <= IdValue(Distance(a, b)) + IdValue(Distance(b, c))
  {
    DistanceZero(a, b);
    DistanceSymmetric(a, b);
    forall i | 0 <= i < KEY_LENGTH_BYTES
      ensures a[i] ^ c[i] == (a[i] ^ b[i]) ^ (b[i] ^ c[i])
    {
    }
    assert Distance(a, c) == Distance(Distance(a, b), Distance(b, c));
    DistanceBits(Distance(a, b), Distance(b, c));
    XorAtMostSum(Bits(Distance(a, b)), Bits(Distance(b, c)));
  }

  lemma DistanceZero(a: NodeId, b: NodeId)
    ensures IdValue(Distance(a, b)) == 0 <==> a == b
  {
    forall q | 0 <= q < KEY_LENGTH_BITS
      ensures BitAt(Distance(a, b), q) == (BitAt(a, q) != BitAt(b, q))
    {
      DistanceBit(a, b, q);
    }
    if a == b {
      AllZero(Bits(Distance(a, b)));
    } else {
      var p := FirstDifference(a, b);
      LeadingBit(Bits(Distance(a, b)), p);
    }
  }

  /** XOR distance to a fixed target tells identifiers apart. */
  lemma DistanceInjective(a: NodeId, b: NodeId, target: NodeId)
    requires IdValue(Distance(a, target)) == IdValue(Distance(b, target))
    ensures a == b
  {
    OrderIsNumeric(Distance(a, target), Distance(b, target));
    forall p | 0 <= p < KEY_LENGTH_BITS
      ensures BitAt(a, p) == BitAt(b, p)
    {
      DistanceBit(a, target, p);
      DistanceBit(b, target, p);
    }
    SameBits(a, b);
  }

  /** The common prefix length is an ultrametric. */
  lemma PrefixUltrametric(a: NodeId, b: NodeId, c: NodeId)
    ensures CommonPrefixLength(a, b) <= CommonPrefixLength(a, c) || CommonPrefixLength(b, c) <= CommonPrefixLength(a, c)
  {
    var p := CommonPrefixLength(a, c);
    if p < KEY_LENGTH_BITS {
      DistanceBit(a, c, p);
      DistanceBit(a, b, p);
      DistanceBit(b, c, p);
    }
  }

  // ----- bucket indices -----

  lemma BucketIndexNone(a: NodeId, b: NodeId)
    ensures BucketIndex(a, b).None? <==> a == b
  {
    var zero: NodeId := seq(KEY_LENGTH_BYTES, _ => 0);
    if a == b {
      assert Distance(a, b) == zero;
    } else {
      var i :| 0 <= i < KEY_LENGTH_BYTES && a[i] != b[i];
      assert Distance(a, b)[i] == a[i] ^ b[i] != 0;
    }
  }

  /** What a bucket index means: the number of shared prefix bits, the first
      position where the bits differ, and the binary octave of the distance. */
  lemma BucketIndexMeaning(a: NodeId, b: NodeId, i: nat)
    requires i < KEY_LENGTH_BITS
    ensures BucketIndex(a, b) == Some(i) <==> (a != b && CommonPrefixLength(a, b) == i)
    ensures BucketIndex(a, b) == Some(i) <==>
            (BitAt(a, i) != BitAt(b, i) && forall q :: 0 <= q < i ==> BitAt(a, q) == BitAt(b, q))
    ensures BucketIndex(a, b) == Some(i) <==>
            Pow2(KEY_LENGTH_BITS - 1 - i) <= IdValue(Distance(a, b)) < Pow2(KEY_LENGTH_BITS - i)
    ensures BucketIndex(a, b) == BucketIndex(b, a)
  {
    hide ByteBit, BytesLess, IdValue, FirstSetFrom;
    BucketIndexNone(a, b);
    DistanceSymmetric(a, b);
    if a == b {
      DistanceZero(a, b);
    } else {
      var p := FirstDifference(a, b);
      DistanceOctave(a, b);
      if p < i {
        Pow2Monotone(KEY_LENGTH_BITS - i, KEY_LENGTH_BITS - 1 - p);
      } else if i < p {
        Pow2Monotone(KEY_LENGTH_BITS - p, KEY_LENGTH_BITS - 1 - i);
      }
    }
  }

  lemma DistanceOctave(a: NodeId, b: NodeId)
    requires a != b
    ensures var p := CommonPrefixLength(a, b);
            p < KEY_LENGTH_BITS && Pow2(KEY_LENGTH_BITS - 1 - p) <= IdValue(Distance(a, b)) < Pow2(KEY_LENGTH_BITS - p)
  {
    hide ByteBit, BytesLess, Value;
    var p := FirstDifference(a, b);
    LeadingBit(Bits(Distance(a, b)), p);
  }

  lemma BucketIndexBound(a: NodeId, b: NodeId)
    ensures BucketIndex(a, b).Some? ==> BucketIndex(a, b).value < KEY_LENGTH_BITS
  {
    BucketIndexNone(a, b);
    if a != b {
      var p := FirstDifference(a, b);
    }
  }

  /** Contacts in deeper buckets are strictly nearer the local node. */
  lemma DeeperIsNearer(local: NodeId, a: NodeId, b: NodeId)
    requires BucketIndex(local, a).Some? && BucketIndex(local, b).Some?
    requires BucketIndex(local, a).value < BucketIndex(local, b).value
    ensures IdValue(Distance(local, b)) < IdValue(Distance(local, a))
  {
    var i, j := BucketIndex(local, a).value, BucketIndex(local, b).value;
    BucketIndexBound(local, b);
    BucketIndexMeaning(local, a, i);
    BucketIndexMeaning(local, b, j);
    Pow2Monotone(KEY_LENGTH_BITS - j, KEY_LENGTH_BITS - 1 - i);
  }

  /** Only 2^160 identifiers exist. */
  lemma IdSpaceBound(ids: set<NodeId>)
    ensures |ids| <= Pow2(KEY_LENGTH_BITS)
  {
    var values := set id | id in ids :: IdValue(id);
    ValuesCount(ids, values);
    forall v | v in values
      ensures v < Pow2(KEY_LENGTH_BITS)
    {
      var id :| id in ids && IdValue(id) == v;
      ValueBound(Bits(id));
    }
    BelowCount(values, Pow2(KEY_LENGTH_BITS));
  }

  lemma {:induction false} ValuesCount(ids: set<NodeId>, values: set<nat>)
    requires values == set id | id in ids :: IdValue(id)
    ensures |values| == |ids|
  {
    hide IdValue;
    if id :| id in ids {
      var rest := ids - {id};
      var restValues := set x | x in rest :: IdValue(x);
      ValuesCount(rest, restValues);
      if IdValue(id) in restValues {
        var x :| x in rest && IdValue(x) == IdValue(id);
        OrderIsNumeric(x, id);
      }
      assert values == restValues + {IdValue(id)};
    }
  }

  lemma {:induction false} BelowCount(values: set<nat>, n: nat)
    requires forall v :: v in values ==> v < n
    ensures |values| <= n
  {
    if n == 0 {
      assert values == {};
    } else {
      BelowCount(values - {n - 1}, n - 1);
    }
  }

  /** When `m` is nearer the target than `c`, so is every member of the bucket of
      `c` that `m` falls into. */
  lemma NearerBucket(c: NodeId, m: NodeId, x: NodeId, target: NodeId)
    requires c != m && BucketIndex(c, x) == BucketIndex(c, m)
    requires IdValue(Distance(m, target)) < IdValue(Distance(c, target))
    ensures IdValue(Distance(x, target)) < IdValue(Distance(c, target))
  {
    BucketIndexNone(c, m);
    BucketIndexBound(c, m);
    var j := BucketIndex(c, m).value;
    BucketIndexMeaning(c, m, j);
    BucketIndexMeaning(c, x, j);
    FirstBitDecides(c, m, j, target);
    FirstBitDecides(c, x, j, target);
  }

  /** Of two identifiers that first differ at bit `j`, the one that agrees with the
      target there is the nearer one. */
  lemma FirstBitDecides(c: NodeId, x: NodeId, j: nat, target: NodeId)
    requires j < KEY_LENGTH_BITS && BitAt(c, j) != BitAt(x, j)
    requires forall q :: 0 <= q < j ==> BitAt(c, q) == BitAt(x, q)
    ensures IdValue(Distance(x, target)) < IdValue(Distance(c, target)) <==> BitAt(x, j) == BitAt(target, j)
  {
    hide ByteBit, BytesLess, IdValue, BitAt;
    var a, b := Distance(x, target), Distance(c, target);
    forall q | 0 <= q < KEY_LENGTH_BITS
      ensures BitAt(a, q) == (BitAt(x, q) != BitAt(target, q))
      ensures BitAt(b, q) == (BitAt(c, q) != BitAt(target, q))
    {
      DistanceBit(x, target, q);
      DistanceBit(c, target, q);
    }
    assert BitAt(a, j) != BitAt(b, j);
    var p := FirstDifference(a, b);
    assert p == j;
  }

  // ----- the loops -----

  method ComputeDistance(a: NodeId, b: NodeId) returns (r: NodeId)
    ensures r == Distance(a, b)
  {
    var result := new bv8[KEY_LENGTH_BYTES](_ => 0);
    for i := 0 to KEY_LENGTH_BYTES
      invariant forall k :: 0 <= k < i ==> result[k] == a[k] ^ b[k]
    {
      result[i] := a[i] ^ b[i];
    }
    r := result[..];
  }

  method CountLeadingZeros(id: NodeId) returns (count: nat)
    ensures count == LeadingZeros(id)
  {
    count := 0;
    label outer:
    for i := 0 to KEY_LENGTH_BYTES
      invariant count == 8 * i
      invariant forall q :: 0 <= q < count ==> !BitAt(id, q)
    {
      for bit := 8 downto 0
        invariant count == 8 * i + (8 - bit)
        invariant forall q :: 0 <= q < count ==> !BitAt(id, q)
      {
        BitOfByte(id, i, 7 - bit);
        var isSet := TestBit(id[i], 7 - bit);
        if isSet {
          break outer;
        }
        count := count + 1;
      }
    }
  }

  method FindBucketIndex(a: NodeId, b: NodeId) returns (r: Option<nat>)
    ensures r == BucketIndex(a, b)
  {
    var distance := ComputeDistance(a, b);
    if forall i :: 0 <= i < KEY_LENGTH_BYTES ==> distance[i] == 0 {
      assert distance == seq(KEY_LENGTH_BYTES, _ => 0);
      return None;
    }
    for i := 0 to KEY_LENGTH_BYTES
      invariant forall k :: 0 <= k < i ==> distance[k] == 0
    {
      if distance[i] == 0 {
        continue;
      }
      ZeroesBefore(distance, i);
      for j := 0 to 8
        invariant forall q: nat :: q < 8 * i + j ==> !BitAt(distance, q)
      {
        BitOfByte(distance, i, j);
        var isSet := TestBit(distance[i], j);
        if isSet {
          return Some(i * 8 + j);
        }
      }
      BytesOfBits(distance, i);
    }
    return None;
  }

  lemma ZeroesBefore(id: NodeId, i: nat)
    requires i < KEY_LENGTH_BYTES
    requires forall k :: 0 <= k < i ==> id[k] == 0
    ensures forall q: nat :: q < 8 * i ==> !BitAt(id, q)
  {
    ZeroByte(0);
  }

  lemma BytesOfBits(id: NodeId, i: nat)
    requires i < KEY_LENGTH_BYTES
    requires forall q: nat :: q < 8 * i + 8 ==> !BitAt(id, q)
    ensures id[i] == 0
  {
    forall j: nat | j < 8
      ensures !ByteBit(id[i], j)
    {
      assert (8 * i + j) / 8 == i && (8 * i + j) % 8 == j;
      assert !BitAt(id, 8 * i + j);
    }
    ZeroByte(id[i]);
  }

  // ----- random identifiers in a bucket -----

  /** `id` is what a draw in bucket `index` of `base` yields when `coins` are the
      random bits: the prefix of `base`, the flipped bit, then the coins. */
  ghost predicate IsDraw(base: NodeId, index: nat, coins: nat -> bool, id: NodeId) {
    DrawnUpTo(base, index, coins, id, KEY_LENGTH_BITS)
  }

  ghost predicate DrawnUpTo(base: NodeId, index: nat, coins: nat -> bool, id: NodeId, end: nat) {
    forall p :: 0 <= p < end ==>
      BitAt(id, p) == (if p < index then BitAt(base, p) else if p == index then !BitAt(base, p) else coins(p))
  }

  method RandomInBucket(base: NodeId, index: nat, coins: nat -> bool) returns (r: Option<NodeId>)
    ensures r.Some? <==> index < KEY_LENGTH_BITS
    ensures r.Some? ==> IsDraw(base, index, coins, r.value)
    ensures r.Some? ==> BucketIndex(base, r.value) == Some(index)
  {
    hide ByteBit, Writes, BucketIndex, BitAt;
    if index >= KEY_LENGTH_BITS {
      return None;
    }
    var bytes := new bv8[KEY_LENGTH_BYTES](i requires 0 <= i < KEY_LENGTH_BYTES => base[i]);
    assert bytes[..] == base;
    var byte := FlipBit(bytes[index / 8], index % 8);
    FlipIndexBit(base, index, coins, byte);
    bytes[index / 8] := byte;
    assert bytes[..] == base[index / 8 := byte];
    var bit := index + 1;
    while bit < KEY_LENGTH_BITS
      invariant index < bit <= KEY_LENGTH_BITS
      invariant DrawnUpTo(base, index, coins, bytes[..], bit)
    {
      ghost var before: NodeId := bytes[..];
      if coins(bit) {
        byte := SetBit(bytes[bit / 8], bit % 8);
      } else {
        byte := ClearBit(bytes[bit / 8], bit % 8);
      }
      DrawOneMore(base, index, coins, before, bit, byte);
      bytes[bit / 8] := byte;
      assert bytes[..] == before[bit / 8 := byte];
      bit := bit + 1;
    }
    r := Some(bytes[..]);
    BucketIndexMeaning(base, r.value, index);
  }

  /** Writing bit `p` in its byte changes that bit of the identifier alone. */
  lemma WriteOneBit(id: NodeId, p: nat, b: bool, byte: bv8, q: nat)
    requires p < KEY_LENGTH_BITS && q < KEY_LENGTH_BITS
    requires Writes(id[p / 8], p % 8, b, byte)
    ensures BitAt(id[p / 8 := byte], q) == (if q == p then b else BitAt(id, q))
  {
    hide ByteBit;
    assert q / 8 == p / 8 && q % 8 == p % 8 ==> q == p;
  }

  lemma FlipIndexBit(base: NodeId, index: nat, coins: nat -> bool, byte: bv8)
    requires index < KEY_LENGTH_BITS
    requires Writes(base[index / 8], index % 8, !ByteBit(base[index / 8], index % 8), byte)
    ensures DrawnUpTo(base, index, coins, base[index / 8 := byte], index + 1)
  {
    hide ByteBit, Writes;
    forall p | 0 <= p < index + 1
      ensures BitAt(base[index / 8 := byte], p) == (if p == index then !BitAt(base, p) else BitAt(base, p))
    {
      WriteOneBit(base, index, !BitAt(base, index), byte, p);
    }
  }

  lemma DrawOneMore(base: NodeId, index: nat, coins: nat -> bool, id: NodeId, bit: nat, byte: bv8)
    requires index < bit < KEY_LENGTH_BITS && DrawnUpTo(base, index, coins, id, bit)
    requires Writes(id[bit / 8], bit % 8, coins(bit), byte)
    ensures DrawnUpTo(base, index, coins, id[bit / 8 := byte], bit + 1)
  {
    hide ByteBit, Writes;
    WriteOneBit(id, bit, coins(bit), byte, bit);
    forall p | 0 <= p < bit
      ensures BitAt(id[bit / 8 := byte], p) == BitAt(id, p)
    {
      WriteOneBit(id, bit, coins(bit), byte, p);
    }
  }

  /** Every member of a bucket is drawn, namely by its own bits as coins. */
  lemma EveryMemberIsDrawn(base: NodeId, index: nat, id: NodeId)
    requires BucketIndex(base, id) == Some(index)
    ensures IsDraw(base, index, (p: nat) => BitAt(id, p), id)
  {
    BucketIndexBound(base, id);
    BucketIndexMeaning(base, id, index);
  }

  lemma CoinsFixTheDraw(base: NodeId, index: nat, coins: nat -> bool, a: NodeId, b: NodeId)
    requires IsDraw(base, index, coins, a) && IsDraw(base, index, coins, b)
    ensures a == b
  {
    SameBits(a, b);
  }
}
