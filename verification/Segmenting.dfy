/** Segment numbers, segmenting, and interest lifetimes: fixed-width numbers in bytes. */
module Segmenting {
  import opened Options
  import opened Ndnb

  // ----- Big-endian numbers -----

  function Value(s: Bytes): nat {
    if s == [] then 0 else Value(s[..|s| - 1]) * 256 + s[|s| - 1]
  }

  /** The `k` low bytes of `n`, most significant first. */
  function BigEndian(n: nat, k: nat): (s: Bytes)
    ensures |s| == k
  {
    if k == 0 then [] else BigEndian(n / 256, k - 1) + [n % 256]
  }

  function Pow256(k: nat): nat {
    if k == 0 then 1 else 256 * Pow256(k - 1)
  }

  lemma {:induction false} BigEndianValue(n: nat, k: nat)
    requires n < Pow256(k)
    ensures Value(BigEndian(n, k)) == n
  {
    if k != 0 {
      BigEndianValue(n / 256, k - 1);
      var s := BigEndian(n, k);
      assert s[..|s| - 1] == BigEndian(n / 256, k - 1);
    }
  }

  /** The first byte weighs most. */
  lemma {:induction false} ValueFirst(x: Byte, s: Bytes)
    ensures Value([x] + s) == x * Pow256(|s|) + Value(s)
    decreases |s|
  {
    var t := [x] + s;
    if s == [] {
      assert t[..0] == [] && t[0] == x;
    } else {
      var n := |s| - 1;
      ValueFirst(x, s[..n]);
      assert t[..|t| - 1] == [x] + s[..n] && t[|t| - 1] == s[n];
      var weight, p: int := x, Pow256(n);
      assert weight * (256 * p) == weight * p * 256;
    }
  }

  lemma {:induction false} ValueBound(s: Bytes)
    ensures Value(s) < Pow256(|s|)
  {
    if s != [] {
      ValueBound(s[..|s| - 1]);
    }
  }

  lemma {:induction false} LeadingZeros(k: nat, s: Bytes)
    ensures Value(seq(k, _ => 0) + s) == Value(s)
    decreases |s|, k
  {
    var t: Bytes := seq(k, _ => 0) + s;
    if s != [] {
      LeadingZeros(k, s[..|s| - 1]);
      assert t[..|t| - 1] == seq(k, _ => 0) + s[..|s| - 1];
    } else if k != 0 {
      LeadingZeros(k - 1, s);
      assert t[..|t| - 1] == seq(k - 1, _ => 0) + s;
    }
  }

  function StripZeros(s: Bytes): Bytes {
    if s != [] && s[0] == 0 then StripZeros(s[1..]) else s
  }

  lemma {:induction false} StripZerosKeeps(s: Bytes)
    ensures |StripZeros(s)| <= |s|
    ensures s == seq(|s| - |StripZeros(s)|, _ => 0) + StripZeros(s)
    ensures StripZeros(s) != [] ==> StripZeros(s)[0] != 0
  {
    if s != [] && s[0] == 0 {
      StripZerosKeeps(s[1..]);
      assert s == [0] + s[1..];
    }
  }

  // ----- Segment numbers -----

  /** `None` where packing into eight bytes fails. */
  function Num2Seg(n: nat): Option<Bytes> {
    if n < Pow256(8) then Some([0] + StripZeros(BigEndian(n, 8))) else None
  }

  /** `None` where unpacking does not get exactly eight bytes. */
  function Seg2Num(segment: Bytes): Option<nat> {
    if |segment| <= 8 then Some(Value(seq(8 - |segment|, _ => 0) + segment)) else None
  }

  lemma {:induction false} LeadingByteBound(s: Bytes)
    requires s != [] && s[0] != 0
    ensures Pow256(|s| - 1) <= Value(s)
  {
    if 1 < |s| {
      LeadingByteBound(s[..|s| - 1]);
    }
  }

  lemma Pow256Values()
    ensures Pow256(7) == 0x100_0000_0000_0000 && Pow256(8) == 0x1_0000_0000_0000_0000
  {
    assert Pow256(4) == 0x1_0000_0000;
  }

  /** A segment is a zero byte, then the number, most significant byte first and without
      leading zeros; numbers from 2^64 on fail. */
  lemma SegmentForm(n: nat)
    ensures Num2Seg(n).Some? <==> n < 0x1_0000_0000_0000_0000
    ensures Num2Seg(n).Some? ==>
              var s := Num2Seg(n).value;
              s != [] && s[0] == 0 && Value(s[1..]) == n && (1 < |s| ==> s[1] != 0)
  {
    Pow256Values();
    if n < Pow256(8) {
      var packed := BigEndian(n, 8);
      StripZerosKeeps(packed);
      BigEndianValue(n, 8);
      LeadingZeros(8 - |StripZeros(packed)|, StripZeros(packed));
      assert ([0] + StripZeros(packed))[1..] == StripZeros(packed);
    }
  }

  /** A segment of up to eight bytes is read as the number they spell; a longer one fails. */
  lemma SegmentValue(s: Bytes)
    ensures Seg2Num(s) == if |s| <= 8 then Some(Value(s)) else None
  {
    if |s| <= 8 {
      LeadingZeros(8 - |s|, s);
    }
  }

  /** A segment number survives the round trip iff it is below 2^56: above, the marker
      byte in front makes nine bytes. */
  lemma SegmentRoundTrip(n: nat)
    requires n < 0x1_0000_0000_0000_0000
    ensures Num2Seg(n).Some?
    ensures n < 0x100_0000_0000_0000 ==> Seg2Num(Num2Seg(n).value) == Some(n)
    ensures n >= 0x100_0000_0000_0000 ==> Seg2Num(Num2Seg(n).value) == None
  {
    hide BigEndian;
    Pow256Values();
    var packed := BigEndian(n, 8);
    var digits := StripZeros(packed);
    StripZerosKeeps(packed);
    BigEndianValue(n, 8);
    LeadingZeros(8 - |digits|, digits);
    ValueBound(digits);
    if |digits| == 8 {
      LeadingByteBound(digits);
    } else {
      PowGrows(|digits|, 7);
      LeadingZeros(8 - |[0] + digits|, [0] + digits);
      LeadingZeros(1, digits);
      assert seq(1, _ => 0) + digits == [0] + digits;
    }
  }

  lemma {:induction false} PowGrows(a: nat, b: nat)
    requires a <= b
    ensures Pow256(a) <= Pow256(b)
    decreases b
  {
    if a < b {
      PowGrows(a, b - 1);
    }
  }

  // ----- Segmenting -----

  /** A wrapped segment: its number and the final block id, as the wrapper sets them. */
  datatype Segment = Segment(chunk: Bytes, name: Option<Bytes>, finalBlockId: Option<Bytes>)

  function Join(segments: seq<Segment>): Bytes {
    if segments == [] then [] else Join(segments[..|segments| - 1]) + segments[|segments| - 1].chunk
  }

  function SegmentCount(size: nat, chunkSize: nat): nat
    requires 0 < chunkSize
  {
    (size + chunkSize - 1) / chunkSize
  }

  /** Full chunks but for the last one, which is not empty. */
  predicate Cut(list: seq<Segment>, size: nat, chunkSize: nat)
    requires 0 < chunkSize
  {
    forall i | 0 <= i < |list| ::
      if i + 1 < SegmentCount(size, chunkSize) then |list[i].chunk| == chunkSize else 0 < |list[i].chunk| <= chunkSize
  }

  /** Numbered in order, each naming the last one as final. */
  predicate Numbered(list: seq<Segment>, count: nat) {
    forall i | 0 <= i < |list| ::
      list[i].name == Num2Seg(i) && (0 < count ==> list[i].finalBlockId == Num2Seg(count - 1))
  }

  method Segmenter(data: Bytes, chunkSize: nat) returns (list: seq<Segment>)
    requires 0 < chunkSize
    ensures Join(list) == data
    ensures |list| == SegmentCount(|data|, chunkSize)
    ensures forall i | 0 <= i < |list| ::
              if i + 1 < |list| then |list[i].chunk| == chunkSize else 0 < |list[i].chunk| <= chunkSize
    ensures forall i | 0 <= i < |list| ::
              list[i].name == Num2Seg(i) && list[i].finalBlockId == Num2Seg(|list| - 1)
  {
    hide SegmentCount, Taken, Num2Seg, Cut, Numbered, Join;
    var segments := SegmentCount(|data|, chunkSize);
    NoData(data, chunkSize);
    list := [];
    NoSegments(|data|, chunkSize, segments);
    var segment := 0;
    while segment < segments
      invariant segment <= segments && |list| == segment
      invariant Join(list) == Taken(data, chunkSize, segment)
      invariant Cut(list, |data|, chunkSize) && Numbered(list, segments)
    {
      var chunk := NextChunk(data, chunkSize, segment);
      var item := Segment(chunk, Num2Seg(segment), Num2Seg(segments - 1));
      JoinOne(list, item);
      OneMore(list, item, |data|, chunkSize, segments);
      list := list + [item];
      segment := segment + 1;
    }
    Complete(list, |data|, chunkSize);
  }

  lemma NoSegments(size: nat, chunkSize: nat, count: nat)
    requires 0 < chunkSize
    ensures Join([]) == [] && Cut([], size, chunkSize) && Numbered([], count)
  {
  }

  lemma OneMore(list: seq<Segment>, item: Segment, size: nat, chunkSize: nat, count: nat)
    requires 0 < chunkSize && Cut(list, size, chunkSize) && Numbered(list, count)
    requires if |list| + 1 < SegmentCount(size, chunkSize) then |item.chunk| == chunkSize
             else 0 < |item.chunk| <= chunkSize
    requires item.name == Num2Seg(|list|) && (0 < count ==> item.finalBlockId == Num2Seg(count - 1))
    ensures Cut(list + [item], size, chunkSize) && Numbered(list + [item], count)
  {
    hide SegmentCount, Num2Seg;
  }

  lemma JoinOne(list: seq<Segment>, item: Segment)
    ensures Join(list + [item]) == Join(list) + item.chunk
  {
    assert (list + [item])[..|list|] == list;
  }

  lemma Complete(list: seq<Segment>, size: nat, chunkSize: nat)
    requires 0 < chunkSize && |list| == SegmentCount(size, chunkSize)
    requires Cut(list, size, chunkSize) && Numbered(list, |list|)
    ensures forall i | 0 <= i < |list| ::
              if i + 1 < |list| then |list[i].chunk| == chunkSize else 0 < |list[i].chunk| <= chunkSize
    ensures forall i | 0 <= i < |list| ::
              list[i].name == Num2Seg(i) && list[i].finalBlockId == Num2Seg(|list| - 1)
  {
    hide SegmentCount, Num2Seg;
  }

  /** What the first `segment` chunks cover. */
  function Taken(data: Bytes, chunkSize: nat, segment: nat): Bytes
    requires 0 < chunkSize
  {
    if segment * chunkSize <= |data| then data[..segment * chunkSize] else data
  }

  method NextChunk(data: Bytes, chunkSize: nat, segment: nat) returns (chunk: Bytes)
    requires 0 < chunkSize && segment < SegmentCount(|data|, chunkSize)
    ensures Taken(data, chunkSize, segment + 1) == Taken(data, chunkSize, segment) + chunk
    ensures if segment + 1 < SegmentCount(|data|, chunkSize) then |chunk| == chunkSize else 0 < |chunk| <= chunkSize
  {
    Bounds(|data|, chunkSize, segment);
    var start := segment * chunkSize;
    var end := if start + chunkSize < |data| then start + chunkSize else |data|;
    return data[start..end];
  }

  /** No chunk covers nothing, all of them cover everything. */
  lemma NoData(data: Bytes, chunkSize: nat)
    requires 0 < chunkSize
    ensures Taken(data, chunkSize, 0) == []
    ensures Taken(data, chunkSize, SegmentCount(|data|, chunkSize)) == data
  {
    var sum := |data| + chunkSize - 1;
    assert sum == sum / chunkSize * chunkSize + sum % chunkSize;
    assert |data| <= SegmentCount(|data|, chunkSize) * chunkSize;
  }

  /** Each segment's number and the final block id decode to its place and the last one's. */
  lemma FinalBlockIdDecodes(list: seq<Segment>, i: nat)
    requires forall k | 0 <= k < |list| :: list[k].name == Num2Seg(k) && list[k].finalBlockId == Num2Seg(|list| - 1)
    requires i < |list| <= 0x100_0000_0000_0000
    ensures list[i].name.Some? && Seg2Num(list[i].name.value) == Some(i)
    ensures list[i].finalBlockId.Some? && Seg2Num(list[i].finalBlockId.value) == Some(|list| - 1)
  {
    hide Num2Seg, Seg2Num;
    SegmentRoundTrip(i);
    SegmentRoundTrip(|list| - 1);
  }

  lemma Bounds(size: nat, chunkSize: nat, segment: nat)
    requires 0 < chunkSize && segment < SegmentCount(size, chunkSize)
    ensures segment * chunkSize < size && (segment + 1) * chunkSize == segment * chunkSize + chunkSize
    ensures segment + 1 < SegmentCount(size, chunkSize) <==> segment * chunkSize + chunkSize < size
  {
    var segments := SegmentCount(size, chunkSize);
    var rest := (size + chunkSize - 1) % chunkSize;
    assert size + chunkSize - 1 == segments * chunkSize + rest;
    if segment + 1 < segments {
      assert (segment + 2) * chunkSize <= segments * chunkSize;
      assert (segment + 2) * chunkSize == segment * chunkSize + chunkSize + chunkSize;
    } else {
      assert segments == segment + 1;
      assert segments * chunkSize == segment * chunkSize + chunkSize;
    }
  }

  // ----- Interest lifetime -----

  /** The lifetime in 4096ths as an unsigned integer.  The conversion drops the fraction;
      C defines it for values above -1 only. */
  function Scaled(lifetime: real): nat
    requires -1.0 < lifetime * 4096.0
  {
    if lifetime < 0.0 then 0 else (lifetime * 4096.0).Floor
  }

  /** Fixed point with twelve fractional bits, in three bytes. */
  method EncodeLifetime(lifetime: real) returns (buf: Bytes)
    requires -1.0 < lifetime * 4096.0
    ensures buf == BigEndian(Scaled(lifetime), 3)
    ensures var n := Scaled(lifetime); buf == [n / 0x1_0000 % 256, n / 0x100 % 256, n % 256]
  {
    var iLifetime := Scaled(lifetime);
    ghost var n := iLifetime;
    var a := new Byte[3];
    var i := 2;
    while i >= 0
      invariant -1 <= i <= 2
      invariant iLifetime >= 0
      invariant BigEndian(n, 3) == BigEndian(iLifetime, i + 1) + a[i + 1..]
      decreases i
    {
      a[i] := iLifetime % 256;
      assert BigEndian(iLifetime, i + 1) == BigEndian(iLifetime / 256, i) + [a[i]];
      assert a[i..] == [a[i]] + a[i + 1..];
      iLifetime := iLifetime / 256;
      i := i - 1;
    }
    ThreeDigits(n);
    return a[..];
  }

  lemma ThreeDigits(n: nat)
    ensures BigEndian(n, 3) == [n / 0x1_0000 % 256, n / 0x100 % 256, n % 256]
  {
    var x, y := n / 256, n / 256 / 256;
    assert y == n / 0x1_0000;
    assert BigEndian(y, 1) == BigEndian(y / 256, 0) + [y % 256] == [y % 256];
    assert BigEndian(x, 2) == [y % 256] + [x % 256];
  }

  method DecodeLifetime(blob: Bytes) returns (lifetime: real)
    ensures lifetime == Value(blob) as real / 4096.0
  {
    lifetime := 0.0;
    for i := 0 to |blob|
      invariant lifetime == Value(blob[..i]) as real
    {
      assert blob[..i + 1][..i] == blob[..i];
      lifetime := lifetime * 256.0 + blob[i] as real;
    }
    assert blob[..|blob|] == blob;
    lifetime := lifetime / 4096.0;
  }

  function Decoded(lifetime: real): real
    requires -1.0 < lifetime * 4096.0
  {
    Value(BigEndian(Scaled(lifetime), 3)) as real / 4096.0
  }

  lemma ValueAppend(s: Bytes, x: Byte)
    ensures Value(s + [x]) == Value(s) * 256 + x
  {
    assert (s + [x])[..|s|] == s;
  }

  lemma LowBytes(n: nat)
    ensures (n / 256 / 256 % 256 * 256 + n / 256 % 256) * 256 + n % 256 == n % 0x100_0000
  {
    var x := n / 256;
    var y := x / 256;
    assert n == x * 256 + n % 256 && x == y * 256 + x % 256 && y == y / 256 * 256 + y % 256;
    assert n == y / 256 * 0x100_0000 + ((y % 256 * 256 + x % 256) * 256 + n % 256);
  }

  lemma ThreeBytes(n: nat)
    ensures Value(BigEndian(n, 3)) == n % 0x100_0000
  {
    hide Value;
    var none: Bytes := BigEndian(n / 256 / 256 / 256, 0);
    ValueAppend(none, n / 256 / 256 % 256);
    ValueAppend(BigEndian(n / 256 / 256, 1), n / 256 % 256);
    ValueAppend(BigEndian(n / 256, 2), n % 256);
    NoValue();
    LowBytes(n);
  }

  lemma NoValue()
    ensures Value([]) == 0
  {
  }

  /** Three bytes keep a lifetime to within one 4096th of a second below iff it is
      shorter than 4096 seconds, and exactly when it is also a multiple of that unit. */
  lemma LifetimeRoundTrip(x: real)
    requires 0.0 <= x
    ensures x < 4096.0 <==> Decoded(x) <= x < Decoded(x) + 1.0 / 4096.0
    ensures Decoded(x) == x <==> x < 4096.0 && (x * 4096.0).Floor as real == x * 4096.0
  {
    var n := (x * 4096.0).Floor;
    ThreeBytes(n);
    assert n as real <= x * 4096.0 < n as real + 1.0;
    assert Decoded(x) == (n % 0x100_0000) as real / 4096.0;
  }
}
