/** Names on the wire: the byte layout of a name, where its components start, and the
    header walk that recovers their payloads. */
module NameWire {
  import opened Options
  import opened Ndnb

  const DTAG_NAME: nat := 14
  const DTAG_COMPONENT: nat := 15

  // ----- Layout -----

  function EncodeComponent(c: Bytes): (r: Bytes)
    ensures r != []
  {
    Header(DTAG_COMPONENT, DTAG) + (Header(|c|, BLOB) + c) + [0]
  }

  /** The encoded components, one by one. */
  function Parts(comps: seq<Bytes>): (parts: seq<Bytes>)
    ensures |parts| == |comps|
    ensures forall i | 0 <= i < |parts| :: parts[i] == EncodeComponent(comps[i])
  {
    seq(|comps|, i requires 0 <= i < |comps| => EncodeComponent(comps[i]))
  }

  function Flatten(parts: seq<Bytes>): Bytes {
    if parts == [] then [] else parts[0] + Flatten(parts[1..])
  }

  function EncodeComponents(comps: seq<Bytes>): Bytes {
    Flatten(Parts(comps))
  }

  function EncodeName(comps: seq<Bytes>): (name: Bytes)
    ensures name != []
  {
    Header(DTAG_NAME, DTAG) + EncodeComponents(comps) + [0]
  }

  /** The layout is that of nested tagged elements. */
  function ComponentElements(comps: seq<Bytes>): seq<Element> {
    if comps == [] then [] else [Tag(DTAG_COMPONENT, [Blob(comps[0])])] + ComponentElements(comps[1..])
  }

  function NameElement(comps: seq<Bytes>): Element {
    Tag(DTAG_NAME, ComponentElements(comps))
  }

  lemma ComponentLayout(c: Bytes)
    ensures EncodeElement(Tag(DTAG_COMPONENT, [Blob(c)])) == EncodeComponent(c)
  {
    var e := Blob(c);
    assert [e][1..] == [] && EncodeElements([e]) == EncodeElement(e) + [];
  }

  lemma {:induction false} SameParts(comps: seq<Bytes>)
    ensures EncodeElements(ComponentElements(comps)) == EncodeComponents(comps)
  {
    if comps != [] {
      SameParts(comps[1..]);
      ComponentLayout(comps[0]);
      assert Parts(comps)[1..] == Parts(comps[1..]);
      assert ComponentElements(comps)[1..] == ComponentElements(comps[1..]);
    }
  }

  lemma SameLayout(comps: seq<Bytes>)
    ensures EncodeElement(NameElement(comps)) == EncodeName(comps)
  {
    SameParts(comps);
  }

  /** Tag bytes: a name starts with F2, a component with FA, one byte each. */
  lemma TagBytes()
    ensures Header(DTAG_NAME, DTAG) == [0xF2] && Header(DTAG_COMPONENT, DTAG) == [0xFA]
  {
    var none: Bytes := [];
    assert Digits(0) == none;
  }

  /** The empty name, and the name of one empty component. */
  lemma SmallestNames()
    ensures EncodeName([]) == [0xF2, 0x00]
    ensures EncodeName([[]]) == [0xF2, 0xFA, 0x85, 0x00, 0x00]
  {
    TagBytes();
    var none: Bytes := [];
    var noParts: seq<Bytes> := [];
    assert Digits(0) == none && Header(0, BLOB) == [0x85];
    assert Flatten(noParts) == [] && Parts([]) == noParts;
    var c := EncodeComponent(none);
    assert c == [0xFA, 0x85, 0x00];
    assert Parts([none]) == [c] && [c][1..] == noParts;
    assert Flatten([c]) == c + [];
  }

  lemma FlattenStep(part: Bytes, parts: seq<Bytes>)
    ensures Flatten([]) == [] && Flatten([part] + parts) == part + Flatten(parts)
  {
    assert ([part] + parts)[1..] == parts;
  }

  lemma {:induction false} FlattenConcat(a: seq<Bytes>, b: seq<Bytes>)
    ensures Flatten(a + b) == Flatten(a) + Flatten(b)
  {
    hide Flatten;
    if a == [] {
      FlattenStep([], []);
      assert a + b == b;
    } else {
      var part, rest := a[0], a[1..];
      FlattenConcat(rest, b);
      FlattenStep(part, rest);
      FlattenStep(part, rest + b);
      assert a == [part] + rest && a + b == [part] + (rest + b);
    }
  }

  lemma EncodeConcat(a: seq<Bytes>, b: seq<Bytes>)
    ensures EncodeComponents(a + b) == EncodeComponents(a) + EncodeComponents(b)
  {
    assert Parts(a + b) == Parts(a) + Parts(b);
    FlattenConcat(Parts(a), Parts(b));
  }

  // ----- Splitting -----

  /** `ndn_name_split`: where each component starts, and where the last one ends,
      counted from `at`; `None` for bytes that are no sequence of components. */
  function Split(s: Bytes, at: nat): (r: Option<seq<nat>>)
    ensures r.Some? ==> r.value != []
    decreases |s|
  {
    if s == [] then None
    else if s[0] == 0 then if |s| == 1 then Some([at]) else None
    else
      match ComponentLength(s)
      case None => None
      case Some(n) =>
        match Split(s[n..], at + n)
        case None => None
        case Some(rest) => Some([at] + rest)
  }

  /** The length of the component element at the head of `s`. */
  function ComponentLength(s: Bytes): (r: Option<nat>)
    requires s != []
    ensures r.Some? ==> 0 < r.value <= |s|
  {
    if s[0] != 0xFA then None
    else
      match ReadTag(s[1..], 0)
      case Some((Some(d), n)) =>
        var end := 1 + n + d / 8;
        if d % 8 == BLOB && end < |s| && s[end] == 0 then Some(end + 1) else None
      case _ => None
  }

  function SplitName(buf: Bytes): Option<seq<nat>> {
    if buf == [] || buf[0] != 0xF2 then None else Split(buf[1..], 1)
  }

  /** Where the parts start, the first one at `at`, and where the last one ends. */
  function Starts(parts: seq<Bytes>, at: nat): (r: seq<nat>)
    ensures |r| == |parts| + 1 && r[0] == at
  {
    if parts == [] then [at] else [at] + Starts(parts[1..], at + |parts[0]|)
  }

  lemma ComponentLengthEncoded(c: Bytes, s: Bytes)
    ensures ComponentLength(EncodeComponent(c) + s) == Some(|EncodeComponent(c)|)
    ensures EncodeComponent(c)[0] == 0xFA
  {
    TagBytes();
    var text, rest := EncodeComponent(c) + s, c + ([0] + s);
    HeaderRoundTrip(|c|, BLOB, rest);
    assert text[1..] == Header(|c|, BLOB) + rest;
    assert text[1 + |Header(|c|, BLOB)| + |c|] == 0;
  }

  lemma SplitStep(c: Bytes, s: Bytes, at: nat, rest: seq<nat>)
    requires Split(s, at + |EncodeComponent(c)|) == Some(rest)
    ensures Split(EncodeComponent(c) + s, at) == Some([at] + rest)
  {
    hide EncodeComponent, ComponentLength;
    ComponentLengthEncoded(c, s);
    assert (EncodeComponent(c) + s)[|EncodeComponent(c)|..] == s;
  }

  lemma Regroup(parts: seq<Bytes>, comps: seq<Bytes>)
    requires comps != [] && parts == Parts(comps)
    ensures EncodeComponents(comps) + [0] == EncodeComponent(comps[0]) + (EncodeComponents(comps[1..]) + [0])
    ensures parts[1..] == Parts(comps[1..])
  {
    assert parts[1..] == Parts(comps[1..]);
  }

  lemma {:induction false} SplitEncoded(comps: seq<Bytes>, at: nat)
    ensures Split(EncodeComponents(comps) + [0], at) == Some(Starts(Parts(comps), at))
    decreases |comps|
  {
    hide EncodeComponent, ComponentLength;
    if comps == [] {
      assert EncodeComponents(comps) + [0] == [0];
    } else {
      var parts := Parts(comps);
      var next := at + |parts[0]|;
      SplitEncoded(comps[1..], next);
      SplitStep(comps[0], EncodeComponents(comps[1..]) + [0], at, Starts(Parts(comps[1..]), next));
      Regroup(parts, comps);
    }
  }

  /** Splitting an encoded name finds exactly its components. */
  lemma SplitNameEncoded(comps: seq<Bytes>)
    ensures SplitName(EncodeName(comps)) == Some(Starts(Parts(comps), 1))
  {
    TagBytes();
    assert EncodeName(comps)[1..] == EncodeComponents(comps) + [0];
    SplitEncoded(comps, 1);
  }

  lemma ComponentOf(s: Bytes) returns (c: Bytes)
    requires s != [] && ComponentLength(s).Some?
    ensures s[..ComponentLength(s).value] == EncodeComponent(c)
  {
    TagBytes();
    var rest, length := s[1..], ComponentLength(s).value;
    var d, n := ReadTag(rest, 0).value.0.value, ReadTag(rest, 0).value.1;
    ReadIsHeader(rest);
    c := s[1 + n..length - 1];
    assert s[..length] == [0xFA] + (rest[..n] + c) + [0];
  }

  lemma {:induction false} ComponentsOf(s: Bytes, at: nat) returns (comps: seq<Bytes>)
    requires Split(s, at).Some?
    ensures s == EncodeComponents(comps) + [0]
    decreases |s|
  {
    hide EncodeComponent, ComponentLength;
    if s[0] == 0 {
      comps := [];
    } else {
      var n := ComponentLength(s).value;
      var c := ComponentOf(s);
      var rest := ComponentsOf(s[n..], at + n);
      comps := [c] + rest;
      Regroup(Parts(comps), comps);
      assert s == s[..n] + s[n..];
    }
  }

  /** The bytes that split are the encoded names and nothing else. */
  lemma SplitNameIff(buf: Bytes)
    ensures SplitName(buf).Some? <==> exists comps :: buf == EncodeName(comps)
  {
    TagBytes();
    if SplitName(buf).Some? {
      var comps := ComponentsOf(buf[1..], 1);
      assert buf == EncodeName(comps);
    }
    if comps :| buf == EncodeName(comps) {
      SplitNameEncoded(comps);
    }
  }

  /** The bytes between consecutive starts are the parts. */
  lemma {:induction false} StartsDelimit(parts: seq<Bytes>, before: Bytes, after: Bytes, i: nat)
    requires i < |parts|
    ensures var buf, starts := before + Flatten(parts) + after, Starts(parts, |before|);
            && starts[i + 1] == starts[i] + |parts[i]| <= |buf|
            && buf[..starts[i]] == before + Flatten(parts[..i])
            && buf[starts[i]..starts[i + 1]] == parts[i]
    decreases |parts|
  {
    hide Flatten;
    var part, rest := parts[0], parts[1..];
    FlattenStep(part, rest);
    assert parts == [part] + rest;
    assert before + Flatten(parts) + after == (before + part) + Flatten(rest) + after;
    if i == 0 {
      assert parts[..0] == [];
    } else {
      StartsDelimit(rest, before + part, after, i - 1);
      assert Starts(parts, |before|)[1..] == Starts(rest, |before + part|);
      FlattenStep(part, rest[..i - 1]);
      assert parts[..i] == [part] + rest[..i - 1];
    }
  }

  // ----- The header walk -----

  /** Position after the first byte with the flag at or after index `h - 1`; `None`
      when there is none before the last byte. */
  function WalkFrom(s: Bytes, h: nat): (r: Option<nat>)
    requires 2 <= h
    ensures r.Some? ==> h <= r.value < |s|
    decreases |s| - h
  {
    if |s| <= h then None
    else if 127 < s[h - 1] then Some(h)
    else WalkFrom(s, h + 1)
  }

  /** The payload the walk extracts from one component's bytes. */
  function Payload(s: Bytes): Option<Bytes> {
    match WalkFrom(s, 2)
    case None => None
    case Some(h) => Some(s[h..|s| - 1])
  }

  lemma {:induction false} DigitsUnflagged(n: nat)
    ensures forall i | 0 <= i < |Digits(n)| :: Digits(n)[i] < 128
  {
    if n != 0 {
      DigitsUnflagged(n / 128);
    }
  }

  lemma {:induction false} WalkOver(s: Bytes, h: nat, end: nat)
    requires 2 <= h <= end < |s| && 127 < s[end - 1]
    requires forall i | h - 1 <= i < end - 1 :: s[i] <= 127
    ensures WalkFrom(s, h) == Some(end)
    decreases end - h
  {
    if h < end {
      WalkOver(s, h + 1, end);
    }
  }

  lemma {:induction false} WalkStops(s: Bytes, h: nat)
    requires 2 <= h && WalkFrom(s, h).Some?
    ensures var end := WalkFrom(s, h).value;
            127 < s[end - 1] && forall i | h - 1 <= i < end - 1 :: s[i] <= 127
    decreases |s| - h
  {
    if s[h - 1] <= 127 {
      WalkStops(s, h + 1);
    }
  }

  /** The first byte with the flag, the tag byte not counted, is byte `end - 1`, in front
      of the last byte. */
  predicate FirstFlag(s: Bytes, end: nat) {
    2 <= end < |s| && 127 < s[end - 1] && forall i | 1 <= i < end - 1 :: s[i] <= 127
  }

  /** In any bytes the payload is what lies between that byte and the last one; without
      such a byte there is none. */
  lemma PayloadIff(s: Bytes, p: Bytes)
    ensures Payload(s) == Some(p) <==> exists end: nat :: FirstFlag(s, end) && p == s[end..|s| - 1]
  {
    if Payload(s) == Some(p) {
      WalkStops(s, 2);
      assert FirstFlag(s, WalkFrom(s, 2).value);
    }
    if end: nat :| FirstFlag(s, end) && p == s[end..|s| - 1] {
      WalkOver(s, 2, end);
    }
  }

  /** The walk recovers the payload of every component, however long its header. */
  lemma PayloadEncoded(c: Bytes)
    ensures Payload(EncodeComponent(c)) == Some(c)
  {
    TagBytes();
    var s, header := EncodeComponent(c), Header(|c|, BLOB);
    var n := |c| * 8 + BLOB;
    DigitsUnflagged(n / 128);
    assert s == [0xFA] + header + c + [0];
    var end := 1 + |header|;
    assert forall i | 1 <= i < end - 1 :: s[i] == Digits(n / 128)[i - 1];
    assert s[end - 1] == n % 128 + 128;
    WalkOver(s, 2, end);
    assert s[end..|s| - 1] == c;
  }

  predicate Delimits(index: seq<nat>, i: nat, size: nat) {
    i + 1 < |index| && index[i] < index[i + 1] <= size
  }

  /** Offsets as `ndn_name_split` leaves them. */
  predicate Increasing(index: seq<nat>, size: nat) {
    index != [] && forall i | 0 <= i < |index| - 1 :: Delimits(index, i, size)
  }

  /** The bytes of component `i`. */
  function Part(buf: Bytes, index: seq<nat>, i: nat): Bytes
    requires Delimits(index, i, |buf|)
  {
    buf[index[i]..index[i + 1]]
  }

  lemma Within(buf: Bytes, a: nat, b: nat, h: nat)
    requires a + h < b <= |buf|
    ensures buf[a..b][h..b - a - 1] == buf[a + h..b - 1]
  {
    assert buf[a..b] == buf[a..a + h] + buf[a + h..b - 1] + [buf[b - 1]];
  }

  method WalkHeader(buf: Bytes, index: seq<nat>, n: nat) returns (r: Option<Bytes>)
    requires Delimits(index, n, |buf|)
    ensures r == Payload(Part(buf, index, n))
  {
    ghost var s := Part(buf, index, n);
    var length: int := index[n + 1] - index[n];
    var component, h: int, found := index[n] + 1, 2, false;
    while h < length && !found
      invariant 2 <= h && component == index[n] + (if found then h else h - 1)
      invariant found ==> h < length
      invariant WalkFrom(s, 2) == if found then Some(h) else WalkFrom(s, h)
      decreases length - h, !found
    {
      component := component + 1;
      if 127 < buf[component - 1] {
        found := true;
      } else {
        h := h + 1;
      }
    }
    var size: int := length - 1 - h;
    if size < 0 {
      return None;
    }
    Within(buf, index[n], index[n + 1], h);
    return Some(buf[component..component + size]);
  }

  method NameCompsFromNdn(buf: Bytes, index: seq<nat>) returns (r: Option<seq<Bytes>>)
    requires Increasing(index, |buf|)
    ensures r.Some? <==> forall n | 0 <= n < |index| - 1 :: Payload(Part(buf, index, n)).Some?
    ensures r.Some? ==> |r.value| == |index| - 1
    ensures r.Some? ==> forall n | 0 <= n < |index| - 1 :: Payload(Part(buf, index, n)) == Some(r.value[n])
  {
    var list := [];
    for n := 0 to |index| - 1
      invariant |list| == n
      invariant forall k | 0 <= k < n :: Payload(Part(buf, index, k)) == Some(list[k])
    {
      var component := WalkHeader(buf, index, n);
      if component.None? {
        return None;
      }
      list := list + [component.value];
    }
    return Some(list);
  }

  /** `ndn_name_append`: the closer moves behind the new component. */
  function Append(name: Bytes, c: Bytes): Bytes
    requires name != []
  {
    name[..|name| - 1] + EncodeComponent(c) + [0]
  }

  lemma AppendEncoded(comps: seq<Bytes>, c: Bytes)
    ensures Append(EncodeName(comps), c) == EncodeName(comps + [c])
  {
    hide EncodeComponent, Header;
    EncodeConcat(comps, [c]);
    var none: seq<Bytes> := [];
    assert Parts([c])[1..] == none && Flatten(none) == [];
    assert EncodeComponents([c]) == EncodeComponent(c) + [];
    var name := EncodeName(comps);
    assert name[..|name| - 1] == Header(DTAG_NAME, DTAG) + EncodeComponents(comps);
  }

  method NameCompsToNdn(comps: seq<Bytes>) returns (name: Bytes)
    ensures name == EncodeName(comps)
  {
    name := [0xF2, 0];
    TagBytes();
    assert name == EncodeName([]);
    for n := 0 to |comps|
      invariant name == EncodeName(comps[..n])
    {
      AppendEncoded(comps[..n], comps[n]);
      assert comps[..n + 1] == comps[..n] + [comps[n]];
      name := Append(name, comps[n]);
    }
    assert comps[..|comps|] == comps;
  }

  lemma PartsOfName(comps: seq<Bytes>, i: nat)
    requires i < |comps|
    ensures var name, index := EncodeName(comps), Starts(Parts(comps), 1);
            Delimits(index, i, |name|) && Part(name, index, i) == EncodeComponent(comps[i])
  {
    TagBytes();
    StartsDelimit(Parts(comps), [0xF2], [0], i);
  }

  /** Splitting an encoded name and walking its headers gives the components back. */
  lemma NameRoundTrip(comps: seq<Bytes>)
    ensures var name := EncodeName(comps);
            && SplitName(name).Some?
            && var index := SplitName(name).value;
            && Increasing(index, |name|) && |index| == |comps| + 1
            && forall i | 0 <= i < |comps| :: Payload(Part(name, index, i)) == Some(comps[i])
  {
    SplitNameEncoded(comps);
    forall i | 0 <= i < |comps|
      ensures Delimits(Starts(Parts(comps), 1), i, |EncodeName(comps)|)
      ensures Payload(Part(EncodeName(comps), Starts(Parts(comps), 1), i)) == Some(comps[i])
    {
      PartsOfName(comps, i);
      PayloadEncoded(comps[i]);
    }
  }

  /** Whatever bytes split, their components are found, and encode to the same bytes. */
  lemma NameBytesRoundTrip(buf: Bytes) returns (comps: seq<Bytes>)
    requires SplitName(buf).Some?
    ensures var index := SplitName(buf).value;
            && Increasing(index, |buf|) && |index| == |comps| + 1
            && forall i | 0 <= i < |comps| :: Payload(Part(buf, index, i)) == Some(comps[i])
    ensures EncodeName(comps) == buf
  {
    hide EncodeName, SplitName, Payload;
    SplitNameIff(buf);
    comps :| buf == EncodeName(comps);
    NameRoundTrip(comps);
  }
}
