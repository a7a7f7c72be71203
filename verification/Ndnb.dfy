/** The ndnb wire format: base-128 headers whose last byte carries the terminator
    flag, blobs, tagged elements, and the stack decoder. */
module Ndnb {
  import opened Options

  type Byte = x: int | 0 <= x < 256
  type Bytes = seq<Byte>

  const DTAG: nat := 2
  const BLOB: nat := 5

  // ----- Headers -----

  /** Base-128 digits of `n`, most significant first; none for 0. */
  function Digits(n: nat): Bytes {
    if n == 0 then [] else Digits(n / 128) + [n % 128]
  }

  /** The header of a value and its three-bit type: only the last byte has the flag. */
  function Header(value: nat, tt: nat): (h: Bytes)
    requires tt < 8
    ensures h != []
  {
    var n := value * 8 + tt;
    Digits(n / 128) + [n % 128 + 128]
  }

  function Reversed(s: Bytes): (r: Bytes)
    ensures |r| == |s|
  {
    if s == [] then [] else Reversed(s[1..]) + [s[0]]
  }

  lemma {:induction false} ReversedAppend(s: Bytes, x: Byte)
    ensures Reversed(s + [x]) == [x] + Reversed(s)
  {
    if s == [] {
      assert s + [x] == [x] && [x][1..] == [];
    } else {
      assert (s + [x])[1..] == s[1..] + [x];
      ReversedAppend(s[1..], x);
    }
  }

  /** Fills the blocks from the least significant end, then reverses them. */
  method Encode(value: nat, tt: nat) returns (r: Bytes)
    requires tt < 8
    ensures r == Header(value, tt)
  {
    var header: nat := value * 8 + tt;
    var blocks: Bytes := [header % 128 + 128];
    header := header / 128;
    assert Reversed(blocks) == blocks;
    while header != 0
      invariant Digits(header) + Reversed(blocks) == Header(value, tt)
    {
      var digit := header % 128;
      ReversedAppend(blocks, digit);
      assert Digits(header) + Reversed(blocks) == Digits(header / 128) + ([digit] + Reversed(blocks));
      blocks := blocks + [digit];
      header := header / 128;
    }
    return Reversed(blocks);
  }

  /** What the decoder reads from `s` until a byte completes: a closer, or a value;
      with the number of bytes read.  `None` when the text ends before that. */
  function ReadTag(s: Bytes, decoded: nat): (r: Option<(Option<nat>, nat)>)
    ensures r.Some? ==> 0 < r.value.1 <= |s|
  {
    if s == [] then None
    else if decoded == 0 && s[0] == 0 then Some((None, 1))
    else
      var d := decoded * 128 + s[0] % 128;
      if 128 <= s[0] then Some((Some(d), 1))
      else
        match ReadTag(s[1..], d)
        case None => None
        case Some((v, n)) => Some((v, n + 1))
  }

  lemma ReadOneDigit(acc: nat, digit: Byte, s: Bytes)
    requires digit < 128 && (acc != 0 || digit != 0)
    ensures ReadTag([digit] + s, acc) ==
            match ReadTag(s, acc * 128 + digit) case None => None case Some((v, k)) => Some((v, k + 1))
  {
    assert ([digit] + s)[1..] == s;
  }

  /** Reading digits accumulates them; the accumulator is 0 only before the first. */
  lemma {:induction false} ReadDigits(n: nat, s: Bytes)
    ensures ReadTag(Digits(n) + s, 0) ==
            match ReadTag(s, n) case None => None case Some((v, k)) => Some((v, k + |Digits(n)|))
  {
    hide ReadTag;
    if n == 0 {
      assert Digits(n) + s == s;
    } else {
      var acc, digit := n / 128, n % 128;
      ReadDigits(acc, [digit] + s);
      ReadOneDigit(acc, digit, s);
      assert Digits(n) + s == Digits(acc) + ([digit] + s);
      assert acc * 128 + digit == n;
    }
  }

  /** The decoder recovers every value and type from its header, and reads no further. */
  lemma HeaderRoundTrip(value: nat, tt: nat, s: Bytes)
    requires tt < 8
    ensures ReadTag(Header(value, tt) + s, 0) == Some((Some(value * 8 + tt), |Header(value, tt)|))
  {
    var n := value * 8 + tt;
    var last: Bytes := [n % 128 + 128];
    ReadDigits(n / 128, last + s);
    assert Header(value, tt) + s == Digits(n / 128) + (last + s);
    assert ReadTag(last + s, n / 128) == Some((Some(n), 1));
  }

  /** What completes as a value has the digits of that value: no padded form is read. */
  lemma {:induction false} ReadDigitsOf(s: Bytes, acc: nat)
    requires ReadTag(s, acc).Some? && ReadTag(s, acc).value.0.Some?
    ensures var (d, n) := (ReadTag(s, acc).value.0.value, ReadTag(s, acc).value.1);
            Digits(d / 128) == Digits(acc) + s[..n - 1] && s[n - 1] == d % 128 + 128
    decreases |s|
  {
    var next, n := acc * 128 + s[0] % 128, ReadTag(s, acc).value.1;
    if 128 <= s[0] {
      assert s[..0] == [];
    } else {
      ReadDigitsOf(s[1..], next);
      assert next / 128 == acc && next % 128 == s[0];
      assert Digits(next) == Digits(acc) + [s[0]];
      assert s[..n - 1] == [s[0]] + s[1..][..n - 2];
    }
  }

  /** Conversely a header is the only text the decoder reads its value from. */
  lemma ReadIsHeader(s: Bytes)
    requires ReadTag(s, 0).Some? && ReadTag(s, 0).value.0.Some?
    ensures var (d, n) := (ReadTag(s, 0).value.0.value, ReadTag(s, 0).value.1);
            s[..n] == Header(d / 8, d % 8)
  {
    hide Digits, ReadTag;
    var d, n := ReadTag(s, 0).value.0.value, ReadTag(s, 0).value.1;
    NoDigits();
    ReadDigitsOf(s, 0);
    assert [] + s[..n - 1] == s[..n - 1];
    assert s[..n] == s[..n - 1] + [s[n - 1]];
    assert d / 8 * 8 + d % 8 == d;
  }

  /** No header is a prefix of another one, and none starts like a closer. */
  lemma HeadersPrefixFree(v: nat, t: nat, w: nat, u: nat)
    requires t < 8 && u < 8
    ensures Header(v, t) <= Header(w, u) <==> (v == w && t == u)
    ensures Header(v, t)[0] != 0
  {
    hide Header;
    HeaderRoundTrip(v, t, []);
    HeaderRoundTrip(w, u, []);
    assert Header(v, t) + [] == Header(v, t) && Header(w, u) + [] == Header(w, u);
    if Header(v, t) <= Header(w, u) {
      var rest := Header(w, u)[|Header(v, t)|..];
      HeaderRoundTrip(v, t, rest);
      assert Header(v, t) + rest == Header(w, u);
    }
  }

  lemma NoDigits()
    ensures Digits(0) == []
  {
  }

  function Pow128(k: nat): nat {
    if k == 0 then 1 else 128 * Pow128(k - 1)
  }

  /** The number the low seven bits of the bytes spell, the first byte weighing most. */
  function Base128(s: Bytes): nat {
    if s == [] then 0 else s[0] % 128 * Pow128(|s| - 1) + Base128(s[1..])
  }

  lemma {:induction false} Base128Last(s: Bytes, x: Byte)
    ensures Base128(s + [x]) == Base128(s) * 128 + x % 128
  {
    if s == [] {
      assert [] + [x] == [x] && [x][1..] == [];
    } else {
      Base128Last(s[1..], x);
      assert (s + [x])[1..] == s[1..] + [x];
      var a, p := s[0] % 128, Pow128(|s| - 1);
      assert a * (128 * p) == a * p * 128;
    }
  }

  lemma {:induction false} DigitsSpell(n: nat)
    ensures Base128(Digits(n)) == n
    ensures forall i | 0 <= i < |Digits(n)| :: Digits(n)[i] < 128
    ensures n != 0 ==> Digits(n) != [] && Digits(n)[0] != 0
  {
    if n != 0 {
      DigitsSpell(n / 128);
      Base128Last(Digits(n / 128), n % 128);
    }
  }

  /** A header spells its value and three-bit type in base 128, without leading zeros,
      and flags its last byte only. */
  lemma HeaderSpells(value: nat, tt: nat)
    requires tt < 8
    ensures var h := Header(value, tt);
            && Base128(h) == value * 8 + tt
            && (forall i | 0 <= i < |h| - 1 :: h[i] < 128) && 128 <= h[|h| - 1]
            && h[0] != 0
  {
    hide Digits, Base128;
    var n := value * 8 + tt;
    var digits := Digits(n / 128);
    DigitsSpell(n / 128);
    Base128Last(digits, n % 128 + 128);
    if n / 128 == 0 {
      NoDigits();
    }
  }

  // ----- Elements -----

  /** The header types that carry neither children nor bytes here. */
  type BareType = t: nat | t < 8 && t != DTAG && t != BLOB witness 0

  datatype Element =
    | Tag(tag: nat, children: seq<Element>)
    | Blob(bytes: Bytes)
    | Bare(tt: BareType, value: nat)

  function EncodeElement(e: Element): Bytes
    decreases e, 0
  {
    match e
    case Tag(tag, children) => Header(tag, DTAG) + EncodeElements(children) + [0]
    case Blob(bytes) => Header(|bytes|, BLOB) + bytes
    case Bare(tt, value) => Header(value, tt)
  }

  function EncodeElements(es: seq<Element>): Bytes
    decreases es, 0
  {
    if es == [] then [] else EncodeElement(es[0]) + EncodeElements(es[1..])
  }

  /** What the decoder prints for each step. */
  datatype Event =
    | Opened(tt: nat, value: nat)
    | Data(size: nat, bytes: Bytes)
    | Other(tt: nat, value: nat)
    | Closed(tt: nat, value: nat)

  /** Opening, contents, closing: each closing event carries its own opening tag. */
  function Preorder(e: Element): seq<Event>
    decreases e, 0
  {
    match e
    case Tag(tag, children) => [Opened(DTAG, tag)] + PreorderAll(children) + [Closed(DTAG, tag)]
    case Blob(bytes) => [Data(|bytes|, bytes)]
    case Bare(tt, value) => [Other(tt, value)]
  }

  function PreorderAll(es: seq<Element>): seq<Event>
    decreases es, 0
  {
    if es == [] then [] else Preorder(es[0]) + PreorderAll(es[1..])
  }

  // ----- The decoder -----

  type Stack = seq<(nat, nat)>

  /** How a run of the decoder ends; `overrun` is how far a truncated blob moved the
      position past the end of the data. */
  datatype Outcome =
    | Finished(stack: Stack, overrun: nat)
    | OutOfData
    | PopFromEmpty

  datatype Trace = Trace(events: seq<Event>, outcome: Outcome)

  function Emit(events: seq<Event>, t: Trace): Trace {
    Trace(events + t.events, t.outcome)
  }

  /** One round of the decoder's loop. */
  datatype Round =
    | Halt(events: seq<Event>, outcome: Outcome)
    | Go(event: Event, rest: Bytes, stack: Stack)

  /** What a round does once the header is read and `rest` is left. */
  function Handle(decoded: Option<nat>, rest: Bytes, stack: Stack): Round {
    match decoded
    case None =>
      if stack == [] then Halt([], PopFromEmpty)
      else
        var top := stack[|stack| - 1];
        Go(Closed(top.0, top.1), rest, stack[..|stack| - 1])
    case Some(d) =>
      var tt, value := d % 8, d / 8;
      if tt == DTAG then Go(Opened(tt, value), rest, stack + [(tt, value)])
      else if tt == BLOB then
        if |rest| < value then Halt([Data(value, rest)], Finished(stack, value - |rest|))
        else Go(Data(value, rest[..value]), rest[value..], stack)
      else Go(Other(tt, value), rest, stack)
  }

  /** `decoded` is what was read of a header before. */
  function OneRound(s: Bytes, stack: Stack, decoded: nat := 0): (r: Round)
    requires s != []
    ensures r.Go? ==> |r.rest| < |s|
  {
    match ReadTag(s, decoded)
    case None => Halt([], OutOfData)
    case Some((tag, n)) => Handle(tag, s[n..], stack)
  }

  /** The whole run on the bytes still to read. */
  function Run(s: Bytes, stack: Stack, decoded: nat := 0): Trace
    decreases |s|
  {
    if s == [] then Trace([], Finished(stack, 0))
    else
      match OneRound(s, stack, decoded)
      case Halt(events, outcome) => Trace(events, outcome)
      case Go(event, rest, stack') => Emit([event], Run(rest, stack'))
  }

  /** From a position in the data, or past its end. */
  function RunFrom(data: Bytes, position: nat, stack: Stack, decoded: nat := 0): Trace {
    if position <= |data| then Run(data[position..], stack, decoded)
    else Trace([], Finished(stack, position - |data|))
  }

  lemma EmitTwice(a: seq<Event>, b: seq<Event>, t: Trace)
    ensures Emit(a, Emit(b, t)) == Emit(a + b, t)
  {
    assert a + (b + t.events) == a + b + t.events;
  }

  lemma OpenRound(tag: nat, s: Bytes, stack: Stack)
    ensures OneRound(Header(tag, DTAG) + s, stack) == Go(Opened(DTAG, tag), s, stack + [(DTAG, tag)])
  {
    hide Header, ReadTag;
    HeaderRoundTrip(tag, DTAG, s);
    assert (Header(tag, DTAG) + s)[|Header(tag, DTAG)|..] == s;
  }

  lemma CloseRound(tag: nat, s: Bytes, stack: Stack)
    ensures OneRound([0] + s, stack + [(DTAG, tag)]) == Go(Closed(DTAG, tag), s, stack)
  {
    assert ([0] + s)[1..] == s;
    assert (stack + [(DTAG, tag)])[..|stack|] == stack;
  }

  lemma BlobRound(bytes: Bytes, s: Bytes, stack: Stack)
    ensures OneRound(Header(|bytes|, BLOB) + (bytes + s), stack) == Go(Data(|bytes|, bytes), s, stack)
  {
    hide Header, ReadTag;
    var rest := bytes + s;
    HeaderRoundTrip(|bytes|, BLOB, rest);
    assert (Header(|bytes|, BLOB) + rest)[|Header(|bytes|, BLOB)|..] == rest;
    assert rest[..|bytes|] == bytes && rest[|bytes|..] == s;
  }

  lemma BareRound(tt: BareType, value: nat, s: Bytes, stack: Stack)
    ensures OneRound(Header(value, tt) + s, stack) == Go(Other(tt, value), s, stack)
  {
    hide Header, ReadTag;
    HeaderRoundTrip(value, tt, s);
    assert (Header(value, tt) + s)[|Header(value, tt)|..] == s;
  }

  lemma RunGo(s: Bytes, stack: Stack, event: Event, rest: Bytes, stack': Stack)
    requires s != [] && OneRound(s, stack) == Go(event, rest, stack')
    ensures Run(s, stack) == Emit([event], Run(rest, stack'))
  {
  }

  lemma {:induction false} RunElement(e: Element, s: Bytes, stack: Stack)
    ensures Run(EncodeElement(e) + s, stack) == Emit(Preorder(e), Run(s, stack))
    decreases e, 0
  {
    hide OneRound, Header, Run, Emit;
    match e
    case Tag(tag, children) =>
      var tail: Bytes := [0] + s;
      var inner := stack + [(DTAG, tag)];
      RunElements(children, tail, inner);
      CloseRound(tag, s, stack);
      RunGo(tail, inner, Closed(DTAG, tag), s, stack);
      WrapTag(tag, children, s, stack);
    case Blob(bytes) =>
      assert EncodeElement(e) + s == Header(|bytes|, BLOB) + (bytes + s);
      BlobRound(bytes, s, stack);
      RunGo(EncodeElement(e) + s, stack, Data(|bytes|, bytes), s, stack);
    case Bare(tt, value) =>
      BareRound(tt, value, s, stack);
      RunGo(EncodeElement(e) + s, stack, Other(tt, value), s, stack);
  }

  lemma WrapTag(tag: nat, children: seq<Element>, s: Bytes, stack: Stack)
    requires Run(EncodeElements(children) + ([0] + s), stack + [(DTAG, tag)]) ==
             Emit(PreorderAll(children), Emit([Closed(DTAG, tag)], Run(s, stack)))
    ensures Run(EncodeElement(Tag(tag, children)) + s, stack) == Emit(Preorder(Tag(tag, children)), Run(s, stack))
  {
    hide OneRound, Header, Run, Emit;
    var body := EncodeElements(children) + ([0] + s);
    var text := Header(tag, DTAG) + body;
    OpenRound(tag, body, stack);
    RunGo(text, stack, Opened(DTAG, tag), body, stack + [(DTAG, tag)]);
    EmitTwice(PreorderAll(children), [Closed(DTAG, tag)], Run(s, stack));
    EmitTwice([Opened(DTAG, tag)], PreorderAll(children) + [Closed(DTAG, tag)], Run(s, stack));
    assert EncodeElement(Tag(tag, children)) + s == text;
    assert Preorder(Tag(tag, children)) == [Opened(DTAG, tag)] + (PreorderAll(children) + [Closed(DTAG, tag)]);
  }

  lemma {:induction false} RunElements(es: seq<Element>, s: Bytes, stack: Stack)
    ensures Run(EncodeElements(es) + s, stack) == Emit(PreorderAll(es), Run(s, stack))
    decreases es, 0
  {
    if es == [] {
      assert EncodeElements(es) + s == s;
      assert PreorderAll(es) + Run(s, stack).events == Run(s, stack).events;
    } else {
      var rest := EncodeElements(es[1..]) + s;
      assert EncodeElements(es) + s == EncodeElement(es[0]) + rest;
      RunElement(es[0], rest, stack);
      RunElements(es[1..], s, stack);
      EmitTwice(Preorder(es[0]), PreorderAll(es[1..]), Run(s, stack));
    }
  }

  /** Decoding an encoded forest yields exactly its preorder events, with the stack
      empty and the position at the end of the data. */
  lemma DecodeEncoded(es: seq<Element>)
    ensures Run(EncodeElements(es), []) == Trace(PreorderAll(es), Finished([], 0))
  {
    RunElements(es, [], []);
    assert EncodeElements(es) + [] == EncodeElements(es);
    assert PreorderAll(es) + [] == PreorderAll(es);
  }

  /** What each kind of header prints and does to the stack: only an opening tag, type 2,
      is pushed, and a closer is printed with the tag it takes off. */
  lemma RunForms(value: nat, bytes: Bytes, tt: BareType, s: Bytes, stack: Stack)
    ensures Run(Header(value, 2) + s, stack) == Emit([Opened(2, value)], Run(s, stack + [(2, value)]))
    ensures Run(Header(|bytes|, 5) + (bytes + s), stack) == Emit([Data(|bytes|, bytes)], Run(s, stack))
    ensures Run(Header(value, tt) + s, stack) == Emit([Other(tt, value)], Run(s, stack))
    ensures Run([0] + s, stack + [(2, value)]) == Emit([Closed(2, value)], Run(s, stack))
  {
    hide Header, Run, OneRound;
    OpenRound(value, s, stack);
    RunGo(Header(value, 2) + s, stack, Opened(2, value), s, stack + [(2, value)]);
    BlobRound(bytes, s, stack);
    RunGo(Header(|bytes|, 5) + (bytes + s), stack, Data(|bytes|, bytes), s, stack);
    BareRound(tt, value, s, stack);
    RunGo(Header(value, tt) + s, stack, Other(tt, value), s, stack);
    CloseRound(value, s, stack);
    RunGo([0] + s, stack + [(2, value)], Closed(2, value), s, stack);
  }

  // ----- What else a run can be -----

  lemma {:induction false} CloserRead(s: Bytes, decoded: nat)
    requires ReadTag(s, decoded).Some? && ReadTag(s, decoded).value.0.None?
    ensures decoded == 0 && s[0] == 0 && ReadTag(s, decoded).value.1 == 1
    decreases |s|
  {
    if decoded != 0 || s[0] != 0 {
      CloserRead(s[1..], decoded * 128 + s[0] % 128);
    }
  }

  /** Forests one after the other, a closer between two. */
  function Joined(forests: seq<seq<Element>>): Bytes
    requires forests != []
  {
    EncodeElements(forests[0]) + if |forests| == 1 then [] else [0] + Joined(forests[1..])
  }

  lemma ElementAhead(e: Element, es: seq<Element>)
    ensures EncodeElements([e] + es) == EncodeElement(e) + EncodeElements(es)
  {
    hide EncodeElement;
    assert ([e] + es)[1..] == es;
  }

  lemma JoinedElement(e: Element, forests: seq<seq<Element>>)
    requires forests != []
    ensures Joined([[e] + forests[0]] + forests[1..]) == EncodeElement(e) + Joined(forests)
  {
    hide EncodeElement, EncodeElements;
    var more := [[e] + forests[0]] + forests[1..];
    ElementAhead(e, forests[0]);
    assert more[1..] == forests[1..];
  }

  lemma JoinedTag(tag: nat, forests: seq<seq<Element>>) returns (more: seq<seq<Element>>)
    requires 2 <= |forests|
    ensures |more| == |forests| - 1 && Joined(more) == Header(tag, DTAG) + Joined(forests)
  {
    hide Header;
    var e := Tag(tag, forests[0]);
    more := [[e] + forests[1]] + forests[2..];
    JoinedElement(e, forests[1..]);
    assert forests[1..][0] == forests[1] && forests[1..][1..] == forests[2..];
    assert EncodeElement(e) + Joined(forests[1..]) ==
           Header(tag, DTAG) + (EncodeElements(forests[0]) + ([0] + Joined(forests[1..])));
  }

  lemma JoinedCloser(forests: seq<seq<Element>>)
    requires forests != []
    ensures Joined([[]] + forests) == [0] + Joined(forests)
  {
    var none: seq<Element> := [];
    var more := [none] + forests;
    assert more[1..] == forests && EncodeElements(none) == [];
    assert more == [[]] + forests;
  }

  /** A header that opens nothing and the bytes it takes are an element of their own. */
  lemma ElementTaken(d: nat, after: Bytes, stack: Stack, forests: seq<seq<Element>>) returns (more: seq<seq<Element>>)
    requires d % 8 != DTAG && Handle(Some(d), after, stack).Go?
    requires forests != [] && Joined(forests) == Handle(Some(d), after, stack).rest
    ensures |more| == |forests| && Joined(more) == Header(d / 8, d % 8) + after
  {
    hide Header, Joined;
    var n := if d % 8 == BLOB then d / 8 else 0;
    var e := if d % 8 == BLOB then Blob(after[..n]) else Bare(d % 8, d / 8);
    more := [[e] + forests[0]] + forests[1..];
    JoinedElement(e, forests);
    assert after == after[..n] + after[n..];
  }

  /** Bytes that a round takes away from the front belong to one element or closer. */
  lemma RoundTakes(s: Bytes, stack: Stack, forests: seq<seq<Element>>) returns (more: seq<seq<Element>>)
    requires s != [] && OneRound(s, stack).Go?
    requires |forests| == |OneRound(s, stack).stack| + 1 && Joined(forests) == OneRound(s, stack).rest
    ensures |more| == |stack| + 1 && Joined(more) == s
  {
    hide Header, ReadTag, Joined;
      var (tag, n) := ReadTag(s, 0).value;
    assert s == s[..n] + s[n..];
    if tag.None? {
      CloserRead(s, 0);
      more := [[]] + forests;
      JoinedCloser(forests);
      assert s[..1] == [0];
    } else {
      ReadIsHeader(s);
      if tag.value % 8 == DTAG {
        more := JoinedTag(tag.value / 8, forests);
      } else {
        more := ElementTaken(tag.value, s[n..], stack, forests);
      }
    }
  }

  lemma {:induction false} RunFinished(s: Bytes, stack: Stack) returns (forests: seq<seq<Element>>)
    requires Run(s, stack).outcome == Finished([], 0)
    ensures |forests| == |stack| + 1 && Joined(forests) == s
    decreases |s|
  {
    hide OneRound;
    if s == [] {
      forests := [[]];
    } else {
      var round := OneRound(s, stack);
      if round.Halt? {
        HaltUnfinished(s, stack);
        assert false;
      } else {
        forests := RunFinished(round.rest, round.stack);
        forests := RoundTakes(s, stack, forests);
      }
    }
  }

  lemma HaltUnfinished(s: Bytes, stack: Stack)
    requires s != [] && OneRound(s, stack).Halt?
    ensures OneRound(s, stack).outcome != Finished([], 0)
  {
    hide ReadTag;
  }

  /** A run ends at the end of the data with an empty stack exactly on the encodings of
      forests, and then prints their preorder. */
  lemma DecodesIff(s: Bytes)
    ensures Run(s, []).outcome == Finished([], 0) <==> exists es :: EncodeElements(es) == s
    ensures forall es | EncodeElements(es) == s :: Run(s, []).events == PreorderAll(es)
  {
    if Run(s, []).outcome == Finished([], 0) {
      var forests := RunFinished(s, []);
      assert EncodeElements(forests[0]) + [] == EncodeElements(forests[0]) == s;
    }
    if es :| EncodeElements(es) == s {
      DecodeEncoded(es);
    }
    forall es | EncodeElements(es) == s
      ensures Run(s, []) == Trace(PreorderAll(es), Finished([], 0))
    {
      DecodeEncoded(es);
    }
  }

  /** A closer without its opening tag, behind any elements. */
  lemma StrayCloser(es: seq<Element>, s: Bytes)
    ensures Run(EncodeElements(es) + ([0] + s), []) == Trace(PreorderAll(es), PopFromEmpty)
  {
    RunElements(es, [0] + s, []);
    assert ([0] + s)[1..] == s;
    assert PreorderAll(es) + [] == PreorderAll(es);
  }

  /** A blob cut short prints what there is, and moves the position past the end. */
  lemma ShortBlob(es: seq<Element>, size: nat, bytes: Bytes, stack: Stack)
    requires |bytes| < size
    ensures Run(EncodeElements(es) + (Header(size, BLOB) + bytes), stack) ==
            Trace(PreorderAll(es) + [Data(size, bytes)], Finished(stack, size - |bytes|))
  {
    hide Header, Run, EncodeElements;
    var s := Header(size, BLOB) + bytes;
    RunElements(es, s, stack);
    ShortRound(size, bytes, stack);
  }

  lemma ShortRound(size: nat, bytes: Bytes, stack: Stack)
    requires |bytes| < size
    ensures Run(Header(size, BLOB) + bytes, stack) == Trace([Data(size, bytes)], Finished(stack, size - |bytes|))
  {
    hide Header, ReadTag;
    HeaderRoundTrip(size, BLOB, bytes);
    assert (Header(size, BLOB) + bytes)[|Header(size, BLOB)|..] == bytes;
  }

  /** A header cut short fails, whatever came before it. */
  lemma CutHeader(es: seq<Element>, value: nat, tt: nat, n: nat, stack: Stack)
    requires tt < 8 && 0 < n < |Header(value, tt)|
    ensures Run(EncodeElements(es) + Header(value, tt)[..n], stack) == Trace(PreorderAll(es), OutOfData)
  {
    hide Header;
    var h := Header(value, tt)[..n];
    HeadersPrefixFree(value, tt, value, tt);
    if ReadTag(h, 0).Some? {
      hide ReadTag;
      var (tag, k) := ReadTag(h, 0).value;
      if tag.None? {
        CloserRead(h, 0);
      } else {
        ReadIsHeader(h);
        assert h[..k] == Header(value, tt)[..k];
        HeadersPrefixFree(tag.value / 8, tag.value % 8, value, tt);
      }
      assert false;
    }
    RunElements(es, h, stack);
    assert PreorderAll(es) + [] == PreorderAll(es);
  }

  class NDNBDecoder {
    const data: Bytes
    var position: nat
    var decoded: nat
    var stack: Stack

    constructor (data: Bytes)
      ensures this.data == data && position == 0 && decoded == 0 && stack == []
    {
      this.data := data;
      position, decoded, stack := 0, 0, [];
    }

    /** The value decoded so far and whether it is complete; a closer has no value. */
    method ProcessNextByte() returns (value: Option<nat>, complete: bool)
      requires position < |data|
      modifies `position, `decoded
      ensures position == old(position) + 1
      ensures value.None? ==> complete
      ensures complete ==> decoded == 0 && ReadTag(data[old(position)..], old(decoded)) == Some((value, 1))
      ensures !complete ==> value == Some(decoded)
      ensures !complete ==> ReadTag(data[old(position)..], old(decoded)) ==
                            match ReadTag(data[position..], decoded)
                            case None => None
                            case Some((v, n)) => Some((v, n + 1))
    {
      var octet := data[position];
      assert data[position..][1..] == data[position + 1..];
      position := position + 1;
      if decoded == 0 && octet == 0 {
        return None, true;
      }
      var d := decoded * 128 + octet % 128;
      complete := 128 <= octet;
      decoded := if !complete then d else 0;
      return Some(d), complete;
    }

    /** Reads bytes until one completes; `None` when the data ends first, where the
        source's assertion fails. */
    method NextTag() returns (r: Option<Option<nat>>)
      requires position < |data|
      modifies `position, `decoded
      ensures match ReadTag(data[old(position)..], old(decoded))
              case None => r.None?
              case Some((v, n)) => r == Some(v) && position == old(position) + n && decoded == 0
    {
      var complete := false;
      r := None;
      while !complete
        invariant old(position) <= position <= |data|
        invariant complete ==>
                    && r.Some? && decoded == 0
                    && ReadTag(data[old(position)..], old(decoded)) == Some((r.value, position - old(position)))
        invariant !complete ==> ReadTag(data[old(position)..], old(decoded)) ==
                                match ReadTag(data[position..], decoded)
                                case None => None
                                case Some((v, n)) => Some((v, n + (position - old(position))))
        decreases |data| - position, !complete
      {
        if position == |data| {
          return None;
        }
        var value;
        value, complete := ProcessNextByte();
        r := Some(value);
      }
    }

    /** The rest of a round; `None` when the stack is empty at a closer. */
    method HandleTag(tag: Option<nat>) returns (event: Option<Event>)
      requires position <= |data|
      modifies `position, `stack
      ensures match Handle(tag, data[old(position)..], old(stack))
              case Halt(events, PopFromEmpty) => event.None?
              case Halt(events, outcome) =>
                && |data| < position && outcome == Finished(stack, position - |data|)
                && event.Some? && events == [event.value]
              case Go(e, rest, stack') =>
                && event == Some(e) && position <= |data| && data[position..] == rest && stack == stack'
    {
      ghost var rest := data[position..];
      if tag.None? {
        if stack == [] {
          return None;
        }
        var top := stack[|stack| - 1];
        stack := stack[..|stack| - 1];
        return Some(Closed(top.0, top.1));
      }
      var tt, value := tag.value % 8, tag.value / 8;
      if tt == DTAG {
        stack := stack + [(tt, value)];
        return Some(Opened(tt, value));
      } else if tt == BLOB {
        var end := if position + value < |data| then position + value else |data|;
        var bytes := data[position..end];
        assert bytes == if |rest| < value then rest else rest[..value];
        position := position + value;
        return Some(Data(value, bytes));
      }
      return Some(Other(tt, value));
    }

    /** Prints an event per element; the printed events are the result. */
    method GetTags() returns (events: seq<Event>, outcome: Outcome)
      modifies this
      ensures Trace(events, outcome) == RunFrom(data, old(position), old(stack), old(decoded))
      ensures outcome.Finished? ==> stack == outcome.stack && position == |data| + outcome.overrun
      ensures outcome.Finished? ==> decoded == if old(position) < |data| then 0 else old(decoded)
    {
      hide ReadTag;
      events := [];
      ghost var whole := RunFrom(data, position, stack, decoded);
      EmitNothing(whole);
      while position < |data|
        invariant old(position) <= position
        invariant decoded == if old(position) < position then 0 else old(decoded)
        invariant whole == Emit(events, RunFrom(data, position, stack, decoded))
        decreases |data| - position
      {
        ghost var s, open, start, partial := data[position..], stack, position, decoded;
        var tag := NextTag();
        if tag.None? {
          EmitHalt(events, s, open, partial);
          return events, OutOfData;
        }
        assert s[position - start..] == data[position..];
        var event := HandleTag(tag.value);
        EmitRound(events, s, open, partial);
        if event.None? {
          return events, PopFromEmpty;
        }
        events := events + [event.value];
      }
      assert events + [] == events;
      return events, Finished(stack, position - |data|);
    }
  }

  lemma EmitHalt(events: seq<Event>, s: Bytes, stack: Stack, decoded: nat)
    requires s != [] && ReadTag(s, decoded).None?
    ensures Emit(events, Run(s, stack, decoded)) == Trace(events, OutOfData)
  {
    assert events + [] == events;
  }

  lemma EmitRound(events: seq<Event>, s: Bytes, stack: Stack, decoded: nat)
    requires s != []
    ensures match OneRound(s, stack, decoded)
            case Halt(more, outcome) =>
              Emit(events, Run(s, stack, decoded)) == Trace(events + more, outcome) && events + [] == events
            case Go(event, rest, stack') =>
              Emit(events, Run(s, stack, decoded)) == Emit(events + [event], Run(rest, stack'))
  {
    match OneRound(s, stack, decoded)
    case Halt(_, _) =>
    case Go(event, rest, stack') => EmitTwice(events, [event], Run(rest, stack'));
  }

  lemma EmitNothing(t: Trace)
    ensures Emit([], t) == t
  {
    assert [] + t.events == t.events;
  }
}
