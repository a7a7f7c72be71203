/** Name patterns as values: the language of a pattern tree, the cuts of a name
    that witness membership, and the cut each search order picks.

    A component test (`re.match` of one expression on one component) is an
    arbitrary predicate, the `Oracle`. */
module NamePattern {

  type Component = string

  /** `re(expr, c)`: does the expression match at the start of component `c`? */
  type Oracle = (string, Component) -> bool

  /** What a matcher object stands for.  A `Sequence` is either a pattern list or,
      when `isGroup`, a back-reference group around its one pattern list. */
  datatype Pattern =
    | ComponentSet(positive: bool, exprs: seq<string>)
    | Sequence(isGroup: bool, items: seq<Pattern>)
    | Repeat(body: Pattern, min: nat, max: nat)

  predicate Accepts(re: Oracle, expr: string, c: Component) {
    expr == "" || re(expr, c)
  }

  // ----- The language -----

  /** Textbook membership, except that a repeat takes the empty slice only when
      its minimum is 0. */
  ghost predicate In(re: Oracle, p: Pattern, s: seq<Component>)
    decreases p, 1, 0
  {
    match p
    case ComponentSet(positive, exprs) =>
      |s| == 1 && (positive <==> exists i | 0 <= i < |exprs| :: Accepts(re, exprs[i], s[0]))
    case Sequence(_, items) =>
      ListAccepts(re, items, s)
    case Repeat(body, min, max) =>
      if s == [] then min == 0
      else exists lens :: min <= |lens| <= max && Pieces(re, body, s, lens)
  }

  ghost predicate ListAccepts(re: Oracle, items: seq<Pattern>, s: seq<Component>)
    decreases items, 1, 0
  {
    exists lens :: Cuts(re, items, s, lens)
  }

  /** `lens` cuts `s` into one piece per item, each in its item's language. */
  ghost predicate Cuts(re: Oracle, items: seq<Pattern>, s: seq<Component>, lens: seq<nat>)
    decreases items, 0, 0
  {
    if items == [] then s == [] && lens == []
    else
      && lens != [] && lens[0] <= |s|
      && In(re, items[0], s[..lens[0]])
      && Cuts(re, items[1..], s[lens[0]..], lens[1..])
  }

  /** `lens` cuts `s` into pieces that are all in the language of `body`. */
  ghost predicate Pieces(re: Oracle, body: Pattern, s: seq<Component>, lens: seq<nat>)
    decreases body, 2, |lens|
  {
    if lens == [] then s == []
    else
      && lens[0] <= |s|
      && In(re, body, s[..lens[0]])
      && Pieces(re, body, s[lens[0]..], lens[1..])
  }

  // ----- Repetition as coded -----

  /** The cuts the repeat search accepts once `r` repetitions are done: it stops
      as soon as nothing is left, and only then compares `r` with the minimum. */
  ghost predicate Steps(re: Oracle, body: Pattern, min: nat, max: nat, r: nat, s: seq<Component>, lens: seq<nat>)
    decreases |lens|
  {
    if lens == [] then s == [] && min <= r
    else
      && s != [] && r < max
      && lens[0] <= |s|
      && In(re, body, s[..lens[0]])
      && Steps(re, body, min, max, r + 1, s[lens[0]..], lens[1..])
  }

  /** Does the repeat search succeed on `s` from `r` repetitions? */
  ghost predicate SearchAccepts(re: Oracle, body: Pattern, min: nat, max: nat, r: nat, s: seq<Component>) {
    exists lens :: Steps(re, body, min, max, r, s, lens)
  }

  lemma {:induction false} StepsArePieces(
    re: Oracle, body: Pattern, min: nat, max: nat, r: nat, s: seq<Component>, lens: seq<nat>)
    requires Steps(re, body, min, max, r, s, lens)
    ensures Pieces(re, body, s, lens)
    ensures min <= r + |lens| && (lens != [] ==> r + |lens| <= max)
    decreases |lens|
  {
    if lens != [] {
      StepsArePieces(re, body, min, max, r + 1, s[lens[0]..], lens[1..]);
    }
  }

  function NonZero(lens: seq<nat>): (r: seq<nat>)
    ensures |r| <= |lens|
  {
    if lens == [] then []
    else (if lens[0] == 0 then [] else [lens[0]]) + NonZero(lens[1..])
  }

  /** Dropping the empty pieces leaves a cut; if there was one, the body takes the
      empty slice. */
  lemma {:induction false} DropEmptyPieces(re: Oracle, body: Pattern, s: seq<Component>, lens: seq<nat>)
    requires Pieces(re, body, s, lens)
    ensures Pieces(re, body, s, NonZero(lens))
    ensures |NonZero(lens)| < |lens| ==> In(re, body, [])
    decreases |lens|
  {
    if lens != [] {
      DropEmptyPieces(re, body, s[lens[0]..], lens[1..]);
      if lens[0] == 0 {
        assert s[..0] == [] && s[0..] == s;
        assert NonZero(lens) == NonZero(lens[1..]);
      } else {
        var nz := NonZero(lens);
        assert nz[0] == lens[0] && nz[1..] == NonZero(lens[1..]);
      }
    }
  }

  /** `z` empty pieces first, then the nonempty ones: a run of the repeat search. */
  lemma {:induction false} EmptiesFirst(
    re: Oracle, body: Pattern, min: nat, max: nat, r: nat, z: nat, s: seq<Component>, lens: seq<nat>)
    requires Pieces(re, body, s, lens) && s != []
    requires 0 < z ==> In(re, body, [])
    requires forall i | 0 <= i < |lens| :: 0 < lens[i]
    requires min <= r + z + |lens| <= max
    ensures Steps(re, body, min, max, r, s, seq(z, _ => 0) + lens)
    decreases z, |lens|
  {
    hide In;
    var all := seq(z, _ => 0) + lens;
    if 0 < z {
      EmptiesFirst(re, body, min, max, r + 1, z - 1, s, lens);
      assert s[..0] == [] && s[0..] == s;
      assert all[1..] == seq(z - 1, _ => 0) + lens;
    } else {
      assert all == lens;
      var rest := s[lens[0]..];
      if rest == [] {
        PiecesOfNothing(re, body, lens[1..]);
      } else {
        EmptiesFirst(re, body, min, max, r + 1, 0, rest, lens[1..]);
        assert seq(0, _ => 0) + lens[1..] == lens[1..];
      }
    }
  }

  lemma PiecesOfNothing(re: Oracle, body: Pattern, lens: seq<nat>)
    requires Pieces(re, body, [], lens)
    requires forall i | 0 <= i < |lens| :: 0 < lens[i]
    ensures lens == []
  {
  }

  lemma NonZeroIsPositive(lens: seq<nat>)
    ensures forall i | 0 <= i < |NonZero(lens)| :: 0 < NonZero(lens)[i]
  {
  }

  /** Every textbook cut of a nonempty slice, its empty pieces moved to the front, is
      a run of the repeat search. */
  lemma PiecesGiveSteps(
    re: Oracle, body: Pattern, min: nat, max: nat, s: seq<Component>, lens: seq<nat>) returns (steps: seq<nat>)
    requires s != [] && min <= |lens| <= max && Pieces(re, body, s, lens)
    ensures Steps(re, body, min, max, 0, s, steps)
  {
    DropEmptyPieces(re, body, s, lens);
    NonZeroIsPositive(lens);
    var z := |lens| - |NonZero(lens)|;
    EmptiesFirst(re, body, min, max, 0, z, s, NonZero(lens));
    steps := seq(z, _ => 0) + NonZero(lens);
  }

  /** The repeat search accepts exactly the declared language: the textbook one on
      nonempty slices (bodies that take the empty slice included), and the empty
      slice iff the minimum is 0. */
  lemma RepeatSearchAgrees(re: Oracle, body: Pattern, min: nat, max: nat, s: seq<Component>)
    ensures In(re, Repeat(body, min, max), s) <==> SearchAccepts(re, body, min, max, 0, s)
  {
    if lens :| Steps(re, body, min, max, 0, s, lens) {
      StepsArePieces(re, body, min, max, 0, s, lens);
    }
    if s == [] {
      var none: seq<nat> := [];
      assert Steps(re, body, min, max, 0, s, none) <==> min == 0;
    } else if lens :| min <= |lens| <= max && Pieces(re, body, s, lens) {
      var steps := PiecesGiveSteps(re, body, min, max, s, lens);
    }
  }

  /** A group accepts what its one pattern list accepts. */
  lemma GroupLanguage(re: Oracle, p: Pattern, s: seq<Component>)
    ensures In(re, Sequence(true, [p]), s) <==> In(re, p, s)
  {
    var none: seq<nat> := [];
    assert [p][1..] == [] && s[..|s|] == s && s[|s|..] == [];
    if ListAccepts(re, [p], s) {
      var lens := ACut(re, [p], s);
      assert Cuts(re, [p][1..], s[lens[0]..], lens[1..]);
      assert s[..lens[0]] == s && In(re, p, s);
    }
    if In(re, p, s) {
      assert [|s|][1..] == none;
      assert Cuts(re, [p][1..], s[|s|..], none);
      assert Cuts(re, [p], s, [|s|]);
    }
  }

  // ----- Laws of the language -----

  /** A component set takes one component. */
  lemma SetTakesOne(re: Oracle, positive: bool, es: seq<string>, s: seq<Component>)
    requires In(re, ComponentSet(positive, es), s)
    ensures exists c :: s == [c]
  {
    assert s == [s[0]];
  }

  /** A negated set takes exactly the components its positive one refuses. */
  lemma SetComplement(re: Oracle, es: seq<string>, c: Component)
    ensures In(re, ComponentSet(false, es), [c]) <==> !In(re, ComponentSet(true, es), [c])
  {
  }

  /** A set takes what any of its parts takes. */
  lemma SetUnion(re: Oracle, es: seq<string>, fs: seq<string>, c: Component)
    ensures In(re, ComponentSet(true, es + fs), [c]) <==>
            In(re, ComponentSet(true, es), [c]) || In(re, ComponentSet(true, fs), [c])
  {
    var all := es + fs;
    if i :| 0 <= i < |all| && Accepts(re, all[i], c) {
      assert if i < |es| then all[i] == es[i] else all[i] == fs[i - |es|];
    }
    if i :| 0 <= i < |es| && Accepts(re, es[i], c) {
      assert all[i] == es[i];
    }
    if i :| 0 <= i < |fs| && Accepts(re, fs[i], c) {
      assert all[|es| + i] == fs[i];
    }
  }

  /** The empty set takes nothing, the empty expression everything, any other one what
      it matches. */
  lemma SetOfOne(re: Oracle, e: string, c: Component)
    ensures !In(re, ComponentSet(true, []), [c])
    ensures In(re, ComponentSet(true, [e]), [c]) <==> e == "" || re(e, c)
  {
    assert [e][0] == e;
  }

  /** Repeated once, a pattern takes the same nonempty slices; never, only the empty one. */
  lemma RepeatOnce(re: Oracle, p: Pattern, s: seq<Component>)
    ensures s != [] ==> (In(re, Repeat(p, 1, 1), s) <==> In(re, p, s))
    ensures In(re, Repeat(p, 0, 0), s) <==> s == []
  {
    assert s[..|s|] == s && s[|s|..] == [];
    var none: seq<nat> := [];
    assert [|s|][1..] == none;
    if In(re, p, s) {
      assert Pieces(re, p, s[|s|..], [|s|][1..]);
      assert Pieces(re, p, s, [|s|]);
    }
    if s != [] && In(re, Repeat(p, 1, 1), s) {
      var lens :| 1 <= |lens| <= 1 && Pieces(re, p, s, lens);
      assert lens[1..] == none && Pieces(re, p, s[lens[0]..], none);
      assert s[..lens[0]] == s;
    }
  }

  // ----- Which cut a search picks -----

  /** Lexicographic order on piece lengths. */
  predicate LexLeq(a: seq<nat>, b: seq<nat>) {
    a == [] || (b != [] && (a[0] < b[0] || (a[0] == b[0] && LexLeq(a[1..], b[1..]))))
  }

  /** The lazy search (`match`) prefers the least, the longest-first search
      (`aggressiveMatch`) the greatest. */
  datatype Order = Lazy | Aggressive

  predicate Prefers(order: Order, a: seq<nat>, b: seq<nat>) {
    if order == Lazy then LexLeq(a, b) else LexLeq(b, a)
  }

  lemma LexAntisymmetric(a: seq<nat>, b: seq<nat>)
    requires LexLeq(a, b) && LexLeq(b, a)
    ensures a == b
  {
    if a != [] {
      LexAntisymmetric(a[1..], b[1..]);
      assert a == [a[0]] + a[1..] && b == [b[0]] + b[1..];
    }
  }

  ghost predicate BestCut(order: Order, re: Oracle, items: seq<Pattern>, s: seq<Component>, lens: seq<nat>) {
    Cuts(re, items, s, lens) && forall other :: Cuts(re, items, s, other) ==> Prefers(order, lens, other)
  }

  ghost predicate BestSteps(
    order: Order, re: Oracle, body: Pattern, min: nat, max: nat, r: nat, s: seq<Component>, lens: seq<nat>)
  {
    && Steps(re, body, min, max, r, s, lens)
    && forall other :: Steps(re, body, min, max, r, s, other) ==> Prefers(order, lens, other)
  }

  /** The lazy search's first piece is the shortest that any cut starts with, the
      longest-first search's the longest. */
  lemma FirstPiece(re: Oracle, items: seq<Pattern>, s: seq<Component>, lens: seq<nat>, other: seq<nat>)
    requires items != [] && Cuts(re, items, s, other)
    ensures BestCut(Lazy, re, items, s, lens) ==> lens != [] && other != [] && lens[0] <= other[0]
    ensures BestCut(Aggressive, re, items, s, lens) ==> lens != [] && other != [] && lens[0] >= other[0]
  {
  }

  /** The same for the first iteration of a repeat. */
  lemma FirstIteration(
    re: Oracle, body: Pattern, min: nat, max: nat, r: nat, s: seq<Component>, lens: seq<nat>, other: seq<nat>)
    requires s != [] && Steps(re, body, min, max, r, s, other)
    ensures BestSteps(Lazy, re, body, min, max, r, s, lens) ==> lens != [] && other != [] && lens[0] <= other[0]
    ensures BestSteps(Aggressive, re, body, min, max, r, s, lens) ==> lens != [] && other != [] && lens[0] >= other[0]
  {
  }

  /** How a whole tree split its slice: one part per list member, or one per
      iteration of a repeat. */
  datatype Split = Split(len: nat, parts: seq<Split>)

  function Lens(parts: seq<Split>): (lens: seq<nat>)
    ensures |lens| == |parts|
  {
    if parts == [] then [] else [parts[0].len] + Lens(parts[1..])
  }

  /** `t` is the split of `s` that the given search order picks, at every node. */
  ghost predicate Chosen(order: Order, re: Oracle, p: Pattern, s: seq<Component>, t: Split)
    decreases p, 1, 0
  {
    && t.len == |s|
    && match p
       case ComponentSet(_, _) => In(re, p, s) && t.parts == []
       case Sequence(_, items) =>
         && BestCut(order, re, items, s, Lens(t.parts))
         && ChosenEach(order, re, items, s, t.parts)
       case Repeat(body, min, max) =>
         && BestSteps(order, re, body, min, max, 0, s, Lens(t.parts))
         && ChosenAll(order, re, body, s, t.parts)
  }

  ghost predicate ChosenEach(order: Order, re: Oracle, items: seq<Pattern>, s: seq<Component>, parts: seq<Split>)
    decreases items, 0, 0
  {
    if items == [] then parts == []
    else
      && parts != [] && parts[0].len <= |s|
      && Chosen(order, re, items[0], s[..parts[0].len], parts[0])
      && ChosenEach(order, re, items[1..], s[parts[0].len..], parts[1..])
  }

  ghost predicate ChosenAll(order: Order, re: Oracle, body: Pattern, s: seq<Component>, parts: seq<Split>)
    decreases body, 2, |parts|
  {
    if parts == [] then s == []
    else
      && parts[0].len <= |s|
      && Chosen(order, re, body, s[..parts[0].len], parts[0])
      && ChosenAll(order, re, body, s[parts[0].len..], parts[1..])
  }

  // ----- One backtracking step -----

  /** The next piece length a search tries. */
  function Next(order: Order, tried: int): int {
    if order == Lazy then tried + 1 else tried - 1
  }

  /** `lens` starts with a piece the search has still to try. */
  predicate Ahead(order: Order, tried: int, lens: seq<nat>) {
    lens != [] && if order == Lazy then tried <= lens[0] else lens[0] <= tried
  }

  ghost predicate CutsAhead(order: Order, re: Oracle, items: seq<Pattern>, s: seq<Component>, tried: int) {
    forall lens :: Cuts(re, items, s, lens) ==> Ahead(order, tried, lens)
  }

  lemma CutsAdvance(order: Order, re: Oracle, items: seq<Pattern>, head: seq<Component>, tail: seq<Component>)
    requires items != [] && CutsAhead(order, re, items, head + tail, |head|)
    requires In(re, items[0], head) ==> !ListAccepts(re, items[1..], tail)
    ensures CutsAhead(order, re, items, head + tail, Next(order, |head|))
  {
    var s := head + tail;
    forall lens | Cuts(re, items, s, lens) ensures Ahead(order, Next(order, |head|), lens) {
      assert Ahead(order, |head|, lens);
      assert s[..|head|] == head && s[|head|..] == tail;
    }
  }

  /** The first piece that works, with the best cut of the rest, is the best cut. */
  lemma CutsTake(
    order: Order, re: Oracle, items: seq<Pattern>, head: seq<Component>, tail: seq<Component>, t: Split,
    rest: seq<Split>)
    requires items != [] && CutsAhead(order, re, items, head + tail, |head|)
    requires Chosen(order, re, items[0], head, t)
    requires BestCut(order, re, items[1..], tail, Lens(rest))
    requires ChosenEach(order, re, items[1..], tail, rest)
    ensures BestCut(order, re, items, head + tail, Lens([t] + rest))
    ensures ChosenEach(order, re, items, head + tail, [t] + rest)
  {
    var s, lens := head + tail, Lens([t] + rest);
    assert s[..|head|] == head && s[|head|..] == tail;
    assert ([t] + rest)[1..] == rest;
    assert lens[0] == t.len && lens[1..] == Lens(rest);
    ChosenIsIn(order, re, items[0], head, t);
    assert Cuts(re, items, s, lens);
    forall other | Cuts(re, items, s, other) ensures Prefers(order, lens, other) {
      assert Ahead(order, t.len, other);
      if other[0] == t.len {
        assert Cuts(re, items[1..], tail, other[1..]);
        assert Prefers(order, lens[1..], other[1..]);
      }
    }
  }

  ghost predicate StepsAhead(
    order: Order, re: Oracle, body: Pattern, min: nat, max: nat, r: nat, s: seq<Component>, tried: int)
  {
    forall lens :: Steps(re, body, min, max, r, s, lens) ==> Ahead(order, tried, lens)
  }

  lemma StepsAdvance(
    order: Order, re: Oracle, body: Pattern, min: nat, max: nat, r: nat, head: seq<Component>, tail: seq<Component>)
    requires head + tail != [] && StepsAhead(order, re, body, min, max, r, head + tail, |head|)
    requires In(re, body, head) ==> !SearchAccepts(re, body, min, max, r + 1, tail)
    ensures StepsAhead(order, re, body, min, max, r, head + tail, Next(order, |head|))
  {
    var s := head + tail;
    forall lens | Steps(re, body, min, max, r, s, lens) ensures Ahead(order, Next(order, |head|), lens) {
      assert Ahead(order, |head|, lens);
      assert s[..|head|] == head && s[|head|..] == tail;
      assert Steps(re, body, min, max, r + 1, s[lens[0]..], lens[1..]);
    }
  }

  lemma StepsTake(
    order: Order, re: Oracle, body: Pattern, min: nat, max: nat, r: nat, head: seq<Component>, tail: seq<Component>,
    t: Split, rest: seq<Split>)
    requires head + tail != [] && r < max && StepsAhead(order, re, body, min, max, r, head + tail, |head|)
    requires Chosen(order, re, body, head, t)
    requires BestSteps(order, re, body, min, max, r + 1, tail, Lens(rest))
    requires ChosenAll(order, re, body, tail, rest)
    ensures BestSteps(order, re, body, min, max, r, head + tail, Lens([t] + rest))
    ensures ChosenAll(order, re, body, head + tail, [t] + rest)
  {
    var s, lens := head + tail, Lens([t] + rest);
    assert s[..|head|] == head && s[|head|..] == tail;
    assert ([t] + rest)[1..] == rest;
    assert lens[0] == t.len && lens[1..] == Lens(rest);
    ChosenIsIn(order, re, body, head, t);
    assert Steps(re, body, min, max, r, s, lens);
    forall other | Steps(re, body, min, max, r, s, other) ensures Prefers(order, lens, other) {
      assert Ahead(order, t.len, other);
      if other[0] == t.len {
        assert Steps(re, body, min, max, r + 1, tail, other[1..]);
        assert Prefers(order, lens[1..], other[1..]);
      }
    }
  }

  // ----- What a chosen split means -----

  lemma ChosenIsIn(order: Order, re: Oracle, p: Pattern, s: seq<Component>, t: Split)
    requires Chosen(order, re, p, s, t)
    ensures In(re, p, s)
  {
    if p.Repeat? {
      assert SearchAccepts(re, p.body, p.min, p.max, 0, s);
      RepeatSearchAgrees(re, p.body, p.min, p.max, s);
    }
  }

  /** A search order determines the whole split, not only the top-level lengths. */
  lemma {:induction false} ChosenUnique(order: Order, re: Oracle, p: Pattern, s: seq<Component>, t: Split, u: Split)
    requires Chosen(order, re, p, s, t) && Chosen(order, re, p, s, u)
    ensures t == u
    decreases p, 1, 0
  {
    match p
    case ComponentSet(_, _) =>
    case Sequence(_, items) =>
      LexAntisymmetric(Lens(t.parts), Lens(u.parts));
      ChosenEachUnique(order, re, items, s, t.parts, u.parts);
    case Repeat(body, _, _) =>
      LexAntisymmetric(Lens(t.parts), Lens(u.parts));
      ChosenAllUnique(order, re, body, s, t.parts, u.parts);
  }

  lemma {:induction false} ChosenEachUnique(
    order: Order, re: Oracle, items: seq<Pattern>, s: seq<Component>, ts: seq<Split>, us: seq<Split>)
    requires ChosenEach(order, re, items, s, ts) && ChosenEach(order, re, items, s, us)
    requires Lens(ts) == Lens(us)
    ensures ts == us
    decreases items, 0, 0
  {
    if items != [] {
      assert Lens(ts)[0] == Lens(us)[0] && Lens(ts)[1..] == Lens(ts[1..]) && Lens(us)[1..] == Lens(us[1..]);
      ChosenUnique(order, re, items[0], s[..ts[0].len], ts[0], us[0]);
      ChosenEachUnique(order, re, items[1..], s[ts[0].len..], ts[1..], us[1..]);
      assert ts == [ts[0]] + ts[1..] && us == [us[0]] + us[1..];
    }
  }

  lemma {:induction false} ChosenAllUnique(
    order: Order, re: Oracle, body: Pattern, s: seq<Component>, ts: seq<Split>, us: seq<Split>)
    requires ChosenAll(order, re, body, s, ts) && ChosenAll(order, re, body, s, us)
    requires Lens(ts) == Lens(us)
    ensures ts == us
    decreases body, 2, |ts|
  {
    assert |Lens(ts)| == |ts| == |us|;
    if ts != [] {
      assert Lens(ts)[0] == Lens(us)[0] && Lens(ts)[1..] == Lens(ts[1..]) && Lens(us)[1..] == Lens(us[1..]);
      ChosenUnique(order, re, body, s[..ts[0].len], ts[0], us[0]);
      ChosenAllUnique(order, re, body, s[ts[0].len..], ts[1..], us[1..]);
      assert ts == [ts[0]] + ts[1..] && us == [us[0]] + us[1..];
    }
  }

  /** Where a search with this order starts. */
  function First(order: Order, s: seq<Component>): int {
    if order == Lazy then 0 else |s|
  }

  /** Every slice of the language has a split that the search order picks: with
      `ChosenIsIn` and `ChosenUnique`, exactly one, and no other slice has any. */
  lemma {:induction false} ChosenExists(order: Order, re: Oracle, p: Pattern, s: seq<Component>) returns (t: Split)
    requires In(re, p, s)
    ensures Chosen(order, re, p, s, t)
    decreases p, 1, 0
  {
    match p
    case ComponentSet(_, _) =>
      t := Split(1, []);
    case Sequence(_, items) =>
      var parts := BestCutExists(order, re, items, s);
      t := Split(|s|, parts);
    case Repeat(body, min, max) =>
      RepeatSearchAgrees(re, body, min, max, s);
      var parts := BestStepsExist(order, re, body, min, max, 0, s);
      t := Split(|s|, parts);
  }

  lemma {:induction false} BestCutExists(order: Order, re: Oracle, items: seq<Pattern>, s: seq<Component>)
    returns (parts: seq<Split>)
    requires ListAccepts(re, items, s)
    ensures BestCut(order, re, items, s, Lens(parts)) && ChosenEach(order, re, items, s, parts)
    decreases items, 0, 0
  {
    parts := [];
    var lens := ACut(re, items, s);
    if items != [] {
      var tried := First(order, s);
      while 0 <= tried <= |s|
        invariant -1 <= tried <= |s| + 1 && CutsAhead(order, re, items, s, tried)
        decreases if order == Lazy then |s| + 1 - tried else tried + 1
      {
        var head, tail := s[..tried], s[tried..];
        assert s == head + tail;
        if In(re, items[0], head) && ListAccepts(re, items[1..], tail) {
          var t := ChosenExists(order, re, items[0], head);
          var rest := BestCutExists(order, re, items[1..], tail);
          CutsTake(order, re, items, head, tail, t, rest);
          return [t] + rest;
        }
        CutsAdvance(order, re, items, head, tail);
        tried := Next(order, tried);
      }
      assert Ahead(order, tried, lens);
    }
  }

  lemma ACut(re: Oracle, items: seq<Pattern>, s: seq<Component>) returns (lens: seq<nat>)
    requires ListAccepts(re, items, s)
    ensures Cuts(re, items, s, lens)
  {
    lens :| Cuts(re, items, s, lens);
  }

  lemma {:induction false} BestStepsExist(
    order: Order, re: Oracle, body: Pattern, min: nat, max: nat, r: nat, s: seq<Component>)
    returns (parts: seq<Split>)
    requires SearchAccepts(re, body, min, max, r, s)
    ensures BestSteps(order, re, body, min, max, r, s, Lens(parts)) && ChosenAll(order, re, body, s, parts)
    decreases body, 2, if r <= max then max - r else 0
  {
    parts := [];
    var lens :| Steps(re, body, min, max, r, s, lens);
    if s != [] {
      var tried := First(order, s);
      while 0 <= tried <= |s|
        invariant -1 <= tried <= |s| + 1 && StepsAhead(order, re, body, min, max, r, s, tried)
        decreases if order == Lazy then |s| + 1 - tried else tried + 1
      {
        var head, tail := s[..tried], s[tried..];
        assert s == head + tail;
        if In(re, body, head) && SearchAccepts(re, body, min, max, r + 1, tail) {
          var t := ChosenExists(order, re, body, head);
          var rest := BestStepsExist(order, re, body, min, max, r + 1, tail);
          StepsTake(order, re, body, min, max, r, head, tail, t, rest);
          return [t] + rest;
        }
        StepsAdvance(order, re, body, min, max, r, head, tail);
        tried := Next(order, tried);
      }
      assert Ahead(order, tried, lens);
    }
  }
}
