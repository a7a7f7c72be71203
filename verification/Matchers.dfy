/** The matcher objects: a tree whose nodes keep the slice they last matched in
    `matchResult`, searched by backtracking in two orders. */
module Matchers {
  import opened NamePattern

  class ComponentMatcher {
    const expr: string
    var matchResult: seq<Component>

    constructor (expr: string)
      ensures this.expr == expr && matchResult == []
    {
      this.expr := expr;
      matchResult := [];
    }

    method Match(re: Oracle, name: seq<Component>, offset: nat) returns (ok: bool)
      requires offset < |name|
      modifies this
      ensures ok <==> Accepts(re, expr, name[offset])
      ensures matchResult == if ok then [name[offset]] else []
    {
      matchResult := [];
      if expr == "" || re(expr, name[offset]) {
        matchResult := matchResult + [name[offset]];
        return true;
      }
      return false;
    }
  }

  function Exprs(components: seq<ComponentMatcher>): (exprs: seq<string>)
    ensures |exprs| == |components|
    ensures forall i | 0 <= i < |exprs| :: exprs[i] == components[i].expr
  {
    seq(|components|, i requires 0 <= i < |components| => components[i].expr)
  }

  /** Which of the source's matcher classes an object belongs to. */
  datatype Kind =
    | PatternListMatcher
    | BackRefMatcher
    | RepeatMatcher(repeatMin: nat, repeatMax: nat)
    | ComponentSetMatcher(positive: bool)

  class Matcher {
    const kind: Kind
    const matcherList: seq<Matcher>
    const components: seq<ComponentMatcher>
    var matchResult: seq<Component>

    /** The pattern this tree stands for, and the objects it may write. */
    ghost const pat: Pattern
    ghost const Repr: set<object>

    ghost predicate Valid()
      decreases pat, 1
    {
      && this in Repr
      && match kind
         case ComponentSetMatcher(positive) =>
           && pat == ComponentSet(positive, Exprs(components))
           && (forall c | c in components :: c in Repr)
         case RepeatMatcher(min, max) =>
           && |matcherList| == 1
           && pat == Repeat(matcherList[0].pat, min, max)
           && matcherList[0].Valid()
           && matcherList[0].Repr <= Repr - {this}
         case _ =>
           && pat.Sequence? && pat.isGroup == kind.BackRefMatcher?
           && ValidEach(matcherList, pat.items)
           && Reprs(matcherList) <= Repr - {this}
    }

    constructor (kind: Kind, matcherList: seq<Matcher>, components: seq<ComponentMatcher>, ghost pat: Pattern)
      requires match kind
               case ComponentSetMatcher(positive) => pat == ComponentSet(positive, Exprs(components))
               case RepeatMatcher(min, max) =>
                 |matcherList| == 1 && matcherList[0].Valid() && pat == Repeat(matcherList[0].pat, min, max)
               case _ => pat.Sequence? && pat.isGroup == kind.BackRefMatcher? && ValidEach(matcherList, pat.items)
      ensures Valid() && this.pat == pat && this.kind == kind && matchResult == []
      ensures this.matcherList == matcherList && this.components == components
      ensures Repr == {this} + Reprs(matcherList) + (set c | c in components)
    {
      this.kind, this.matcherList, this.components, this.pat := kind, matcherList, components, pat;
      matchResult := [];
      Repr := {this} + Reprs(matcherList) + (set c | c in components);
      new;
    }

    // ----- match: shortest piece first -----

    method Match(re: Oracle, name: seq<Component>, offset: nat, length: nat)
      returns (ok: bool, ghost t: Split)
      requires Valid() && offset + length <= |name|
      modifies Repr
      ensures ok <==> In(re, pat, name[offset..offset + length])
      ensures ok ==> Chosen(Lazy, re, pat, name[offset..offset + length], t)
      ensures ok ==> Holds(this, name[offset..offset + length], t)
      ensures !ok ==> matchResult == []
      ensures ok && kind.RepeatMatcher? && length == 0 ==> unchanged(matcherList[0].Repr)
      decreases pat, 2, 0
    {
      ghost var s := name[offset..offset + length];
      t := Split(length, []);
      if kind.ComponentSetMatcher? {
        ok := MatchOne(re, name, offset, length);
        return;
      }
      matchResult := [];
      ghost var parts;
      if kind.RepeatMatcher? {
        if kind.repeatMin == 0 && length == 0 {
          EmptyRepeat(Lazy, re, pat);
          return true, t;
        }
        RepeatSearchAgrees(re, pat.body, pat.min, pat.max, s);
        ok, parts := RepeatMatch(re, 0, name, offset, length);
      } else {
        assert matcherList[0..] == matcherList && pat.items[0..] == pat.items;
        ok, parts := RecursiveMatch(re, 0, name, offset, length);
      }
      if ok {
        t := Split(length, parts);
        Append(name, offset, length);
      }
    }

    method RecursiveMatch(re: Oracle, mId: nat, name: seq<Component>, offset: nat, length: nat)
      returns (ok: bool, ghost parts: seq<Split>)
      requires pat.Sequence? && mId <= |matcherList| == |pat.items| && offset + length <= |name|
      requires ValidEach(matcherList[mId..], pat.items[mId..])
      modifies Reprs(matcherList[mId..])
      ensures ok <==> ListAccepts(re, pat.items[mId..], name[offset..offset + length])
      ensures ok ==> BestCut(Lazy, re, pat.items[mId..], name[offset..offset + length], Lens(parts))
      ensures ok ==> ChosenEach(Lazy, re, pat.items[mId..], name[offset..offset + length], parts)
      ensures ok ==> HoldsEach(matcherList[mId..], pat.items[mId..], name[offset..offset + length], parts)
      decreases pat, 1, 2 * (|matcherList| - mId)
    {
      parts := [];
      ghost var s, ms, items := name[offset..offset + length], matcherList[mId..], pat.items[mId..];
      if mId >= |matcherList| {
        NoMoreMatchers(Lazy, re, items, s);
        return length == 0, parts;
      }
      Detach(ms, items);
      assert ms[1..] == matcherList[mId + 1..] && items[1..] == pat.items[mId + 1..];
      var tried: int := 0;
      while tried <= length
        invariant 0 <= tried <= length + 1
        invariant CutsAhead(Lazy, re, items, s, tried)
        decreases length + 1 - tried
      {
        Slices(name, offset, length, tried);
        ghost var head, tail := name[offset..offset + tried], name[offset + tried..(offset + tried) + (length - tried)];
        ok, parts := TryMember(re, mId, name, offset, length, tried);
        if ok {
          CutsTake(Lazy, re, items, head, tail, parts[0], parts[1..]);
          HoldsCons(ms, items, head, tail, parts[0], parts[1..]);
          assert parts == [parts[0]] + parts[1..];
          return true, parts;
        }
        CutsAdvance(Lazy, re, items, head, tail);
        tried := tried + 1;
      }
      return false, parts;
    }

    /** One attempt of the search: the member on `tried` components, then the rest. */
    method TryMember(re: Oracle, mId: nat, name: seq<Component>, offset: nat, length: nat, tried: nat)
      returns (ok: bool, ghost parts: seq<Split>)
      requires pat.Sequence? && mId < |matcherList| == |pat.items| && tried <= length && offset + length <= |name|
      requires matcherList[mId].Valid() && matcherList[mId].pat == pat.items[mId]
      requires ValidEach(matcherList[mId + 1..], pat.items[mId + 1..])
      requires matcherList[mId].Repr !! Reprs(matcherList[mId + 1..])
      modifies matcherList[mId].Repr, Reprs(matcherList[mId + 1..])
      ensures var head, tail := name[offset..offset + tried], name[offset + tried..(offset + tried) + (length - tried)];
              && (ok <==> In(re, pat.items[mId], head) && ListAccepts(re, pat.items[mId + 1..], tail))
              && (ok ==>
                    && parts != [] && Chosen(Lazy, re, pat.items[mId], head, parts[0])
                    && Holds(matcherList[mId], head, parts[0])
                    && BestCut(Lazy, re, pat.items[mId + 1..], tail, Lens(parts[1..]))
                    && ChosenEach(Lazy, re, pat.items[mId + 1..], tail, parts[1..])
                    && HoldsEach(matcherList[mId + 1..], pat.items[mId + 1..], tail, parts[1..]))
      decreases pat, 1, 2 * (|matcherList| - mId) - 1
    {
      parts := [];
      var matcher := matcherList[mId];
      ghost var t, rest;
      ok, t := matcher.Match(re, name, offset, tried);
      if ok {
        ok, rest := RecursiveMatch(re, mId + 1, name, offset + tried, length - tried);
        if ok {
          parts := [t] + rest;
          assert parts[1..] == rest;
        }
      }
    }

    method RepeatMatch(re: Oracle, repeat: nat, name: seq<Component>, offset: nat, length: nat)
      returns (ok: bool, ghost parts: seq<Split>)
      requires Valid() && pat.Repeat? && offset + length <= |name|
      modifies matcherList[0].Repr
      ensures ok <==> SearchAccepts(re, pat.body, pat.min, pat.max, repeat, name[offset..offset + length])
      ensures ok ==>
                && BestSteps(Lazy, re, pat.body, pat.min, pat.max, repeat, name[offset..offset + length], Lens(parts))
                && ChosenAll(Lazy, re, pat.body, name[offset..offset + length], parts)
      ensures ok && parts != [] ==> HoldsLast(matcherList[0], name[offset..offset + length], parts)
      ensures length == 0 ==> parts == [] && unchanged(matcherList[0].Repr)
      ensures ok && length != 0 ==> parts != []
      decreases pat, 1, if repeat <= pat.max then pat.max - repeat else 0
    {
      parts := [];
      ghost var s := name[offset..offset + length];
      if 0 < length && kind.repeatMax <= repeat {
        return false, parts;
      }
      if length == 0 && repeat < kind.repeatMin {
        return false, parts;
      }
      if length == 0 && kind.repeatMin <= repeat {
        NothingLeft(Lazy, re, pat.body, pat.min, pat.max, repeat, s);
        return true, parts;
      }
      var matcher := matcherList[0];
      var tried: int := 0;
      while tried <= length
        invariant 0 <= tried <= length + 1
        invariant StepsAhead(Lazy, re, pat.body, pat.min, pat.max, repeat, s, tried)
        decreases length + 1 - tried
      {
        Slices(name, offset, length, tried);
        ghost var head, tail := name[offset..offset + tried], name[offset + tried..(offset + tried) + (length - tried)];
        ghost var t, rest;
        ok, t := matcher.Match(re, name, offset, tried);
        if ok {
          ok, rest := RepeatMatch(re, repeat + 1, name, offset + tried, length - tried);
          if ok {
            StepsTake(Lazy, re, pat.body, pat.min, pat.max, repeat, head, tail, t, rest);
            HoldsLastCons(matcher, head, tail, t, rest);
            parts := [t] + rest;
            return true, parts;
          }
        }
        StepsAdvance(Lazy, re, pat.body, pat.min, pat.max, repeat, head, tail);
        tried := tried + 1;
      }
      return false, parts;
    }

    // ----- aggressiveMatch: longest piece first -----

    method AggressiveMatch(re: Oracle, name: seq<Component>, offset: nat, length: nat)
      returns (ok: bool, ghost t: Split)
      requires Valid() && offset + length <= |name|
      modifies Repr
      ensures ok <==> In(re, pat, name[offset..offset + length])
      ensures ok ==> Chosen(Aggressive, re, pat, name[offset..offset + length], t)
      ensures ok ==> Holds(this, name[offset..offset + length], t)
      ensures !ok ==> matchResult == []
      ensures ok && kind.RepeatMatcher? && length == 0 ==> unchanged(matcherList[0].Repr)
      decreases pat, 2, 0
    {
      ghost var s := name[offset..offset + length];
      t := Split(length, []);
      if kind.ComponentSetMatcher? {
        ok := MatchOne(re, name, offset, length);
        return;
      }
      matchResult := [];
      ghost var parts;
      if kind.RepeatMatcher? {
        if kind.repeatMin == 0 && length == 0 {
          EmptyRepeat(Aggressive, re, pat);
          return true, t;
        }
        RepeatSearchAgrees(re, pat.body, pat.min, pat.max, s);
        ok, parts := ARepeatMatch(re, 0, name, offset, length);
      } else {
        assert matcherList[0..] == matcherList && pat.items[0..] == pat.items;
        ok, parts := ARecursiveMatch(re, 0, name, offset, length);
      }
      if ok {
        t := Split(length, parts);
        Append(name, offset, length);
      }
    }

    method ARecursiveMatch(re: Oracle, mId: nat, name: seq<Component>, offset: nat, length: nat)
      returns (ok: bool, ghost parts: seq<Split>)
      requires pat.Sequence? && mId <= |matcherList| == |pat.items| && offset + length <= |name|
      requires ValidEach(matcherList[mId..], pat.items[mId..])
      modifies Reprs(matcherList[mId..])
      ensures ok <==> ListAccepts(re, pat.items[mId..], name[offset..offset + length])
      ensures ok ==> BestCut(Aggressive, re, pat.items[mId..], name[offset..offset + length], Lens(parts))
      ensures ok ==> ChosenEach(Aggressive, re, pat.items[mId..], name[offset..offset + length], parts)
      ensures ok ==> HoldsEach(matcherList[mId..], pat.items[mId..], name[offset..offset + length], parts)
      decreases pat, 1, 2 * (|matcherList| - mId)
    {
      parts := [];
      ghost var s, ms, items := name[offset..offset + length], matcherList[mId..], pat.items[mId..];
      if mId >= |matcherList| {
        NoMoreMatchers(Aggressive, re, items, s);
        return length == 0, parts;
      }
      Detach(ms, items);
      assert ms[1..] == matcherList[mId + 1..] && items[1..] == pat.items[mId + 1..];
      var tried: int := length;
      while 0 <= tried
        invariant -1 <= tried <= length
        invariant CutsAhead(Aggressive, re, items, s, tried)
        decreases tried + 1
      {
        Slices(name, offset, length, tried);
        ghost var head, tail := name[offset..offset + tried], name[offset + tried..(offset + tried) + (length - tried)];
        ok, parts := ATryMember(re, mId, name, offset, length, tried);
        if ok {
          CutsTake(Aggressive, re, items, head, tail, parts[0], parts[1..]);
          HoldsCons(ms, items, head, tail, parts[0], parts[1..]);
          assert parts == [parts[0]] + parts[1..];
          return true, parts;
        }
        CutsAdvance(Aggressive, re, items, head, tail);
        tried := tried - 1;
      }
      return false, parts;
    }

    /** One attempt of the search: the member on `tried` components, then the rest. */
    method ATryMember(re: Oracle, mId: nat, name: seq<Component>, offset: nat, length: nat, tried: nat)
      returns (ok: bool, ghost parts: seq<Split>)
      requires pat.Sequence? && mId < |matcherList| == |pat.items| && tried <= length && offset + length <= |name|
      requires matcherList[mId].Valid() && matcherList[mId].pat == pat.items[mId]
      requires ValidEach(matcherList[mId + 1..], pat.items[mId + 1..])
      requires matcherList[mId].Repr !! Reprs(matcherList[mId + 1..])
      modifies matcherList[mId].Repr, Reprs(matcherList[mId + 1..])
      ensures var head, tail := name[offset..offset + tried], name[offset + tried..(offset + tried) + (length - tried)];
              && (ok <==> In(re, pat.items[mId], head) && ListAccepts(re, pat.items[mId + 1..], tail))
              && (ok ==>
                    && parts != [] && Chosen(Aggressive, re, pat.items[mId], head, parts[0])
                    && Holds(matcherList[mId], head, parts[0])
                    && BestCut(Aggressive, re, pat.items[mId + 1..], tail, Lens(parts[1..]))
                    && ChosenEach(Aggressive, re, pat.items[mId + 1..], tail, parts[1..])
                    && HoldsEach(matcherList[mId + 1..], pat.items[mId + 1..], tail, parts[1..]))
      decreases pat, 1, 2 * (|matcherList| - mId) - 1
    {
      parts := [];
      var matcher := matcherList[mId];
      ghost var t, rest;
      ok, t := matcher.AggressiveMatch(re, name, offset, tried);
      if ok {
        ok, rest := ARecursiveMatch(re, mId + 1, name, offset + tried, length - tried);
        if ok {
          parts := [t] + rest;
          assert parts[1..] == rest;
        }
      }
    }

    method ARepeatMatch(re: Oracle, repeat: nat, name: seq<Component>, offset: nat, length: nat)
      returns (ok: bool, ghost parts: seq<Split>)
      requires Valid() && pat.Repeat? && offset + length <= |name|
      modifies matcherList[0].Repr
      ensures ok <==> SearchAccepts(re, pat.body, pat.min, pat.max, repeat, name[offset..offset + length])
      ensures ok ==>
                && BestSteps(Aggressive, re, pat.body, pat.min, pat.max, repeat, name[offset..offset + length],
                             Lens(parts))
                && ChosenAll(Aggressive, re, pat.body, name[offset..offset + length], parts)
      ensures ok && parts != [] ==> HoldsLast(matcherList[0], name[offset..offset + length], parts)
      ensures length == 0 ==> parts == [] && unchanged(matcherList[0].Repr)
      ensures ok && length != 0 ==> parts != []
      decreases pat, 1, if repeat <= pat.max then pat.max - repeat else 0
    {
      parts := [];
      ghost var s := name[offset..offset + length];
      if 0 < length && kind.repeatMax <= repeat {
        return false, parts;
      }
      if length == 0 && repeat < kind.repeatMin {
        return false, parts;
      }
      if length == 0 && kind.repeatMin <= repeat {
        NothingLeft(Aggressive, re, pat.body, pat.min, pat.max, repeat, s);
        return true, parts;
      }
      var matcher := matcherList[0];
      var tried: int := length;
      while 0 <= tried
        invariant -1 <= tried <= length
        invariant StepsAhead(Aggressive, re, pat.body, pat.min, pat.max, repeat, s, tried)
        decreases tried + 1
      {
        Slices(name, offset, length, tried);
        ghost var head, tail := name[offset..offset + tried], name[offset + tried..(offset + tried) + (length - tried)];
        ghost var t, rest;
        ok, t := matcher.AggressiveMatch(re, name, offset, tried);
        if ok {
          ok, rest := ARepeatMatch(re, repeat + 1, name, offset + tried, length - tried);
          if ok {
            StepsTake(Aggressive, re, pat.body, pat.min, pat.max, repeat, head, tail, t, rest);
            HoldsLastCons(matcher, head, tail, t, rest);
            parts := [t] + rest;
            return true, parts;
          }
        }
        StepsAdvance(Aggressive, re, pat.body, pat.min, pat.max, repeat, head, tail);
        tried := tried - 1;
      }
      return false, parts;
    }

    /** Record the matched slice, component by component. */
    method Append(name: seq<Component>, offset: nat, length: nat)
      requires offset + length <= |name|
      modifies this
      ensures matchResult == old(matchResult) + name[offset..offset + length]
    {
      var i := offset;
      while i < offset + length
        invariant offset <= i <= offset + length
        invariant matchResult == old(matchResult) + name[offset..i]
      {
        matchResult := matchResult + [name[i]];
        i := i + 1;
      }
    }

    /** The component set's own `match`, in either order. */
    method MatchOne(re: Oracle, name: seq<Component>, offset: nat, len: nat) returns (ok: bool)
      requires Valid() && kind.ComponentSetMatcher? && offset + len <= |name|
      modifies Repr
      ensures ok <==> In(re, pat, name[offset..offset + len])
      ensures matchResult == if ok then name[offset..offset + len] else []
    {
      matchResult := [];
      if len != 1 {
        return false;
      }
      var matched, i := false, 0;
      while i < |components| && !matched
        invariant 0 <= i <= |components|
        invariant matchResult == []
        invariant matched <==> exists j | 0 <= j < i :: Accepts(re, components[j].expr, name[offset])
      {
        matched := components[i].Match(re, name, offset);
        i := i + 1;
      }
      ghost var s := name[offset..offset + len];
      assert s == [name[offset]];
      assert matched <==> exists j | 0 <= j < |components| :: Accepts(re, pat.exprs[j], s[0]);
      if kind.positive == matched {
        matchResult := matchResult + [name[offset]];
        return true;
      }
      return false;
    }
  }

  ghost function Reprs(ms: seq<Matcher>): set<object> {
    set m, o | m in ms && o in m.Repr :: o
  }

  ghost predicate ValidEach(ms: seq<Matcher>, items: seq<Pattern>)
    decreases items, 0
  {
    && |ms| == |items|
    && (forall i | 0 <= i < |ms| :: ms[i].pat == items[i] && ms[i].Valid())
    && (forall i, j | 0 <= i < j < |ms| :: ms[i].Repr !! ms[j].Repr)
  }

  // ----- Captures -----

  /** The objects under `m` hold exactly the slices of split `t` of `s`: a list member
      its own piece, the body of a repeat that ran its last iteration. */
  ghost predicate Holds(m: Matcher, s: seq<Component>, t: Split)
    requires m.Valid()
    reads m.Repr
    decreases m.pat, 1
  {
    && m.matchResult == s
    && match m.kind
       case ComponentSetMatcher(_) => true
       case RepeatMatcher(_, _) =>
         t.parts != [] ==> HoldsLast(m.matcherList[0], s, t.parts)
       case _ => HoldsEach(m.matcherList, m.pat.items, s, t.parts)
  }

  ghost predicate HoldsEach(ms: seq<Matcher>, items: seq<Pattern>, s: seq<Component>, parts: seq<Split>)
    requires ValidEach(ms, items)
    reads Reprs(ms)
    decreases items, 0
  {
    if ms == [] then s == [] && parts == []
    else
      && parts != [] && parts[0].len <= |s|
      && Holds(ms[0], s[..parts[0].len], parts[0])
      && HoldsEach(ms[1..], items[1..], s[parts[0].len..], parts[1..])
  }

  /** The body of a repeat that ran at least once holds its last iteration. */
  ghost predicate HoldsLast(m: Matcher, s: seq<Component>, parts: seq<Split>)
    requires m.Valid() && parts != []
    reads m.Repr
    decreases m.pat, 2
  {
    var last := parts[|parts| - 1];
    last.len <= |s| && Holds(m, s[|s| - last.len..], last)
  }

  /** The captures of a list's members, one after the other. */
  ghost function JoinedCaptures(ms: seq<Matcher>): seq<Component>
    reads ms
  {
    if ms == [] then [] else ms[0].matchResult + JoinedCaptures(ms[1..])
  }

  /** After a match the members' captures concatenate to the whole slice. */
  lemma {:induction false} CapturesConcatenate(
    ms: seq<Matcher>, items: seq<Pattern>, s: seq<Component>, parts: seq<Split>)
    requires ValidEach(ms, items) && HoldsEach(ms, items, s, parts)
    ensures JoinedCaptures(ms) == s
    decreases |ms|
  {
    if ms != [] {
      Detach(ms, items);
      CapturesConcatenate(ms[1..], items[1..], s[parts[0].len..], parts[1..]);
    }
  }

  /** A repeat with minimum 0 takes the empty slice without touching its body: the
      body's captures stay those of the last iteration of an earlier match. */
  method EmptyRepeatKeepsCaptures(re: Oracle, m: Matcher, name: seq<Component>, offset: nat, length: nat)
    returns (ok: bool, again: bool, ghost t: Split)
    requires m.Valid() && m.kind.RepeatMatcher? && m.kind.repeatMin == 0
    requires 0 < length && offset + length <= |name|
    modifies m.Repr
    ensures again && m.matchResult == []
    ensures ok <==> In(re, m.pat, name[offset..offset + length])
    ensures ok ==>
              && Chosen(Aggressive, re, m.pat, name[offset..offset + length], t) && t.parts != []
              && HoldsLast(m.matcherList[0], name[offset..offset + length], t.parts)
  {
    ok, t := m.AggressiveMatch(re, name, offset, length);
    ghost var u;
    again, u := m.AggressiveMatch(re, name, offset, 0);
    assert name[offset..offset + 0] == [];
  }

  // ----- Proof steps of the searches -----

  lemma Detach(ms: seq<Matcher>, items: seq<Pattern>)
    requires ValidEach(ms, items) && ms != []
    ensures ValidEach(ms[1..], items[1..])
    ensures Reprs(ms) == ms[0].Repr + Reprs(ms[1..])
    ensures ms[0].Repr !! Reprs(ms[1..])
  {
    assert ms == [ms[0]] + ms[1..];
  }

  lemma Slices(name: seq<Component>, offset: nat, length: nat, tried: nat)
    requires offset + length <= |name| && tried <= length
    ensures name[offset..offset + length] ==
            name[offset..offset + tried] + name[offset + tried..(offset + tried) + (length - tried)]
  {
  }

  lemma HoldsCons(
    ms: seq<Matcher>, items: seq<Pattern>, head: seq<Component>, tail: seq<Component>, t: Split, rest: seq<Split>)
    requires ValidEach(ms, items) && ms != [] && ValidEach(ms[1..], items[1..])
    requires t.len == |head| && Holds(ms[0], head, t) && HoldsEach(ms[1..], items[1..], tail, rest)
    ensures HoldsEach(ms, items, head + tail, [t] + rest)
  {
    var s, parts := head + tail, [t] + rest;
    assert s[..|head|] == head && s[|head|..] == tail && parts[1..] == rest;
  }

  lemma HoldsLastCons(m: Matcher, head: seq<Component>, tail: seq<Component>, t: Split, rest: seq<Split>)
    requires m.Valid() && t.len == |head|
    requires if rest == [] then tail == [] && Holds(m, head, t) else HoldsLast(m, tail, rest)
    ensures HoldsLast(m, head + tail, [t] + rest)
  {
    var s, parts := head + tail, [t] + rest;
    if rest == [] {
      assert s == head && s[|s| - t.len..] == head;
    } else {
      var last := rest[|rest| - 1];
      assert parts[|parts| - 1] == last;
      assert s[|s| - last.len..] == tail[|tail| - last.len..];
    }
  }

  lemma NoMoreMatchers(order: Order, re: Oracle, items: seq<Pattern>, s: seq<Component>)
    requires items == []
    ensures ListAccepts(re, items, s) <==> s == []
    ensures s == [] ==> BestCut(order, re, items, s, Lens([])) && ChosenEach(order, re, items, s, [])
  {
    var none: seq<nat> := [];
    assert Cuts(re, items, s, none) <==> s == [];
  }

  lemma NothingLeft(
    order: Order, re: Oracle, body: Pattern, min: nat, max: nat, r: nat, s: seq<Component>)
    requires s == [] && min <= r
    ensures SearchAccepts(re, body, min, max, r, s)
    ensures BestSteps(order, re, body, min, max, r, s, Lens([])) && ChosenAll(order, re, body, s, [])
  {
    var none: seq<nat> := [];
    assert Steps(re, body, min, max, r, s, none);
  }

  lemma EmptyRepeat(order: Order, re: Oracle, p: Pattern)
    requires p.Repeat? && p.min == 0
    ensures In(re, p, []) && Chosen(order, re, p, [], Split(0, []))
  {
    NothingLeft(order, re, p.body, 0, p.max, 0, []);
  }
}
