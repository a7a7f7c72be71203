/** The constructors: from the text of a pattern to a tree of matcher objects. */
module PatternParser {
  import opened NamePattern
  import opened PatternText
  import opened GroupNumbering
  import opened Matchers

  /** The list of back-reference groups shared by the matchers of one tree. */
  class BackRefs {
    var list: seq<Matcher?>

    constructor ()
      ensures list == []
    {
      list := [];
    }
  }

  // ----- Scans -----

  method ExtractSubPattern(expr: string, left: char, right: char, start: nat) returns (r: Result<nat>)
    requires start <= |expr| && left != right
    ensures r == match Close(left, right, expr[start..], 1) case Ok(n) => Ok(start + n) case Err(e) => Err(e)
  {
    var lcount, rcount, index := 1, 0, start;
    while lcount > rcount
      invariant start <= index <= |expr| && rcount <= lcount
      invariant Close(left, right, expr[start..], 1) ==
                match Close(left, right, expr[index..], lcount - rcount)
                case Ok(n) => Ok(n + (index - start))
                case Err(e) => Err(e)
      decreases |expr| - index
    {
      if index >= |expr| {
        return Err(ParenthesisMismatch);
      }
      assert expr[index..][1..] == expr[index + 1..];
      if left == expr[index] {
        lcount := lcount + 1;
      }
      if right == expr[index] {
        rcount := rcount + 1;
      }
      index := index + 1;
    }
    return Ok(index);
  }

  method ExtractRepetition(expr: string, start: nat) returns (r: Result<nat>)
    requires start <= |expr|
    ensures r == match RepetitionLength(expr[start..]) case Ok(n) => Ok(start + n) case Err(e) => Err(e)
  {
    var index := start;
    if index == |expr| {
      return Ok(index);
    }
    if expr[index] == '+' || expr[index] == '?' || expr[index] == '*' {
      return Ok(index + 1);
    }
    if expr[index] == '{' {
      while expr[index] != '}'
        invariant start <= index < |expr|
        invariant UpToBrace(expr[start..]) ==
                  match UpToBrace(expr[index..]) case Ok(n) => Ok(n + (index - start)) case Err(e) => Err(e)
        decreases |expr| - index
      {
        assert expr[index..][1..] == expr[index + 1..];
        index := index + 1;
        if index == |expr| {
          return Err(MissingRightBrace);
        }
      }
      return Ok(index + 1);
    }
    return Ok(index);
  }

  method ExtractComponent(expr: string, start: nat) returns (index: nat)
    requires start <= |expr|
    ensures index == start + Extent(expr[start..], 1) && index <= |expr|
  {
    var lcount, rcount := 1, 0;
    index := start;
    while lcount > rcount
      invariant start <= index <= |expr| && rcount <= lcount
      invariant Extent(expr[start..], 1) == Extent(expr[index..], lcount - rcount) + (index - start)
      decreases |expr| - index
    {
      if |expr| == index {
        break;
      }
      assert expr[index..][1..] == expr[index + 1..];
      if '<' == expr[index] {
        lcount := lcount + 1;
      } else if '>' == expr[index] {
        rcount := rcount + 1;
      }
      index := index + 1;
    }
  }

  lemma NothingInFront<T>(rest: Result<seq<T>>)
    ensures InFront([], rest) == rest
  {
    if rest.Ok? {
      assert [] + rest.value == rest.value;
    }
  }

  // ----- Component sets -----

  lemma OneMoreComponent(before: seq<string>, s: string)
    requires 1 < |s| && s[0] == '<'
    ensures var n := Extent(s[1..], 1);
            InFront(before, ParseComponents(s)) == InFront(before + [s[1..n]], ParseComponents(s[n + 1..]))
  {
    var n := Extent(s[1..], 1);
    var rest := ParseComponents(s[n + 1..]);
    if rest.Ok? {
      assert before + ([s[1..n]] + rest.value) == before + [s[1..n]] + rest.value;
    }
  }

  /** One component of a set, read at `index`. */
  method NextComponent(expr: string, index: nat, ghost before: seq<string>) returns (c: ComponentMatcher, end: nat)
    requires index + 1 < |expr| && expr[index] == '<'
    ensures fresh(c) && index < end <= |expr|
    ensures InFront(before, ParseComponents(expr[index..])) == InFront(before + [c.expr], ParseComponents(expr[end..]))
  {
    end := ExtractComponent(expr, index + 1);
    OneMoreComponent(before, expr[index..]);
    Remainder(expr, index, end);
    c := new ComponentMatcher(expr[index + 1..end - 1]);
  }

  method CompileMultipleComponents(expr: string, start: nat) returns (r: Result<seq<ComponentMatcher>>)
    requires start <= |expr|
    ensures r.Err? ==> ParseComponents(expr[start..]) == Err(r.error)
    ensures r.Ok? ==> ParseComponents(expr[start..]) == Ok(Exprs(r.value))
    ensures r.Ok? ==> forall c | c in r.value :: fresh(c)
  {
    var index, list := start, [];
    NothingInFront(ParseComponents(expr[start..]));
    while index + 1 < |expr|
      invariant start <= index <= |expr|
      invariant forall c | c in list :: fresh(c)
      invariant ParseComponents(expr[start..]) == InFront(Exprs(list), ParseComponents(expr[index..]))
      decreases |expr| - index
    {
      if '<' != expr[index] {
        return Err(ComponentExprError);
      }
      var component, end := NextComponent(expr, index, Exprs(list));
      ExprsAppend(list, component);
      list, index := list + [component], end;
    }
    if index + 1 != |expr| {
      return Err(NotSufficientExpr);
    }
    assert Exprs(list) + [] == Exprs(list);
    return Ok(list);
  }

  lemma Remainder(expr: string, index: nat, end: nat)
    requires index + 1 < end <= |expr|
    ensures expr[index..][1..] == expr[index + 1..]
    ensures expr[index..][1..end - index - 1] == expr[index + 1..end - 1]
    ensures expr[index..][end - index..] == expr[end..]
  {
  }

  lemma ExprsAppend(list: seq<ComponentMatcher>, c: ComponentMatcher)
    ensures Exprs(list + [c]) == Exprs(list) + [c.expr]
  {
  }

  method NewComponentSet(expr: string) returns (r: Result<Matcher>)
    requires expr != ""
    ensures r.Err? ==> ParseSet(expr) == Err(r.error)
    ensures r.Ok? ==> r.value.Valid() && fresh(r.value.Repr) && ParseSet(expr) == Ok(r.value.pat)
  {
    var positive, list := true, [];
    if '<' == expr[0] {
      var end := ExtractComponent(expr, 1);
      if |expr| != end {
        return Err(ComponentOutOfBound);
      }
      var component := new ComponentMatcher(if end < 2 then "" else expr[1..end - 1]);
      list := [component];
      assert Exprs(list) == [component.expr];
    } else if '[' == expr[0] {
      if expr[|expr| - 1] != ']' {
        return Err(NoMatchedBracket);
      }
      positive := '^' != expr[1];
      var components := CompileMultipleComponents(expr, if positive then 1 else 2);
      match components {
        case Err(e) => return Err(e);
        case Ok(cs) => list := cs;
      }
    }
    var m := new Matcher(ComponentSetMatcher(positive), [], list, ComponentSet(positive, Exprs(list)));
    return Ok(m);
  }

  // ----- Groups, repeats and pattern lists -----

  /** The group objects of a tree, a group before the groups inside it. */
  ghost function GroupObjects(m: Matcher): seq<Matcher>
    requires m.Valid()
    decreases m.pat, 1
  {
    match m.kind
    case ComponentSetMatcher(_) => []
    case RepeatMatcher(_, _) => GroupObjects(m.matcherList[0])
    case _ => (if m.kind.BackRefMatcher? then [m] else []) + GroupObjectsEach(m.matcherList, m.pat.items)
  }

  ghost function GroupObjectsEach(ms: seq<Matcher>, items: seq<Pattern>): seq<Matcher>
    requires ValidEach(ms, items)
    decreases items, 0
  {
    if ms == [] then []
    else
      var n := |ms| - 1;
      GroupObjectsEach(ms[..n], items[..n]) + GroupObjects(ms[n])
  }

  ghost predicate StandFor(objects: seq<Matcher>, pats: seq<Pattern>) {
    |objects| == |pats| && forall i | 0 <= i < |pats| :: objects[i].pat == pats[i]
  }

  /** The object of group number i stands for the i-th group of the pattern. */
  lemma {:induction false} GroupObjectsMatch(m: Matcher)
    requires m.Valid()
    ensures StandFor(GroupObjects(m), GroupsIn(m.pat))
    decreases m.pat, 1
  {
    match m.kind
    case ComponentSetMatcher(_) =>
    case RepeatMatcher(_, _) => GroupObjectsMatch(m.matcherList[0]);
    case _ => GroupObjectsEachMatch(m.matcherList, m.pat.items);
  }

  lemma {:induction false} GroupObjectsEachMatch(ms: seq<Matcher>, items: seq<Pattern>)
    requires ValidEach(ms, items)
    ensures StandFor(GroupObjectsEach(ms, items), GroupsInEach(items))
    decreases items, 0
  {
    if ms != [] {
      var n := |ms| - 1;
      GroupObjectsEachMatch(ms[..n], items[..n]);
      GroupObjectsMatch(ms[n]);
      LastGroup(items);
    }
  }

  /** Every registered group is a node of the tree. */
  lemma {:induction false} GroupObjectsInside(m: Matcher)
    requires m.Valid()
    ensures forall o | o in GroupObjects(m) :: o.Valid() && o in m.Repr
    decreases m.pat, 1
  {
    match m.kind
    case ComponentSetMatcher(_) =>
    case RepeatMatcher(_, _) => GroupObjectsInside(m.matcherList[0]);
    case _ => GroupObjectsEachInside(m.matcherList, m.pat.items);
  }

  lemma {:induction false} GroupObjectsEachInside(ms: seq<Matcher>, items: seq<Pattern>)
    requires ValidEach(ms, items)
    ensures forall o | o in GroupObjectsEach(ms, items) :: o.Valid() && o in Reprs(ms)
    decreases items, 0
  {
    if ms != [] {
      var n := |ms| - 1;
      GroupObjectsEachInside(ms[..n], items[..n]);
      GroupObjectsInside(ms[n]);
      assert ms[n] in ms && Reprs(ms[..n]) <= Reprs(ms);
    }
  }

  lemma LastGroup(items: seq<Pattern>)
    requires items != []
    ensures GroupsInEach(items) == GroupsInEach(items[..|items| - 1]) + GroupsIn(items[|items| - 1])
  {
    var n := |items| - 1;
    assert items == items[..n] + [items[n]];
    GroupsInConcat(items[..n], [items[n]]);
    assert [items[n]][1..] == [] && GroupsInEach([items[n]]) == GroupsIn(items[n]) + [];
  }

  lemma GroupObjectsAppend(ms: seq<Matcher>, items: seq<Pattern>, m: Matcher)
    requires ValidEach(ms, items) && m.Valid() && ValidEach(ms + [m], items + [m.pat])
    ensures GroupObjectsEach(ms + [m], items + [m.pat]) == GroupObjectsEach(ms, items) + GroupObjects(m)
  {
    assert (ms + [m])[..|ms|] == ms && (items + [m.pat])[..|ms|] == items;
  }

  /** A freshly built matcher joins the members built before it. */
  lemma ValidAppend(ms: seq<Matcher>, items: seq<Pattern>, m: Matcher)
    requires ValidEach(ms, items) && m.Valid() && m.Repr !! Reprs(ms)
    ensures ValidEach(ms + [m], items + [m.pat])
    ensures Reprs(ms + [m]) == Reprs(ms) + m.Repr
    ensures GroupObjectsEach(ms + [m], items + [m.pat]) == GroupObjectsEach(ms, items) + GroupObjects(m)
  {
    GroupObjectsAppend(ms, items, m);
  }

  lemma ListGroups(m: Matcher)
    requires m.Valid() && m.kind.PatternListMatcher?
    ensures GroupObjects(m) == GroupObjectsEach(m.matcherList, m.pat.items)
  {
  }

  method NewBackRef(expr: string, backRef: BackRefs) returns (r: Result<Matcher>)
    modifies backRef
    ensures r.Err? ==> ParseGroup(expr) == Err(r.error)
    ensures r.Ok? ==> r.value.Valid() && fresh(r.value.Repr) && ParseGroup(expr) == Ok(r.value.pat)
    ensures r.Ok? ==> backRef.list == old(backRef.list) + GroupObjects(r.value)
    decreases |expr|, 0
  {
    hide ParseList;
    if |expr| < 2 || expr[0] != '(' || expr[|expr| - 1] != ')' {
      return Err(UnrecognizedGroup);
    }
    // The group takes its number before the groups inside it take theirs.
    var number := |backRef.list|;
    backRef.list := backRef.list + [null];
    var inner := NewPatternList(expr[1..|expr| - 1], backRef);
    match inner {
      case Err(e) => return Err(e);
      case Ok(list) =>
        SingleValid(list);
        var m := new Matcher(BackRefMatcher, [list], [], Sequence(true, [list.pat]));
        backRef.list := backRef.list[number := m];
        SingleGroups(list);
        return Ok(m);
    }
  }

  lemma SingleValid(m: Matcher)
    requires m.Valid()
    ensures ValidEach([m], [m.pat]) && Reprs([m]) == m.Repr
  {
  }

  lemma SingleGroups(m: Matcher)
    requires m.Valid() && ValidEach([m], [m.pat])
    ensures GroupObjectsEach([m], [m.pat]) == GroupObjects(m)
  {
    assert [m][..0] == [] && [m.pat][..0] == [];
    assert GroupObjectsEach([m], [m.pat]) == [] + GroupObjects(m);
  }

  method NewRepeat(expr: string, indicator: nat, backRef: BackRefs) returns (r: Result<Matcher>)
    requires 0 < indicator <= |expr|
    modifies backRef
    ensures r.Err? ==> ParseRepeat(expr, indicator) == Err(r.error)
    ensures r.Ok? ==> r.value.Valid() && fresh(r.value.Repr) && ParseRepeat(expr, indicator) == Ok(r.value.pat)
    ensures r.Ok? ==> backRef.list == old(backRef.list) + GroupObjects(r.value)
    decreases |expr|, 1
  {
    var body;
    if '(' == expr[0] {
      body := NewBackRef(expr[..indicator], backRef);
    } else {
      body := NewComponentSet(expr[..indicator]);
      NoGroups(body);
    }
    match body {
      case Err(e) => return Err(e);
      case Ok(matcher) =>
        match ParseRepetition(expr[indicator..]) {
          case Err(e) => return Err(e);
          case Ok((min, max)) =>
            SingleValid(matcher);
            var m := new Matcher(RepeatMatcher(min, max), [matcher], [], Repeat(matcher.pat, min, max));
            return Ok(m);
        }
    }
  }

  lemma NoGroups(r: Result<Matcher>)
    requires r.Ok? ==> r.value.Valid() && r.value.pat.ComponentSet?
    ensures r.Ok? ==> GroupObjects(r.value) == []
  {
  }

  lemma OneMore(items: seq<Pattern>, s: string)
    requires s != "" && ItemExtent(s).Ok? && ParseItem(s).Ok?
    ensures InFront(items, ParseList(s)) ==
            InFront(items + [ParseItem(s).value], ParseList(s[ItemExtent(s).value.1..]))
  {
    var rest := ParseList(s[ItemExtent(s).value.1..]);
    if rest.Ok? {
      assert items + ([ParseItem(s).value] + rest.value) == items + [ParseItem(s).value] + rest.value;
    }
  }

  /** How far the item at `start` reaches. */
  method ScanItem(expr: string, start: nat) returns (r: Result<(nat, nat)>)
    requires start < |expr|
    ensures r.Err? ==> ItemExtent(expr[start..]) == Err(r.error)
    ensures r.Ok? ==> start < r.value.0 <= r.value.1 <= |expr|
    ensures r.Ok? ==> ItemExtent(expr[start..]) == Ok((r.value.0 - start, r.value.1 - start))
  {
    if !Opens(expr[start]) {
      return Err(UnexpectedSyntax);
    }
    var left := expr[start];
    assert expr[start..][1..] == expr[start + 1..];
    var scan := ExtractSubPattern(expr, left, RightOf(left), start + 1);
    if scan.Err? {
      return Err(scan.error);
    }
    var indicator := scan.value;
    assert expr[start..][indicator - start..] == expr[indicator..];
    var suffix := ExtractRepetition(expr, indicator);
    if suffix.Err? {
      return Err(suffix.error);
    }
    return Ok((indicator, suffix.value));
  }

  /** The matcher for an item's own text. */
  method NewItem(expr: string, indicator: nat, backRef: BackRefs) returns (r: Result<Matcher>)
    requires 0 < indicator <= |expr|
    modifies backRef
    ensures var parsed :=
              if expr[0] == '(' && indicator == |expr| then ParseGroup(expr) else ParseRepeat(expr, indicator);
            if r.Err? then parsed == Err(r.error) else parsed == Ok(r.value.pat)
    ensures r.Ok? ==> r.value.Valid() && fresh(r.value.Repr)
    ensures r.Ok? ==> backRef.list == old(backRef.list) + GroupObjects(r.value)
    decreases |expr|, 2
  {
    if expr[0] == '(' && indicator == |expr| {
      r := NewBackRef(expr, backRef);
    } else {
      r := NewRepeat(expr, indicator, backRef);
    }
  }

  lemma ItemText(expr: string, start: nat, indicator: nat, end: nat)
    requires start < indicator <= end <= |expr|
    requires ItemExtent(expr[start..]) == Ok((indicator - start, end - start))
    ensures var item := expr[start..end];
            ParseItem(expr[start..]) ==
            if item[0] == '(' && indicator - start == |item| then ParseGroup(item)
            else ParseRepeat(item, indicator - start)
    ensures expr[start..][end - start..] == expr[end..]
  {
    assert expr[start..][..end - start] == expr[start..end];
  }

  /** Read one item of the list, after the items in `before`. */
  method ReadItem(expr: string, start: nat, backRef: BackRefs, ghost before: seq<Pattern>)
    returns (r: Result<(Matcher, nat)>)
    requires start < |expr|
    modifies backRef
    ensures r.Err? ==> ParseList(expr[start..]) == Err(r.error)
    ensures r.Ok? ==>
              && start < r.value.1 <= |expr|
              && r.value.0.Valid() && fresh(r.value.0.Repr)
              && backRef.list == old(backRef.list) + GroupObjects(r.value.0)
              && InFront(before, ParseList(expr[start..])) ==
                 InFront(before + [r.value.0.pat], ParseList(expr[r.value.1..]))
    decreases |expr| - start, 3
  {
    hide ItemExtent, ParseItem, ParseGroup, ParseRepeat;
    var scan := ScanItem(expr, start);
    if scan.Err? {
      return Err(scan.error);
    }
    var (indicator, end) := scan.value;
    ItemText(expr, start, indicator, end);
    var m := NewItem(expr[start..end], indicator - start, backRef);
    if m.Err? {
      return Err(m.error);
    }
    OneMore(before, expr[start..]);
    return Ok((m.value, end));
  }

  /** Read one item and append its matcher to the list. */
  method ExtractPattern(
    expr: string, start: nat, backRef: BackRefs, list: seq<Matcher>, ghost items: seq<Pattern>,
    ghost built: set<object>)
    returns (r: Result<(seq<Matcher>, nat)>, ghost items': seq<Pattern>, ghost built': set<object>)
    requires start < |expr| && ValidEach(list, items) && built == Reprs(list)
    modifies backRef
    ensures r.Err? ==> ParseList(expr[start..]) == Err(r.error)
    ensures r.Ok? ==>
              && start < r.value.1 <= |expr|
              && ValidEach(r.value.0, items') && built' == Reprs(r.value.0) && fresh(built' - built)
              && InFront(items, ParseList(expr[start..])) == InFront(items', ParseList(expr[r.value.1..]))
              && old(backRef.list) <= backRef.list
              && GroupObjectsEach(r.value.0, items') ==
                 GroupObjectsEach(list, items) + backRef.list[|old(backRef.list)|..]
    decreases |expr| - start, 4
  {
    items', built' := items, built;
    var item := ReadItem(expr, start, backRef, items);
    if item.Err? {
      return Err(item.error), items', built';
    }
    var (matcher, end) := item.value;
    assert backRef.list[|old(backRef.list)|..] == GroupObjects(matcher);
    ValidAppend(list, items, matcher);
    items', built' := items + [matcher.pat], built + matcher.Repr;
    return Ok((list + [matcher], end)), items', built';
  }

  method NewListNode(list: seq<Matcher>, ghost items: seq<Pattern>) returns (m: Matcher)
    requires ValidEach(list, items)
    ensures m.Valid() && fresh(m) && m.Repr == {m} + Reprs(list)
    ensures m.pat == Sequence(false, items) && GroupObjects(m) == GroupObjectsEach(list, items)
  {
    m := new Matcher(PatternListMatcher, list, [], Sequence(false, items));
    assert (set c: ComponentMatcher | c in m.components) == {};
    ListGroups(m);
  }

  lemma NothingMore(items: seq<Pattern>)
    ensures InFront(items, ParseList("")) == Ok(items)
  {
    assert ParseList("") == Ok([]) && items + [] == items;
  }

  lemma EmptyList()
    ensures ValidEach([], []) && Reprs([]) == {} && GroupObjectsEach([], []) == []
  {
  }

  method NewPatternList(expr: string, backRef: BackRefs) returns (r: Result<Matcher>)
    modifies backRef
    ensures r.Err? ==> ParseList(expr) == Err(r.error)
    ensures r.Ok? ==> r.value.Valid() && fresh(r.value.Repr)
    ensures r.Ok? ==> ParseList(expr).Ok? && r.value.pat == Sequence(false, ParseList(expr).value)
    ensures r.Ok? ==> backRef.list == old(backRef.list) + GroupObjects(r.value)
    decreases |expr|, 5
  {
    hide ParseList, ValidEach, GroupObjectsEach;
    var index, list := 0, [];
    ghost var items, built := [], {};
    EmptyList();
    assert expr[0..] == expr;
    NothingInFront(ParseList(expr));
    while index < |expr|
      invariant 0 <= index <= |expr|
      invariant ValidEach(list, items) && built == Reprs(list) && fresh(built)
      invariant backRef.list == old(backRef.list) + GroupObjectsEach(list, items)
      invariant ParseList(expr) == InFront(items, ParseList(expr[index..]))
      decreases |expr| - index
    {
      var r_res;
      r_res, items, built := ExtractPattern(expr, index, backRef, list, items, built);
      if r_res.Err? {
        return Err(r_res.error);
      }
      list, index := r_res.value.0, r_res.value.1;
    }
    assert expr[index..] == "";
    NothingMore(items);
    var m := NewListNode(list, items);
    return Ok(m);
  }
}
