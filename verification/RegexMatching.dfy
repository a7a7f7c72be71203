/** The top-level matcher object: two pattern trees, tried in turn, and the captures
    handed out afterwards. */
module RegexMatching {
  import opened Options
  import opened NamePattern
  import opened PatternText
  import opened GroupNumbering
  import opened NameRegex
  import opened Matchers
  import opened PatternParser
  import opened GroupCaptures

  class RegexMatcher {
    const expr: string
    const backRef: BackRefs
    const secondBackRef: BackRefs
    const primaryMatcher: Matcher
    const secondaryMatcher: Matcher?
    var matchResult: seq<Component>
    var secondaryUsed: bool

    ghost predicate Valid()
      reads this, backRef, secondBackRef
    {
      && Compile(expr).Ok?
      && primaryMatcher.Valid() && primaryMatcher.pat == Compile(expr).value.primary
      && backRef.list == GroupObjects(primaryMatcher)
      && (secondaryMatcher == null <==> Compile(expr).value.secondary.None?)
      && (secondaryMatcher != null ==>
            && secondaryMatcher.Valid() && secondaryMatcher.pat == Compile(expr).value.secondary.value
            && secondBackRef.list == GroupObjects(secondaryMatcher)
            && secondaryMatcher.Repr !! primaryMatcher.Repr)
      && Footprint() !! {this, backRef, secondBackRef}
    }

    /** The objects a match may write, besides this one. */
    ghost function Footprint(): set<object> {
      primaryMatcher.Repr + if secondaryMatcher == null then {} else secondaryMatcher.Repr
    }

    constructor (
      expr: string, primary: Matcher, secondary: Matcher?, backRef: BackRefs, secondBackRef: BackRefs)
      requires Compile(expr).Ok?
      requires primary.Valid() && primary.pat == Compile(expr).value.primary && backRef.list == GroupObjects(primary)
      requires secondary == null <==> Compile(expr).value.secondary.None?
      requires secondary != null ==>
                 && secondary.Valid() && secondary.pat == Compile(expr).value.secondary.value
                 && secondBackRef.list == GroupObjects(secondary)
                 && secondary.Repr !! primary.Repr && secondary.Repr !! {backRef, secondBackRef}
      requires primary.Repr !! {backRef, secondBackRef}
      ensures Valid() && this.expr == expr && matchResult == []
      ensures Footprint() == primary.Repr + if secondary == null then {} else secondary.Repr
    {
      this.expr, primaryMatcher, secondaryMatcher := expr, primary, secondary;
      this.backRef, this.secondBackRef := backRef, secondBackRef;
      matchResult, secondaryUsed := [], false;
    }

    /** The tree whose captures count. */
    ghost function Used(): Matcher
      reads this
    {
      if secondaryUsed && secondaryMatcher != null then secondaryMatcher else primaryMatcher
    }

    method MatchName(re: Oracle, name: seq<Component>) returns (ok: bool, ghost t: Split)
      requires Valid()
      modifies this, Footprint()
      ensures Valid()
      ensures ok <==> Matches(re, Compile(expr).value, name)
      ensures DotStarMatchesAll(re) && |name| <= SYS_MAXINT ==> (ok <==> Denotes(re, expr, name))
      ensures secondaryUsed <==> !In(re, Compile(expr).value.primary, name) && secondaryMatcher != null
      ensures matchResult == old(matchResult) + if ok then name else []
      ensures ok ==> Captures(Lazy, re, Used(), name, t)
    {
      hide Compile, In, Chosen, Holds, Denotes;
      if DotStarMatchesAll(re) && |name| <= SYS_MAXINT {
        ExpressionLanguage(re, expr, name);
      }
      secondaryUsed := false;
      ok, t := MatchWhole(re, primaryMatcher, name);
      matchResult := matchResult + primaryMatcher.matchResult;
      if !ok && secondaryMatcher != null {
        ok, t := MatchWhole(re, secondaryMatcher, name);
        matchResult := matchResult + secondaryMatcher.matchResult;
        secondaryUsed := true;
      }
    }

    method MatchN(re: Oracle, name: seq<Component>) returns (ok: bool, ghost t: Split)
      requires Valid()
      modifies this, Footprint()
      ensures Valid()
      ensures ok <==> Matches(re, Compile(expr).value, name)
      ensures DotStarMatchesAll(re) && |name| <= SYS_MAXINT ==> (ok <==> Denotes(re, expr, name))
      ensures secondaryUsed <==> !In(re, Compile(expr).value.primary, name) && secondaryMatcher != null
      ensures matchResult == old(matchResult) + if ok then name else []
      ensures ok ==> Captures(Aggressive, re, Used(), name, t)
    {
      hide Compile, In, Chosen, Holds, Denotes;
      if DotStarMatchesAll(re) && |name| <= SYS_MAXINT {
        ExpressionLanguage(re, expr, name);
      }
      secondaryUsed := false;
      ok, t := AggressiveMatchWhole(re, primaryMatcher, name);
      matchResult := matchResult + primaryMatcher.matchResult;
      if !ok && secondaryMatcher != null {
        ok, t := AggressiveMatchWhole(re, secondaryMatcher, name);
        matchResult := matchResult + secondaryMatcher.matchResult;
        secondaryUsed := true;
      }
    }

    /** `rule` is the list of numbers of a rule text such as `\1\3`.  After a match the
        result joins the groups' pieces of the split the match chose. */
    method Extract(rule: seq<nat>) returns (r: Option<seq<Component>>)
      requires Valid()
      ensures r.Some? <==> forall i | 0 <= i < |rule| :: 1 <= rule[i] <= |GroupObjects(UsedIn())|
      ensures r.Some? ==> r.value == Captured(GroupObjects(UsedIn()), rule)
      ensures forall order, re, name, t |
                Captures(order, re, UsedIn(), name, t) && TookPart(GroupPieces(UsedIn().pat, name, t), rule) ::
                r == Some(Selected(GroupPieces(UsedIn().pat, name, t), rule))
    {
      hide Compile, GroupObjects;
      var refs := backRef.list;
      if secondaryUsed && secondaryMatcher != null {
        refs := secondBackRef.list;
      }
      ghost var groups := GroupObjects(UsedIn());
      var result, k := [], 0;
      while k < |rule|
        invariant 0 <= k <= |rule|
        invariant forall i | 0 <= i < k :: 1 <= rule[i] <= |groups|
        invariant result == Captured(groups, rule[..k])
      {
        var i := rule[k] as int - 1;
        if |refs| <= i || 0 > i {
          GroupObjectsMatch(UsedIn());
          return None;
        }
        assert rule[..k + 1][..k] == rule[..k];
        result := result + refs[i].matchResult;
        k := k + 1;
      }
      assert rule[..k] == rule;
      forall order, re, name, t |
        Captures(order, re, UsedIn(), name, t) && TookPart(GroupPieces(UsedIn().pat, name, t), rule)
        ensures result == Selected(GroupPieces(UsedIn().pat, name, t), rule)
      {
        CapturedPieces(order, re, UsedIn(), name, t, rule);
      }
      return Some(result);
    }

    ghost function UsedIn(): (m: Matcher)
      requires Valid()
      reads this, backRef, secondBackRef
      ensures m.Valid() && m == Used()
    {
      Used()
    }
  }

  method MatchWhole(re: Oracle, m: Matcher, name: seq<Component>) returns (ok: bool, ghost t: Split)
    requires m.Valid()
    modifies m.Repr
    ensures ok <==> In(re, m.pat, name)
    ensures ok ==> Captures(Lazy, re, m, name, t)
    ensures m.matchResult == if ok then name else []
  {
    assert name[0..|name|] == name;
    ok, t := m.Match(re, name, 0, |name|);
  }

  method AggressiveMatchWhole(re: Oracle, m: Matcher, name: seq<Component>) returns (ok: bool, ghost t: Split)
    requires m.Valid()
    modifies m.Repr
    ensures ok <==> In(re, m.pat, name)
    ensures ok ==> Captures(Aggressive, re, m, name, t)
    ensures m.matchResult == if ok then name else []
  {
    assert name[0..|name|] == name;
    ok, t := m.AggressiveMatch(re, name, 0, |name|);
  }

  /** One pattern tree with its own list of groups. */
  method NewTree(text: string) returns (r: Result<Matcher>, backRef: BackRefs)
    ensures fresh(backRef)
    ensures r.Err? ==> ParseList(text) == Err(r.error)
    ensures r.Ok? ==> r.value.Valid() && fresh(r.value.Repr) && backRef !in r.value.Repr
    ensures r.Ok? ==> ParseList(text).Ok? && r.value.pat == Sequence(false, ParseList(text).value)
    ensures r.Ok? ==> backRef.list == GroupObjects(r.value)
  {
    backRef := new BackRefs();
    r := NewPatternList(text, backRef);
  }

  /** The constructor: fails on exactly the texts that do not compile. */
  method NewRegexMatcher(expr: string) returns (r: Result<RegexMatcher>)
    ensures r.Err? ==> Compile(expr) == Err(r.error)
    ensures r.Ok? ==> r.value.expr == expr && r.value.Valid() && r.value.matchResult == []
    ensures r.Ok? ==> fresh(r.value) && fresh(r.value.Footprint())
  {
    hide ParseList;
    if expr == "" {
      return Err(EmptyExpression);
    }
    var text := if expr[|expr| - 1] != '$' then expr + ANY_TEXT else expr[..|expr| - 1];
    if text == "" {
      return Err(EmptyExpression);
    }
    var secondary: Matcher? := null;
    var secondBackRef := new BackRefs();
    if text[0] != '^' {
      var s, refs := NewTree(ANY_TEXT + text);
      if s.Err? {
        return Err(s.error);
      }
      secondary, secondBackRef := s.value, refs;
    } else {
      text := text[1..];
    }
    var p, backRef := NewTree(text);
    if p.Err? {
      return Err(p.error);
    }
    var m := new RegexMatcher(expr, p.value, secondary, backRef, secondBackRef);
    return Ok(m);
  }
}
