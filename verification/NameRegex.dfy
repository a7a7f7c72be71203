/** Whole name expressions: anchors, the secondary matcher, and the language they
    accept together. */
module NameRegex {
  import opened Options
  import opened NamePattern
  import opened PatternText
  import opened PatternPrinter
  import opened Brackets
  import opened GroupNumbering

  /** The expression prepended or appended where an anchor is missing. */
  const ANY_TEXT: string := "<.*>*"

  const ANY: Pattern := Repeat(ComponentSet(true, [".*"]), 0, SYS_MAXINT)

  datatype Compiled = Compiled(primary: Pattern, secondary: Option<Pattern>)

  function Compile(expr: string): Result<Compiled> {
    if expr == "" then Err(EmptyExpression)
    else
      var text := if expr[|expr| - 1] != '$' then expr + ANY_TEXT else expr[..|expr| - 1];
      if text == "" then Err(EmptyExpression)
      else if text[0] == '^' then
        match ParseList(text[1..])
        case Err(e) => Err(e)
        case Ok(items) => Ok(Compiled(Sequence(false, items), None))
      else
        match ParseList(ANY_TEXT + text)
        case Err(e) => Err(e)
        case Ok(secondary) =>
          match ParseList(text)
          case Err(e) => Err(e)
          case Ok(items) => Ok(Compiled(Sequence(false, items), Some(Sequence(false, secondary))))
  }

  predicate AnchoredEnd(expr: string) { expr != "" && expr[|expr| - 1] == '$' }

  predicate AnchoredStart(expr: string) { expr != "" && expr[0] == '^' }

  /** The expression between its anchors. */
  function Core(expr: string): string
    requires expr != "" && expr != "$"
  {
    expr[if AnchoredStart(expr) then 1 else 0..if AnchoredEnd(expr) then |expr| - 1 else |expr|]
  }

  // ----- Parsing with the extra expression around -----

  /** Text that closes nothing: at any depth the scan runs off its end. */
  ghost predicate ClosesNothing(b: string) {
    && StartsItem(b)
    && (forall left, depth: nat | Opens(left) && 0 < depth :: Close(left, RightOf(left), b, depth).Err?)
    && UpToBrace(b).Err?
  }

  lemma {:induction false} CloseExtends(left: char, s: string, b: string, depth: nat)
    requires ClosesNothing(b) && Opens(left) && 0 < depth
    ensures Close(left, RightOf(left), s + b, depth) == Close(left, RightOf(left), s, depth)
            || (Close(left, RightOf(left), s + b, depth).Err? && Close(left, RightOf(left), s, depth).Err?)
  {
    if s == "" {
      assert s + b == b;
    } else {
      var d := Depth(left, RightOf(left), s[0], depth);
      assert (s + b)[1..] == s[1..] + b;
      if 0 < d {
        CloseExtends(left, s[1..], b, d);
      }
    }
  }

  lemma {:induction false} UpToBraceExtends(s: string, b: string)
    requires UpToBrace(b).Err?
    ensures UpToBrace(s + b).Ok? <==> UpToBrace(s).Ok?
    ensures UpToBrace(s).Ok? ==> UpToBrace(s + b) == UpToBrace(s)
  {
    if s == "" {
      assert s + b == b;
    } else {
      UpToBraceExtends(s[1..], b);
      assert (s + b)[1..] == s[1..] + b;
    }
  }

  lemma RepetitionExtends(s: string, b: string)
    requires ClosesNothing(b)
    ensures RepetitionLength(s + b).Ok? <==> RepetitionLength(s).Ok?
    ensures RepetitionLength(s).Ok? ==> RepetitionLength(s + b) == RepetitionLength(s)
  {
    if s == "" {
      assert s + b == b;
    } else {
      UpToBraceExtends(s, b);
    }
  }

  lemma ExtentExtends(s: string, b: string)
    requires s != "" && ClosesNothing(b)
    ensures ItemExtent(s + b).Ok? <==> ItemExtent(s).Ok?
    ensures ItemExtent(s).Ok? ==> ItemExtent(s + b) == ItemExtent(s)
  {
    if Opens(s[0]) {
      assert (s + b)[1..] == s[1..] + b;
      CloseExtends(s[0], s[1..], b, 1);
      var scan := Close(s[0], RightOf(s[0]), s[1..], 1);
      if scan.Ok? {
        assert (s + b)[1 + scan.value..] == s[1 + scan.value..] + b;
        RepetitionExtends(s[1 + scan.value..], b);
      }
    }
  }

  lemma ItemExtends(s: string, b: string, end: nat)
    requires s != "" && ClosesNothing(b) && ItemExtent(s).Ok? && end == ItemExtent(s).value.1
    ensures ItemExtent(s + b) == ItemExtent(s) && ParseItem(s + b) == ParseItem(s)
    ensures (s + b)[end..] == s[end..] + b
  {
    ExtentExtends(s, b);
    assert (s + b)[..end] == s[..end];
  }

  /** The list read from `s`: its first item, then the list read from the rest. */
  lemma ListStep(s: string)
    requires s != ""
    ensures ItemExtent(s).Err? || ParseItem(s).Err? ==> ParseList(s).Err?
    ensures ItemExtent(s).Ok? && ParseItem(s).Ok? ==>
              ParseList(s) == InFront([ParseItem(s).value], ParseList(s[ItemExtent(s).value.1..]))
  {
  }

  /** `whole` is `part` with `tail` appended, or both failed. */
  predicate Extends(part: Result<seq<Pattern>>, whole: Result<seq<Pattern>>, tail: seq<Pattern>) {
    if part.Err? then whole.Err? else whole == Ok(part.value + tail)
  }

  lemma ExtendsStep(item: Pattern, part: Result<seq<Pattern>>, whole: Result<seq<Pattern>>, tail: seq<Pattern>)
    requires Extends(part, whole, tail)
    ensures Extends(InFront([item], part), InFront([item], whole), tail)
  {
    if part.Ok? {
      assert [item] + part.value + tail == [item] + (part.value + tail);
    }
  }

  lemma AppendStep(s: string, b: string, tail: seq<Pattern>, end: nat)
    requires s != "" && ClosesNothing(b) && ItemExtent(s).Ok? && end == ItemExtent(s).value.1
    requires Extends(ParseList(s[end..]), ParseList(s[end..] + b), tail)
    ensures Extends(ParseList(s), ParseList(s + b), tail)
  {
    ItemExtends(s, b, end);
    ListStep(s);
    ListStep(s + b);
    if ParseItem(s).Ok? {
      ExtendsStep(ParseItem(s).value, ParseList(s[end..]), ParseList(s[end..] + b), tail);
    }
  }

  lemma AppendFails(s: string, b: string, tail: seq<Pattern>)
    requires s != "" && ClosesNothing(b) && ItemExtent(s).Err?
    ensures Extends(ParseList(s), ParseList(s + b), tail)
  {
    ExtentExtends(s, b);
    ListStep(s);
    ListStep(s + b);
  }

  /** A pattern list in front of an unclosing one parses on its own, and only then
      does the whole. */
  lemma {:induction false} ParseAppend(s: string, b: string, tail: seq<Pattern>)
    requires ClosesNothing(b) && ParseList(b) == Ok(tail)
    ensures Extends(ParseList(s), ParseList(s + b), tail)
    decreases |s|
  {
    if s == "" {
      assert s + b == b && [] + tail == tail;
    } else if ItemExtent(s).Err? {
      AppendFails(s, b, tail);
    } else {
      var end := ItemExtent(s).value.1;
      ParseAppend(s[end..], b, tail);
      AppendStep(s, b, tail, end);
    }
  }

  lemma AnyClosesNothing()
    ensures ClosesNothing(ANY_TEXT) && ParseList(ANY_TEXT) == Ok([ANY])
  {
    forall left, depth: nat | Opens(left) && 0 < depth
      ensures Close(left, RightOf(left), ANY_TEXT, depth).Err?
    {
      AnyScan(left, depth);
    }
    AnyAhead("");
    assert ParseList("") == Ok([]) && [ANY] + [] == [ANY];
    assert ANY_TEXT + "" == ANY_TEXT;
  }

  lemma AnyScan(left: char, depth: nat)
    requires Opens(left) && 0 < depth
    ensures Close(left, RightOf(left), ANY_TEXT, depth).Err?
  {
    var d := if left == '<' then depth + 1 else depth;
    assert ANY_TEXT[1..][1..][1..] == ">*";
    assert Close(left, RightOf(left), ">*", d).Err?;
    assert Close(left, RightOf(left), ".*>*", d).Err?;
  }

  /** In front of anything, the extra expression is one more item. */
  lemma AnyAhead(s: string)
    ensures ParseList(ANY_TEXT + s) == InFront([ANY], ParseList(s))
  {
    var text, atom := ANY_TEXT + s, "<" + ".*" + ">";
    FlatBalanced('<', '>', ".*");
    CloseBrackets('<', ".*", "*" + s);
    assert text == ['<'] + ".*" + ['>'] + ("*" + s);
    assert text[4..] == "*" + s;
    assert ItemExtent(text) == Ok((4, 5));
    assert text[..5] == atom + "*" && text[..5][..4] == atom && text[..5][4..] == "*" && text[5..] == s;
    ParseSingle(".*");
    assert ParseRepeat(text[..5], 4) == Ok(ANY);
  }

  /** What the constructor builds around the core's items. */
  function Anchored(items: seq<Pattern>, start: bool, end: bool): Compiled {
    var primary := items + if end then [] else [ANY];
    Compiled(Sequence(false, primary), if start then None else Some(Sequence(false, [ANY] + primary)))
  }

  /** The constructor succeeds exactly when the text between the anchors parses, and
      only adds the extra item where an anchor is missing. */
  lemma CompileAnchors(expr: string)
    requires expr != "" && expr != "$"
    ensures Compile(expr).Ok? <==> ParseList(Core(expr)).Ok?
    ensures Compile(expr).Ok? ==>
              Compile(expr).value == Anchored(ParseList(Core(expr)).value, AnchoredStart(expr), AnchoredEnd(expr))
  {
    hide ParseList, ClosesNothing;
    var text := if !AnchoredEnd(expr) then expr + ANY_TEXT else expr[..|expr| - 1];
    var rest := if AnchoredStart(expr) then text[1..] else text;
    if AnchoredEnd(expr) {
      assert rest == Core(expr);
    } else {
      if AnchoredStart(expr) {
        assert (expr + ANY_TEXT)[1..] == expr[1..] + ANY_TEXT;
      }
      assert rest == Core(expr) + ANY_TEXT;
      AnyClosesNothing();
      ParseAppend(Core(expr), ANY_TEXT, [ANY]);
    }
    AnyAhead(rest);
    assert text[0] == expr[0];
    if ParseList(Core(expr)).Ok? {
      var items := ParseList(Core(expr)).value;
      assert items + [] == items;
    }
  }

  /** Primary and secondary matcher number their groups alike. */
  lemma SameNumbering(items: seq<Pattern>, start: bool, end: bool)
    ensures var c := Anchored(items, start, end);
            && GroupsIn(c.primary) == GroupsInEach(items)
            && (c.secondary.Some? ==> GroupsIn(c.secondary.value) == GroupsInEach(items))
  {
    var tail := if end then [] else [ANY];
    var none: seq<Pattern> := [];
    assert GroupsIn(ANY) == none;
    assert [ANY][1..] == [] && GroupsInEach([ANY]) == none + GroupsInEach([]) == none;
    assert GroupsInEach(tail) == none;
    GroupsInConcat(items, tail);
    GroupsInConcat([ANY], items + tail);
    assert GroupsInEach(items) + none == GroupsInEach(items);
    assert none + GroupsInEach(items + tail) == GroupsInEach(items + tail);
  }

  lemma AroundCore(expr: string, before: string, after: string)
    requires expr != "" && expr != "$"
    requires before == (if AnchoredStart(expr) then "^" else "") && after == if AnchoredEnd(expr) then "$" else ""
    ensures expr == before + (Core(expr) + after)
  {
  }

  /** Group numbers follow the opening parentheses of the expression itself, in both
      matchers, its component expressions being plain. */
  lemma ExpressionNumbering(expr: string)
    requires expr != "" && expr != "$" && ParseList(Core(expr)).Ok? && PlainTrees(ParseList(Core(expr)).value)
    ensures Compile(expr).Ok?
    ensures var c := Compile(expr).value;
            && Numbered(GroupsIn(c.primary), Parentheses(expr))
            && (c.secondary.Some? ==> Numbered(GroupsIn(c.secondary.value), Parentheses(expr)))
  {
    hide Compile, Numbered, Parentheses, ParseList, PlainTrees, GroupsIn, GroupsInEach, Anchored,
      Core;
    var core := Core(expr);
    var before := if AnchoredStart(expr) then "^" else "";
    var after := if AnchoredEnd(expr) then "$" else "";
    CompileAnchors(expr);
    var items := ParseList(core).value;
    SameNumbering(items, AnchoredStart(expr), AnchoredEnd(expr));
    NumberedByParenthesis(core, items);
    NumberedBefore(GroupsInEach(items), core, after);
    NumberedAfter(GroupsInEach(items), before, core + after);
    AroundCore(expr, before, after);
  }

  // ----- The language of a whole expression -----

  lemma {:induction false} CutsJoin(
    re: Oracle, a: seq<Pattern>, b: seq<Pattern>, s: seq<Component>, k: nat, la: seq<nat>, lb: seq<nat>)
    requires k <= |s| && Cuts(re, a, s[..k], la) && Cuts(re, b, s[k..], lb)
    ensures Cuts(re, a + b, s, la + lb)
    decreases |a|
  {
    if a == [] {
      assert a + b == b && la + lb == lb && s[k..] == s;
    } else {
      var n := la[0];
      assert s[..k][..n] == s[..n] && s[..k][n..] == s[n..][..k - n] && s[n..][k - n..] == s[k..];
      CutsJoin(re, a[1..], b, s[n..], k - n, la[1..], lb);
      assert (a + b)[1..] == a[1..] + b && (la + lb)[1..] == la[1..] + lb;
    }
  }

  lemma {:induction false} CutsSplit(
    re: Oracle, a: seq<Pattern>, b: seq<Pattern>, s: seq<Component>, lens: seq<nat>)
    returns (k: nat, la: seq<nat>, lb: seq<nat>)
    requires Cuts(re, a + b, s, lens)
    ensures k <= |s| && Cuts(re, a, s[..k], la) && Cuts(re, b, s[k..], lb)
    decreases |a|
  {
    if a == [] {
      assert a + b == b && s[0..] == s;
      return 0, [], lens;
    }
    var n := lens[0];
    assert (a + b)[1..] == a[1..] + b;
    k, la, lb := CutsSplit(re, a[1..], b, s[n..], lens[1..]);
    assert s[..n + k][..n] == s[..n] && s[..n + k][n..] == s[n..][..k] && s[n..][k..] == s[n + k..];
    var head := [n] + la;
    assert head[1..] == la;
    k, la := n + k, head;
  }

  /** A pattern list accepts what its two halves accept in sequence. */
  lemma ListConcat(re: Oracle, a: seq<Pattern>, b: seq<Pattern>, s: seq<Component>)
    ensures ListAccepts(re, a + b, s) <==>
            exists k | 0 <= k <= |s| :: ListAccepts(re, a, s[..k]) && ListAccepts(re, b, s[k..])
  {
    if lens :| Cuts(re, a + b, s, lens) {
      var k, la, lb := CutsSplit(re, a, b, s, lens);
      assert ListAccepts(re, a, s[..k]) && ListAccepts(re, b, s[k..]);
    }
    if k :| 0 <= k <= |s| && ListAccepts(re, a, s[..k]) && ListAccepts(re, b, s[k..]) {
      var la := ACut(re, a, s[..k]);
      var lb := ACut(re, b, s[k..]);
      CutsJoin(re, a, b, s, k, la, lb);
    }
  }

  /** `.*` matches every component. */
  ghost predicate DotStarMatchesAll(re: Oracle) {
    forall c :: re(".*", c)
  }

  lemma {:induction false} AnyPieces(re: Oracle, s: seq<Component>)
    requires DotStarMatchesAll(re)
    ensures Pieces(re, ComponentSet(true, [".*"]), s, seq(|s|, _ => 1))
  {
    if s != [] {
      AnyPieces(re, s[1..]);
      var ones := seq(|s|, _ => 1);
      assert ones[1..] == seq(|s| - 1, _ => 1);
      assert Accepts(re, [".*"][0], s[..1][0]);
    }
  }

  lemma AnyAccepts(re: Oracle, s: seq<Component>)
    requires DotStarMatchesAll(re) && |s| <= SYS_MAXINT
    ensures ListAccepts(re, [ANY], s)
  {
    AnyPieces(re, s);
    assert In(re, ANY, s);
    assert s[..|s|] == s && s[|s|..] == [];
    var none: seq<nat> := [];
    assert [ANY][1..] == [] && Cuts(re, [ANY][1..], s[|s|..], none);
    assert [|s|][1..] == none;
    assert Cuts(re, [ANY], s, [|s|]);
  }

  /** Some contiguous slice of the name is accepted, at the anchored ends. */
  ghost predicate Found(re: Oracle, items: seq<Pattern>, start: bool, end: bool, name: seq<Component>) {
    exists i, j | 0 <= i <= j <= |name| ::
      ListAccepts(re, items, name[i..j]) && (start ==> i == 0) && (end ==> j == |name|)
  }

  /** `tail` is the suffix of the primary matcher: nothing, or the extra item. */
  lemma PrimaryLanguage(re: Oracle, items: seq<Pattern>, end: bool, name: seq<Component>)
    requires DotStarMatchesAll(re) && |name| <= SYS_MAXINT
    ensures In(re, Sequence(false, items + if end then [] else [ANY]), name) <==> Found(re, items, true, end, name)
  {
    if end {
      assert items + [] == items && name[0..|name|] == name;
    } else {
      ListConcat(re, items, [ANY], name);
      forall k | 0 <= k <= |name| ensures ListAccepts(re, [ANY], name[k..]) && name[0..k] == name[..k] {
        AnyAccepts(re, name[k..]);
      }
    }
  }

  lemma FoundAnywhere(re: Oracle, items: seq<Pattern>, end: bool, name: seq<Component>)
    ensures Found(re, items, false, end, name) <==>
            exists k | 0 <= k <= |name| :: Found(re, items, true, end, name[k..])
  {
    hide ListAccepts;
    if k :| 0 <= k <= |name| && Found(re, items, true, end, name[k..]) {
      var j :| 0 <= j <= |name[k..]| && ListAccepts(re, items, name[k..][0..j]) && (end ==> j == |name[k..]|);
      assert name[k..][0..j] == name[k..k + j];
    }
    if i, j :| 0 <= i <= j <= |name| && ListAccepts(re, items, name[i..j]) && (end ==> j == |name|) {
      assert name[i..][0..j - i] == name[i..j];
      assert Found(re, items, true, end, name[i..]);
    }
  }

  lemma SecondaryLanguage(re: Oracle, items: seq<Pattern>, end: bool, name: seq<Component>)
    requires DotStarMatchesAll(re) && |name| <= SYS_MAXINT
    ensures In(re, Sequence(false, [ANY] + (items + if end then [] else [ANY])), name) <==>
            Found(re, items, false, end, name)
  {
    hide ListAccepts, Found;
    var primary := items + if end then [] else [ANY];
    ListConcat(re, [ANY], primary, name);
    forall k | 0 <= k <= |name|
      ensures ListAccepts(re, [ANY], name[..k])
      ensures ListAccepts(re, primary, name[k..]) <==> Found(re, items, true, end, name[k..])
    {
      AnyAccepts(re, name[..k]);
      PrimaryLanguage(re, items, end, name[k..]);
    }
    FoundAnywhere(re, items, end, name);
  }

  /** A whole expression accepts a name iff some contiguous slice of it is in the
      language between the anchors; `^` pins the slice to the start, `$` to the end.
      The secondary matcher accepts whatever the primary does. */
  lemma CompiledLanguage(re: Oracle, items: seq<Pattern>, start: bool, end: bool, name: seq<Component>)
    requires DotStarMatchesAll(re) && |name| <= SYS_MAXINT
    ensures var c := Anchored(items, start, end);
            && (In(re, c.primary, name) || (c.secondary.Some? && In(re, c.secondary.value, name)) <==>
                Found(re, items, start, end, name))
            && (c.secondary.Some? && In(re, c.primary, name) ==> In(re, c.secondary.value, name))
  {
    PrimaryLanguage(re, items, end, name);
    SecondaryLanguage(re, items, end, name);
  }

  /** Does either matcher accept the whole name? */
  ghost predicate Matches(re: Oracle, c: Compiled, name: seq<Component>) {
    In(re, c.primary, name) || (c.secondary.Some? && In(re, c.secondary.value, name))
  }

  /** The meaning of an expression text. */
  ghost predicate Denotes(re: Oracle, expr: string, name: seq<Component>) {
    && expr != "" && expr != "$"
    && ParseList(Core(expr)).Ok?
    && Found(re, ParseList(Core(expr)).value, AnchoredStart(expr), AnchoredEnd(expr), name)
  }

  lemma ExpressionLanguage(re: Oracle, expr: string, name: seq<Component>)
    requires DotStarMatchesAll(re) && |name| <= SYS_MAXINT
    requires Compile(expr).Ok?
    ensures Matches(re, Compile(expr).value, name) <==> Denotes(re, expr, name)
  {
    CompileAnchors(expr);
    CompiledLanguage(re, ParseList(Core(expr)).value, AnchoredStart(expr), AnchoredEnd(expr), name);
  }

  /** Does the expression compile and match the whole name? */
  ghost predicate Takes(re: Oracle, expr: string, name: seq<Component>) {
    Compile(expr).Ok? && Matches(re, Compile(expr).value, name)
  }

  /** The four forms of an expression: which slices of a name its core may take. */
  lemma ExpressionForms(re: Oracle, core: string, name: seq<Component>)
    requires DotStarMatchesAll(re) && |name| <= SYS_MAXINT && ParseList(core).Ok?
    requires core != "" && core[0] != '^' && core[|core| - 1] != '$'
    ensures var items := ParseList(core).value;
            && (Takes(re, "^" + core + "$", name) <==> ListAccepts(re, items, name))
            && (Takes(re, "^" + core, name) <==> exists j | 0 <= j <= |name| :: ListAccepts(re, items, name[..j]))
            && (Takes(re, core + "$", name) <==> exists i | 0 <= i <= |name| :: ListAccepts(re, items, name[i..]))
            && (Takes(re, core, name) <==> exists i, j | 0 <= i <= j <= |name| :: ListAccepts(re, items, name[i..j]))
  {
    hide Takes, ParseList, ListAccepts;
    FormMeans(re, "^" + core + "$", core, name);
    FormMeans(re, "^" + core, core, name);
    FormMeans(re, core + "$", core, name);
    FormMeans(re, core, core, name);
    assert name[0..|name|] == name;
    assert forall j | 0 <= j <= |name| :: name[0..j] == name[..j];
    assert forall i | 0 <= i <= |name| :: name[i..|name|] == name[i..];
  }

  /** The two texts that leave nothing to match with are refused. */
  lemma NothingCompiles()
    ensures Compile("").Err? && Compile("$").Err?
  {
    assert "$"[..0] == "";
  }

  lemma FormMeans(re: Oracle, expr: string, core: string, name: seq<Component>)
    requires DotStarMatchesAll(re) && |name| <= SYS_MAXINT && ParseList(core).Ok?
    requires expr != "" && expr != "$" && Core(expr) == core
    ensures Takes(re, expr, name) <==>
            Found(re, ParseList(core).value, AnchoredStart(expr), AnchoredEnd(expr), name)
  {
    CompileAnchors(expr);
    ExpressionLanguage(re, expr, name);
  }
}
