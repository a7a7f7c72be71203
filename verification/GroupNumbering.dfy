/** Back-reference numbers: groups are registered in the order of their opening
    parentheses. */
module GroupNumbering {
  import opened NamePattern
  import opened PatternText
  import opened PatternPrinter
  import opened Brackets

  /** The groups of a pattern, a group before the groups inside it. */
  function GroupsIn(p: Pattern): seq<Pattern>
    decreases p, 0
  {
    match p
    case ComponentSet(_, _) => []
    case Sequence(isGroup, items) => (if isGroup then [p] else []) + GroupsInEach(items)
    case Repeat(body, _, _) => GroupsIn(body)
  }

  function GroupsInEach(items: seq<Pattern>): seq<Pattern>
    decreases items, 0
  {
    if items == [] then [] else GroupsIn(items[0]) + GroupsInEach(items[1..])
  }

  lemma GroupsInStep(p: Pattern, ps: seq<Pattern>)
    ensures GroupsInEach([]) == [] && GroupsInEach([p] + ps) == GroupsIn(p) + GroupsInEach(ps)
  {
    hide GroupsIn;
    assert ([p] + ps)[1..] == ps;
  }

  lemma {:induction false} GroupsInConcat(a: seq<Pattern>, b: seq<Pattern>)
    ensures GroupsInEach(a + b) == GroupsInEach(a) + GroupsInEach(b)
  {
    hide GroupsIn, GroupsInEach;
    if a == [] {
      GroupsInStep(Sequence(false, []), []);
      assert a + b == b;
    } else {
      var p, rest := a[0], a[1..];
      GroupsInConcat(rest, b);
      GroupsInStep(p, rest);
      GroupsInStep(p, rest + b);
      assert a == [p] + rest && a + b == [p] + (rest + b);
    }
  }

  // ----- Opening parentheses -----

  /** The rest of `text` from each of its opening parentheses on. */
  function Parentheses(text: string): seq<string> {
    if text == "" then []
    else (if text[0] == '(' then [text] else []) + Parentheses(text[1..])
  }

  /** The text at the head of `s`, from its opening parenthesis to the closing one, is
      that of group `p`. */
  predicate GroupAt(s: string, p: Pattern) {
    && s != "" && s[0] == '(' && Close('(', ')', s[1..], 1).Ok?
    && ParseGroup(s[..1 + Close('(', ')', s[1..], 1).value]) == Ok(p)
  }

  /** The i-th group is the one whose text starts at the i-th opening parenthesis. */
  predicate Numbered(groups: seq<Pattern>, at: seq<string>) {
    && |groups| == |at|
    && forall i | 0 <= i < |at| :: GroupAt(at[i], groups[i])
  }

  function Extended(texts: seq<string>, tail: string): (r: seq<string>)
    ensures |r| == |texts|
    ensures forall i | 0 <= i < |r| :: r[i] == texts[i] + tail
  {
    seq(|texts|, i requires 0 <= i < |texts| => texts[i] + tail)
  }

  lemma ParenthesesStep(c: char, s: string)
    ensures Parentheses([c] + s) == (if c == '(' then [[c] + s] else []) + Parentheses(s)
  {
    assert ([c] + s)[1..] == s;
  }

  lemma NoText()
    ensures Parentheses("") == []
  {
  }

  lemma {:induction false} ParenthesesConcat(a: string, b: string)
    ensures Parentheses(a + b) == Extended(Parentheses(a), b) + Parentheses(b)
  {
    hide Parentheses;
    if a == "" {
      NoText();
      assert a + b == b;
    } else {
      var c, rest := a[0], a[1..];
      ParenthesesConcat(rest, b);
      ParenthesesStep(c, rest);
      ParenthesesStep(c, rest + b);
      assert a == [c] + rest && a + b == [c] + (rest + b);
      ExtendedCons(if c == '(' then [a] else [], Parentheses(rest), b);
    }
  }

  lemma ExtendedCons(first: seq<string>, rest: seq<string>, tail: string)
    ensures Extended(first + rest, tail) == Extended(first, tail) + Extended(rest, tail)
  {
  }

  lemma {:induction false} NoParentheses(text: string)
    requires forall i | 0 <= i < |text| :: text[i] != '('
    ensures Parentheses(text) == []
  {
    if text != "" {
      NoParentheses(text[1..]);
    }
  }

  lemma {:induction false} CloseStable(left: char, right: char, s: string, tail: string, depth: nat)
    requires Close(left, right, s, depth).Ok?
    ensures Close(left, right, s + tail, depth) == Close(left, right, s, depth)
  {
    if depth != 0 {
      CloseStable(left, right, s[1..], tail, Depth(left, right, s[0], depth));
      assert (s + tail)[1..] == s[1..] + tail;
    }
  }

  /** A closed bracket ends in its closing character, an unbroken component too. */
  lemma {:induction false} CloseEnds(left: char, right: char, s: string, depth: nat)
    requires 0 < depth && left != right && Close(left, right, s, depth).Ok?
    ensures s[Close(left, right, s, depth).value - 1] == right
  {
    var next := Depth(left, right, s[0], depth);
    if next != 0 {
      CloseEnds(left, right, s[1..], next);
    }
  }

  lemma {:induction false} ExtentEnds(s: string, depth: nat)
    requires 0 < depth && Extent(s, depth) < |s|
    ensures s[Extent(s, depth) - 1] == '>'
  {
    var next := Depth('<', '>', s[0], depth);
    if next != 0 {
      ExtentEnds(s[1..], next);
    }
  }

  lemma GroupAtStable(s: string, tail: string, p: Pattern)
    requires GroupAt(s, p)
    ensures GroupAt(s + tail, p)
  {
    CloseStable('(', ')', s[1..], tail, 1);
    assert (s + tail)[1..] == s[1..] + tail;
    var n := 1 + Close('(', ')', s[1..], 1).value;
    assert (s + tail)[..n] == s[..n];
  }

  lemma NumberedJoin(g: seq<Pattern>, h: seq<Pattern>, a: string, b: string)
    requires Numbered(g, Parentheses(a)) && Numbered(h, Parentheses(b))
    ensures Numbered(g + h, Parentheses(a + b))
  {
    hide GroupAt;
    ParenthesesConcat(a, b);
    forall i | 0 <= i < |g| ensures GroupAt(Parentheses(a + b)[i], g[i]) {
      GroupAtStable(Parentheses(a)[i], b, g[i]);
    }
    forall i | 0 <= i < |h| ensures GroupAt(Parentheses(a + b)[|g| + i], h[i]) {
      assert GroupAt(Parentheses(b)[i], h[i]);
    }
  }

  lemma NumberedBefore(g: seq<Pattern>, a: string, b: string)
    requires Numbered(g, Parentheses(a)) && forall i | 0 <= i < |b| :: b[i] != '('
    ensures Numbered(g, Parentheses(a + b))
  {
    hide GroupAt;
    NoParentheses(b);
    NumberedJoin(g, [], a, b);
    assert g + [] == g;
  }

  lemma NumberedAfter(g: seq<Pattern>, a: string, b: string)
    requires Numbered(g, Parentheses(b)) && forall i | 0 <= i < |a| :: a[i] != '('
    ensures Numbered(g, Parentheses(a + b))
  {
    hide GroupAt;
    NoParentheses(a);
    NumberedJoin([], g, a, b);
    assert [] + g == g;
  }

  // ----- Texts without parentheses -----

  lemma {:induction false} ComponentsFlat(s: string)
    requires ParseComponents(s).Ok? && s[|s| - 1] == ']'
    requires forall i | 0 <= i < |ParseComponents(s).value| :: Plain(ParseComponents(s).value[i])
    ensures forall i | 0 <= i < |s| :: s[i] != '('
  {
    if 1 < |s| {
      var n := Extent(s[1..], 1);
      var exprs, rest := ParseComponents(s).value, s[n + 1..];
      assert exprs == [s[1..n]] + ParseComponents(rest).value;
      assert exprs[1..] == ParseComponents(rest).value;
      ExtentEnds(s[1..], 1);
      ComponentsFlat(rest);
      FlatAround(s, n, exprs[0], rest);
    }
  }

  lemma FlatAround(s: string, n: nat, expr: string, rest: string)
    requires 0 < n < |s| && s[0] != '(' && s[n] != '(' && expr == s[1..n] && rest == s[n + 1..]
    requires Plain(expr) && forall i | 0 <= i < |rest| :: rest[i] != '('
    ensures forall i | 0 <= i < |s| :: s[i] != '('
  {
    forall i | 0 <= i < |s| ensures s[i] != '(' {
      if 0 < i < n {
        assert s[i] == expr[i - 1];
      } else if n < i {
        assert s[i] == rest[i - n - 1];
      }
    }
  }

  lemma SetFlat(s: string)
    requires s != "" && (s[0] == '<' || s[0] == '[') && s[|s| - 1] == RightOf(s[0])
    requires ParseSet(s).Ok? && PlainTree(ParseSet(s).value)
    ensures forall i | 0 <= i < |s| :: s[i] != '('
  {
    var exprs := ParseSet(s).value.exprs;
    if s[0] == '<' {
      assert 1 < |s| && exprs[0] == s[1..|s| - 1];
      assert s == [s[0]] + s[1..|s| - 1] + [s[|s| - 1]];
    } else {
      var from := if s[1] != '^' then 1 else 2;
      ComponentsFlat(s[from..]);
      assert s == s[..from] + s[from..];
    }
  }

  // ----- Groups of a parsed text -----

  lemma GroupsOfGroup(items: seq<Pattern>)
    ensures GroupsIn(GroupOf(items)) == [GroupOf(items)] + GroupsInEach(items)
  {
    var list := Sequence(false, items);
    assert GroupsIn(list) == GroupsInEach(items);
    assert [list][1..] == [] && GroupsInEach([list]) == GroupsIn(list) + [];
  }

  lemma {:induction false} GroupNumbered(s: string, p: Pattern)
    requires ParseGroup(s) == Ok(p) && PlainTree(p) && Close('(', ')', s[1..], 1) == Ok(|s| - 1)
    ensures Numbered(GroupsIn(p), Parentheses(s))
    decreases |s|, 0
  {
    var inner := s[1..|s| - 1];
    var items := ParseList(inner).value;
    PlainGroup(items);
    GroupsOfGroup(items);
    NumberedByParenthesis(inner, items);
    assert s[..|s|] == s && GroupAt(s, p);
    assert s == "(" + (inner + ")");
    GroupAhead(inner, p, GroupsInEach(items));
  }

  lemma ParenthesesOfGroup(inner: string)
    ensures Parentheses("(" + (inner + ")")) == ["(" + (inner + ")")] + Parentheses(inner + ")")
  {
    assert ("(" + (inner + ")"))[1..] == inner + ")";
  }

  /** The group around the text counts before the groups inside it. */
  lemma GroupAhead(inner: string, p: Pattern, inside: seq<Pattern>)
    requires GroupAt("(" + (inner + ")"), p) && Numbered(inside, Parentheses(inner))
    ensures Numbered([p] + inside, Parentheses("(" + (inner + ")")))
  {
    hide GroupAt, Parentheses;
    NumberedBefore(inside, inner, ")");
    ParenthesesOfGroup(inner);
  }

  lemma {:induction false} RepeatNumbered(s: string, indicator: nat, p: Pattern)
    requires 0 < indicator <= |s| && ParseRepeat(s, indicator) == Ok(p) && PlainTree(p)
    requires Opens(s[0]) && s[indicator - 1] == RightOf(s[0])
    requires Close(s[0], RightOf(s[0]), s[..indicator][1..], 1) == Ok(indicator - 1)
    ensures Numbered(GroupsIn(p), Parentheses(s))
    decreases |s|, 1
  {
    var head, suffix := s[..indicator], s[indicator..];
    SuffixBounds(suffix);
    if s[0] == '(' {
      GroupNumbered(head, p.body);
    } else {
      SetFlat(head);
      NoParentheses(head);
    }
    assert GroupsIn(p) == GroupsIn(p.body);
    NumberedBefore(GroupsIn(p), head, suffix);
    assert s == head + suffix;
  }

  lemma {:induction false} ItemNumbered(s: string, p: Pattern)
    requires ItemExtent(s).Ok? && ParseItem(s) == Ok(p) && PlainTree(p)
    ensures Numbered(GroupsIn(p), Parentheses(s[..ItemExtent(s).value.1]))
    decreases |s|, 2
  {
    var (indicator, end) := ItemExtent(s).value;
    var text := s[..end];
    CloseEnds(s[0], RightOf(s[0]), s[1..], 1);
    CloseCut(s[0], RightOf(s[0]), s[1..], 1);
    assert text[..indicator][1..] == s[1..][..indicator - 1];
    if s[0] == '(' && indicator == end {
      assert text[..indicator] == text;
      GroupNumbered(text, p);
    } else {
      RepeatNumbered(text, indicator, p);
    }
  }

  /** Group numbers follow the opening parentheses of any text the constructors parse,
      its expressions being plain: group number i is the one whose text starts at the
      i-th parenthesis. */
  lemma {:induction false} NumberedByParenthesis(s: string, ps: seq<Pattern>)
    requires ParseList(s) == Ok(ps) && PlainTrees(ps)
    ensures Numbered(GroupsInEach(ps), Parentheses(s))
    decreases |s|, 3
  {
    if s != "" {
      var end := ItemExtent(s).value.1;
      ItemNumbered(s, ps[0]);
      NumberedByParenthesis(s[end..], ps[1..]);
      NumberedJoin(GroupsIn(ps[0]), GroupsInEach(ps[1..]), s[..end], s[end..]);
      assert s == s[..end] + s[end..];
    }
  }
}
