/** The grammar of name patterns as printable items, and the proof that the constructors
    accept exactly the printed texts and rebuild the trees they denote. */
module PatternPrinter {
  import opened NamePattern
  import opened PatternText
  import opened Brackets

  /** A suffix with its digits as written; a missing bound is the empty string. */
  datatype Suffix =
    | Once
    | Optional
    | Plus
    | Star
    | Exactly(m: Digits)
    | Between(m: Digits, n: Digits)

  datatype Atom =
    | Group(items: seq<Item>)
    | Single(expr: string)
    | Bracket(positive: bool, exprs: seq<string>)

  datatype Item = Item(atom: Atom, suffix: Suffix)

  // ----- The tree an item denotes -----

  function Bounds(x: Suffix): (nat, nat) {
    match x
    case Once => (1, 1)
    case Optional => (0, 1)
    case Plus => (1, SYS_MAXINT)
    case Star => (0, SYS_MAXINT)
    case Exactly(m) => (ToNat(m), ToNat(m))
    case Between(m, n) => (ToNat(m), if n == "" then SYS_MAXINT else ToNat(n))
  }

  function Tree(item: Item): Pattern {
    if item.atom.Group? && item.suffix.Once? then AtomTree(item.atom)
    else Repeat(AtomTree(item.atom), Bounds(item.suffix).0, Bounds(item.suffix).1)
  }

  function AtomTree(atom: Atom): Pattern {
    match atom
    case Group(items) => GroupOf(Trees(items))
    case Single(expr) => ComponentSet(true, [expr])
    case Bracket(positive, exprs) => ComponentSet(positive, exprs)
  }

  function Trees(items: seq<Item>): (trees: seq<Pattern>)
    ensures |trees| == |items|
  {
    if items == [] then [] else [Tree(items[0])] + Trees(items[1..])
  }

  // ----- What can be printed -----

  predicate Structural(c: char) {
    c == '(' || c == ')' || c == '<' || c == '>' || c == '[' || c == ']'
  }

  predicate Plain(text: string) { forall i | 0 <= i < |text| :: !Structural(text[i]) }

  predicate PrintableSuffix(x: Suffix) {
    && (x.Exactly? ==> x.m != "")
    && (x.Between? ==> x.m != "" || x.n != "")
    && Bounds(x).0 <= Bounds(x).1 <= SYS_MAXINT
  }

  predicate PrintableItem(item: Item) {
    PrintableAtom(item.atom) && PrintableSuffix(item.suffix)
  }

  /** What stands between an item's brackets is balanced in them, and every component
      expression in angle brackets. */
  predicate PrintableAtom(atom: Atom) {
    match atom
    case Group(items) => PrintableItems(items) && Balanced('(', ')', Print(items))
    case Single(expr) => Balanced('<', '>', expr)
    case Bracket(positive, exprs) =>
      && (forall i | 0 <= i < |exprs| :: Balanced('<', '>', exprs[i]))
      && Balanced('[', ']', Inside(positive, exprs))
  }

  predicate PrintableItems(items: seq<Item>) {
    items == [] || (PrintableItem(items[0]) && PrintableItems(items[1..]))
  }

  // ----- Printing -----

  function Decimal(n: nat): (s: string)
    ensures s != "" && AllDigits(s) && ToNat(s) == n
  {
    var digit := [('0' as int + n % 10) as char];
    if n < 10 then
      assert digit[..0] == "";
      digit
    else
      var s := Decimal(n / 10) + digit;
      assert s[..|s| - 1] == Decimal(n / 10);
      s
  }

  function PrintSuffix(x: Suffix): (s: string)
    ensures s == "" <==> x.Once?
  {
    match x
    case Once => ""
    case Optional => "?"
    case Plus => "+"
    case Star => "*"
    case Exactly(m) => Brace(m)
    case Between(m, n) => Brace(m + [','] + n)
  }

  function Brace(inner: string): (s: string)
    ensures s != ""
  {
    ['{'] + inner + ['}']
  }

  function PrintExprs(exprs: seq<string>): string {
    if exprs == [] then "" else "<" + exprs[0] + ">" + PrintExprs(exprs[1..])
  }

  function PrintAtom(atom: Atom): string {
    match atom
    case Group(items) => "(" + Print(items) + ")"
    case Single(expr) => "<" + expr + ">"
    case Bracket(positive, exprs) => "[" + Inside(positive, exprs) + "]"
  }

  function Inside(positive: bool, exprs: seq<string>): string {
    (if positive then "" else "^") + PrintExprs(exprs)
  }

  function PrintItem(item: Item): string {
    PrintAtom(item.atom) + PrintSuffix(item.suffix)
  }

  function Print(items: seq<Item>): string {
    if items == [] then "" else PrintItem(items[0]) + Print(items[1..])
  }

  // ----- Scanning printed text -----

  lemma DigitsFlat(s: Digits)
    ensures forall i | 0 <= i < |s| :: !Structural(s[i]) && s[i] != ',' && s[i] != '}'
  {
    forall i | 0 <= i < |s| ensures !Structural(s[i]) && s[i] != ',' && s[i] != '}' {
      assert IsDigit(s[i]);
    }
  }

  /** A suffix has no brackets, and no closing brace inside its braces. */
  lemma SuffixFlat(x: Suffix)
    ensures Plain(PrintSuffix(x))
    ensures x.Between? ==> forall i | 0 <= i < |x.m + [','] + x.n| :: (x.m + [','] + x.n)[i] != '}'
  {
    if x.Exactly? || x.Between? {
      DigitsFlat(x.m);
    }
    if x.Between? {
      DigitsFlat(x.n);
    }
  }

  // ----- Reading printed text back -----

  lemma {:induction false} UpToBraceSkips(text: string, tail: string)
    requires forall i | 0 <= i < |text| :: text[i] != '}'
    ensures UpToBrace(text + "}" + tail) == Ok(|text| + 1)
  {
    if text == "" {
      assert text + "}" + tail == "}" + tail;
    } else {
      UpToBraceSkips(text[1..], tail);
      assert (text + "}" + tail)[1..] == text[1..] + "}" + tail;
    }
  }

  /** Text that cannot be taken for the continuation of a suffix. */
  predicate StartsItem(tail: string) { tail == "" || Opens(tail[0]) }

  lemma RepetitionLengthPrinted(x: Suffix, tail: string)
    requires StartsItem(tail)
    ensures RepetitionLength(PrintSuffix(x) + tail) == Ok(|PrintSuffix(x)|)
  {
    SuffixFlat(x);
    match x
    case Once => assert PrintSuffix(x) + tail == tail;
    case Exactly(m) =>
      DigitsFlat(m);
      BraceLength(m, tail);
    case Between(m, n) => BraceLength(m + [','] + n, tail);
    case _ =>
  }

  lemma BraceLength(inner: string, tail: string)
    requires forall i | 0 <= i < |inner| :: inner[i] != '}'
    ensures RepetitionLength(Brace(inner) + tail) == Ok(|Brace(inner)|)
  {
    var open := ['{'] + inner;
    assert Brace(inner) + tail == open + "}" + tail;
    UpToBraceSkips(open, tail);
  }

  lemma {:induction false} CommaSkips(text: string, tail: string)
    requires forall i | 0 <= i < |text| :: text[i] != ','
    requires tail == "" || tail[0] == ','
    ensures CommaAt(text + tail) == |text|
  {
    if text == "" {
      assert text + tail == tail;
    } else {
      CommaSkips(text[1..], tail);
      assert (text + tail)[1..] == text[1..] + tail;
    }
  }

  lemma ParseBrace(inner: string)
    ensures ParseRepetition(Brace(inner)) == ParseBounds(inner)
  {
    hide ParseBounds;
    var text := Brace(inner);
    assert text[1..|text| - 1] == inner;
  }

  /** A lower bound, then nothing or a comma and an upper bound. */
  lemma ParseBoundsPrinted(lower: string, rest: string)
    requires AllDigits(lower)
    requires rest != "" ==> rest[0] == ',' && AllDigits(rest[1..])
    requires lower == "" ==> 1 < |rest|
    ensures ParseBounds(lower + rest) ==
            if rest == "" then Checked(ToNat(lower), ToNat(lower))
            else Checked(ToNat(lower), if rest[1..] == "" then SYS_MAXINT else ToNat(rest[1..]))
  {
    NoComma(lower);
    CommaSkips(lower, rest);
    BracedParts(lower, rest);
  }

  lemma NoComma(digits: string)
    requires AllDigits(digits)
    ensures forall i | 0 <= i < |digits| :: digits[i] != ','
  {
    forall i | 0 <= i < |digits| ensures digits[i] != ',' {
      assert IsDigit(digits[i]);
    }
  }

  lemma BracedParts(lower: string, rest: string)
    ensures (lower + rest)[..|lower|] == lower
    ensures rest != "" ==> (lower + rest)[|lower| + 1..] == rest[1..]
  {
  }

  /** A braced suffix: a lower bound, then nothing or a comma and an upper bound. */
  lemma ParseBraced(lower: Digits, rest: string, inner: string)
    requires rest != "" ==> rest[0] == ',' && AllDigits(rest[1..])
    requires inner == lower + rest && (lower == "" ==> 1 < |rest|)
    ensures ParseRepetition(Brace(inner)) ==
            if rest == "" then Checked(ToNat(lower), ToNat(lower))
            else Checked(ToNat(lower), if rest[1..] == "" then SYS_MAXINT else ToNat(rest[1..]))
  {
    hide ParseBounds, ParseRepetition, Checked;
    ParseBrace(inner);
    ParseBoundsPrinted(lower, rest);
  }

  lemma ParseRepetitionPrinted(x: Suffix)
    requires PrintableSuffix(x)
    ensures ParseRepetition(PrintSuffix(x)) == Ok(Bounds(x))
  {
    match x
    case Exactly(m) => ParseBraced(m, "", m);
    case Between(m, n) =>
      var rest := [','] + n;
      assert rest[1..] == n;
      ParseBraced(m, rest, m + [','] + n);
    case _ =>
  }

  /** The forms of a suffix and what each denotes. */
  lemma RepetitionForms()
    ensures ParseRepetition("") == Ok((1, 1)) && ParseRepetition("?") == Ok((0, 1))
    ensures ParseRepetition("+") == Ok((1, 0x7FFF_FFFF_FFFF_FFFF))
    ensures ParseRepetition("*") == Ok((0, 0x7FFF_FFFF_FFFF_FFFF))
  {
  }

  lemma BracedForms(m: Digits, n: Digits)
    ensures m != "" ==>
              ParseRepetition("{" + m + "}") ==
              if ToNat(m) <= 0x7FFF_FFFF_FFFF_FFFF then Ok((ToNat(m), ToNat(m))) else Err(WrongNumber)
    ensures m != "" || n != "" ==>
              ParseRepetition("{" + m + "," + n + "}") ==
              var lower := if m == "" then 0 else ToNat(m);
              var upper := if n == "" then 0x7FFF_FFFF_FFFF_FFFF else ToNat(n);
              if lower <= upper <= 0x7FFF_FFFF_FFFF_FFFF then Ok((lower, upper)) else Err(WrongNumber)
  {
    hide ParseRepetition;
    if m != "" {
      ParseBraced(m, "", m);
      assert Brace(m) == "{" + m + "}";
    }
    if m != "" || n != "" {
      var rest := "," + n;
      assert rest[1..] == n;
      ParseBraced(m, rest, m + rest);
      assert Brace(m + rest) == "{" + m + "," + n + "}";
    }
  }

  function Pow10(k: nat): nat {
    if k == 0 then 1 else 10 * Pow10(k - 1)
  }

  lemma LastDigit(s: Digits, digit: char)
    requires IsDigit(digit)
    ensures AllDigits(s + [digit]) && ToNat(s + [digit]) == ToNat(s) * 10 + (digit - '0') as nat
  {
    assert (s + [digit])[..|s|] == s;
  }

  /** A numeral is read in base ten, its first digit weighing most. */
  lemma {:induction false} LeadingDigit(digit: char, s: Digits)
    requires IsDigit(digit)
    ensures AllDigits([digit] + s)
    ensures ToNat([digit] + s) == (digit - '0') as nat * Pow10(|s|) + ToNat(s)
    decreases |s|
  {
    if s == "" {
      LastDigit("", digit);
      assert [digit] + s == "" + [digit];
    } else {
      hide ToNat;
      var n := |s| - 1;
      var init: Digits, last := s[..n], s[n];
      LeadingDigit(digit, init);
      LastDigit(init, last);
      LastDigit([digit] + init, last);
      assert s == init + [last] && [digit] + s == ([digit] + init) + [last];
      Distribute((digit - '0') as nat, Pow10(n), ToNat(init));
    }
  }

  lemma Distribute(a: nat, p: nat, b: nat)
    ensures (a * p + b) * 10 == a * (10 * p) + b * 10
  {
  }

  lemma BracedOf(inner: string) returns (x: Suffix)
    requires ParseBounds(inner).Ok?
    ensures PrintableSuffix(x) && PrintSuffix(x) == Brace(inner)
  {
    hide Brace, ToNat;
    var c := CommaAt(inner);
    if c == |inner| {
      assert inner[..c] == inner;
      x := Exactly(inner);
    } else {
      x := Between(inner[..c], inner[c + 1..]);
      assert inner == inner[..c] + [','] + inner[c + 1..];
    }
  }

  /** Every suffix that is accepted is a printed one. */
  lemma SuffixOf(s: string) returns (x: Suffix)
    requires ParseRepetition(s).Ok?
    ensures PrintableSuffix(x) && PrintSuffix(x) == s
  {
    hide ParseBounds;
    if s == "" {
      x := Once;
    } else if s == "?" {
      x := Optional;
    } else if s == "+" {
      x := Plus;
    } else if s == "*" {
      x := Star;
    } else {
      var inner := s[1..|s| - 1];
      assert s == Brace(inner);
      x := BracedOf(inner);
    }
  }

  lemma ParseComponentsStep(expr: string, tail: string, rest: seq<string>)
    requires Balanced('<', '>', expr) && tail != "" && ParseComponents(tail) == Ok(rest)
    ensures ParseComponents("<" + expr + ">" + tail) == Ok([expr] + rest)
  {
    hide Balanced, Close;
    var text, n := "<" + expr + ">" + tail, |expr| + 1;
    assert text[1..] == expr + ([">"[0]] + tail);
    CloseAround('<', '>', expr, tail);
    ExtentAgrees(text[1..], 1);
    assert text[1..n] == expr && text[n + 1..] == tail;
  }

  lemma ParseNoComponents()
    ensures ParseComponents("]") == Ok([])
  {
  }

  lemma {:induction false} ParseComponentsPrinted(exprs: seq<string>)
    requires forall i | 0 <= i < |exprs| :: Balanced('<', '>', exprs[i])
    ensures ParseComponents(PrintExprs(exprs) + "]") == Ok(exprs)
  {
    hide ParseComponents, Balanced;
    if exprs == [] {
      assert PrintExprs(exprs) + "]" == "]";
      ParseNoComponents();
    } else {
      var tail := PrintExprs(exprs[1..]) + "]";
      ParseComponentsPrinted(exprs[1..]);
      ParseComponentsStep(exprs[0], tail, exprs[1..]);
      assert PrintExprs(exprs) + "]" == "<" + exprs[0] + ">" + tail;
      assert exprs == [exprs[0]] + exprs[1..];
    }
  }

  lemma ParseSingle(expr: string)
    requires Balanced('<', '>', expr)
    ensures ParseSet("<" + expr + ">") == Ok(ComponentSet(true, [expr]))
  {
    hide Balanced, Close;
    var text := "<" + expr + ">";
    assert text[1..] == expr + (['>'] + "");
    CloseAround('<', '>', expr, "");
    ExtentAgrees(text[1..], 1);
    assert text[1..|text| - 1] == expr;
  }

  lemma ParseBracket(positive: bool, exprs: seq<string>)
    requires forall i | 0 <= i < |exprs| :: Balanced('<', '>', exprs[i])
    ensures ParseSet("[" + Inside(positive, exprs) + "]") == Ok(ComponentSet(positive, exprs))
  {
    hide Balanced;
    var open := if positive then "[" else "[^";
    var body := PrintExprs(exprs) + "]";
    var text := "[" + Inside(positive, exprs) + "]";
    assert text == open + body && text[|open|..] == body;
    assert body[0] != '^' by {
      if exprs != [] {
        assert body[0] == '<';
      }
    }
    ParseComponentsPrinted(exprs);
  }

  lemma ParseSetPrinted(atom: Atom)
    requires PrintableAtom(atom) && !atom.Group?
    ensures ParseSet(PrintAtom(atom)) == Ok(AtomTree(atom))
  {
    hide Balanced;
    match atom
    case Single(expr) => ParseSingle(expr);
    case Bracket(positive, exprs) => ParseBracket(positive, exprs);
  }

  lemma CloseBrackets(left: char, inner: string, tail: string)
    requires left != RightOf(left) && Balanced(left, RightOf(left), inner)
    ensures var text := [left] + inner + [RightOf(left)] + tail;
            text[0] == left && Close(left, RightOf(left), text[1..], 1) == Ok(|inner| + 1)
  {
    var text := [left] + inner + [RightOf(left)] + tail;
    assert text[1..] == inner + ([RightOf(left)] + tail);
    CloseAround(left, RightOf(left), inner, tail);
  }

  /** The scan of the first item stops exactly at its own closing bracket. */
  lemma ClosePrinted(atom: Atom, tail: string)
    requires PrintableAtom(atom)
    ensures var text := PrintAtom(atom) + tail;
            && Opens(text[0])
            && Close(text[0], RightOf(text[0]), text[1..], 1) == Ok(|PrintAtom(atom)| - 1)
  {
    hide Balanced;
    var inner := match atom
      case Group(items) => Print(items)
      case Single(expr) => expr
      case Bracket(positive, exprs) => Inside(positive, exprs);
    var left := PrintAtom(atom)[0];
    CloseBrackets(left, inner, tail);
    assert PrintAtom(atom) == [left] + inner + [RightOf(left)];
  }

  lemma ItemExtentIs(atom: string, suffix: string, tail: string)
    requires atom != "" && Opens(atom[0])
    requires Close(atom[0], RightOf(atom[0]), (atom + (suffix + tail))[1..], 1) == Ok(|atom| - 1)
    requires RepetitionLength(suffix + tail) == Ok(|suffix|)
    ensures ItemExtent(atom + suffix + tail) == Ok((|atom|, |atom + suffix|))
  {
    var text := atom + suffix + tail;
    assert text == atom + (suffix + tail);
    assert text[0] == atom[0] && text[|atom|..] == suffix + tail;
  }

  lemma ItemExtentPrinted(item: Item, tail: string)
    requires PrintableItem(item) && StartsItem(tail)
    ensures ItemExtent(PrintItem(item) + tail) == Ok((|PrintAtom(item.atom)|, |PrintItem(item)|))
  {
    var atom, suffix := PrintAtom(item.atom), PrintSuffix(item.suffix);
    RoundTripStart(item.atom, suffix + tail);
    ClosePrinted(item.atom, suffix + tail);
    RepetitionLengthPrinted(item.suffix, tail);
    ItemExtentIs(atom, suffix, tail);
  }

  lemma RoundTripStart(atom: Atom, tail: string)
    ensures var text := PrintAtom(atom); text != "" && (text + tail)[0] == text[0]
  {
  }

  /** Constructing a pattern list from printed text rebuilds the printed tree. */
  lemma {:induction false} RoundTrip(items: seq<Item>)
    requires PrintableItems(items)
    ensures ParseList(Print(items)) == Ok(Trees(items))
    decreases items, 0
  {
    if items != [] {
      var item, tail := items[0], Print(items[1..]);
      var text := PrintItem(item) + tail;
      StartsPrinted(items[1..]);
      ItemExtentPrinted(item, tail);
      RoundTripItem(item, tail);
      assert text[|PrintItem(item)|..] == tail;
      RoundTrip(items[1..]);
    }
  }

  lemma StartsPrinted(items: seq<Item>)
    requires PrintableItems(items)
    ensures StartsItem(Print(items))
  {
    if items != [] {
      ClosePrinted(items[0].atom, PrintSuffix(items[0].suffix) + Print(items[1..]));
    }
  }

  lemma {:induction false} RoundTripItem(item: Item, tail: string)
    requires PrintableItem(item) && StartsItem(tail)
    requires ItemExtent(PrintItem(item) + tail) == Ok((|PrintAtom(item.atom)|, |PrintItem(item)|))
    ensures ParseItem(PrintItem(item) + tail) == Ok(Tree(item))
    decreases item, 0
  {
    var atom, text := PrintAtom(item.atom), PrintItem(item);
    assert (text + tail)[..|text|] == text && text[..|atom|] == atom && text[|atom|..] == PrintSuffix(item.suffix);
    ParseRepetitionPrinted(item.suffix);
    RoundTripAtom(item.atom);
    assert text[0] == atom[0] == (text + tail)[0];
    if item.atom.Group? && item.suffix.Once? {
      assert text == atom;
    } else {
      assert ParseRepeat(text, |atom|) == Ok(Tree(item));
    }
  }

  lemma {:induction false} RoundTripAtom(atom: Atom)
    requires PrintableAtom(atom)
    ensures var text := PrintAtom(atom);
            && text != "" && (text[0] == '(' <==> atom.Group?)
            && (if atom.Group? then ParseGroup(text) else ParseSet(text)) == Ok(AtomTree(atom))
    decreases atom, 0
  {
    if atom.Group? {
      var text := PrintAtom(atom);
      assert text[1..|text| - 1] == Print(atom.items);
      RoundTrip(atom.items);
    } else {
      ParseSetPrinted(atom);
    }
  }

  // ----- Exactly the printed texts are accepted -----

  lemma FirstComponent(s: string) returns (expr: string, rest: string)
    requires 1 < |s| && ParseComponents(s).Ok?
    ensures Balanced('<', '>', expr) && s == "<" + expr + ">" + rest
    ensures rest != "" && |rest| < |s| && rest[|rest| - 1] == s[|s| - 1]
    ensures ParseComponents(rest).Ok? && ParseComponents(s).value == [expr] + ParseComponents(rest).value
  {
    hide Balanced, Close, Extent;
    var inner := s[1..];
    var n := Extent(inner, 1);
    expr, rest := s[1..n], s[n + 1..];
    assert rest != "";
    ExtentAgrees(inner, 1);
    CloseInside('<', '>', inner);
    assert inner[..n - 1] == expr && inner[n - 1] == s[n];
    assert s == [s[0]] + s[1..n] + [s[n]] + s[n + 1..];
  }

  /** The components of a set that was accepted, and what ends it. */
  lemma {:induction false} ComponentsBalanced(s: string)
    requires ParseComponents(s).Ok?
    ensures var exprs := ParseComponents(s).value;
            && s == PrintExprs(exprs) + [s[|s| - 1]]
            && forall i | 0 <= i < |exprs| :: Balanced('<', '>', exprs[i])
    decreases |s|
  {
    hide Balanced;
    if 1 < |s| {
      hide ParseComponents;
      var expr, rest := FirstComponent(s);
      ComponentsBalanced(rest);
      assert ([expr] + ParseComponents(rest).value)[1..] == ParseComponents(rest).value;
    }
  }

  lemma BracketOf(s: string) returns (atom: Atom)
    requires 1 < |s| && s[0] == '[' && s[|s| - 1] == ']' && ParseSet(s).Ok?
    requires Balanced('[', ']', s[1..|s| - 1])
    ensures PrintableAtom(atom) && !atom.Group? && PrintAtom(atom) == s
  {
    hide Balanced, ParseComponents;
    var positive := s[1] != '^';
    var rest := s[if positive then 1 else 2..];
    ComponentsBalanced(rest);
    var exprs := ParseComponents(rest).value;
    atom := Bracket(positive, exprs);
    assert rest == PrintExprs(exprs) + "]";
    assert s[1..|s| - 1] == Inside(positive, exprs);
    assert s == "[" + s[1..|s| - 1] + "]";
  }

  lemma SetOf(s: string) returns (atom: Atom)
    requires s != "" && (s[0] == '<' || s[0] == '[') && ParseSet(s).Ok?
    requires Close(s[0], RightOf(s[0]), s[1..], 1) == Ok(|s| - 1)
    ensures PrintableAtom(atom) && !atom.Group? && PrintAtom(atom) == s
  {
    hide Balanced, Close, ParseSet, ParseComponents;
    CloseInside(s[0], RightOf(s[0]), s[1..]);
    var inner := s[1..|s| - 1];
    assert s[1..][..|s| - 2] == inner;
    if s[0] == '<' {
      assert s == "<" + inner + ">";
      atom := Single(inner);
    } else {
      atom := BracketOf(s);
    }
  }

  lemma {:induction false} GroupTextOf(s: string) returns (atom: Atom)
    requires ParseGroup(s).Ok? && Close('(', ')', s[1..], 1) == Ok(|s| - 1)
    ensures PrintableAtom(atom) && atom.Group? && PrintAtom(atom) == s
    decreases |s|, 0
  {
    hide Balanced, Close, ParseList, PrintableItems;
    var inner := s[1..|s| - 1];
    CloseInside('(', ')', s[1..]);
    assert s[1..][..|s| - 2] == inner && s == "(" + inner + ")";
    var items := ItemsIn(inner);
    atom := Group(items);
  }

  /** The parts of the first item, each accepted in its own right. */
  lemma ItemParts(s: string)
    requires ItemExtent(s).Ok? && ParseItem(s).Ok?
    ensures var (indicator, end) := ItemExtent(s).value;
            var head, suffix := s[..indicator], s[indicator..end];
            && Opens(s[0]) && head[0] == s[0]
            && Close(s[0], RightOf(s[0]), head[1..], 1) == Ok(|head| - 1)
            && (if s[0] == '(' then ParseGroup(head).Ok? else ParseSet(head).Ok?)
            && ParseRepetition(suffix).Ok?
  {
    hide ParseGroup, ParseSet, ParseRepetition;
      var (indicator, end) := ItemExtent(s).value;
    var text := s[..end];
    assert text[..indicator] == s[..indicator] && text[indicator..] == s[indicator..end];
    CloseCut(s[0], RightOf(s[0]), s[1..], 1);
    assert s[..indicator][1..] == s[1..][..indicator - 1];
    if s[0] == '(' && indicator == end {
      assert text == s[..indicator] && s[indicator..end] == "";
      OnceParses();
    }
  }

  lemma OnceParses()
    ensures ParseRepetition("").Ok?
  {
  }

  lemma {:induction false} ItemIn(s: string) returns (item: Item)
    requires ItemExtent(s).Ok? && ParseItem(s).Ok?
    ensures PrintableItem(item) && PrintItem(item) == s[..ItemExtent(s).value.1]
    decreases |s|, 1
  {
    hide PrintableAtom, PrintableSuffix, PrintAtom, PrintSuffix, ParseGroup, ParseSet, ParseRepetition, ParseItem,
      ItemExtent, Close;
      var (indicator, end) := ItemExtent(s).value;
    var head := s[..indicator];
    ItemParts(s);
    var atom;
    if s[0] == '(' {
      atom := GroupTextOf(head);
    } else {
      atom := SetOf(head);
    }
    var suffix := SuffixOf(s[indicator..end]);
    item := Item(atom, suffix);
    assert s[..end] == head + s[indicator..end];
  }

  lemma {:induction false} ItemsIn(s: string) returns (items: seq<Item>)
    requires ParseList(s).Ok?
    ensures PrintableItems(items) && Print(items) == s
    decreases |s|, 2
  {
    hide PrintableItem;
    if s == "" {
      items := [];
    } else {
      var end := ItemExtent(s).value.1;
      var item := ItemIn(s);
      var rest := ItemsIn(s[end..]);
      items := [item] + rest;
      assert items[1..] == rest && s == s[..end] + s[end..];
    }
  }

  /** A text denotes a list of trees iff it prints items that do: the constructors accept
      exactly the printed texts, whatever their expressions. */
  lemma ParsedIffPrinted(s: string, ps: seq<Pattern>)
    ensures ParseList(s) == Ok(ps) <==> exists items :: PrintableItems(items) && Print(items) == s && Trees(items) == ps
  {
    if ParseList(s) == Ok(ps) {
      var items := ItemsIn(s);
      RoundTrip(items);
    }
    if items :| PrintableItems(items) && Print(items) == s && Trees(items) == ps {
      RoundTrip(items);
    }
  }

  /** The forms of a component set, by the characters they are written with. */
  lemma SetForms(e: string, f: string)
    requires Balanced('<', '>', e) && Balanced('<', '>', f)
    ensures ParseSet("<" + e + ">") == Ok(ComponentSet(true, [e]))
    ensures ParseSet("[<" + e + "><" + f + ">]") == Ok(ComponentSet(true, [e, f]))
    ensures ParseSet("[^<" + e + "><" + f + ">]") == Ok(ComponentSet(false, [e, f]))
  {
    hide Balanced, ParseSet;
    ParseSingle(e);
    ParseBracket(true, [e, f]);
    ParseBracket(false, [e, f]);
    var none: seq<string> := [];
    assert [e, f][1..] == [f] && [f][1..] == none;
    assert PrintExprs([f]) == "<" + f + ">" + "";
    assert PrintExprs([e, f]) == "<" + e + "><" + f + ">";
    assert "[" + Inside(true, [e, f]) + "]" == "[<" + e + "><" + f + ">]";
    assert "[" + Inside(false, [e, f]) + "]" == "[^<" + e + "><" + f + ">]";
  }

  lemma NoItems()
    ensures PrintableItems([]) && Print([]) == "" && Trees([]) == []
  {
  }

  lemma ItemAhead(item: Item, items: seq<Item>)
    ensures PrintableItems([item] + items) <==> PrintableItem(item) && PrintableItems(items)
    ensures Print([item] + items) == PrintItem(item) + Print(items)
    ensures Trees([item] + items) == [Tree(item)] + Trees(items)
  {
    hide PrintableItem, PrintItem, Tree;
    assert ([item] + items)[1..] == items;
  }

  lemma {:induction false} ItemsConcat(a: seq<Item>, b: seq<Item>)
    requires PrintableItems(a) && PrintableItems(b)
    ensures PrintableItems(a + b) && Print(a + b) == Print(a) + Print(b) && Trees(a + b) == Trees(a) + Trees(b)
    decreases |a|
  {
    hide PrintableItems, PrintableItem, Print, PrintItem, Trees, Tree;
    if a == [] {
      NoItems();
      assert a + b == b;
    } else {
      var item, rest := a[0], a[1..];
      assert a == [item] + rest && a + b == [item] + (rest + b);
      ItemAhead(item, rest);
      ItemsConcat(rest, b);
      ItemAhead(item, rest + b);
    }
  }

  /** Two lists one after the other make the list of both. */
  lemma ListForm(a: string, b: string)
    requires ParseList(a).Ok? && ParseList(b).Ok?
    ensures ParseList(a + b) == Ok(ParseList(a).value + ParseList(b).value)
  {
    hide ParseList, Print, PrintableItems, Trees;
    var items := ItemsIn(a);
    var more := ItemsIn(b);
    RoundTrip(items);
    RoundTrip(more);
    ItemsConcat(items, more);
    RoundTrip(items + more);
  }

  /** A list in parentheses makes a group of its items, repeated when a suffix follows. */
  lemma GroupForm(s: string, suffix: string)
    requires ParseList(s).Ok? && Balanced('(', ')', s) && ParseRepetition(suffix).Ok?
    ensures var group := Sequence(true, [Sequence(false, ParseList(s).value)]);
            var (min, max) := ParseRepetition(suffix).value;
            ParseList("(" + s + ")" + suffix) == Ok([if suffix == "" then group else Repeat(group, min, max)])
  {
    hide ParseList, ParseRepetition, Balanced;
    var items := ItemsIn(s);
    var x := SuffixOf(suffix);
    RoundTrip(items);
    ParseRepetitionPrinted(x);
    OneItem(Item(Group(items), x));
  }

  /** A component set is always repeated, once when no suffix follows. */
  lemma SetForm(expr: string, suffix: string)
    requires Balanced('<', '>', expr) && ParseRepetition(suffix).Ok?
    ensures var (min, max) := ParseRepetition(suffix).value;
            ParseList("<" + expr + ">" + suffix) == Ok([Repeat(ComponentSet(true, [expr]), min, max)])
  {
    hide ParseList, ParseRepetition, Balanced;
    var x := SuffixOf(suffix);
    ParseRepetitionPrinted(x);
    OneItem(Item(Single(expr), x));
  }

  lemma OneItem(item: Item)
    requires PrintableItem(item)
    ensures ParseList(PrintItem(item)) == Ok([Tree(item)])
  {
    hide ParseList, PrintItem, Tree, PrintableItem;
    var none: seq<Item> := [];
    assert [item][1..] == none && Print(none) == "";
    assert Trees([item]) == [Tree(item)] + Trees(none) == [Tree(item)];
    assert Print([item]) == PrintItem(item) + "" == PrintItem(item);
    RoundTrip([item]);
  }

  // ----- Plain items -----

  /** Items whose expressions have no brackets at all. */
  predicate PlainItem(item: Item) {
    PlainAtom(item.atom) && PrintableSuffix(item.suffix)
  }

  predicate PlainAtom(atom: Atom) {
    match atom
    case Group(items) => PlainItems(items)
    case Single(expr) => Plain(expr)
    case Bracket(_, exprs) => forall i | 0 <= i < |exprs| :: Plain(exprs[i])
  }

  predicate PlainItems(items: seq<Item>) {
    items == [] || (PlainItem(items[0]) && PlainItems(items[1..]))
  }

  predicate OnlyAngles(text: string) {
    forall i | 0 <= i < |text| :: Structural(text[i]) ==> text[i] == '<' || text[i] == '>'
  }

  lemma {:induction false} ExprsFlat(exprs: seq<string>)
    requires forall i | 0 <= i < |exprs| :: Plain(exprs[i])
    ensures OnlyAngles(PrintExprs(exprs))
  {
    if exprs != [] {
      ExprsFlat(exprs[1..]);
      assert forall i | 0 <= i < |exprs[0]| :: !Structural(exprs[0][i]);
    }
  }

  lemma PlainBalanced(left: char, right: char, text: string)
    requires Structural(left) && Structural(right) && Plain(text)
    ensures Balanced(left, right, text)
  {
    hide Balanced;
    FlatBalanced(left, right, text);
  }

  lemma AnglesBalanced(left: char, right: char, text: string)
    requires Structural(left) && Structural(right) && left != '<' && left != '>' && right != '<' && right != '>'
    requires OnlyAngles(text)
    ensures Balanced(left, right, text)
  {
    hide Balanced;
    FlatBalanced(left, right, text);
  }

  /** Plain items can be printed, and their text is balanced in parentheses. */
  lemma {:induction false} PlainItemsPrintable(items: seq<Item>)
    requires PlainItems(items)
    ensures PrintableItems(items) && Balanced('(', ')', Print(items))
    decreases items
  {
    hide Balanced;
    if items == [] {
      FlatBalanced('(', ')', "");
    } else {
      PlainItemsPrintable(items[1..]);
      PlainItemPrintable(items[0]);
      BalancedConcat('(', ')', PrintItem(items[0]), Print(items[1..]));
    }
  }

  lemma {:induction false} PlainItemPrintable(item: Item)
    requires PlainItem(item)
    ensures PrintableItem(item) && Balanced('(', ')', PrintItem(item))
    decreases item
  {
    hide Balanced;
    PlainAtomPrintable(item.atom);
    SuffixFlat(item.suffix);
    PlainBalanced('(', ')', PrintSuffix(item.suffix));
    BalancedConcat('(', ')', PrintAtom(item.atom), PrintSuffix(item.suffix));
  }

  lemma {:induction false} PlainAtomPrintable(atom: Atom)
    requires PlainAtom(atom)
    ensures PrintableAtom(atom) && Balanced('(', ')', PrintAtom(atom))
    decreases atom
  {
    hide Balanced;
    match atom
    case Group(items) =>
      PlainItemsPrintable(items);
      BalancedAround('(', ')', Print(items));
      assert PrintAtom(atom) == ['('] + Print(items) + [')'];
    case Single(expr) =>
      PlainBalanced('<', '>', expr);
      assert forall i | 0 <= i < |expr| :: !Structural(expr[i]);
      AnglesBalanced('(', ')', PrintAtom(atom));
    case Bracket(positive, exprs) =>
      ExprsFlat(exprs);
      forall i | 0 <= i < |exprs| ensures Balanced('<', '>', exprs[i]) {
        PlainBalanced('<', '>', exprs[i]);
      }
      AnglesBalanced('[', ']', Inside(positive, exprs));
      FlatBalanced('(', ')', PrintAtom(atom));
  }

  // ----- Printing any tree -----

  /** Lists of groups and of repeats over a group or a component set, with plain
      expressions; `ShapedIffParsed` says that these are what the constructors build. */
  predicate ShapedItem(p: Pattern)
    decreases p, 1
  {
    match p
    case ComponentSet(_, _) => false
    case Sequence(_, _) => ShapedGroup(p)
    case Repeat(body, min, max) =>
      && min <= max <= SYS_MAXINT
      && (ShapedGroup(body) ||
          (body.ComponentSet? && forall i | 0 <= i < |body.exprs| :: Plain(body.exprs[i])))
  }

  predicate ShapedGroup(p: Pattern)
    decreases p, 0
  {
    && p.Sequence? && p.isGroup && |p.items| == 1
    && p.items[0].Sequence? && !p.items[0].isGroup && ShapedItems(p.items[0].items)
  }

  predicate ShapedItems(ps: seq<Pattern>)
    decreases ps, 0
  {
    ps == [] || (ShapedItem(ps[0]) && ShapedItems(ps[1..]))
  }

  /** A printable form of a tree. */
  function ItemOf(p: Pattern): Item
    requires ShapedItem(p)
    decreases p, 1
  {
    match p
    case Sequence(_, _) => Item(GroupAtom(p), Once)
    case Repeat(body, min, max) =>
      Item(if body.ComponentSet? then Bracket(body.positive, body.exprs) else GroupAtom(body),
           Between(Decimal(min), Decimal(max)))
  }

  function GroupAtom(p: Pattern): Atom
    requires ShapedGroup(p)
    decreases p, 0
  {
    Group(ItemsOf(p.items[0].items))
  }

  function ItemsOf(ps: seq<Pattern>): (items: seq<Item>)
    requires ShapedItems(ps)
    ensures |items| == |ps|
    decreases ps, 0
  {
    if ps == [] then [] else [ItemOf(ps[0])] + ItemsOf(ps[1..])
  }

  lemma {:induction false} ItemOfTree(p: Pattern)
    requires ShapedItem(p)
    ensures Tree(ItemOf(p)) == p && PlainItem(ItemOf(p))
    decreases p, 1
  {
    match p
    case Sequence(_, _) => GroupAtomTree(p);
    case Repeat(body, _, _) =>
      if body.Sequence? {
        GroupAtomTree(body);
      }
  }

  lemma {:induction false} GroupAtomTree(p: Pattern)
    requires ShapedGroup(p)
    ensures AtomTree(GroupAtom(p)) == p && PlainAtom(GroupAtom(p))
    decreases p, 0
  {
    ItemsOfTrees(p.items[0].items);
    assert p.items == [p.items[0]];
  }

  lemma {:induction false} ItemsOfTrees(ps: seq<Pattern>)
    requires ShapedItems(ps)
    ensures Trees(ItemsOf(ps)) == ps && PlainItems(ItemsOf(ps))
    decreases ps, 0
  {
    if ps != [] {
      ItemOfTree(ps[0]);
      ItemsOfTrees(ps[1..]);
      assert ItemsOf(ps)[1..] == ItemsOf(ps[1..]);
    }
  }

  /** Every such tree can be printed, and the constructors rebuild it from the text. */
  lemma PrintedTreeRebuilt(ps: seq<Pattern>)
    requires ShapedItems(ps)
    ensures ParseList(Print(ItemsOf(ps))) == Ok(ps)
  {
    ItemsOfTrees(ps);
    PlainItemsPrintable(ItemsOf(ps));
    RoundTrip(ItemsOf(ps));
  }

  // ----- Which trees the constructors build -----

  predicate PlainTree(p: Pattern)
    decreases p, 1
  {
    match p
    case ComponentSet(_, exprs) => forall i | 0 <= i < |exprs| :: Plain(exprs[i])
    case Sequence(_, items) => PlainTrees(items)
    case Repeat(body, _, _) => PlainTree(body)
  }

  predicate PlainTrees(ps: seq<Pattern>)
    decreases ps, 0
  {
    ps == [] || (PlainTree(ps[0]) && PlainTrees(ps[1..]))
  }

  lemma PlainGroup(items: seq<Pattern>)
    ensures PlainTree(GroupOf(items)) <==> PlainTrees(items)
  {
    var list := Sequence(false, items);
    assert [list][1..] == [] && PlainTree(list) == PlainTrees(items);
    assert PlainTrees([list]) == PlainTree(list);
  }

  /** The bounds a suffix denotes are in order, and its text has no brackets. */
  lemma SuffixBounds(suffix: string)
    requires ParseRepetition(suffix).Ok?
    ensures var (min, max) := ParseRepetition(suffix).value; min <= max <= SYS_MAXINT
    ensures Plain(suffix)
  {
    hide ParseRepetition, PrintSuffix;
    var x := SuffixOf(suffix);
    SuffixFlat(x);
    ParseRepetitionPrinted(x);
  }

  lemma {:induction false} ParsedGroup(s: string)
    requires ParseGroup(s).Ok? && PlainTree(ParseGroup(s).value)
    ensures ShapedGroup(ParseGroup(s).value)
    decreases |s|, 0
  {
    var inner := s[1..|s| - 1];
    PlainGroup(ParseList(inner).value);
    ParsedList(inner);
  }

  lemma {:induction false} ParsedItem(s: string)
    requires ItemExtent(s).Ok? && ParseItem(s).Ok? && PlainTree(ParseItem(s).value)
    ensures ShapedItem(ParseItem(s).value)
    decreases |s|, 1
  {
    var (indicator, end) := ItemExtent(s).value;
    var text := s[..end];
    if s[0] == '(' && indicator == end {
      ParsedGroup(text);
    } else {
      SuffixBounds(text[indicator..]);
      if s[0] == '(' {
        ParsedGroup(text[..indicator]);
      }
    }
  }

  lemma {:induction false} ParsedList(s: string)
    requires ParseList(s).Ok? && PlainTrees(ParseList(s).value)
    ensures ShapedItems(ParseList(s).value)
    decreases |s|, 2
  {
    if s != "" {
      ParsedItem(s);
      ParsedList(s[ItemExtent(s).value.1..]);
    }
  }

  lemma {:induction false} ShapedTreePlain(p: Pattern)
    ensures ShapedItem(p) || ShapedGroup(p) ==> PlainTree(p)
    decreases p, 1
  {
    match p
    case ComponentSet(_, _) =>
    case Sequence(_, items) =>
      if ShapedGroup(p) {
        ShapedTreesPlain(items[0].items);
        assert items[1..] == [];
      }
    case Repeat(body, _, _) => ShapedTreePlain(body);
  }

  lemma {:induction false} ShapedTreesPlain(ps: seq<Pattern>)
    requires ShapedItems(ps)
    ensures PlainTrees(ps)
    decreases ps, 0
  {
    if ps != [] {
      ShapedTreePlain(ps[0]);
      ShapedTreesPlain(ps[1..]);
    }
  }

  /** The shaped trees are exactly those the constructors build from some text, with
      plain expressions. */
  lemma ShapedIffParsed(ps: seq<Pattern>)
    ensures ShapedItems(ps) <==> PlainTrees(ps) && exists s :: ParseList(s) == Ok(ps)
  {
    if ShapedItems(ps) {
      ShapedTreesPlain(ps);
      PrintedTreeRebuilt(ps);
    }
    if s :| PlainTrees(ps) && ParseList(s) == Ok(ps) {
      ParsedList(s);
    }
  }
}
