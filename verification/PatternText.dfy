/** The text form of name patterns: what the constructors make of a text, as
    functions on the text still to read. */
module PatternText {
  import opened NamePattern

  const SYS_MAXINT: nat := 0x7FFF_FFFF_FFFF_FFFF

  datatype Error =
    | ParenthesisMismatch
    | MissingRightBrace
    | UnexpectedSyntax
    | UnrecognizedGroup
    | ComponentOutOfBound
    | NoMatchedBracket
    | ComponentExprError
    | NotSufficientExpr
    | UnrecognizedRepetition
    | WrongNumber
    | EmptyExpression

  datatype Result<+T> = Ok(value: T) | Err(error: Error)

  /** What was read so far in front of what the rest of the text gives. */
  function InFront<T>(items: seq<T>, rest: Result<seq<T>>): Result<seq<T>> {
    match rest
    case Ok(more) => Ok(items + more)
    case Err(e) => Err(e)
  }

  // ----- Scanning -----

  /** Bracket depth after one more character. */
  function Depth(left: char, right: char, c: char, depth: nat): nat
    requires 0 < depth
  {
    if c == left then depth + 1 else if c == right then depth - 1 else depth
  }

  /** How many characters until `depth` open brackets are closed. */
  function Close(left: char, right: char, s: string, depth: nat): (r: Result<nat>)
    ensures r.Ok? ==> r.value <= |s| && (0 < depth ==> 0 < r.value)
  {
    if depth == 0 then Ok(0)
    else if s == "" then Err(ParenthesisMismatch)
    else
      match Close(left, right, s[1..], Depth(left, right, s[0], depth))
      case Ok(n) => Ok(n + 1)
      case Err(e) => Err(e)
  }

  /** The component scan: like `Close` for angle brackets, but it stops at the end
      of the text instead of failing. */
  function Extent(s: string, depth: nat): (n: nat)
    ensures n <= |s| && (0 < depth && s != "" ==> 0 < n)
  {
    if depth == 0 || s == "" then 0
    else 1 + Extent(s[1..], Depth('<', '>', s[0], depth))
  }

  function UpToBrace(s: string): (r: Result<nat>)
    ensures r.Ok? ==> 0 < r.value <= |s|
  {
    if s == "" then Err(MissingRightBrace)
    else if s[0] == '}' then Ok(1)
    else
      match UpToBrace(s[1..])
      case Ok(n) => Ok(n + 1)
      case Err(e) => Err(e)
  }

  /** Length of the repetition suffix at the head of `s`, 0 when there is none. */
  function RepetitionLength(s: string): (r: Result<nat>)
    ensures r.Ok? ==> r.value <= |s|
  {
    if s == "" then Ok(0)
    else if s[0] == '+' || s[0] == '?' || s[0] == '*' then Ok(1)
    else if s[0] == '{' then UpToBrace(s)
    else Ok(0)
  }

  // ----- Repetition bounds -----

  predicate IsDigit(c: char) { '0' <= c <= '9' }

  predicate AllDigits(s: string) { forall i | 0 <= i < |s| :: IsDigit(s[i]) }

  type Digits = s: string | AllDigits(s)

  function ToNat(s: string): nat
    requires AllDigits(s)
  {
    if s == "" then 0
    else ToNat(s[..|s| - 1]) * 10 + (s[|s| - 1] - '0') as nat
  }

  function CommaAt(s: string): (n: nat)
    ensures n <= |s| && (n < |s| ==> s[n] == ',')
    ensures forall i | 0 <= i < n :: s[i] != ','
  {
    if s == "" || s[0] == ',' then 0 else 1 + CommaAt(s[1..])
  }

  function Checked(min: nat, max: nat): Result<(nat, nat)> {
    if SYS_MAXINT < min || SYS_MAXINT < max || max < min then Err(WrongNumber) else Ok((min, max))
  }

  /** The bounds between the braces of a suffix. */
  function ParseBounds(inner: string): Result<(nat, nat)> {
    var c := CommaAt(inner);
    var lower := inner[..c];
    if !AllDigits(lower) then Err(UnrecognizedRepetition)
    else if c == |inner| then
      if lower == "" then Err(UnrecognizedRepetition) else Checked(ToNat(lower), ToNat(lower))
    else
      var upper := inner[c + 1..];
      if !AllDigits(upper) || (lower == "" && upper == "") then Err(UnrecognizedRepetition)
      else Checked(ToNat(lower), if upper == "" then SYS_MAXINT else ToNat(upper))
  }

  /** The bounds a suffix denotes. */
  function ParseRepetition(suffix: string): Result<(nat, nat)> {
    if suffix == "" then Ok((1, 1))
    else if suffix == "?" then Ok((0, 1))
    else if suffix == "+" then Ok((1, SYS_MAXINT))
    else if suffix == "*" then Ok((0, SYS_MAXINT))
    else if |suffix| < 2 || suffix[0] != '{' || suffix[|suffix| - 1] != '}' then Err(UnrecognizedRepetition)
    else ParseBounds(suffix[1..|suffix| - 1])
  }

  // ----- Component sets -----

  /** The components of a bracketed set; `s` still ends with the closing bracket. */
  function ParseComponents(s: string): Result<seq<string>> {
    if s == "" then Err(NotSufficientExpr)
    else if |s| == 1 then Ok([])
    else if s[0] != '<' then Err(ComponentExprError)
    else
      var n := Extent(s[1..], 1);
      InFront([s[1..n]], ParseComponents(s[n + 1..]))
  }

  function ParseSet(s: string): Result<Pattern>
    requires s != ""
  {
    if s[0] == '<' then
      var end := 1 + Extent(s[1..], 1);
      if |s| != end then Err(ComponentOutOfBound)
      else Ok(ComponentSet(true, [if end < 2 then "" else s[1..end - 1]]))
    else if s[0] == '[' then
      if s[|s| - 1] != ']' then Err(NoMatchedBracket)
      else
        var positive := s[1] != '^';
        match ParseComponents(s[if positive then 1 else 2..])
        case Ok(exprs) => Ok(ComponentSet(positive, exprs))
        case Err(e) => Err(e)
    else Ok(ComponentSet(true, []))
  }

  // ----- Pattern lists -----

  function GroupOf(items: seq<Pattern>): Pattern {
    Sequence(true, [Sequence(false, items)])
  }

  function ParseGroup(s: string): (r: Result<Pattern>)
    decreases |s|, 0
  {
    if |s| < 2 || s[0] != '(' || s[|s| - 1] != ')' then Err(UnrecognizedGroup)
    else
      match ParseList(s[1..|s| - 1])
      case Ok(items) => Ok(GroupOf(items))
      case Err(e) => Err(e)
  }

  /** A repeat over the first `indicator` characters, the rest being its suffix. */
  function ParseRepeat(s: string, indicator: nat): Result<Pattern>
    requires 0 < indicator <= |s|
    decreases |s|, 1
  {
    match if s[0] == '(' then ParseGroup(s[..indicator]) else ParseSet(s[..indicator])
    case Err(e) => Err(e)
    case Ok(body) =>
      match ParseRepetition(s[indicator..])
      case Err(e) => Err(e)
      case Ok((min, max)) => Ok(Repeat(body, min, max))
  }

  function RightOf(left: char): char {
    if left == '(' then ')' else if left == '<' then '>' else ']'
  }

  predicate Opens(c: char) { c == '(' || c == '<' || c == '[' }

  /** How far the first item reaches: its bracketed part, then with its suffix. */
  function ItemExtent(s: string): (r: Result<(nat, nat)>)
    ensures r.Ok? ==> 1 < r.value.0 <= r.value.1 <= |s|
  {
    if s == "" || !Opens(s[0]) then Err(UnexpectedSyntax)
    else
      match Close(s[0], RightOf(s[0]), s[1..], 1)
      case Err(e) => Err(e)
      case Ok(n) =>
        match RepetitionLength(s[1 + n..])
        case Err(e) => Err(e)
        case Ok(k) => Ok((1 + n, 1 + n + k))
  }

  /** One item: a group without suffix stays a group, anything else is a repeat. */
  function ParseItem(s: string): Result<Pattern>
    requires ItemExtent(s).Ok?
    decreases |s|, 2
  {
    var (indicator, end) := ItemExtent(s).value;
    if s[0] == '(' && indicator == end then ParseGroup(s[..end]) else ParseRepeat(s[..end], indicator)
  }

  function ParseList(s: string): (r: Result<seq<Pattern>>)
    decreases |s|, 3
  {
    if s == "" then Ok([])
    else
      match ItemExtent(s)
      case Err(e) => Err(e)
      case Ok((_, end)) =>
        match ParseItem(s)
        case Err(e) => Err(e)
        case Ok(item) => InFront([item], ParseList(s[end..]))
  }
}
