/** What the groups of a tree hold after a match, told from the split alone. */
module GroupCaptures {
  import opened Options
  import opened NamePattern
  import opened GroupNumbering
  import opened Matchers
  import opened PatternParser

  type Piece = Option<seq<Component>>

  /** Groups that took no part in a match. */
  function Unset(groups: seq<Pattern>): (r: seq<Piece>)
    ensures |r| == |groups|
  {
    seq(|groups|, _ => None)
  }

  /** The piece of each group, by number: the group's own slice, under a repeat that of
      the last iteration, and none under a repeat that ran no iteration. */
  function GroupPieces(p: Pattern, s: seq<Component>, t: Split): (r: seq<Piece>)
    ensures |r| == |GroupsIn(p)|
    decreases p, 0
  {
    match p
    case ComponentSet(_, _) => []
    case Sequence(isGroup, items) =>
      (if isGroup then [Some(s)] else []) + GroupPiecesEach(items, s, t.parts)
    case Repeat(body, _, _) =>
      var n := |t.parts|;
      if n == 0 || |s| < t.parts[n - 1].len then Unset(GroupsIn(body))
      else GroupPieces(body, s[|s| - t.parts[n - 1].len..], t.parts[n - 1])
  }

  function GroupPiecesEach(items: seq<Pattern>, s: seq<Component>, parts: seq<Split>): (r: seq<Piece>)
    ensures |r| == |GroupsInEach(items)|
    decreases items, 0
  {
    if items == [] then []
    else if parts == [] || |s| < parts[0].len then Unset(GroupsInEach(items))
    else
      GroupPieces(items[0], s[..parts[0].len], parts[0]) +
      GroupPiecesEach(items[1..], s[parts[0].len..], parts[1..])
  }

  /** The objects hold the pieces of all groups that took part. */
  ghost predicate Recorded(objects: seq<Matcher>, pieces: seq<Piece>)
    reads objects
  {
    && |objects| == |pieces|
    && forall i | 0 <= i < |pieces| && pieces[i].Some? :: objects[i].matchResult == pieces[i].value
  }

  lemma Sublists(ms: seq<Matcher>, items: seq<Pattern>)
    requires ValidEach(ms, items) && ms != []
    ensures var n := |ms| - 1;
            && |items| == n + 1 && ms[n].Valid() && ms[n].pat == items[n]
            && ValidEach(ms[..n], items[..n])
  {
  }

  /** The group objects of a list read from its front. */
  lemma {:induction false} GroupObjectsAhead(m: Matcher, ms: seq<Matcher>, items: seq<Pattern>)
    requires m.Valid() && ValidEach(ms, items) && ValidEach([m] + ms, [m.pat] + items)
    ensures GroupObjectsEach([m] + ms, [m.pat] + items) == GroupObjects(m) + GroupObjectsEach(ms, items)
    decreases |ms|
  {
    hide GroupObjects, ValidEach;
    if ms == [] {
      SingleGroups(m);
    } else {
      hide GroupObjectsEach;
      var n := |ms| - 1;
      Sublists(ms, items);
      Sublists([m] + ms, [m.pat] + items);
      var init, first := ms[..n], items[..n];
      assert ms == init + [ms[n]] && items == first + [items[n]];
      assert ([m] + ms)[..n + 1] == [m] + init && ([m.pat] + items)[..n + 1] == [m.pat] + first;
      assert [m] + ms == ([m] + init) + [ms[n]] && [m.pat] + items == ([m.pat] + first) + [items[n]];
      GroupObjectsAhead(m, init, first);
      GroupObjectsAppend(init, first, ms[n]);
      GroupObjectsAppend([m] + init, [m.pat] + first, ms[n]);
    }
  }

  /** After a match every group that took part holds its piece of the chosen split. */
  lemma {:induction false} GroupsHold(m: Matcher, s: seq<Component>, t: Split)
    requires m.Valid() && Holds(m, s, t)
    ensures Recorded(GroupObjects(m), GroupPieces(m.pat, s, t))
    decreases m.pat, 1
  {
    GroupObjectsMatch(m);
    match m.kind
    case ComponentSetMatcher(_) =>
    case RepeatMatcher(_, _) =>
      if t.parts != [] {
        var last := t.parts[|t.parts| - 1];
        GroupsHold(m.matcherList[0], s[|s| - last.len..], last);
      }
    case _ => GroupsHoldEach(m.matcherList, m.pat.items, s, t.parts);
  }

  lemma {:induction false} GroupsHoldEach(
    ms: seq<Matcher>, items: seq<Pattern>, s: seq<Component>, parts: seq<Split>)
    requires ValidEach(ms, items) && HoldsEach(ms, items, s, parts)
    ensures Recorded(GroupObjectsEach(ms, items), GroupPiecesEach(items, s, parts))
    decreases items, 0
  {
    if ms != [] {
      assert ms == [ms[0]] + ms[1..] && items == [items[0]] + items[1..];
      GroupObjectsAhead(ms[0], ms[1..], items[1..]);
      GroupsHold(ms[0], s[..parts[0].len], parts[0]);
      GroupsHoldEach(ms[1..], items[1..], s[parts[0].len..], parts[1..]);
    }
  }

  // ----- Extraction -----

  /** The captures of the numbered groups, one after the other. */
  ghost function Captured(groups: seq<Matcher>, rule: seq<nat>): seq<Component>
    requires forall i | 0 <= i < |rule| :: 1 <= rule[i] <= |groups|
    reads groups
  {
    if rule == [] then []
    else Captured(groups, rule[..|rule| - 1]) + groups[rule[|rule| - 1] - 1].matchResult
  }

  /** The numbers are those of groups that took part. */
  predicate TookPart(pieces: seq<Piece>, rule: seq<nat>) {
    forall i | 0 <= i < |rule| :: 1 <= rule[i] <= |pieces| && pieces[rule[i] - 1].Some?
  }

  function Selected(pieces: seq<Piece>, rule: seq<nat>): seq<Component>
    requires TookPart(pieces, rule)
  {
    if rule == [] then []
    else Selected(pieces, rule[..|rule| - 1]) + pieces[rule[|rule| - 1] - 1].value
  }

  lemma {:induction false} CapturedSelected(groups: seq<Matcher>, pieces: seq<Piece>, rule: seq<nat>)
    requires Recorded(groups, pieces) && TookPart(pieces, rule)
    ensures Captured(groups, rule) == Selected(pieces, rule)
    decreases |rule|
  {
    if rule != [] {
      CapturedSelected(groups, pieces, rule[..|rule| - 1]);
    }
  }

  /** A rule of one number selects that group's piece. */
  lemma SelectedOne(pieces: seq<Piece>, k: nat)
    requires 1 <= k <= |pieces| && pieces[k - 1].Some?
    ensures TookPart(pieces, [k]) && Selected(pieces, [k]) == pieces[k - 1].value
  {
    SelectedLast(pieces, [], k);
    assert [] + [k] == [k];
  }

  lemma SelectedLast(pieces: seq<Piece>, rule: seq<nat>, k: nat)
    requires TookPart(pieces, rule) && 1 <= k <= |pieces| && pieces[k - 1].Some?
    ensures TookPart(pieces, rule + [k])
    ensures Selected(pieces, rule + [k]) == Selected(pieces, rule) + pieces[k - 1].value
  {
    assert (rule + [k])[..|rule|] == rule;
  }

  lemma WithoutLast(pieces: seq<Piece>, rule: seq<nat>)
    requires TookPart(pieces, rule) && rule != []
    ensures var n := |rule| - 1; TookPart(pieces, rule[..n]) && 1 <= rule[n] <= |pieces| && pieces[rule[n] - 1].Some?
  {
  }

  lemma SelectedNone(pieces: seq<Piece>)
    ensures TookPart(pieces, []) && Selected(pieces, []) == []
  {
  }

  /** A longer one selects its parts in order. */
  lemma {:induction false} SelectedInOrder(pieces: seq<Piece>, a: seq<nat>, b: seq<nat>)
    requires TookPart(pieces, a) && TookPart(pieces, b)
    ensures TookPart(pieces, a + b) && Selected(pieces, a + b) == Selected(pieces, a) + Selected(pieces, b)
    decreases |b|
  {
    hide Selected, TookPart;
    if b == [] {
      SelectedNone(pieces);
      assert a + b == a && Selected(pieces, a) + [] == Selected(pieces, a);
    } else {
      var n := |b| - 1;
      WithoutLast(pieces, b);
      SelectedInOrder(pieces, a, b[..n]);
      SelectedLast(pieces, b[..n], b[n]);
      SelectedLast(pieces, a + b[..n], b[n]);
      assert b == b[..n] + [b[n]] && a + b == (a + b[..n]) + [b[n]];
    }
  }

  /** The tree's captures are those of the split the search order picks. */
  ghost predicate Captures(order: Order, re: Oracle, m: Matcher, name: seq<Component>, t: Split)
    reads m.Repr
  {
    m.Valid() && Chosen(order, re, m.pat, name, t) && Holds(m, name, t)
  }

  /** After a match, in either order, what extraction reads from the groups that took
      part are the pieces of the chosen split. */
  lemma CapturedPieces(order: Order, re: Oracle, m: Matcher, name: seq<Component>, t: Split, rule: seq<nat>)
    requires Captures(order, re, m, name, t) && TookPart(GroupPieces(m.pat, name, t), rule)
    ensures |GroupObjects(m)| == |GroupPieces(m.pat, name, t)|
    ensures Captured(GroupObjects(m), rule) == Selected(GroupPieces(m.pat, name, t), rule)
  {
    hide GroupObjects, Holds, Chosen, GroupPieces;
    GroupsHold(m, name, t);
    CapturedSelected(GroupObjects(m), GroupPieces(m.pat, name, t), rule);
  }
}
