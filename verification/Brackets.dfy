/** Bracketed text: a scan stops at the first character that closes more than the text
    before it has opened. */
module Brackets {
  import opened PatternText

  /** Opening less closing brackets. */
  function Net(left: char, right: char, s: string): int {
    if s == "" then 0
    else (if s[0] == left then 1 else if s[0] == right then -1 else 0) + Net(left, right, s[1..])
  }

  /** Every closing bracket has its opening one before it, and none is left open. */
  predicate Balanced(left: char, right: char, s: string) {
    Net(left, right, s) == 0 && forall i | 0 <= i <= |s| :: 0 <= Net(left, right, s[..i])
  }

  lemma {:induction false} NetConcat(left: char, right: char, a: string, b: string)
    ensures Net(left, right, a + b) == Net(left, right, a) + Net(left, right, b)
  {
    if a == "" {
      assert a + b == b;
    } else {
      NetConcat(left, right, a[1..], b);
      assert (a + b)[1..] == a[1..] + b;
    }
  }

  lemma {:induction false} NetFlat(left: char, right: char, s: string)
    requires forall i | 0 <= i < |s| :: s[i] != left && s[i] != right
    ensures Net(left, right, s) == 0
  {
    if s != "" {
      NetFlat(left, right, s[1..]);
    }
  }

  lemma FlatBalanced(left: char, right: char, s: string)
    requires forall i | 0 <= i < |s| :: s[i] != left && s[i] != right
    ensures Balanced(left, right, s)
  {
    NetFlat(left, right, s);
    forall i | 0 <= i <= |s| ensures Net(left, right, s[..i]) == 0 {
      NetFlat(left, right, s[..i]);
    }
  }

  lemma BalancedConcat(left: char, right: char, a: string, b: string)
    requires Balanced(left, right, a) && Balanced(left, right, b)
    ensures Balanced(left, right, a + b)
  {
    var s := a + b;
    NetConcat(left, right, a, b);
    forall i | 0 <= i <= |s| ensures 0 <= Net(left, right, s[..i]) {
      if i <= |a| {
        assert s[..i] == a[..i];
      } else {
        assert s[..i] == a + b[..i - |a|];
        NetConcat(left, right, a, b[..i - |a|]);
      }
    }
  }

  lemma BalancedAround(left: char, right: char, a: string)
    requires left != right && Balanced(left, right, a)
    ensures Balanced(left, right, [left] + a + [right])
  {
    var s := [left] + a + [right];
    NetConcat(left, right, [left], a);
    NetConcat(left, right, [left] + a, [right]);
    forall i | 0 <= i <= |s| ensures 0 <= Net(left, right, s[..i]) {
      if 0 < i <= |a| + 1 {
        assert s[..i] == [left] + a[..i - 1];
        NetConcat(left, right, [left], a[..i - 1]);
      } else if 0 < i {
        assert s[..i] == s;
      }
    }
  }

  lemma NetStep(left: char, right: char, s: string, depth: nat, i: nat)
    requires left != right && 0 < depth && 0 < i <= |s|
    ensures depth + Net(left, right, s[..i]) == Depth(left, right, s[0], depth) + Net(left, right, s[1..][..i - 1])
  {
    assert s[..i][1..] == s[1..][..i - 1];
  }

  /** A scan stops at the first position where all open brackets are closed. */
  lemma {:induction false} CloseStops(left: char, right: char, s: string, depth: nat, n: nat)
    requires left != right && 0 < depth && 0 < n <= |s| && depth + Net(left, right, s[..n]) == 0
    requires forall i | 0 <= i < n :: 0 < depth + Net(left, right, s[..i])
    ensures Close(left, right, s, depth) == Ok(n)
    decreases |s|
  {
    var next := Depth(left, right, s[0], depth);
    NetStep(left, right, s, depth, n);
    if n == 1 {
      assert s[1..][..0] == "";
    } else {
      NetStep(left, right, s, depth, 1);
      assert s[1..][..0] == "" && 0 < next;
      forall i | 0 <= i < n - 1 ensures 0 < next + Net(left, right, s[1..][..i]) {
        NetStep(left, right, s, depth, i + 1);
      }
      CloseStops(left, right, s[1..], next, n - 1);
    }
  }

  lemma {:induction false} CloseFinds(left: char, right: char, s: string, depth: nat)
    requires left != right && 0 < depth && Close(left, right, s, depth).Ok?
    ensures var n := Close(left, right, s, depth).value;
            && depth + Net(left, right, s[..n]) == 0
            && forall i | 0 <= i < n :: 0 < depth + Net(left, right, s[..i])
    decreases |s|
  {
    var n, next := Close(left, right, s, depth).value, Depth(left, right, s[0], depth);
    assert s[..0] == "" == s[1..][..0];
    if next != 0 {
      CloseFinds(left, right, s[1..], next);
    }
    forall i | 0 < i <= n
      ensures depth + Net(left, right, s[..i]) == next + Net(left, right, s[1..][..i - 1])
    {
      NetStep(left, right, s, depth, i);
    }
  }

  /** From just behind an opening bracket the scan takes a balanced text and its closing
      bracket, whatever follows, and it succeeds on nothing else. */
  lemma CloseAround(left: char, right: char, inner: string, tail: string)
    requires left != right && Balanced(left, right, inner)
    ensures Close(left, right, inner + ([right] + tail), 1) == Ok(|inner| + 1)
  {
    var s, n := inner + ([right] + tail), |inner| + 1;
    assert s[..n] == inner + [right];
    NetConcat(left, right, inner, [right]);
    forall i | 0 <= i < n ensures 0 < 1 + Net(left, right, s[..i]) {
      assert s[..i] == inner[..i];
    }
    CloseStops(left, right, s, 1, n);
  }

  lemma CloseInside(left: char, right: char, s: string)
    requires left != right && Close(left, right, s, 1).Ok?
    ensures var n := Close(left, right, s, 1).value;
            s[n - 1] == right && Balanced(left, right, s[..n - 1])
  {
    var n := Close(left, right, s, 1).value;
    CloseFinds(left, right, s, 1);
    assert s[..n] == s[..n - 1] + [s[n - 1]];
    NetConcat(left, right, s[..n - 1], [s[n - 1]]);
    var inner := s[..n - 1];
    forall i | 0 <= i <= |inner| ensures 0 <= Net(left, right, inner[..i]) {
      assert inner[..i] == s[..i];
    }
    assert [s[n - 1]][1..] == "";
  }

  lemma {:induction false} CloseCut(left: char, right: char, s: string, depth: nat)
    requires Close(left, right, s, depth).Ok?
    ensures var n := Close(left, right, s, depth).value; Close(left, right, s[..n], depth) == Ok(n)
  {
    if depth != 0 {
      var n := Close(left, right, s, depth).value;
      CloseCut(left, right, s[1..], Depth(left, right, s[0], depth));
      assert s[..n][1..] == s[1..][..n - 1];
    }
  }

  /** The component scan is the scan for angle brackets, and takes the whole text where
      that one fails. */
  lemma {:induction false} ExtentAgrees(s: string, depth: nat)
    requires 0 < depth
    ensures Extent(s, depth) == match Close('<', '>', s, depth) case Ok(n) => n case Err(_) => |s|
  {
    if s != "" {
      var next := Depth('<', '>', s[0], depth);
      if next != 0 {
        ExtentAgrees(s[1..], next);
      }
    }
  }
}
