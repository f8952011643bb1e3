/** The distance behind the "did you mean" of unknown settings: two rows of a table,
    against the least number of one-byte edits that turn one name into the other. */
module EditDistance {

  newtype Byte = x: int | 0 <= x < 256

  type Text = seq<Byte>

  // ----- the reference: chains of single edits -----

  /** One byte inserted, deleted or replaced, anywhere: u + x + v becomes u + y + v. */
  ghost predicate Edits(s: Text, t: Text, u: Text, x: Text, y: Text, v: Text) {
    |x| <= 1 && |y| <= 1 && s == u + x + v && t == u + y + v
  }

  ghost predicate OneEdit(s: Text, t: Text) {
    exists u, x, y, v :: Edits(s, t, u, x, y, v)
  }

  ghost predicate Chain(path: seq<Text>, a: Text, b: Text) {
    && path != [] && path[0] == a && path[|path| - 1] == b
    && forall i :: 0 <= i < |path| - 1 ==> OneEdit(path[i], path[i + 1])
  }

  // ----- the recurrence over last bytes -----

  function Min(x: nat, y: nat): nat {
    if x < y then x else y
  }

  function Front(s: Text): Text
    requires s != []
  {
    s[..|s| - 1]
  }

  function Last(s: Text): Byte
    requires s != []
  {
    s[|s| - 1]
  }

  function Distance(a: Text, b: Text): nat
    decreases |a| + |b|
  {
    if a == [] then |b|
    else if b == [] then |a|
    else
      Min(Min(Distance(Front(a), b) + 1, Distance(a, Front(b)) + 1),
          Distance(Front(a), Front(b)) + if Last(a) == Last(b) then 0 else 1)
  }

  // ----- no chain is shorter -----

  lemma {:induction false} LastByteEdit(u: Text, x: Text, y: Text, b: Text)
    requires |x| <= 1 && |y| <= 1
    ensures Distance(u + x, b) <= Distance(u + y, b) + 1
    decreases b
  {
    assert u + [] == u;
    assert x != [] ==> Front(u + x) == u;
    assert y != [] ==> Front(u + y) == u;
    if b != [] {
      LastByteEdit(u, x, y, Front(b));
    }
  }

  /** One edit moves the distance by at most one. */
  lemma {:induction false} EditMovesByOne(u: Text, x: Text, y: Text, v: Text, b: Text)
    requires |x| <= 1 && |y| <= 1
    ensures Distance(u + x + v, b) <= Distance(u + y + v, b) + 1
    decreases |v| + |b|
  {
    if v == [] {
      LastByteEdit(u, x, y, b);
      assert u + x + v == u + x && u + y + v == u + y;
    } else {
      assert Front(u + x + v) == u + x + Front(v) && Front(u + y + v) == u + y + Front(v);
      EditMovesByOne(u, x, y, Front(v), b);
      if b != [] {
        EditMovesByOne(u, x, y, v, Front(b));
        EditMovesByOne(u, x, y, Front(v), Front(b));
      }
    }
  }

  lemma {:induction false} ChainsAreNoShorter(path: seq<Text>, a: Text, b: Text)
    requires Chain(path, a, b)
    ensures Distance(a, b) <= |path| - 1
  {
    if |path| == 1 {
      SameText(a);
    } else {
      assert OneEdit(path[0], path[1]);
      var u, x, y, v :| Edits(path[0], path[1], u, x, y, v);
      EditMovesByOne(u, x, y, v, b);
      var rest := path[1..];
      forall i | 0 <= i < |rest| - 1 ensures OneEdit(rest[i], rest[i + 1]) {
        assert OneEdit(path[i + 1], path[i + 2]);
      }
      ChainsAreNoShorter(rest, path[1], b);
    }
  }

  lemma {:induction false} SameText(a: Text)
    ensures Distance(a, a) == 0
  {
    if a != [] { SameText(Front(a)); }
  }

  // ----- one chain is as short -----

  lemma Appended(s: Text, c: Byte)
    ensures OneEdit(s, s + [c]) && OneEdit(s + [c], s)
  {
    assert Edits(s, s + [c], s, [], [c], []);
    assert Edits(s + [c], s, s, [c], [], []);
  }

  lemma Replaced(s: Text, c: Byte, d: Byte)
    ensures OneEdit(s + [c], s + [d])
  {
    assert Edits(s + [c], s + [d], s, [c], [d], []);
  }

  lemma Under(s: Text, t: Text, c: Byte)
    requires OneEdit(s, t)
    ensures OneEdit(s + [c], t + [c])
  {
    var u, x, y, v :| Edits(s, t, u, x, y, v);
    assert Edits(s + [c], t + [c], u, x, y, v + [c]);
  }

  /** The same edits in front of one more byte. */
  lemma ChainUnder(path: seq<Text>, a: Text, b: Text, c: Byte) returns (out: seq<Text>)
    requires Chain(path, a, b)
    ensures Chain(out, a + [c], b + [c]) && |out| == |path|
  {
    out := seq(|path|, i requires 0 <= i < |path| => path[i] + [c]);
    forall i | 0 <= i < |out| - 1 ensures OneEdit(out[i], out[i + 1]) {
      Under(path[i], path[i + 1], c);
    }
  }

  lemma ChainThen(path: seq<Text>, a: Text, b: Text, c: Text)
    requires Chain(path, a, b) && OneEdit(b, c)
    ensures Chain(path + [c], a, c)
  {
  }

  lemma ChainBefore(path: seq<Text>, a: Text, b: Text, c: Text)
    requires Chain(path, b, c) && OneEdit(a, b)
    ensures Chain([a] + path, a, c)
  {
  }

  lemma {:induction false} SomeChainIsAsShort(a: Text, b: Text) returns (path: seq<Text>)
    ensures Chain(path, a, b) && |path| - 1 == Distance(a, b)
    decreases |a| + |b|
  {
    hide OneEdit;
    if a == [] && b == [] {
      path := [a];
    } else if b != [] && (a == [] || Distance(a, b) == Distance(a, Front(b)) + 1) {
      path := SomeChainIsAsShort(a, Front(b));
      assert b == Front(b) + [Last(b)];
      Appended(Front(b), Last(b));
      ChainThen(path, a, Front(b), b);
      path := path + [b];
    } else if b == [] || Distance(a, b) == Distance(Front(a), b) + 1 {
      path := SomeChainIsAsShort(Front(a), b);
      assert a == Front(a) + [Last(a)];
      Appended(Front(a), Last(a));
      ChainBefore(path, a, Front(a), b);
      path := [a] + path;
    } else {
      path := SomeChainIsAsShort(Front(a), Front(b));
      path := ChainUnder(path, Front(a), Front(b), Last(a));
      assert a == Front(a) + [Last(a)] && b == Front(b) + [Last(b)];
      if Last(a) != Last(b) {
        Replaced(Front(b), Last(a), Last(b));
        ChainThen(path, a, Front(b) + [Last(a)], b);
        path := path + [b];
      }
    }
  }

  // ----- hence a metric -----

  lemma Reversed(path: seq<Text>, a: Text, b: Text) returns (back: seq<Text>)
    requires Chain(path, a, b)
    ensures Chain(back, b, a) && |back| == |path|
  {
    back := seq(|path|, i requires 0 <= i < |path| => path[|path| - 1 - i]);
    forall i | 0 <= i < |back| - 1 ensures OneEdit(back[i], back[i + 1]) {
      var k := |path| - 2 - i;
      assert OneEdit(path[k], path[k + 1]);
      var u, x, y, v :| Edits(path[k], path[k + 1], u, x, y, v);
      assert Edits(path[k + 1], path[k], u, y, x, v);
    }
  }

  lemma Joined(p: seq<Text>, q: seq<Text>, a: Text, b: Text, c: Text)
    requires Chain(p, a, b) && Chain(q, b, c)
    ensures Chain(p + q[1..], a, c)
  {
    var r := p + q[1..];
    forall i | 0 <= i < |r| - 1 ensures OneEdit(r[i], r[i + 1]) {
      if i >= |p| - 1 {
        assert OneEdit(q[i - |p| + 1], q[i - |p| + 2]);
      }
    }
  }

  lemma {:induction false} IsAMetric(a: Text, b: Text, c: Text)
    ensures Distance(a, b) == 0 <==> a == b
    ensures Distance(a, b) == Distance(b, a)
    ensures Distance(a, c) <= Distance(a, b) + Distance(b, c)
  {
    SameText(a);
    var ab := SomeChainIsAsShort(a, b);
    var ba := SomeChainIsAsShort(b, a);
    var bc := SomeChainIsAsShort(b, c);
    var ab' := Reversed(ab, a, b);
    var ba' := Reversed(ba, b, a);
    ChainsAreNoShorter(ab', b, a);
    ChainsAreNoShorter(ba', a, b);
    Joined(ab, bc, a, b, c);
    ChainsAreNoShorter(ab + bc[1..], a, c);
  }

  // ----- the loop -----

  lemma Cell(a: Text, b: Text, i: nat, j: nat)
    requires 0 < i <= |a| && 0 < j <= |b|
    ensures Distance(a[..i], b[..j]) ==
            Min(Min(Distance(a[..i - 1], b[..j]) + 1, Distance(a[..i], b[..j - 1]) + 1),
                Distance(a[..i - 1], b[..j - 1]) + if a[i - 1] == b[j - 1] then 0 else 1)
  {
    assert Front(a[..i]) == a[..i - 1] && Front(b[..j]) == b[..j - 1];
  }

  lemma FirstRow(a: Text, b: Text)
    ensures forall k :: 0 <= k <= |b| ==> Distance(a[..0], b[..k]) == k
    ensures forall i :: 0 <= i <= |a| ==> Distance(a[..i], b[..0]) == i
  {
  }

  /** Two rows of the table, the finished one and the one being filled, swapped at each
      byte of a. */
  method LevenshteinDistance(a: Text, b: Text) returns (d: nat)
    ensures d == Distance(a, b)
  {
    hide Distance;
    var prev, curr := new nat[|b| + 1], new nat[|b| + 1];
    for j := 0 to |b| + 1
      invariant forall k :: 0 <= k < j ==> prev[k] == k
    {
      prev[j] := j;
    }
    FirstRow(a, b);
    for i := 1 to |a| + 1
      invariant prev.Length == curr.Length == |b| + 1 && prev != curr && fresh(prev) && fresh(curr)
      invariant forall k :: 0 <= k <= |b| ==> prev[k] == Distance(a[..i - 1], b[..k])
    {
      curr[0] := i;
      for j := 1 to |b| + 1
        invariant forall k :: 0 <= k <= |b| ==> prev[k] == Distance(a[..i - 1], b[..k])
        invariant forall k :: 0 <= k < j ==> curr[k] == Distance(a[..i], b[..k])
      {
        var cost := 1;
        if a[i - 1] == b[j - 1] {
          cost := 0;
        }
        var deletion := prev[j] + 1;
        var insertion := curr[j - 1] + 1;
        var substitution := prev[j - 1] + cost;
        var min := deletion;
        if insertion < min {
          min := insertion;
        }
        if substitution < min {
          min := substitution;
        }
        Cell(a, b, i, j);
        curr[j] := min;
      }
      prev, curr := curr, prev;
    }
    assert a[..|a|] == a && b[..|b|] == b;
    d := prev[|b|];
  }
}
