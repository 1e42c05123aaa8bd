/**
 * Room keying: the id of the room shared by two users is the two user ids
 * sorted with JavaScript's default string order and joined with "_"
 * (`[a, b].sort().join("_")`).
 */
module Rooms {

  const SEPARATOR: char := '_'

  /**
   * JavaScript's default string order: compare character by character;
   * a proper prefix sorts first.
   */
  predicate LexLe(a: string, b: string)
  {
    |a| == 0 || (|b| > 0 && (a[0] < b[0] || (a[0] == b[0] && LexLe(a[1..], b[1..]))))
  }

  lemma {:induction false} LexLeTotal(a: string, b: string)
    ensures LexLe(a, b) || LexLe(b, a)
  {
    if |a| > 0 && |b| > 0 && a[0] == b[0] {
      LexLeTotal(a[1..], b[1..]);
    }
  }

  lemma {:induction false} LexLeAntisymmetric(a: string, b: string)
    requires LexLe(a, b) && LexLe(b, a)
    ensures a == b
  {
    if |a| > 0 {
      LexLeAntisymmetric(a[1..], b[1..]);
      assert a == [a[0]] + a[1..] && b == [b[0]] + b[1..];
    }
  }

  lemma {:induction false} LexLeTransitive(a: string, b: string, c: string)
    requires LexLe(a, b) && LexLe(b, c)
    ensures LexLe(a, c)
  {
    if |a| > 0 && |b| > 0 && |c| > 0 && a[0] == b[0] && b[0] == c[0] {
      LexLeTransitive(a[1..], b[1..], c[1..]);
    }
  }

  /**
   * `[a, b].sort()`: the default comparator swaps the two only when the
   * second sorts strictly before the first.
   */
  function SortPair(a: string, b: string): seq<string>
  {
    if LexLe(b, a) && b != a then [b, a] else [a, b]
  }

  /** Sorting a pair keeps both elements and puts them in order. */
  lemma SortPairSorts(a: string, b: string)
    ensures var r := SortPair(a, b);
      |r| == 2 && multiset(r) == multiset{a, b} && LexLe(r[0], r[1])
  {
    LexLeTotal(a, b);
  }

  /** `Array.prototype.join`: the parts with `sep` between neighbours. */
  function Join(parts: seq<string>, sep: string): string
  {
    if |parts| == 0 then ""
    else if |parts| == 1 then parts[0]
    else parts[0] + sep + Join(parts[1..], sep)
  }

  lemma JoinPair(x: string, y: string, sep: string)
    ensures Join([x, y], sep) == x + sep + y
  {
    assert [x, y][1..] == [y];
  }

  /** The room id of users `a` and `b`. */
  function RoomKey(a: string, b: string): string
  {
    Join(SortPair(a, b), [SEPARATOR])
  }

  /** The key is the smaller id, the separator, then the larger id. */
  lemma RoomKeyIsSortedJoin(a: string, b: string)
    ensures var k := RoomKey(a, b);
      (LexLe(a, b) ==> k == a + [SEPARATOR] + b) &&
      (LexLe(b, a) ==> k == b + [SEPARATOR] + a)
  {
    JoinPair(a, b, [SEPARATOR]);
    JoinPair(b, a, [SEPARATOR]);
    if LexLe(a, b) && LexLe(b, a) {
      LexLeAntisymmetric(a, b);
    }
  }

  /** The key is the two ids around one separator, in one order or the other. */
  lemma RoomKeyShape(a: string, b: string)
    ensures var k := RoomKey(a, b);
      |k| == |a| + |b| + 1 && (k == a + [SEPARATOR] + b || k == b + [SEPARATOR] + a)
  {
    LexLeTotal(a, b);
    RoomKeyIsSortedJoin(a, b);
  }

  /** The key does not depend on which user is first. */
  lemma RoomKeySymmetric(a: string, b: string)
    ensures RoomKey(a, b) == RoomKey(b, a)
  {
    LexLeTotal(a, b);
    RoomKeyIsSortedJoin(a, b);
    RoomKeyIsSortedJoin(b, a);
  }

  /** Splitting at the first separator recovers both halves. */
  lemma SplitAtFirstSeparator(x: string, y: string, u: string, v: string)
    requires SEPARATOR !in x && SEPARATOR !in u
    requires x + [SEPARATOR] + y == u + [SEPARATOR] + v
    ensures x == u && y == v
  {
    var k := x + [SEPARATOR] + y;
    assert k[|x|] == SEPARATOR && forall i :: 0 <= i < |x| ==> k[i] == x[i];
    assert k[|u|] == SEPARATOR && forall i :: 0 <= i < |u| ==> k[i] == u[i];
    assert |x| == |u|;
    assert x == k[..|x|] && u == k[..|u|];
    assert y == k[|x| + 1..] && v == k[|u| + 1..];
  }

  /**
   * When no id contains the separator, the room key determines the pair
   * of users (in either order).
   */
  lemma RoomKeyDeterminesPair(a: string, b: string, c: string, d: string)
    requires SEPARATOR !in a && SEPARATOR !in b && SEPARATOR !in c && SEPARATOR !in d
    requires RoomKey(a, b) == RoomKey(c, d)
    ensures multiset{a, b} == multiset{c, d}
  {
    var k := RoomKey(a, b);
    RoomKeyShape(a, b);
    RoomKeyShape(c, d);
    if k == a + [SEPARATOR] + b {
      if k == c + [SEPARATOR] + d {
        SplitAtFirstSeparator(a, b, c, d);
      } else {
        SplitAtFirstSeparator(a, b, d, c);
      }
    } else {
      if k == c + [SEPARATOR] + d {
        SplitAtFirstSeparator(b, a, c, d);
      } else {
        SplitAtFirstSeparator(b, a, d, c);
      }
    }
  }

  /** Ids containing the separator can make two different pairs share a room. */
  lemma SeparatorInIdsCollides()
    ensures RoomKey("a_b", "c") == RoomKey("a", "b_c") == "a_b_c"
    ensures multiset{"a_b", "c"} != multiset{"a", "b_c"}
  {
    RoomKeyIsSortedJoin("a_b", "c");
    RoomKeyIsSortedJoin("a", "b_c");
    assert LexLe("a_b", "c") && !LexLe("c", "a_b");
    assert LexLe("a", "b_c") && !LexLe("b_c", "a");
    assert "a_b" !in multiset{"a", "b_c"};
  }
}
