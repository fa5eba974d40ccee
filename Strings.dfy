/** The few operations of Python's `str` that util.py relies on, on
    `seq<char>`: splitting and joining on a one-character separator,
    replacing or deleting a character, and substring containment. */
module Strings {

  /** `s.split(c)`: the pieces between the occurrences of `c`, empty pieces
      kept, so there is always at least one piece. What the pieces are is
      stated by the lemmas below, so that a proof only carries the facts it
      uses. */
  function Split(s: string, c: char): (pieces: seq<string>)
    ensures |pieces| >= 1
    decreases |s|
  {
    if |s| == 0 then [""]
    else
      var rest := Split(s[1..], c);
      if s[0] == c then [""] + rest
      else [[s[0]] + rest[0]] + rest[1..]
  }

  /** No piece holds the separator. */
  lemma {:induction false} SplitPiecesAvoid(s: string, c: char)
    ensures forall i :: 0 <= i < |Split(s, c)| ==> c !in Split(s, c)[i]
    decreases |s|
  {
    if |s| > 0 {
      SplitPiecesAvoid(s[1..], c);
    }
  }

  /** The first piece is the text before the first separator, or all of
      `s` when there is none. */
  lemma {:induction false} SplitHead(s: string, c: char)
    ensures Split(s, c)[0] <= s
    ensures c !in Split(s, c)[0]
    ensures c in s ==> |Split(s, c)[0]| < |s| && s[|Split(s, c)[0]|] == c
    ensures c !in s ==> Split(s, c) == [s]
    decreases |s|
  {
    if |s| > 0 {
      SplitHead(s[1..], c);
      assert [s[0]] + s[1..] == s;
    }
  }

  /** There is more than one piece exactly when the separator occurs. */
  lemma {:induction false} SplitCount(s: string, c: char)
    ensures |Split(s, c)| == 1 <==> c !in s
    decreases |s|
  {
    if |s| > 0 {
      SplitCount(s[1..], c);
    }
  }

  /** `c.join(parts)`: the parts in order with one `c` between each two,
      so it is at least as long as its separators. */
  function Join(parts: seq<string>, c: char): (r: string)
    ensures |r| >= |parts| - 1
  {
    if |parts| == 0 then ""
    else if |parts| == 1 then parts[0]
    else parts[0] + [c] + Join(parts[1..], c)
  }

  /** `s.replace(a, b)` for single characters `a` and `b`. */
  function Replace(s: string, a: char, b: char): (r: string)
    ensures |r| == |s|
    ensures forall i :: 0 <= i < |s| ==> r[i] == (if s[i] == a then b else s[i])
    ensures a != b ==> a !in r
  {
    if |s| == 0 then "" else [if s[0] == a then b else s[0]] + Replace(s[1..], a, b)
  }

  /** `s.replace(c, "")`: `s` with every `c` deleted, the rest in order. */
  function Delete(s: string, c: char): (r: string)
    ensures c !in r
    ensures c !in s ==> r == s
    ensures |r| == |s| - multiset(s)[c]
  {
    if |s| == 0 then ""
    else
      assert [s[0]] + s[1..] == s;
      assert multiset(s) == multiset([s[0]]) + multiset(s[1..]);
      (if s[0] == c then "" else [s[0]]) + Delete(s[1..], c)
  }

  /** `t` occurs in `s` at offset `i`. */
  predicate OccursAt(s: string, t: string, i: int) {
    0 <= i <= |s| - |t| && s[i..i + |t|] == t
  }

  /** `t in s` for strings: `t` occurs in `s` at some offset. */
  function Contains(s: string, t: string): (b: bool)
    ensures b <==> exists i :: OccursAt(s, t, i)
    decreases |s|
  {
    if t <= s then
      assert OccursAt(s, t, 0);
      true
    else if |s| == 0 then
      assert forall i :: !OccursAt(s, t, i);
      false
    else
      ContainsShift(s, t);
      Contains(s[1..], t)
  }

  /** An occurrence of `t` in `s` that is not at offset 0 is an occurrence
      in `s[1..]`, and the other way round. */
  lemma ContainsShift(s: string, t: string)
    requires |s| > 0 && !(t <= s)
    ensures (exists i :: OccursAt(s, t, i)) <==> (exists i :: OccursAt(s[1..], t, i))
  {
    if i :| OccursAt(s, t, i) {
      assert i != 0;
      assert s[1..][i - 1..i - 1 + |t|] == s[i..i + |t|];
      assert OccursAt(s[1..], t, i - 1);
    }
    if i :| OccursAt(s[1..], t, i) {
      assert s[i + 1..i + 1 + |t|] == s[1..][i..i + |t|];
      assert OccursAt(s, t, i + 1);
    }
  }

  /** A character absent from `s` is absent from every piece of its split. */
  lemma {:induction false} SplitAvoids(s: string, c: char, x: char)
    requires x !in s
    ensures forall i :: 0 <= i < |Split(s, c)| ==> x !in Split(s, c)[i]
    decreases |s|
  {
    if |s| > 0 {
      SplitAvoids(s[1..], c, x);
    }
  }

  /** Deleting characters adds none. */
  lemma {:induction false} DeleteAvoids(s: string, c: char, x: char)
    requires x !in s
    ensures x !in Delete(s, c)
    decreases |s|
  {
    if |s| > 0 {
      DeleteAvoids(s[1..], c, x);
    }
  }

  /** Splitting at a first occurrence of the separator. */
  lemma {:induction false} SplitAt(a: string, b: string, c: char)
    requires c !in a
    ensures Split(a + [c] + b, c) == [a] + Split(b, c)
    decreases |a|
  {
    if |a| == 0 {
      assert a + [c] + b == [c] + b;
      assert ([c] + b)[1..] == b;
    } else {
      assert (a + [c] + b)[1..] == a[1..] + [c] + b;
      SplitAt(a[1..], b, c);
      assert [a[0]] + a[1..] == a;
    }
  }

  /** Joining the pieces of a split gives back the string. */
  lemma {:induction false} JoinSplit(s: string, c: char)
    ensures Join(Split(s, c), c) == s
    decreases |s|
  {
    if |s| > 0 {
      var rest := Split(s[1..], c);
      JoinSplit(s[1..], c);
      assert [s[0]] + s[1..] == s;
      if s[0] == c {
        JoinCons("", rest, c);
      } else if |rest| == 1 {
      } else {
        JoinCons([s[0]] + rest[0], rest[1..], c);
        JoinCons(rest[0], rest[1..], c);
      }
    }
  }

  lemma JoinCons(head: string, rest: seq<string>, c: char)
    requires |rest| >= 1
    ensures Join([head] + rest, c) == head + [c] + Join(rest, c)
  {
    assert ([head] + rest)[1..] == rest;
  }

  /** Splitting a join gives back the parts, when no part holds the
      separator. */
  lemma {:induction false} SplitJoin(parts: seq<string>, c: char)
    requires |parts| >= 1
    requires forall i :: 0 <= i < |parts| ==> c !in parts[i]
    ensures Split(Join(parts, c), c) == parts
    decreases |parts|
  {
    if |parts| == 1 {
      SplitHead(parts[0], c);
    } else {
      SplitJoin(parts[1..], c);
      SplitAt(parts[0], Join(parts[1..], c), c);
    }
  }

  /** A character that is neither the separator nor in any part is not in
      the join. */
  lemma {:induction false} JoinAvoids(parts: seq<string>, c: char, x: char)
    requires x != c
    requires forall i :: 0 <= i < |parts| ==> x !in parts[i]
    ensures x !in Join(parts, c)
    decreases |parts|
  {
    if |parts| > 1 {
      JoinAvoids(parts[1..], c, x);
    }
  }

  /** Replacing the separator of a join by another one re-joins the parts
      with the other one, when no part holds the first. */
  lemma {:induction false} ReplaceSeparator(parts: seq<string>, a: char, b: char)
    requires forall i :: 0 <= i < |parts| ==> a !in parts[i]
    ensures Replace(Join(parts, a), a, b) == Join(parts, b)
    decreases |parts|
  {
    if |parts| == 1 {
      ReplaceAbsent(parts[0], a, b);
    } else if |parts| > 1 {
      ReplaceSeparator(parts[1..], a, b);
      ReplaceAbsent(parts[0], a, b);
      ReplaceAppend(parts[0] + [a], Join(parts[1..], a), a, b);
      ReplaceAppend(parts[0], [a], a, b);
    }
  }

  lemma ReplaceAbsent(s: string, a: char, b: char)
    requires a !in s
    ensures Replace(s, a, b) == s
  {
  }

  lemma ReplaceAppend(s: string, t: string, a: char, b: char)
    ensures Replace(s + t, a, b) == Replace(s, a, b) + Replace(t, a, b)
  {
  }

  /** A join ends with its last part. */
  lemma {:induction false} JoinEndsWithLast(parts: seq<string>, c: char)
    requires |parts| >= 1
    ensures |parts[|parts| - 1]| <= |Join(parts, c)|
    ensures Join(parts, c)[|Join(parts, c)| - |parts[|parts| - 1]|..] == parts[|parts| - 1]
    decreases |parts|
  {
    if |parts| > 1 {
      JoinEndsWithLast(parts[1..], c);
    }
  }

  /** Deleting a character distributes over concatenation. */
  lemma {:induction false} DeleteAppend(s: string, t: string, c: char)
    ensures Delete(s + t, c) == Delete(s, c) + Delete(t, c)
    decreases |s|
  {
    if |s| == 0 {
      assert s + t == t;
    } else {
      assert (s + t)[1..] == s[1..] + t;
      DeleteAppend(s[1..], t, c);
    }
  }
}
