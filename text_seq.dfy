/**
 * Reference definitions, over plain sequences of strings, of what the
 * linked-list operations do to the list's contents: the position of the
 * first occurrence of a text, replacing the first occurrence, and deleting
 * the first occurrence. Each definition walks the sequence head first, the
 * way the C loops walk the chain; the lemmas state what the result means.
 */
module TextSeq {

  /** Position of the first element equal to `x`, or `|s|` when there is none. */
  function IndexOf(s: seq<string>, x: string): (r: nat)
    ensures r <= |s|
    ensures r < |s| <==> x in s
    ensures r < |s| ==> s[r] == x
    ensures forall j :: 0 <= j < r ==> s[j] != x
  {
    if s == [] then 0
    else if s[0] == x then 0
    else 1 + IndexOf(s[1..], x)
  }

  /** `s` with its first element equal to `x` replaced by `y`; `s` itself when `x` is absent. */
  function ReplaceFirst(s: seq<string>, x: string, y: string): seq<string>
  {
    if s == [] then []
    else if s[0] == x then [y] + s[1..]
    else [s[0]] + ReplaceFirst(s[1..], x, y)
  }

  /** `s` without its first element equal to `x`; `s` itself when `x` is absent. */
  function RemoveFirst(s: seq<string>, x: string): seq<string>
  {
    if s == [] then []
    else if s[0] == x then s[1..]
    else [s[0]] + RemoveFirst(s[1..], x)
  }

  /** Replacing the first occurrence is a point update at IndexOf; nothing changes when `x` is absent. */
  lemma {:induction false} ReplaceFirstIsUpdate(s: seq<string>, x: string, y: string)
    ensures x in s ==> ReplaceFirst(s, x, y) == s[IndexOf(s, x) := y]
    ensures x !in s ==> ReplaceFirst(s, x, y) == s
  {
    if s != [] && s[0] != x {
      ReplaceFirstIsUpdate(s[1..], x, y);
      assert s == [s[0]] + s[1..];
    }
  }

  /** Replacing keeps the length and every position but the first occurrence of `x`, where `y` now stands. */
  lemma {:induction false} ReplaceFirstFrame(s: seq<string>, x: string, y: string)
    ensures |ReplaceFirst(s, x, y)| == |s|
    ensures forall j :: 0 <= j < |s| && j != IndexOf(s, x) ==> ReplaceFirst(s, x, y)[j] == s[j]
    ensures x in s ==> ReplaceFirst(s, x, y)[IndexOf(s, x)] == y
  {
    ReplaceFirstIsUpdate(s, x, y);
  }

  /** Removal shortens the sequence by one exactly when `x` occurs. */
  lemma {:induction false} RemoveFirstLength(s: seq<string>, x: string)
    ensures |RemoveFirst(s, x)| == if x in s then |s| - 1 else |s|
  {
    if s != [] && s[0] != x {
      RemoveFirstLength(s[1..], x);
    }
  }

  /** Removing an absent text changes nothing. */
  lemma {:induction false} RemoveFirstAbsent(s: seq<string>, x: string)
    requires x !in s
    ensures RemoveFirst(s, x) == s
  {
    if s != [] {
      RemoveFirstAbsent(s[1..], x);
      assert s == [s[0]] + s[1..];
    }
  }

  /** Where element `j` of `s` lands after the first occurrence of `x` is removed. */
  lemma {:induction false} RemoveFirstAt(s: seq<string>, x: string, j: nat)
    requires x in s && j < |s| && j != IndexOf(s, x)
    ensures |RemoveFirst(s, x)| == |s| - 1
    ensures RemoveFirst(s, x)[if j < IndexOf(s, x) then j else j - 1] == s[j]
  {
    RemoveFirstLength(s, x);
    if s[0] != x && j > 0 {
      RemoveFirstAt(s[1..], x, j - 1);
    }
  }

  /**
   * Removing the first occurrence keeps the elements before it in place and
   * moves every element after it down by one; nothing changes when `x` is absent.
   */
  lemma {:induction false} RemoveFirstShift(s: seq<string>, x: string)
    ensures x !in s ==> RemoveFirst(s, x) == s
    ensures x in s ==> |RemoveFirst(s, x)| == |s| - 1
    ensures x in s ==> forall j :: 0 <= j < IndexOf(s, x) ==> RemoveFirst(s, x)[j] == s[j]
    ensures x in s ==> forall j :: IndexOf(s, x) < j < |s| ==> RemoveFirst(s, x)[j - 1] == s[j]
  {
    RemoveFirstLength(s, x);
    if x !in s {
      RemoveFirstAbsent(s, x);
    } else {
      forall j | 0 <= j < |s| && j != IndexOf(s, x)
        ensures RemoveFirst(s, x)[if j < IndexOf(s, x) then j else j - 1] == s[j]
      {
        RemoveFirstAt(s, x, j);
      }
    }
  }

  /** Equivalently, removal splices the sequence around IndexOf. */
  lemma RemoveFirstIsSplice(s: seq<string>, x: string)
    requires x in s
    ensures RemoveFirst(s, x) == s[..IndexOf(s, x)] + s[IndexOf(s, x) + 1..]
  {
    RemoveFirstLength(s, x);
    var i, r := IndexOf(s, x), RemoveFirst(s, x);
    forall j | 0 <= j < |r|
      ensures r[j] == (s[..i] + s[i + 1..])[j]
    {
      if j < i {
        RemoveFirstAt(s, x, j);
      } else {
        RemoveFirstAt(s, x, j + 1);
      }
    }
  }

  /** Removal takes exactly one copy of `x` out of the multiset of elements when `x` occurs, and nothing else. */
  lemma {:induction false} RemoveFirstMultiset(s: seq<string>, x: string)
    ensures x in s ==> multiset(RemoveFirst(s, x)) == multiset(s) - multiset{x}
    ensures x !in s ==> multiset(RemoveFirst(s, x)) == multiset(s)
  {
    if s != [] {
      assert s == [s[0]] + s[1..];
      if s[0] != x {
        RemoveFirstMultiset(s[1..], x);
      }
    }
  }

  /** After removing the only occurrence of `x`, a second removal of `x` finds nothing. */
  lemma {:induction false} RemoveOnlyOccurrence(s: seq<string>, x: string)
    requires multiset(s)[x] == 1
    ensures x !in RemoveFirst(s, x)
    ensures RemoveFirst(RemoveFirst(s, x), x) == RemoveFirst(s, x)
  {
    assert x in multiset(s);
    RemoveFirstMultiset(s, x);
    assert x !in multiset(RemoveFirst(s, x));
    RemoveFirstShift(RemoveFirst(s, x), x);
  }

  /** Replacing puts one `y` in place of one `x` when `x` occurs. */
  lemma {:induction false} ReplaceFirstMultiset(s: seq<string>, x: string, y: string)
    ensures x in s ==> multiset(ReplaceFirst(s, x, y)) == multiset(s) - multiset{x} + multiset{y}
    ensures x !in s ==> multiset(ReplaceFirst(s, x, y)) == multiset(s)
  {
    if s != [] {
      assert s == [s[0]] + s[1..];
      if s[0] != x {
        ReplaceFirstMultiset(s[1..], x, y);
      }
    }
  }

  /**
   * After replacing the only occurrence of `x` by a different `y`, a second
   * replacement of `x`, by any text `z`, finds nothing and changes nothing.
   */
  lemma {:induction false} ReplaceOnlyOccurrence(s: seq<string>, x: string, y: string, z: string)
    requires multiset(s)[x] == 1 && x != y
    ensures x !in ReplaceFirst(s, x, y)
    ensures ReplaceFirst(ReplaceFirst(s, x, y), x, z) == ReplaceFirst(s, x, y)
  {
    assert x in multiset(s);
    ReplaceFirstMultiset(s, x, y);
    assert x !in multiset(ReplaceFirst(s, x, y));
    ReplaceFirstIsUpdate(ReplaceFirst(s, x, y), x, z);
  }
}
