/** The part of the red-black tree's `getStellarPath` that works on the two code paths
    alone: where the path from the root to Earth and the path from the root to the
    target part, and which codes are looked up, in which order, to walk from Earth up to
    that point and down to the target. */
module LlrbStellar {
  import opened SectorTrees

  /** The code of the sector at the origin, Earth. */
  const EARTH: string := "0SSS"

  /** How many leading codes two paths share. */
  function CommonPrefix(a: seq<string>, b: seq<string>): (c: nat)
    ensures c <= |a| && c <= |b|
    ensures forall i :: 0 <= i < c ==> a[i] == b[i]
    ensures c < |a| && c < |b| ==> a[c] != b[c]
  {
    if a == [] || b == [] || a[0] != b[0] then 0
    else
      var c' := CommonPrefix(a[1..], b[1..]);
      assert forall i :: 1 <= i < c' + 1 ==> a[i] == a[1..][i - 1] && b[i] == b[1..][i - 1];
      1 + c'
  }

  /** A shared prefix that cannot be extended is the common prefix. */
  lemma CommonPrefixUnique(a: seq<string>, b: seq<string>, n: nat)
    requires n <= |a| && n <= |b| && forall i :: 0 <= i < n ==> a[i] == b[i]
    requires n == |a| || n == |b| || a[n] != b[n]
    ensures CommonPrefix(a, b) == n
  {
  }

  /** The intersection loop of `getStellarPath` as written. Its indexes move together;
      it stops at the first position where the paths differ or one of them has ended
      (a read past the end of a path counts as a difference) and records the position
      before it. When the two paths are equal it runs to the end and the recorded
      intersection stays at -1. */
  method IntersectionAsWritten(path1: seq<string>, path2: seq<string>) returns (intersection: int)
    ensures intersection == if path1 == path2 then -1 else CommonPrefix(path1, path2) - 1
  {
    intersection := -1;
    var i, j := 0, 0;
    while i != |path1| || j != |path2|
      invariant i == j && i <= |path1| && j <= |path2|
      invariant forall k :: 0 <= k < i ==> path1[k] == path2[k]
      invariant intersection == -1
      decreases |path1| - i
    {
      if i == j && i < |path1| && j < |path2| && path1[i] == path2[j] {
        i, j := i + 1, j + 1;
      } else {
        intersection := j - 1;
        CommonPrefixUnique(path1, path2, i);
        assert path1 != path2 by {
          if |path1| == |path2| { assert path1[i] != path2[i]; }
        }
        return;
      }
    }
    assert path1 == path2;
  }

  /** The intersection loop with the end of the loop handled: when the paths are equal
      (the target is Earth) they meet at their last code. */
  method Intersection(path1: seq<string>, path2: seq<string>) returns (intersection: int)
    ensures intersection == CommonPrefix(path1, path2) - 1
  {
    intersection := -1;
    var i, j := 0, 0;
    while i != |path1| || j != |path2|
      invariant i == j && i <= |path1| && j <= |path2|
      invariant forall k :: 0 <= k < i ==> path1[k] == path2[k]
      decreases |path1| - i
    {
      if i == j && i < |path1| && j < |path2| && path1[i] == path2[j] {
        i, j := i + 1, j + 1;
      } else {
        intersection := j - 1;
        CommonPrefixUnique(path1, path2, i);
        return;
      }
    }
    intersection := j - 1;
    CommonPrefixUnique(path1, path2, i);
  }

  /** The codes the two assembly loops look up, in push order: the first path backwards
      down to just after the intersection, then the second path from the intersection
      on. An intersection of -1 compares as the largest unsigned size, so the second
      loop does not run. */
  function PathCodes(path1: seq<string>, path2: seq<string>, intersection: int): seq<string>
    requires -1 <= intersection < |path1| && intersection < |path2|
  {
    Reverse(path1[intersection + 1..]) + (if intersection >= 0 then path2[intersection..] else [])
  }

  /** With the intersection at the last shared code, the walk goes from the end of the
      first path up to the shared code and down to the end of the second path: it starts
      at Earth's end, ends at the target's end, passes the meeting point once, and each
      position reads the code the walk is at. */
  lemma PathCodesWalk(path1: seq<string>, path2: seq<string>)
    requires path1 != [] && path2 != [] && path1[0] == path2[0]
    ensures var c := CommonPrefix(path1, path2);
      var s := PathCodes(path1, path2, c - 1);
      c >= 1
      && |s| == (|path1| - c) + (|path2| - c) + 1
      && s[0] == path1[|path1| - 1] && s[|s| - 1] == path2[|path2| - 1]
      && s[|path1| - c] == path1[c - 1] && s[|path1| - c] == path2[c - 1]
      && (forall i :: 0 <= i < |path1| - c ==> s[i] == path1[|path1| - 1 - i])
      && (forall i :: |path1| - c <= i < |s| ==> s[i] == path2[i - (|path1| - c) + c - 1])
  {
    var c := CommonPrefix(path1, path2);
    var up, down := Reverse(path1[c..]), path2[c - 1..];
    var s := PathCodes(path1, path2, c - 1);
    PathCodesSplit(path1, path2);
    forall i | 0 <= i < |path1| - c ensures s[i] == path1[|path1| - 1 - i] {
      assert s[i] == up[i] == path1[c..][|up| - 1 - i];
    }
    forall i | |path1| - c <= i < |s| ensures s[i] == path2[i - (|path1| - c) + c - 1] {
      assert s[i] == down[i - |up|];
    }
    assert s[|path1| - c] == path2[c - 1];
    assert path1[c - 1] == path2[c - 1];
  }

  /** Two code paths from the same root share at least that root, and the walk between
      them is the first path's unshared part backwards followed by the second path from
      the last shared code on. */
  lemma PathCodesSplit(path1: seq<string>, path2: seq<string>)
    requires path1 != [] && path2 != [] && path1[0] == path2[0]
    ensures var c := CommonPrefix(path1, path2);
      c >= 1 && PathCodes(path1, path2, c - 1) == Reverse(path1[c..]) + path2[c - 1..]
  {
    var c := CommonPrefix(path1, path2);
    assert c >= 1;
    assert path1[c - 1 + 1..] == path1[c..];
  }



  /** The corrected walk between two code paths: the intersection is the last code they
      share. */
  function Walk(path1: seq<string>, path2: seq<string>): seq<string> {
    PathCodes(path1, path2, CommonPrefix(path1, path2) - 1)
  }

  /** The walk as the source writes it: when the two paths are equal the intersection
      stays at -1. */
  function WalkAsWritten(path1: seq<string>, path2: seq<string>): seq<string> {
    PathCodes(path1, path2, if path1 == path2 then -1 else CommonPrefix(path1, path2) - 1)
  }

  /** With the intersection at the last shared code, the walk starts at the end of the
      first path and ends at the end of the second. */
  lemma PathCodesEnds(path1: seq<string>, path2: seq<string>, first: string, last: string)
    requires path1 != [] && path2 != [] && path1[0] == path2[0]
    requires path1[|path1| - 1] == first && path2[|path2| - 1] == last
    ensures var s := Walk(path1, path2);
      s != [] && s[0] == first && s[|s| - 1] == last
  {
    PathCodesWalk(path1, path2);
  }

  /** Whatever holds of every code of both paths holds of every code the walk looks up. */
  lemma WalkWithin(path1: seq<string>, path2: seq<string>, p: string -> bool)
    requires path1 != [] && path2 != [] && path1[0] == path2[0]
    requires forall i :: 0 <= i < |path1| ==> p(path1[i])
    requires forall i :: 0 <= i < |path2| ==> p(path2[i])
    ensures forall i :: 0 <= i < |Walk(path1, path2)| ==> p(Walk(path1, path2)[i])
  {
    var c := CommonPrefix(path1, path2);
    var up, down := Reverse(path1[c..]), path2[c - 1..];
    var s := Walk(path1, path2);
    PathCodesSplit(path1, path2);
    assert s == up + down;
    forall i | 0 <= i < |s| ensures p(s[i]) {
      if i < |up| {
        assert s[i] == up[i] == path1[c..][|up| - 1 - i] == path1[c + |up| - 1 - i];
      } else {
        assert s[i] == down[i - |up|] == path2[c - 1 + i - |up|];
      }
    }
  }

  /** With no intersection recorded the walk is the first path backwards. */
  lemma PathCodesNoIntersection(p1: seq<string>, p2: seq<string>)
    ensures PathCodes(p1, p2, -1) == Reverse(p1)
  {
    assert p1[0..] == p1;
  }

  /** A path walked to itself from its last code is that code alone. */
  lemma PathCodesAtEnd(p: seq<string>)
    requires p != []
    ensures PathCodes(p, p, |p| - 1) == [p[|p| - 1]]
  {
    assert p[|p|..] == [];
    assert p[|p| - 1..] == [p[|p| - 1]];
  }

  /** Every code the walk looks up is a code of one of the two paths. */
  lemma PathCodesCovered(path1: seq<string>, path2: seq<string>)
    requires path1 != [] && path2 != [] && path1[0] == path2[0]
    ensures var s := PathCodes(path1, path2, CommonPrefix(path1, path2) - 1);
      forall i :: 0 <= i < |s| ==> s[i] in path1 || s[i] in path2
  {
    var c := CommonPrefix(path1, path2);
    var up, down := Reverse(path1[c..]), path2[c - 1..];
    var s := PathCodes(path1, path2, c - 1);
    assert s == up + down;
    forall i | 0 <= i < |s| ensures s[i] in path1 || s[i] in path2 {
      if i < |up| {
        var k := c + |up| - 1 - i;
        assert s[i] == path1[c..][|up| - 1 - i] == path1[k];
      } else {
        var k := c - 1 + i - |up|;
        assert s[i] == down[i - |up|] == path2[k];
      }
    }
  }

  /** As written, when the two paths are equal (the target is Earth itself) the walk is
      the whole path backwards, from Earth up to the root; the corrected walk is Earth
      alone. They differ whenever Earth is not the root. */
  lemma AsWrittenClimbsToRoot(p: seq<string>)
    requires p != []
    ensures PathCodes(p, p, -1) == Reverse(p)
    ensures CommonPrefix(p, p) == |p|
    ensures PathCodes(p, p, |p| - 1) == [p[|p| - 1]]
    ensures |p| >= 2 ==> PathCodes(p, p, -1) != PathCodes(p, p, |p| - 1)
  {
    CommonPrefixUnique(p, p, |p|);
    PathCodesNoIntersection(p, p);
    PathCodesAtEnd(p);
  }

  /** The smallest case: the root at (3, 4, 0), code "5RUS", with Earth as its left
      child. The path from Earth to Earth comes out as Earth and then the root. */
  lemma AsWrittenExample()
    ensures PathCodes(["5RUS", EARTH], ["5RUS", EARTH], -1) == [EARTH, "5RUS"]
    ensures PathCodes(["5RUS", EARTH], ["5RUS", EARTH],
                      CommonPrefix(["5RUS", EARTH], ["5RUS", EARTH]) - 1) == [EARTH]
  {
    AsWrittenClimbsToRoot(["5RUS", EARTH]);
  }
}
