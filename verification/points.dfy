/** Sample points and the strict ordering the container keeps them in. */
module Points {

  /** A sample (x, y); a value type, so every copy the source makes is implicit. */
  datatype Point = Point(x: real, y: real)

  /** Every earlier point has a strictly smaller x than every later one. */
  ghost predicate Ascending(s: seq<Point>) {
    forall i, j :: 0 <= i < j < |s| ==> s[i].x < s[j].x
  }

  /** Each point has a strictly smaller x than its right neighbour:
      the check the source performs pair by pair. */
  ghost predicate AdjacentAscending(s: seq<Point>) {
    forall i :: 0 < i < |s| ==> s[i - 1].x < s[i].x
  }

  /** Absolute value over the reals. */
  function Abs(r: real): (a: real)
    ensures a >= 0.0 && (a == r || a == -r)
  {
    if r < 0.0 then -r else r
  }

  /** The pairwise and the neighbour-wise readings of the order agree. */
  lemma AscendingIffAdjacent(s: seq<Point>)
    ensures Ascending(s) <==> AdjacentAscending(s)
  {
    if AdjacentAscending(s) {
      forall i, j | 0 <= i < j < |s|
        ensures s[i].x < s[j].x
      {
        AdjacentChain(s, i, j);
      }
    }
  }

  lemma {:induction false} AdjacentChain(s: seq<Point>, i: int, j: int)
    requires AdjacentAscending(s)
    requires 0 <= i < j < |s|
    ensures s[i].x < s[j].x
    decreases j - i
  {
    if i + 1 < j {
      AdjacentChain(s, i + 1, j);
    }
  }

  /** Removing one point keeps the order. */
  lemma AscendingRemove(s: seq<Point>, k: int)
    requires Ascending(s)
    requires 0 <= k < |s|
    ensures Ascending(s[..k] + s[k + 1..])
  {
    var t := s[..k] + s[k + 1..];
    forall i, j | 0 <= i < j < |t|
      ensures t[i].x < t[j].x
    {
      var i' := if i < k then i else i + 1;
      var j' := if j < k then j else j + 1;
      assert t[i] == s[i'] && t[j] == s[j'];
    }
  }

  /** Inserting a point between a strictly smaller and a strictly larger
      neighbour keeps the order. */
  lemma AscendingInsert(s: seq<Point>, k: int, p: Point)
    requires Ascending(s)
    requires 0 <= k <= |s|
    requires k > 0 ==> s[k - 1].x < p.x
    requires k < |s| ==> p.x < s[k].x
    ensures Ascending(s[..k] + [p] + s[k..])
  {
    var t := s[..k] + [p] + s[k..];
    forall i, j | 0 <= i < j < |t|
      ensures t[i].x < t[j].x
    {
      if j < k {
        assert t[i] == s[i] && t[j] == s[j];
      } else if j == k {
        assert t[i] == s[i] && t[j] == p;
        assert s[i].x <= s[k - 1].x;
      } else if i < k {
        assert t[i] == s[i] && t[j] == s[j - 1];
      } else if i == k {
        assert t[i] == p && t[j] == s[j - 1];
        assert s[k].x <= s[j - 1].x;
      } else {
        assert t[i] == s[i - 1] && t[j] == s[j - 1];
      }
    }
  }

  /** Replacing a point by one that still lies strictly between its
      neighbours keeps the order. */
  lemma AscendingReplace(s: seq<Point>, k: int, p: Point)
    requires Ascending(s)
    requires 0 <= k < |s|
    requires k > 0 ==> s[k - 1].x < p.x
    requires k + 1 < |s| ==> p.x < s[k + 1].x
    ensures Ascending(s[k := p])
  {
    var t := s[k := p];
    forall i, j | 0 <= i < j < |t|
      ensures t[i].x < t[j].x
    {
      if i == k {
        assert s[k + 1].x <= s[j].x;
      } else if j == k {
        assert s[i].x <= s[k - 1].x;
      }
    }
  }

  /** A sequence of two or more points is ordered exactly when its first
      pair is and the rest is. */
  lemma AscendingStep(s: seq<Point>)
    requires |s| >= 2
    ensures Ascending(s) <==> s[0].x < s[1].x && Ascending(s[1..])
  {
    if s[0].x < s[1].x && Ascending(s[1..]) {
      forall i, j | 0 <= i < j < |s|
        ensures s[i].x < s[j].x
      {
        if i == 0 {
          if j > 1 {
            assert s[1..][0] == s[1] && s[1..][j - 1] == s[j];
          }
        } else {
          assert s[1..][i - 1] == s[i] && s[1..][j - 1] == s[j];
        }
      }
    }
    if Ascending(s) {
      forall i, j | 0 <= i < j < |s[1..]|
        ensures s[1..][i].x < s[1..][j].x
      {
        assert s[1..][i] == s[i + 1] && s[1..][j] == s[j + 1];
      }
    }
  }

  /** In an ordered sequence, a replacement keeps the order exactly when it
      lies strictly between the neighbours that exist. */
  lemma ReplaceKeepsOrderIff(s: seq<Point>, k: int, p: Point)
    requires Ascending(s)
    requires 0 <= k < |s|
    ensures Ascending(s[k := p]) <==>
              (k > 0 ==> s[k - 1].x < p.x) && (k + 1 < |s| ==> p.x < s[k + 1].x)
  {
    if (k > 0 ==> s[k - 1].x < p.x) && (k + 1 < |s| ==> p.x < s[k + 1].x) {
      AscendingReplace(s, k, p);
    } else if k > 0 && p.x <= s[k - 1].x {
      var t := s[k := p];
      assert t[k - 1] == s[k - 1] && t[k] == p;
      assert !(t[k - 1].x < t[k].x);
    } else {
      var t := s[k := p];
      assert k + 1 < |s| && p.x >= s[k + 1].x;
      assert t[k + 1] == s[k + 1] && t[k] == p;
      assert !(t[k].x < t[k + 1].x);
    }
  }
}
