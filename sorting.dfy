/** Sorting usernames by the NOCASE collation. The result is specified only
    as a sorted permutation: names that tie after case folding may come in
    either order. */
module NoCaseSort {
  import opened Collation

  predicate Sorted(s: seq<string>)
  {
    forall i, j :: 0 <= i < j < |s| ==> NoCaseLe(s[i], s[j])
  }

  predicate Distinct(s: seq<string>)
  {
    forall i, j :: 0 <= i < j < |s| ==> s[i] != s[j]
  }

  /** Every element of a sorted sequence after its head sorts no earlier than the head. */
  lemma HeadIsLeast(s: seq<string>, e: string)
    requires Sorted(s) && |s| > 0 && e in s[1..]
    ensures NoCaseLe(s[0], e)
  {
  }

  /** A head that sorts no later than every element of a sorted tail keeps it sorted. */
  lemma ConsSorted(h: string, t: seq<string>)
    requires Sorted(t)
    requires forall e :: e in t ==> NoCaseLe(h, e)
    ensures Sorted([h] + t)
  {
  }

  lemma ConsDistinct(h: string, t: seq<string>)
    requires Distinct(t) && h !in t
    ensures Distinct([h] + t)
  {
  }

  /** Inserts `x` into the sorted `s`, before the first element it sorts before. */
  function Insert(x: string, s: seq<string>): (r: seq<string>)
    requires Sorted(s)
    ensures Sorted(r)
    ensures multiset(r) == multiset(s) + multiset{x}
    ensures Distinct(s) && x !in s ==> Distinct(r)
  {
    if s == [] then [x]
    else if NoCaseLe(x, s[0]) then
      assert Sorted([x] + s) by {
        forall e | e in s ensures NoCaseLe(x, e) {
          if e != s[0] {
            assert e in s[1..] by { assert s == [s[0]] + s[1..]; }
            HeadIsLeast(s, e);
            NoCaseTransitive(x, s[0], e);
          }
        }
        ConsSorted(x, s);
      }
      assert Distinct(s) && x !in s ==> Distinct([x] + s) by {
        if Distinct(s) && x !in s { ConsDistinct(x, s); }
      }
      [x] + s
    else
      var t := Insert(x, s[1..]);
      assert s == [s[0]] + s[1..];
      assert Sorted([s[0]] + t) by {
        NoCaseTotal(x, s[0]);
        forall e | e in t ensures NoCaseLe(s[0], e) {
          assert e in multiset(t);
          if e != x { HeadIsLeast(s, e); }
        }
        ConsSorted(s[0], t);
      }
      assert Distinct(s) && x !in s ==> Distinct([s[0]] + t) by {
        if Distinct(s) && x !in s {
          assert s[0] !in s[1..] by { DistinctHead(s); }
          assert s[0] !in multiset(t);
          ConsDistinct(s[0], t);
        }
      }
      [s[0]] + t
  }

  lemma DistinctHead(s: seq<string>)
    requires Distinct(s) && |s| > 0
    ensures s[0] !in s[1..] && Distinct(s[1..])
  {
  }

  /** Insertion sort by NOCASE. */
  function Sort(s: seq<string>): (r: seq<string>)
    ensures Sorted(r)
    ensures multiset(r) == multiset(s)
    ensures Distinct(s) ==> Distinct(r)
  {
    if s == [] then []
    else
      assert s == [s[0]] + s[1..];
      var t := Sort(s[1..]);
      assert Distinct(s) ==> s[0] !in t && Distinct(s[1..]) by {
        if Distinct(s) {
          DistinctHead(s);
          assert s[0] !in multiset(t);
        }
      }
      Insert(s[0], t)
  }
}
