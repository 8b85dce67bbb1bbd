/** Sequences without repetition, as the node lists of linked structures. */
module Lists {

  ghost predicate Distinct<N>(s: seq<N>) {
    forall i, j :: 0 <= i < j < |s| ==> s[i] != s[j]
  }

  ghost predicate SameElements<N>(s: seq<N>, e: set<N>) {
    (forall i :: 0 <= i < |s| ==> s[i] in e) && (forall x :: x in e ==> x in s)
  }

  /** Position of a node in a list of distinct nodes. */
  ghost predicate Numbered<N>(s: seq<N>, pos: map<N, nat>) {
    forall i :: 0 <= i < |s| ==> s[i] in pos && pos[s[i]] == i
  }

  lemma Number<N>(s: seq<N>) returns (pos: map<N, nat>)
    requires Distinct(s)
    ensures Numbered(s, pos)
  {
    pos := map x | x in s :: var i :| 0 <= i < |s| && s[i] == x; i;
  }

  lemma DistinctPush<N>(s: seq<N>, e: set<N>, x: N)
    requires Distinct(s) && SameElements(s, e) && x !in e
    ensures Distinct([x] + s) && SameElements([x] + s, e + {x})
  {
    forall y | y in e + {x} ensures y in [x] + s {
      if y in e {
        var i :| 0 <= i < |s| && s[i] == y;
        assert ([x] + s)[i + 1] == y;
      } else {
        assert ([x] + s)[0] == y;
      }
    }
  }

  ghost function Without<N>(s: seq<N>, j: nat): seq<N>
    requires j < |s|
  {
    s[..j] + s[j + 1..]
  }

  lemma DistinctWithout<N>(s: seq<N>, e: set<N>, j: nat)
    requires Distinct(s) && SameElements(s, e) && j < |s|
    ensures Distinct(Without(s, j)) && SameElements(Without(s, j), e - {s[j]})
  {
    var r := Without(s, j);
    assert forall i :: 0 <= i < |r| ==> r[i] == s[if i < j then i else i + 1];
    forall y | y in e - {s[j]} ensures y in r {
      var i :| 0 <= i < |s| && s[i] == y;
      assert r[if i < j then i else i - 1] == y;
    }
  }

  /** Where b stands in a list of distinct nodes, and what the list without it looks like. */
  lemma PlaceOf<N>(s: seq<N>, e: set<N>, b: N) returns (j: nat, pos: map<N, nat>)
    requires Distinct(s) && SameElements(s, e) && b in e
    ensures j < |s| && s[j] == b && Numbered(s, pos)
    ensures Distinct(Without(s, j)) && SameElements(Without(s, j), e - {b}) && |Without(s, j)| == |s| - 1
    ensures forall i :: 0 <= i < j ==> Without(s, j)[i] == s[i]
    ensures forall i :: j <= i < |s| - 1 ==> Without(s, j)[i] == s[i + 1]
  {
    pos := Number(s);
    j :| 0 <= j < |s| && s[j] == b;
    DistinctWithout(s, e, j);
  }

  lemma {:induction false} Cardinality<N>(s: seq<N>, e: set<N>)
    requires Distinct(s) && SameElements(s, e)
    ensures |s| == |e|
    decreases s
  {
    if s == [] {
      assert e == {};
    } else {
      assert Without(s, 0) == s[1..];
      DistinctWithout(s, e, 0);
      Cardinality(s[1..], e - {s[0]});
    }
  }
}
