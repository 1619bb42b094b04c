/** Names that lead to other names, as includes and base profiles do. */
module Acyclicity {

  /** Where each name leads; a name without an entry is missing. */
  type Links = map<string, seq<string>>

  /** A chain of links between names that are there. */
  predicate Path(g: Links, p: seq<string>)
  {
    p != [] && (forall i :: 0 <= i < |p| ==> p[i] in g) && (forall i :: 0 < i < |p| ==> p[i] in g[p[i - 1]])
  }

  predicate NoRepeats(p: seq<string>)
  {
    forall i, j :: 0 <= i < j < |p| ==> p[i] != p[j]
  }

  /** Nothing that a name leads to leads back to itself. */
  ghost predicate Acyclic(g: Links, name: string)
  {
    forall p :: Path(g, p) && p[0] == name ==> NoRepeats(p)
  }

  ghost predicate HasPath(g: Links, name: string, n: nat)
  {
    exists p :: Path(g, p) && p[0] == name && |p| == n
  }

  /** The length of the longest path of up to k names from a name. */
  ghost function Longest(g: Links, name: string, k: nat): (n: nat)
    ensures n <= k && (n > 0 ==> HasPath(g, name, n))
    ensures forall m :: n < m <= k ==> !HasPath(g, name, m)
  {
    if k == 0 then 0 else if HasPath(g, name, k) then k else Longest(g, name, k - 1)
  }

  ghost function Height(g: Links, name: string): nat
  {
    Longest(g, name, |g|)
  }

  /** Different names of a set are no more than there are. */
  lemma {:induction false} Pigeonhole(p: seq<string>, s: set<string>)
    requires NoRepeats(p) && forall i :: 0 <= i < |p| ==> p[i] in s
    ensures |p| <= |s|
    decreases |p|
  {
    if p != [] {
      var n := |p| - 1;
      Pigeonhole(p[..n], s - {p[n]});
    }
  }

  lemma PathBounded(g: Links, p: seq<string>)
    requires Path(g, p) && Acyclic(g, p[0])
    ensures |p| <= |g|
  {
    Pigeonhole(p, g.Keys);
  }

  lemma Extend(g: Links, name: string, p: seq<string>)
    requires Path(g, p) && name in g && p[0] in g[name]
    ensures Path(g, [name] + p)
  {
  }

  /** What an acyclic name leads to is acyclic and has a shorter longest path. */
  lemma Descend(g: Links, name: string, next: string)
    requires name in g && next in g && next in g[name] && Acyclic(g, name)
    ensures Acyclic(g, next) && Height(g, next) < Height(g, name)
  {
    hide Longest;
    forall p | Path(g, p) && p[0] == next ensures NoRepeats(p) {
      Extend(g, name, p);
      var q := [name] + p;
      assert NoRepeats(q);
      assert forall i :: 0 <= i < |p| ==> p[i] == q[i + 1];
    }
    Single(g, next);
    var k := Height(g, next);
    PathAt(g, next, |g|);
    var p :| Path(g, p) && p[0] == next && |p| == k;
    Extend(g, name, p);
    PathBounded(g, [name] + p);
    assert HasPath(g, name, k + 1);
  }

  lemma Single(g: Links, name: string)
    requires name in g
    ensures HasPath(g, name, 1) && |g| >= 1
  {
    assert Path(g, [name]);
    assert name in g.Keys;
  }

  lemma PathAt(g: Links, name: string, k: nat)
    requires name in g && k >= 1
    ensures Longest(g, name, k) >= 1
  {
    Single(g, name);
  }

  lemma MemberHeight(g: Links, name: string)
    requires name in g
    ensures Height(g, name) >= 1
  {
    Single(g, name);
    PathAt(g, name, |g|);
  }

  /** A missing name leads nowhere. */
  lemma Missing(g: Links, name: string)
    requires name !in g
    ensures Acyclic(g, name) && Height(g, name) == 0
  {
  }

  // ---------------------------------------------------------------- ranks

  /** A rank for everything a name leads to, falling along every link. */
  ghost predicate Ranked(g: Links, rank: map<string, nat>, name: string)
  {
    && (name in g ==> name in rank)
    && forall n, next :: n in rank && n in g && next in g[n] && next in g ==> next in rank && rank[next] < rank[n]
  }

  lemma {:induction false} RankFalls(g: Links, rank: map<string, nat>, p: seq<string>, i: nat)
    requires Path(g, p) && Ranked(g, rank, p[0]) && i < |p|
    ensures p[i] in rank
    ensures forall j :: 0 <= j < i ==> p[j] in rank && rank[p[i]] < rank[p[j]]
    decreases i
  {
    if i > 0 {
      RankFalls(g, rank, p, i - 1);
      assert p[i] in g[p[i - 1]];
    }
  }

  /** A name is acyclic exactly when there is such a rank. */
  lemma AcyclicExactly(g: Links, name: string)
    ensures Acyclic(g, name) <==> exists rank :: Ranked(g, rank, name)
  {
    if Acyclic(g, name) {
      var rank := map n | n in g && Acyclic(g, n) :: Height(g, n);
      forall n, next | n in rank && n in g && next in g[n] && next in g
        ensures next in rank && rank[next] < rank[n]
      {
        Descend(g, n, next);
      }
      assert Ranked(g, rank, name);
    }
    if rank :| Ranked(g, rank, name) {
      forall p | Path(g, p) && p[0] == name ensures NoRepeats(p) {
        forall i | 0 <= i < |p| ensures forall j :: 0 <= j < i ==> p[j] != p[i] {
          RankFalls(g, rank, p, i);
        }
      }
    }
  }
}
