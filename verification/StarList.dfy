/** IStarList: a linked list of stars with an array index that is rebuilt when it is needed, and
    deletions that are marked first and executed in one pass. */
module StarLists {
  import opened Sequences

  class Star {
    const name: string
    var next: Star?
    var indexNo: nat
    var deletePending: bool
    var counts: real

    constructor (name: string, counts: real)
      ensures this.name == name && this.counts == counts && !deletePending
    {
      this.name, this.counts, next, indexNo, deletePending := name, counts, null, 0, false;
    }
  }

  // ---------------------------------------------------------------- what the list stands for

  predicate Distinct(s: seq<Star>)
  {
    forall i, j :: 0 <= i < j < |s| ==> s[i] != s[j]
  }

  /** What a deletion pass leaves. */
  function Kept(s: seq<Star>, doomed: set<Star>): (r: seq<Star>)
    ensures |r| <= |s|
    ensures forall i :: 0 <= i < |r| ==> r[i] in s && r[i] !in doomed
    ensures forall i :: 0 <= i < |s| && s[i] !in doomed ==> s[i] in r
  {
    if s == [] then []
    else
      var k := Kept(s[..|s| - 1], doomed);
      if s[|s| - 1] in doomed then k else k + [s[|s| - 1]]
  }

  /** Survivors keep their order: each stands behind exactly the survivors that stood before it. */
  lemma {:induction false} KeptInOrder(s: seq<Star>, doomed: set<Star>, i: nat)
    requires i < |s| && s[i] !in doomed
    ensures |Kept(s[..i], doomed)| < |Kept(s, doomed)|
    ensures Kept(s, doomed)[|Kept(s[..i], doomed)|] == s[i]
    decreases |s|
  {
    if i < |s| - 1 {
      var t := s[..|s| - 1];
      assert t[..i] == s[..i];
      KeptInOrder(t, doomed, i);
    }
  }

  lemma {:induction false} KeptDistinct(s: seq<Star>, doomed: set<Star>)
    requires Distinct(s)
    ensures Distinct(Kept(s, doomed))
  {
    if s != [] {
      KeptDistinct(s[..|s| - 1], doomed);
    }
  }

  lemma KeptNone(doomed: set<Star>)
    ensures Kept([], doomed) == []
  {
  }

  /** A deletion pass taken one star further. */
  lemma KeptNext(done: seq<Star>, rest: seq<Star>, doomed: set<Star>)
    requires Distinct(done + rest) && rest != []
    ensures done + rest == done + [rest[0]] + rest[1..]
    ensures Kept(done + [rest[0]], doomed) == Kept(done, doomed) + if rest[0] in doomed then [] else [rest[0]]
    ensures forall x :: x in Kept(done, doomed) ==> x !in rest
    ensures Distinct(Kept(done, doomed))
  {
    var all := done + rest;
    assert forall i, k :: 0 <= i < |done| <= k < |all| ==> all[i] != all[k];
    assert forall i :: 0 <= i < |done| ==> done[i] == all[i];
    assert forall i :: 0 <= i < |rest| ==> rest[i] == all[|done| + i];
    assert (done + [rest[0]])[..|done|] == done;
    KeptDistinct(done, doomed);
  }

  /** Where last stands behind a pass. */
  lemma PassTail(s: seq<Star>, doomed: set<Star>, last: Star?)
    requires s != [] ==> last != null && (last in s ==> last == s[|s| - 1])
    ensures var k := Kept(s, doomed);
            && (k != [] ==> last != null && (last in k ==> last == k[|k| - 1]))
            && (k == [] || last == k[|k| - 1] <==> k == [] || (last == s[|s| - 1] && s[|s| - 1] !in doomed))
  {
  }

  lemma {:induction false} KeptAll(s: seq<Star>, doomed: set<Star>)
    requires forall x :: x in s ==> x !in doomed
    ensures Kept(s, doomed) == s
  {
    if s != [] {
      KeptAll(s[..|s| - 1], doomed);
    }
  }

  lemma {:induction false} KeptTwice(s: seq<Star>, a: set<Star>, b: set<Star>)
    ensures Kept(Kept(s, a), b) == Kept(s, a + b)
  {
    if s != [] {
      var n := |s| - 1;
      KeptTwice(s[..n], a, b);
      if s[n] !in a {
        assert Kept(s, a)[..|Kept(s, a)| - 1] == Kept(s[..n], a);
      }
    }
  }

  /** The stars in order, those marked, and whether last stands at the tail. */
  datatype Contents = Contents(stars: seq<Star>, doomed: set<Star>, intact: bool)

  datatype Op = Add(star: Star) | Mark(star: Star) | Execute

  function Step(c: Contents, op: Op): Contents
    requires op.Mark? ==> op.star in c.stars
  {
    match op
    case Add(star) =>
      if c.stars == [] || c.intact then Contents(c.stars + [star], c.doomed, true) else c
    case Mark(star) => c.(doomed := c.doomed + {star})
    case Execute =>
      var kept := Kept(c.stars, c.doomed);
      Contents(kept, {}, kept == [] || (c.intact && c.stars[|c.stars| - 1] !in c.doomed))
  }

  // ---------------------------------------------------------------- runs

  ghost predicate Callable(c: Contents, ops: seq<Op>)
    decreases |ops|
  {
    ops == [] ||
    (&& (ops[0].Mark? ==> ops[0].star in c.stars)
     && (ops[0].Add? ==> ops[0].star !in c.stars && ops[0].star !in c.doomed)
     && Callable(Step(c, ops[0]), ops[1..]))
  }

  ghost function Run(c: Contents, ops: seq<Op>): Contents
    requires Callable(c, ops)
    decreases |ops|
  {
    if ops == [] then c else Run(Step(c, ops[0]), ops[1..])
  }

  /** Every deletion pass keeps the tail or empties the list. */
  ghost predicate TailsSurvive(c: Contents, ops: seq<Op>)
    requires Callable(c, ops)
    decreases |ops|
  {
    ops == [] ||
    (&& (ops[0].Execute? && Kept(c.stars, c.doomed) != [] ==> c.stars[|c.stars| - 1] !in c.doomed)
     && TailsSurvive(Step(c, ops[0]), ops[1..]))
  }

  function Added(ops: seq<Op>): seq<Star>
  {
    if ops == [] then [] else (if ops[0].Add? then [ops[0].star] else []) + Added(ops[1..])
  }

  ghost function Removed(c: Contents, ops: seq<Op>): set<Star>
    requires Callable(c, ops)
    decreases |ops|
  {
    if ops == [] then {}
    else (if ops[0].Execute? then c.doomed else {}) + Removed(Step(c, ops[0]), ops[1..])
  }

  /** What is removed is what was marked, then or before, when a pass came. */
  lemma {:induction false} RemovedExactly(c: Contents, ops: seq<Op>, x: Star)
    requires Callable(c, ops)
    ensures x in Removed(c, ops)
            <==> (x in c.doomed && exists j :: 0 <= j < |ops| && ops[j].Execute?)
                 || exists i, j :: 0 <= i < j < |ops| && ops[i] == Mark(x) && ops[j].Execute?
    decreases |ops|
  {
    hide Kept;
    if ops != [] {
      var rest := ops[1..];
      RemovedExactly(Step(c, ops[0]), rest, x);
      assert forall k :: 0 < k < |ops| ==> ops[k] == rest[k - 1];
      assert forall k :: 0 <= k < |rest| ==> rest[k] == ops[k + 1];
      if exists j :: 0 <= j < |rest| && rest[j].Execute? {
        var j :| 0 <= j < |rest| && rest[j].Execute?;
        assert ops[j + 1].Execute?;
      }
    }
  }

  predicate Consistent(c: Contents)
  {
    Distinct(c.stars) && (forall x :: x in c.doomed ==> x in c.stars) && (c.stars == [] ==> c.intact)
  }

  lemma StepConsistent(c: Contents, op: Op)
    requires Consistent(c) && (op.Mark? ==> op.star in c.stars) && (op.Add? ==> op.star !in c.stars)
    ensures Consistent(Step(c, op))
  {
    KeptDistinct(c.stars, c.doomed);
  }

  /** Removing is for good: the stars of no later addition were removed before. */
  predicate NewStars(ops: seq<Op>, seen: set<Star>)
  {
    ops == [] ||
    (&& (ops[0].Add? ==> ops[0].star !in seen)
     && NewStars(ops[1..], if ops[0].Add? then seen + {ops[0].star} else seen))
  }

  lemma {:induction false} AddedIsNew(ops: seq<Op>, seen: set<Star>)
    requires NewStars(ops, seen)
    ensures forall x :: x in Added(ops) ==> x !in seen
  {
    if ops != [] {
      AddedIsNew(ops[1..], if ops[0].Add? then seen + {ops[0].star} else seen);
    }
  }

  lemma {:induction false} KeptAppend(a: seq<Star>, b: seq<Star>, doomed: set<Star>)
    ensures Kept(a + b, doomed) == Kept(a, doomed) + Kept(b, doomed)
    decreases |b|
  {
    if b == [] {
      assert a + b == a;
    } else {
      assert (a + b)[..|a + b| - 1] == a + b[..|b| - 1];
      KeptAppend(a, b[..|b| - 1], doomed);
    }
  }

  /** In a run that never deletes the tail but to empty the list, the list holds every star ever
      added and not removed, in the order they were added, and last is at its tail. */
  lemma {:induction false} RunKeepsOrder(c: Contents, ops: seq<Op>, seen: set<Star>)
    requires Consistent(c) && c.intact && Callable(c, ops) && TailsSurvive(c, ops)
    requires NewStars(ops, seen) && forall x :: x in c.stars ==> x in seen
    ensures Consistent(Run(c, ops)) && Run(c, ops).intact
    ensures Run(c, ops).stars == Kept(c.stars + Added(ops), Removed(c, ops))
    decreases |ops|
  {
    hide Kept, Distinct;
    if ops == [] {
      KeptAll(c.stars, {});
      assert c.stars + Added(ops) == c.stars;
    } else {
      var op := ops[0];
      var next := Step(c, op);
      StepConsistent(c, op);
      var seen' := if op.Add? then seen + {op.star} else seen;
      RunKeepsOrder(next, ops[1..], seen');
      var rest := Added(ops[1..]);
      var removed := Removed(next, ops[1..]);
      match op
      case Add(star) =>
        assert Added(ops) == [star] + rest && Removed(c, ops) == removed;
        Assoc(c.stars, [star], rest);
      case Mark(_) =>
        assert Added(ops) == rest && Removed(c, ops) == removed;
      case Execute =>
        assert Added(ops) == rest;
        AddedIsNew(ops[1..], seen);
        ExecutedFirst(c.stars, rest, c.doomed, removed);
    }
  }

  lemma ExecutedFirst(stars: seq<Star>, rest: seq<Star>, doomed: set<Star>, removed: set<Star>)
    requires forall x :: x in rest ==> x !in doomed
    ensures Kept(Kept(stars, doomed) + rest, removed) == Kept(stars + rest, doomed + removed)
  {
    KeptAll(rest, doomed);
    KeptAppend(stars, rest, doomed);
    KeptTwice(stars + rest, doomed, removed);
  }

  /** Otherwise last is left on a deleted star, and whatever is added from then on is lost
      until a pass empties the list. */
  lemma {:induction false} LostStars(c: Contents, ops: seq<Op>)
    requires Callable(c, ops) && c.stars != [] && !c.intact && forall i :: 0 <= i < |ops| ==> ops[i].Add?
    ensures Run(c, ops) == c
    decreases |ops|
  {
    if ops != [] {
      LostStars(Step(c, ops[0]), ops[1..]);
    }
  }

  /** Exactly when a pass deletes the tail and leaves something is the next star lost. */
  lemma NextStarKept(c: Contents, star: Star)
    requires Consistent(c) && c.intact && star !in c.stars
    ensures var after := Step(Step(c, Execute), Add(star));
            star in after.stars <==> (Kept(c.stars, c.doomed) == [] || c.stars[|c.stars| - 1] !in c.doomed)
  {
  }

  // ---------------------------------------------------------------- the list itself

  /** compare_istars: negative when the first star goes first. */
  function Compare(a: real, b: real): int
  {
    if a > b then -1 else if a < b then 1 else 0
  }

  function First(s: seq<Star>, end: Star?): Star?
  {
    if s == [] then end else s[0]
  }

  /** Each star's link leads to the next one, the last one's to end. */
  ghost predicate Chain(s: seq<Star>, end: Star?)
    reads s`next
  {
    forall i {:trigger s[i].next} :: 0 <= i < |s| ==> s[i].next == if i + 1 < |s| then s[i + 1] else end
  }

  lemma NoChain(end: Star?)
    ensures Chain([], end)
  {
  }

  lemma ChainSnoc(s: seq<Star>, star: Star)
    requires Chain(s, star)
    ensures Chain(s + [star], star.next)
  {
  }

  lemma ChainRest(s: seq<Star>, end: Star?)
    requires Chain(s, end) && s != []
    ensures Chain(s[1..], end) && s[0].next == First(s[1..], end)
  {
  }

  lemma ChainFront(s: seq<Star>, end: Star?)
    requires Chain(s, end) && s != []
    ensures Chain(s[..|s| - 1], s[|s| - 1])
  {
  }

  ghost predicate Permutation(a: seq<Star?>, s: seq<Star>)
  {
    |a| == |s| && multiset(a) == multiset(s)
  }

  lemma SamePermutation(a: seq<Star?>, s: seq<Star>)
    requires a == s
    ensures Permutation(a, s)
  {
  }

  lemma PermutationMember(a: seq<Star?>, s: seq<Star>, i: nat)
    requires Permutation(a, s) && i < |a|
    ensures a[i] in s
  {
    assert a[i] in multiset(a);
  }

  class StarList {
    var head: Star?
    var last: Star?
    var numStars: nat
    var starArray: array<Star?>
    var starArrayCorrect: bool
    ghost var nodes: seq<Star>

    /** The links lead from head through every star to the end, without a cycle. */
    ghost predicate Linked()
      reads this`head, this`nodes, nodes`next
    {
      && Distinct(nodes)
      && head == First(nodes, null)
      && Chain(nodes, null)
    }

    ghost predicate Numbered()
      reads this`nodes, nodes`indexNo
    {
      forall i :: 0 <= i < |nodes| ==> nodes[i].indexNo == i
    }

    /** The array index holds exactly the stars of the list. */
    ghost predicate Indexed()
      reads this`nodes, this`numStars, this`starArray, starArray
    {
      && numStars == |nodes| <= starArray.Length
      && Permutation(starArray[..numStars], nodes)
    }

    ghost predicate Valid()
      reads this, nodes`next, nodes`indexNo, starArray
    {
      && Linked()
      && Numbered()
      && |nodes| <= numStars
      && (LastAtTail() ==> numStars == |nodes|)
      && (nodes != [] ==> last != null && (last in nodes ==> last == nodes[|nodes| - 1]))
      && (starArrayCorrect ==> Indexed())
    }

    ghost predicate LastAtTail()
      reads this`nodes, this`last
    {
      nodes == [] || last == nodes[|nodes| - 1]
    }

    ghost function Doomed(): set<Star>
      reads this`nodes, nodes`deletePending
    {
      set x | x in nodes && x.deletePending
    }

    ghost function Stars(): Contents
      reads this`nodes, this`last, nodes`deletePending
    {
      Contents(nodes, Doomed(), LastAtTail())
    }

    constructor ()
      ensures Valid() && Stars() == Contents([], {}, true) && fresh(starArray)
    {
      head, last, numStars, starArrayCorrect, nodes := null, null, 0, false, [];
      starArray := new Star?[0];
    }

    /** IStarAdd; the number given out is the star's place in the list. */
    method Add(star: Star) returns (index: nat)
      requires Valid() && star !in nodes && star != last && !star.deletePending
      modifies this`head, this`last, this`numStars, this`starArrayCorrect, this`nodes, last, star
      ensures Valid() && !starArrayCorrect
      ensures Stars() == Step(old(Stars()), Op.Add(star))
      ensures old(LastAtTail()) ==> index == |old(nodes)|
    {
      hide Indexed, Kept;
      starArrayCorrect := false;
      ghost var lost := nodes != [] && last !in nodes;
      assert LastAtTail() <==> !lost;
      if head == null {
        last, head := star, star;
      } else {
        last.next := star;
        last := star;
      }
      star.next := null;
      index := numStars;
      star.indexNo := numStars;
      numStars := numStars + 1;
      if !lost {
        nodes := nodes + [star];
      }
      assert Doomed() == old(Doomed());
    }

    /** FixStarArray: number the stars from the head on and index them. */
    method FixStarArray()
      requires Linked() && |nodes| <= numStars
      modifies this`numStars, this`starArray, this`starArrayCorrect, nodes`indexNo
      ensures Linked() && Numbered() && Indexed() && fresh(starArray) && starArrayCorrect
      ensures numStars == |nodes| <= starArray.Length && starArray[..numStars] == nodes
    {
      hide Permutation;
      var a := new Star?[numStars];
      numStars := 0;
      var i := head;
      while i != null
        invariant Linked() && numStars <= |nodes| <= a.Length
        invariant i == if numStars < |nodes| then nodes[numStars] else null
        invariant forall k :: 0 <= k < numStars ==> a[k] == nodes[k] && nodes[k].indexNo == k
        decreases |nodes| - numStars
      {
        i.indexNo := numStars;
        numStars := numStars + 1;
        a[i.indexNo] := i;
        i := i.next;
      }
      starArray, starArrayCorrect := a, true;
      assert starArray[..numStars] == nodes;
      SamePermutation(starArray[..numStars], nodes);
    }

    /** IStarMarkStarForDeletion */
    method MarkForDeletion(index: nat)
      requires Valid() && index < |nodes|
      modifies this`numStars, this`starArray, this`starArrayCorrect, nodes`indexNo, nodes`deletePending
      ensures Valid() && starArrayCorrect && index < numStars && starArray[index] in nodes
      ensures Stars() == Step(old(Stars()), Op.Mark(starArray[index]))
      ensures old(starArrayCorrect) ==> starArray == old(starArray)
      ensures !old(starArrayCorrect) ==> starArray[index] == nodes[index]
    {
      hide Linked, Numbered, Kept, Permutation;
      if !starArrayCorrect {
        FixStarArray();
      }
      PermutationMember(starArray[..numStars], nodes, index);
      label Marking:
      starArray[index].deletePending := true;
      assert Doomed() == old@Marking(Doomed()) + {starArray[index]};
    }

    /** `(*i_star) = to_kill->next` where i_star is the link of the last survivor. */
    method Redirect(prev: Star, next: Star?, ghost kept: seq<Star>, ghost end: Star?, ghost rest: seq<Star>)
      requires Chain(kept, end) && Chain(rest, null) && Distinct(kept)
      requires kept != [] && kept[|kept| - 1] == prev && prev !in rest
      modifies prev`next
      ensures Chain(kept, next) && Chain(rest, null)
    {
      ghost var front := kept[..|kept| - 1];
      assert prev !in front && kept == front + [prev];
      hide Chain;
      ChainFront(kept, end);
      prev.next := next;
      ChainSnoc(front, prev);
    }

    /** The loop of IStarExecuteDeletions: one walk along the links, prev standing for the link
        that leads to the current star (head itself while it is null). */
    method Unlink()
      requires Linked()
      modifies this`head, this`nodes, nodes`next
      ensures Linked() && nodes == Kept(old(nodes), old(Doomed()))
    {
      hide Kept, Distinct, Chain;
      ghost var all, doomed, done, kept, rest := nodes, Doomed(), [], [], nodes;
      KeptNone(doomed);
      NoChain(head);
      assert [] + all == all;
      var prev: Star?, current := null, head;
      while current != null
        invariant all == done + rest && nodes == all
        invariant kept == Kept(done, doomed)
        invariant current == First(rest, null)
        invariant prev == if kept == [] then null else kept[|kept| - 1]
        invariant head == First(kept, current)
        invariant Chain(kept, current) && Chain(rest, null)
        decreases |rest|
      {
        KeptNext(done, rest, doomed);
        ChainRest(rest, null);
        assert current == all[|done|];
        assert prev != null ==> kept[|kept| - 1] in done && done <= all && prev in all;
        done, rest := done + [rest[0]], rest[1..];
        var next := current.next;
        if current.deletePending {
          if prev == null {
            head := next;
            NoChain(head);
          } else {
            Redirect(prev, next, kept, current, rest);
          }
        } else {
          ChainSnoc(kept, current);
          kept := kept + [current];
          prev := current;
        }
        current := next;
      }
      assert all == done;
      KeptDistinct(all, doomed);
      nodes := kept;
    }

    /** IStarExecuteDeletions */
    method ExecuteDeletions()
      requires Valid()
      modifies this`head, this`numStars, this`starArray, this`starArrayCorrect, this`nodes, nodes`next, nodes`indexNo
      ensures Valid() && starArrayCorrect && numStars == |nodes| <= starArray.Length && starArray[..numStars] == nodes
      ensures Stars() == Step(old(Stars()), Execute)
    {
      hide Linked, Numbered, Indexed, Kept, Distinct, Permutation;
      ghost var was := Stars();
      starArrayCorrect := false;
      PassTail(nodes, Doomed(), last);
      Unlink();
      assert Doomed() == {} && Stars() == Step(was, Execute);
      FixStarArray();
    }

    /** FindByIndex, with its shortcut for the star added last. */
    method FindByIndex(index: nat) returns (star: Star?)
      requires Valid() && index < |nodes|
      modifies this`numStars, this`starArray, this`starArrayCorrect, nodes`indexNo
      ensures Valid() && Stars() == old(Stars())
      ensures old(starArrayCorrect) ==> starArray == old(starArray) && star == starArray[index]
      ensures !old(starArrayCorrect) ==> star == if old(last.indexNo) == index then last else nodes[index]
      ensures LastAtTail() && !old(starArrayCorrect) ==> star == nodes[index]
    {
      if !starArrayCorrect {
        if last.indexNo == index {
          return last;
        }
        FixStarArray();
      }
      star := starArray[index];
    }

    /** SortByBrightness, order being the array as qsort leaves it.  Only the array is in order of
        brightness: the links and the stars' own numbers keep the order of the list, which is the
        order every index has again after the next Add or ExecuteDeletions. */
    method SortByBrightness(order: seq<Star>)
      requires Valid() && Permutation(order, nodes)
      requires forall i, j :: 0 <= i < j < |order| ==> Compare(order[i].counts, order[j].counts) <= 0
      modifies this`numStars, this`starArray, this`starArrayCorrect, nodes`indexNo
      ensures Valid() && Stars() == old(Stars()) && starArrayCorrect
      ensures numStars == |order| && starArray[..numStars] == order
      ensures forall i, j :: 0 <= i < j < |order| ==> order[i].counts >= order[j].counts
    {
      hide Linked, Numbered, Kept;
      FixStarArray();
      hide Permutation;
      forall i | 0 <= i < |order| {
        starArray[i] := order[i];
      }
      assert starArray[..numStars] == order;
    }
  }
}
