/** AstroDB: the juids it gives out, and which additions replace an entry and which add one. */
module AstroDatabase {
  import opened Wrappers

  datatype Kind = Session | Image | Set | Analysis | InstMags | Directive | Submission | Stacks

  /** juid_root_values */
  function Root(k: Kind): int
  {
    match k
    case Session => 1000000
    case Image => 2000000
    case Set => 5000000
    case Analysis => 3000000
    case InstMags => 4000000
    case Directive => 7000000
    case Submission => 8000000
    case Stacks => 6000000
  }

  const MILLION: int := 1000000

  /** An entry of one of the lists.  link: the exposure measured or the first source of an
      analysis.  name: the file of an exposure or stack, the target of a set.  inputs: what a set or
      an analysis is made from, or a stack is planned from; included: what a stack is made from. */
  datatype Entry = Entry(juid: int, link: int, name: string, stype: string,
                         inputs: seq<int>, included: seq<int>, detail: string)

  const KINDS: set<Kind> := {Session, Image, Set, Analysis, InstMags, Directive, Submission, Stacks}

  lemma EveryKind()
    ensures forall k: Kind :: k in KINDS
  {
    forall k: Kind ensures k in KINDS {
      match k {
        case Session => case Image => case Set => case Analysis =>
        case InstMags => case Directive => case Submission => case Stacks =>
      }
    }
  }

  function AllKinds(): (s: set<Kind>)
    ensures forall k: Kind :: k in s
  {
    EveryKind();
    KINDS
  }

  type Lists = m: map<Kind, seq<Entry>> | forall k: Kind :: k in m
    witness map k: Kind | k in AllKinds() :: []

  type Numbers = m: map<Kind, int> | forall k: Kind :: k in m
    witness map k: Kind | k in AllKinds() :: Root(k)

  datatype Db = Db(lists: Lists, next: Numbers)

  // ---------------------------------------------------------------- searching

  datatype Key = ByJuid(juid: int) | ByLink(link: int) | ByName(name: string) | ByTarget(target: string)

  predicate Matches(e: Entry, key: Key)
  {
    match key
    case ByJuid(juid) => e.juid == juid
    case ByLink(link) => e.link == link
    case ByName(name) => e.name == name
    case ByTarget(target) => e.stype == "TARGET" && e.name == target
  }

  predicate Has(s: seq<Entry>, key: Key)
  {
    exists i :: 0 <= i < |s| && Matches(s[i], key)
  }

  /** The first entry with the key, or the length of the list. */
  function Search(s: seq<Entry>, key: Key): (i: nat)
    ensures i <= |s| && (i < |s| <==> Has(s, key))
    ensures i < |s| ==> Matches(s[i], key)
    ensures forall j :: 0 <= j < i ==> !Matches(s[j], key)
  {
    if s == [] then 0
    else if Matches(s[0], key) then 0
    else
      var i := Search(s[1..], key);
      assert forall j :: 1 <= j < |s| ==> s[j] == s[1..][j - 1];
      1 + i
  }

  /** The list a juid belongs to, going by its million. */
  function KindOf(juid: int): Option<Kind>
  {
    var million := if juid >= 0 then juid / MILLION else -(-juid / MILLION);
    match million
    case 1 => Some(Session)
    case 2 => Some(Image)
    case 3 => Some(Analysis)
    case 4 => Some(InstMags)
    case 5 => Some(Set)
    case 6 => Some(Stacks)
    case 7 => Some(Directive)
    case 8 => Some(Submission)
    case _ => None
  }

  /** Where FindByJUID finds a juid. */
  function Find(lists: Lists, juid: int): Option<(Kind, nat)>
  {
    match KindOf(juid)
    case None => None
    case Some(k) =>
      var i := Search(lists[k], ByJuid(juid));
      if i < |lists[k]| then Some((k, i)) else None
  }

  function Without(s: seq<Entry>, i: nat): (r: seq<Entry>)
    requires i < |s|
  {
    s[..i] + s[i + 1..]
  }

  function Deleted(lists: Lists, juid: int): Lists
  {
    match Find(lists, juid)
    case None => lists
    case Some(at) => lists[at.0 := Without(lists[at.0], at.1)]
  }

  // ---------------------------------------------------------------- numbers

  /** The largest juid in a list, -1 for none. */
  function Largest(s: seq<Entry>): (m: int)
    ensures forall i :: 0 <= i < |s| ==> s[i].juid <= m
    ensures m >= -1 && (m == -1 || exists i :: 0 <= i < |s| && s[i].juid == m)
  {
    if s == [] then -1
    else
      var m := Largest(s[..|s| - 1]);
      var last := s[|s| - 1].juid;
      if last > m then last else m
  }

  function FirstFree(k: Kind, s: seq<Entry>): int
  {
    if Largest(s) > -1 then Largest(s) + 1 else Root(k)
  }

  /** The root of an unnumbered list, or one past a number of the list that none exceeds. */
  ghost predicate IsFirstFree(k: Kind, s: seq<Entry>, next: int)
  {
    if forall i :: 0 <= i < |s| ==> s[i].juid < 0 then next == Root(k)
    else
      && (exists i :: 0 <= i < |s| && s[i].juid + 1 == next)
      && (forall i :: 0 <= i < |s| ==> s[i].juid < next)
  }

  ghost predicate AllFirstFree(lists: Lists, next: Numbers)
  {
    forall k: Kind :: IsFirstFree(k, lists[k], next[k])
  }

  lemma InitializedExact(lists: Lists)
    ensures AllFirstFree(lists, Initialized(lists))
  {
    hide Root;
    forall k: Kind ensures IsFirstFree(k, lists[k], Initialized(lists)[k]) {
      assert Initialized(lists)[k] == FirstFree(k, lists[k]);
    }
  }

  function Initialized(lists: Lists): Numbers
  {
    map k: Kind | k in AllKinds() :: FirstFree(k, lists[k])
  }

  function Issue(db: Db, k: Kind): Db
  {
    db.(next := db.next[k := db.next[k] + 1])
  }

  function Append(db: Db, k: Kind, e: Entry): Db
  {
    db.(lists := db.lists[k := db.lists[k] + [e]])
  }

  // ---------------------------------------------------------------- operations

  /** path is a file name as it was given and file its canonical form; actual inputs of a stack are
      kept apart from planned ones; a directive's number may be chosen, or negative to ask for one. */
  datatype Op =
    | AddExposure(path: string, file: string, detail: string)
    | AddSet(stype: string, inputs: seq<int>, detail: string)
    | AddStack(file: string, inputs: seq<int>, actual: bool, detail: string)
    | AddInstMags(source: int, detail: string)
    | AddDiffMags(source: int, detail: string)
    | NewTarget(target: string)
    | NewDirective(chosen: int)
    | Reactivate

  const IMAGES: string := "/home/IMAGES/"

  /** AddInstMags and AddDiffMags: the entry that a new one for the same source takes the place of. */
  function Replacing(db: Db, k: Kind, source: int): (Db, int)
  {
    var i := Search(db.lists[k], ByLink(source));
    if i < |db.lists[k]| && db.lists[k][i].juid != 0 then
      (db.(lists := Deleted(db.lists, db.lists[k][i].juid)), db.lists[k][i].juid)
    else (Issue(db, k), db.next[k])
  }

  function NewStack(juid: int, file: string, inputs: seq<int>, actual: bool, detail: string): Entry
  {
    Entry(juid, 0, file, "", if actual then [] else inputs, if actual then inputs else [], detail)
  }

  function Refreshed(e: Entry, inputs: seq<int>, actual: bool, detail: string): Entry
  {
    if actual then e.(included := inputs, detail := detail) else e.(inputs := inputs, detail := detail)
  }

  /** The new database and the juid returned. */
  function Apply(db: Db, op: Op): (Db, int)
  {
    match op
    case AddExposure(path, file, detail) =>
      if IMAGES <= path then
        (Append(Issue(db, Image), Image, Entry(db.next[Image], 0, file, "", [], [], detail)), db.next[Image])
      else (Issue(db, Image), -1)
    case AddSet(stype, inputs, detail) =>
      (Append(Issue(db, Set), Set, Entry(db.next[Set], 0, "", stype, inputs, [], detail)), db.next[Set])
    case AddStack(file, inputs, actual, detail) =>
      var s := db.lists[Stacks];
      var i := Search(s, ByName(file));
      if i < |s| then
        (db.(lists := db.lists[Stacks := s[i := Refreshed(s[i], inputs, actual, detail)]]), s[i].juid)
      else
        (Append(Issue(db, Stacks), Stacks, NewStack(db.next[Stacks], file, inputs, actual, detail)), db.next[Stacks])
    case AddInstMags(source, detail) =>
      var (next, juid) := Replacing(db, InstMags, source);
      if Find(next.lists, source).None? then (next, 0)
      else (Append(next, InstMags, Entry(juid, source, "", "", [], [], detail)), juid)
    case AddDiffMags(source, detail) =>
      var (next, juid) := Replacing(db, Analysis, source);
      (Append(next, Analysis, Entry(juid, source, "", "DIFF", [source], [], detail)), juid)
    case NewTarget(target) =>
      var s := db.lists[Set];
      var i := Search(s, ByTarget(target));
      if i < |s| then (db, s[i].juid)
      else (Append(Issue(db, Set), Set, Entry(db.next[Set], 0, target, "TARGET", [], [], "")), db.next[Set])
    case NewDirective(chosen) =>
      if chosen < 0 then
        (Append(Issue(db, Directive), Directive, Entry(db.next[Directive], 0, "", "", [], [], "")), db.next[Directive])
      else (Append(db, Directive, Entry(chosen, 0, "", "", [], [], "")), chosen)
    case Reactivate => (db.(next := Initialized(db.lists)), 0)
  }

  /** The kind of number an operation gives out, if any: none when it takes over an entry. */
  function Issued(db: Db, op: Op): Option<Kind>
  {
    match op
    case AddExposure(_, _, _) => Some(Image)
    case AddSet(_, _, _) => Some(Set)
    case AddStack(file, _, _, _) => if Has(db.lists[Stacks], ByName(file)) then None else Some(Stacks)
    case AddInstMags(source, _) => if Has(db.lists[InstMags], ByLink(source)) then None else Some(InstMags)
    case AddDiffMags(source, _) => if Has(db.lists[Analysis], ByLink(source)) then None else Some(Analysis)
    case NewTarget(target) => if Has(db.lists[Set], ByTarget(target)) then None else Some(Set)
    case NewDirective(chosen) => if chosen < 0 then Some(Directive) else None
    case Reactivate => None
  }

  // ---------------------------------------------------------------- the invariant

  /** The keys a list holds at most once. */
  predicate Exclusive(k: Kind, key: Key)
  {
    match key
    case ByJuid(_) => true
    case ByLink(_) => k == InstMags || k == Analysis
    case ByName(_) => k == Stacks
    case ByTarget(_) => k == Set
  }

  ghost predicate ListOk(k: Kind, s: seq<Entry>, next: int)
  {
    && Root(k) <= next
    && (forall i :: 0 <= i < |s| ==> Root(k) <= s[i].juid < next)
    && (forall i, j, key :: 0 <= i < j < |s| && Exclusive(k, key) && Matches(s[i], key) ==> !Matches(s[j], key))
  }

  ghost predicate Inv(db: Db)
  {
    forall k: Kind :: ListOk(k, db.lists[k], db.next[k])
  }

  /** No kind has given out more than its million. */
  ghost predicate Room(db: Db)
  {
    forall k: Kind :: db.next[k] <= Root(k) + MILLION
  }

  /** A kind can give out another number of its million. */
  predicate Spare(db: Db, k: Kind) { db.next[k] < Root(k) + MILLION }

  predicate SpareFor(db: Db, op: Op) { Issued(db, op).Some? ==> Spare(db, Issued(db, op).value) }

  /** What the callers see to: the images behind a stack and the subexposures behind a merged
      set exist, sets of the other kinds never pass as targets, and directives are not numbered
      by hand. */
  predicate Enabled(db: Db, op: Op)
  {
    match op
    case AddSet(stype, inputs, _) =>
      && stype in {"SUBEXP", "BVRI", "MERGE"}
      && (stype == "MERGE" ==> |inputs| == 2 && Find(db.lists, inputs[1]).Some?)
    case NewDirective(chosen) => chosen < 0
    case AddStack(_, inputs, _, _) => forall i :: 0 <= i < |inputs| ==> Find(db.lists, inputs[i]).Some?
    case _ => true
  }

  // ---------------------------------------------------------------- one list

  lemma AppendOk(k: Kind, s: seq<Entry>, next: int, e: Entry, after: int)
    requires ListOk(k, s, next) && next <= after && Root(k) <= e.juid < after
    requires forall key :: Exclusive(k, key) && Matches(e, key) ==> !Has(s, key)
    ensures ListOk(k, s + [e], after)
  {
  }

  /** A fresh number brings no conflict of juids. */
  lemma FreshOk(k: Kind, s: seq<Entry>, next: int, e: Entry)
    requires ListOk(k, s, next) && e.juid == next
    requires (k == InstMags || k == Analysis) ==> !Has(s, ByLink(e.link))
    requires k == Stacks ==> !Has(s, ByName(e.name))
    requires k == Set && e.stype == "TARGET" ==> !Has(s, ByTarget(e.name))
    ensures ListOk(k, s + [e], next + 1)
  {
  }

  lemma WithoutOk(k: Kind, s: seq<Entry>, next: int, i: nat)
    requires ListOk(k, s, next) && i < |s|
    ensures ListOk(k, Without(s, i), next)
    ensures forall key :: Exclusive(k, key) && Matches(s[i], key) ==> !Has(Without(s, i), key)
  {
  }

  lemma UpdateOk(k: Kind, s: seq<Entry>, next: int, i: nat, e: Entry)
    requires ListOk(k, s, next) && i < |s|
    requires forall key :: Matches(e, key) <==> Matches(s[i], key)
    requires e.juid == s[i].juid
    ensures ListOk(k, s[i := e], next)
  {
  }

  lemma FirstFreeOk(k: Kind, s: seq<Entry>, next: int)
    requires ListOk(k, s, next)
    ensures ListOk(k, s, FirstFree(k, s)) && FirstFree(k, s) <= next
  {
  }

  // ---------------------------------------------------------------- finding

  lemma KindOfExact(juid: int, k: Kind)
    ensures KindOf(juid) == Some(k) <==> Root(k) <= juid < Root(k) + MILLION
  {
  }

  /** FindByJUID finds an entry under its own juid exactly while its list has not run into the
      next million. */
  lemma FindExact(db: Db, k: Kind, i: nat)
    requires Inv(db) && i < |db.lists[k]|
    ensures Find(db.lists, db.lists[k][i].juid) == Some((k, i)) <==> db.lists[k][i].juid < Root(k) + MILLION
  {
    var juid := db.lists[k][i].juid;
    KindOfExact(juid, k);
    assert ListOk(k, db.lists[k], db.next[k]);
    assert Matches(db.lists[k][i], ByJuid(juid)) && Exclusive(k, ByJuid(juid));
    assert Has(db.lists[k], ByJuid(juid));
  }

  /** The entry found under a juid. */
  function Lookup(lists: Lists, juid: int): Option<Entry>
  {
    match Find(lists, juid)
    case None => None
    case Some(at) => Some(lists[at.0][at.1])
  }

  /** The entry of one list under a juid. */
  function At(s: seq<Entry>, juid: int): Option<Entry>
  {
    var i := Search(s, ByJuid(juid));
    if i < |s| then Some(s[i]) else None
  }

  lemma AtMember(k: Kind, s: seq<Entry>, next: int, i: nat)
    requires ListOk(k, s, next) && i < |s|
    ensures At(s, s[i].juid) == Some(s[i])
  {
    var key := ByJuid(s[i].juid);
    assert Exclusive(k, key) && Matches(s[i], key);
    assert Has(s, key);
  }

  lemma AtAppend(s: seq<Entry>, e: Entry, juid: int)
    requires !Has(s, ByJuid(e.juid))
    ensures At(s + [e], juid) == if juid == e.juid then Some(e) else At(s, juid)
  {
    var t, key := s + [e], ByJuid(juid);
    assert Matches(t[|s|], ByJuid(e.juid));
    assert forall i :: 0 <= i < |s| ==> t[i] == s[i];
    var i, j := Search(s, key), Search(t, key);
    if i < |s| {
      assert Matches(t[i], key);
      assert i == j;
    } else if juid == e.juid {
      assert Has(t, key) && j == |s|;
    } else {
      assert forall n :: 0 <= n < |t| ==> !Matches(t[n], key);
    }
  }

  lemma AtWithout(k: Kind, s: seq<Entry>, next: int, i: nat, juid: int)
    requires ListOk(k, s, next) && i < |s|
    ensures At(Without(s, i), juid) == if juid == s[i].juid then None else At(s, juid)
  {
    var t, key := Without(s, i), ByJuid(juid);
    WithoutOk(k, s, next, i);
    if juid == s[i].juid {
      assert Matches(s[i], key) && Exclusive(k, key);
    } else {
      var n := Search(s, key);
      if n < |s| {
        var m := if n < i then n else n - 1;
        assert t[m] == s[n];
        AtMember(k, t, next, m);
      } else {
        assert forall m :: 0 <= m < |t| ==> t[m] == s[if m < i then m else m + 1];
      }
    }
  }

  lemma AtUpdate(k: Kind, s: seq<Entry>, next: int, i: nat, e: Entry, juid: int)
    requires ListOk(k, s, next) && i < |s| && ListOk(k, s[i := e], next) && e.juid == s[i].juid
    ensures At(s[i := e], juid) == if juid == e.juid then Some(e) else At(s, juid)
  {
    var t := s[i := e];
    AtMember(k, t, next, i);
    var n := Search(s, ByJuid(juid));
    if n < |s| && n != i {
      AtMember(k, t, next, n);
    } else if n == |s| {
      assert forall m :: 0 <= m < |t| ==> t[m].juid == s[m].juid;
      assert forall m :: 0 <= m < |t| ==> !Matches(s[m], ByJuid(juid));
      assert forall m :: 0 <= m < |t| ==> !Matches(t[m], ByJuid(juid));
    }
  }

  // ---------------------------------------------------------------- one operation

  /** A change of one list is a change of what is found under the juids of its million. */
  lemma LookupChanged(lists: Lists, k: Kind, s: seq<Entry>, juid: int)
    ensures Lookup(lists[k := s], juid) == if KindOf(juid) == Some(k) then At(s, juid) else Lookup(lists, juid)
    ensures KindOf(juid) == Some(k) ==> Lookup(lists, juid) == At(lists[k], juid)
  {
  }

  lemma AppendLookup(lists: Lists, k: Kind, e: Entry, juid: int)
    requires KindOf(e.juid) == Some(k) && !Has(lists[k], ByJuid(e.juid))
    ensures Lookup(lists[k := lists[k] + [e]], juid) == if juid == e.juid then Some(e) else Lookup(lists, juid)
  {
    LookupChanged(lists, k, lists[k] + [e], juid);
    AtAppend(lists[k], e, juid);
  }

  lemma FreshJuid(db: Db, k: Kind)
    requires Inv(db) && Spare(db, k)
    ensures KindOf(db.next[k]) == Some(k) && !Has(db.lists[k], ByJuid(db.next[k]))
    ensures Lookup(db.lists, db.next[k]) == None && db.next[k] > 0
  {
    KindOfExact(db.next[k], k);
    assert ListOk(k, db.lists[k], db.next[k]);
  }

  lemma FreshInv(db: Db, k: Kind, e: Entry)
    requires Inv(db) && ListOk(k, db.lists[k] + [e], db.next[k] + 1)
    ensures Inv(Append(Issue(db, k), k, e))
  {
  }

  lemma IssueInv(db: Db, k: Kind)
    requires Inv(db)
    ensures Inv(Issue(db, k))
  {
  }

  lemma ListInv(db: Db, k: Kind, s: seq<Entry>)
    requires Inv(db) && ListOk(k, s, db.next[k])
    ensures Inv(db.(lists := db.lists[k := s]))
  {
  }

  lemma WithoutLookup(db: Db, k: Kind, i: nat, juid: int)
    requires Inv(db) && Room(db) && i < |db.lists[k]|
    ensures var s, r := db.lists[k], db.lists[k][i].juid;
            && KindOf(r) == Some(k) && Find(db.lists, r) == Some((k, i)) && 0 < r < db.next[k]
            && Deleted(db.lists, r) == db.lists[k := Without(s, i)]
            && Lookup(Deleted(db.lists, r), juid) == (if juid == r then None else Lookup(db.lists, juid))
  {
    hide Without, Search;
    var s := db.lists[k];
    assert ListOk(k, s, db.next[k]);
    KindOfExact(s[i].juid, k);
    FindExact(db, k, i);
    AtWithout(k, s, db.next[k], i, juid);
    LookupChanged(db.lists, k, Without(s, i), juid);
  }

  lemma TakenOver(db: Db, k: Kind, i: nat, juid: int)
    requires Inv(db) && Room(db) && i < |db.lists[k]| && (k == InstMags || k == Analysis)
    ensures var r := db.lists[k][i].juid;
            var lists := Deleted(db.lists, r);
            && Inv(db.(lists := lists)) && KindOf(r) == Some(k) && 0 < r < db.next[k]
            && !Has(lists[k], ByJuid(r)) && !Has(lists[k], ByLink(db.lists[k][i].link))
            && Lookup(lists, juid) == (if juid == r then None else Lookup(db.lists, juid))
  {
    hide Without, KindOf, Deleted, Lookup, ListOk;
    var s := db.lists[k];
    assert ListOk(k, s, db.next[k]);
    WithoutLookup(db, k, i, juid);
    WithoutOk(k, s, db.next[k], i);
    assert Exclusive(k, ByLink(s[i].link)) && Exclusive(k, ByJuid(s[i].juid));
    assert Matches(s[i], ByLink(s[i].link)) && Matches(s[i], ByJuid(s[i].juid));
    ListInv(db, k, Without(s, i));
  }

  /** Taking the place of an entry: its juid is free, and nothing else has changed. */
  lemma ReplacingEffect(db: Db, k: Kind, source: int, juid: int)
    requires Inv(db) && Room(db) && (k == InstMags || k == Analysis)
    requires Has(db.lists[k], ByLink(source)) || Spare(db, k)
    ensures var (next, r) := Replacing(db, k, source);
            && Inv(next) && KindOf(r) == Some(k) && 0 < r < next.next[k]
            && !Has(next.lists[k], ByJuid(r)) && !Has(next.lists[k], ByLink(source))
            && Lookup(next.lists, juid) == (if juid == r then None else Lookup(db.lists, juid))
  {
    hide KindOf, Deleted, Lookup, ListOk, Inv;
    var s := db.lists[k];
    var i := Search(s, ByLink(source));
    if i < |s| {
      TakenOver(db, k, i, juid);
    } else {
      FreshJuid(db, k);
      IssueInv(db, k);
    }
  }

  /** The entry an operation leaves, given the one it found under the same juid. */
  predicate Describes(e: Entry, op: Op, before: Option<Entry>)
  {
    match op
    case AddExposure(_, file, detail) => e == Entry(e.juid, 0, file, "", [], [], detail)
    case AddSet(stype, inputs, detail) => e == Entry(e.juid, 0, "", stype, inputs, [], detail)
    case AddStack(file, inputs, actual, detail) =>
      && e.name == file && e.detail == detail
      && (before.Some? ==> e.link == before.value.link && e.stype == before.value.stype)
      && e.inputs == (if !actual then inputs else if before.Some? then before.value.inputs else [])
      && e.included == (if actual then inputs else if before.Some? then before.value.included else [])
    case AddInstMags(source, detail) => e == Entry(e.juid, source, "", "", [], [], detail)
    case AddDiffMags(source, detail) => e == Entry(e.juid, source, "", "DIFF", [source], [], detail)
    case NewTarget(target) =>
      e.stype == "TARGET" && e.name == target && if before.Some? then e == before.value else e.inputs == []
    case NewDirective(_) => e == Entry(e.juid, 0, "", "", [], [], "")
    case Reactivate => false
  }

  /** What the entry an operation may take over is known by. */
  function KeyOf(op: Op): Option<(Kind, Key)>
  {
    match op
    case AddStack(file, _, _, _) => Some((Stacks, ByName(file)))
    case AddInstMags(source, _) => Some((InstMags, ByLink(source)))
    case AddDiffMags(source, _) => Some((Analysis, ByLink(source)))
    case NewTarget(target) => Some((Set, ByTarget(target)))
    case _ => None
  }

  /** The juid whose entry an operation writes: that of the entry it takes over, or a new one. */
  function Target(db: Db, op: Op): int
  {
    match op
    case AddExposure(_, _, _) => db.next[Image]
    case AddSet(_, _, _) => db.next[Set]
    case NewDirective(chosen) => if chosen < 0 then db.next[Directive] else chosen
    case Reactivate => 0
    case _ =>
      var at := KeyOf(op).value;
      var i := Search(db.lists[at.0], at.1);
      if i < |db.lists[at.0]| then db.lists[at.0][i].juid else db.next[at.0]
  }

  ghost predicate InImages(path: string) { exists rest: string :: path == "/home/IMAGES/" + rest }

  /** An exposure has to be in the image directory, and measurements need an exposure that is
      there and is not the very entry they replace. */
  ghost predicate Succeeds(db: Db, op: Op)
  {
    match op
    case AddExposure(path, _, _) => InImages(path)
    case AddInstMags(source, _) => Lookup(db.lists, source).Some? && source != Target(db, op)
    case _ => true
  }

  /** The whole effect of one operation on what FindByJUID finds.  Under the juid of the entry
      written, what the operation says, or nothing when the operation fails (the older
      measurements of an exposure that is not there are then lost).  Under every other juid, what
      was there before. */
  ghost predicate Effect(db: Db, op: Op, after: Db, r: int, juid: int)
  {
    var target := Target(db, op);
    var before, now := Lookup(db.lists, juid), Lookup(after.lists, juid);
    && (if op.Reactivate? then r == 0
        else if Succeeds(db, op) then r == target
        else r == if op.AddExposure? then -1 else 0)
    && (if juid != target || op.Reactivate? then now == before
        else if Succeeds(db, op) then now.Some? && now.value.juid == juid && Describes(now.value, op, before)
        else now == None)
  }

  lemma AppendEffect(db: Db, k: Kind, e: Entry, juid: int)
    requires Inv(db) && Spare(db, k) && e.juid == db.next[k] && ListOk(k, db.lists[k] + [e], db.next[k] + 1)
    ensures var after := Append(Issue(db, k), k, e);
            Inv(after) && Lookup(after.lists, juid) == if juid == e.juid then Some(e) else Lookup(db.lists, juid)
  {
    hide ListOk;
    FreshJuid(db, k);
    FreshInv(db, k, e);
    AppendLookup(db.lists, k, e, juid);
  }

  lemma ReplaceEffect(db: Db, k: Kind, e: Entry, juid: int)
    requires Inv(db) && Room(db) && (k == InstMags || k == Analysis)
    requires Has(db.lists[k], ByLink(e.link)) || Spare(db, k)
    requires e.juid == Replacing(db, k, e.link).1
    ensures var after := Append(Replacing(db, k, e.link).0, k, e);
            Inv(after) && Lookup(after.lists, juid) == if juid == e.juid then Some(e) else Lookup(db.lists, juid)
  {
    hide KindOf, Deleted, Lookup, Replacing;
    var next := Replacing(db, k, e.link).0;
    ReplacingEffect(db, k, e.link, juid);
    KindOfExact(e.juid, k);
    assert ListOk(k, next.lists[k], next.next[k]);
    forall key | Exclusive(k, key) && Matches(e, key) ensures !Has(next.lists[k], key) {
      assert key == ByJuid(e.juid) || key == ByLink(e.link);
    }
    AppendOk(k, next.lists[k], next.next[k], e, next.next[k]);
    ListInv(next, k, next.lists[k] + [e]);
    AppendLookup(next.lists, k, e, juid);
  }

  lemma StackEffect(db: Db, i: nat, e: Entry, juid: int)
    requires Inv(db) && Room(db) && i < |db.lists[Stacks]|
    requires e.juid == db.lists[Stacks][i].juid && e.name == db.lists[Stacks][i].name
    requires e.link == db.lists[Stacks][i].link && e.stype == db.lists[Stacks][i].stype
    ensures var after := db.(lists := db.lists[Stacks := db.lists[Stacks][i := e]]);
            Inv(after) && Lookup(after.lists, juid) == if juid == e.juid then Some(e) else Lookup(db.lists, juid)
  {
    hide KindOf, Lookup, Search;
    var s := db.lists[Stacks];
    assert ListOk(Stacks, s, db.next[Stacks]);
    KindOfExact(e.juid, Stacks);
    UpdateOk(Stacks, s, db.next[Stacks], i, e);
    ListInv(db, Stacks, s[i := e]);
    AtUpdate(Stacks, s, db.next[Stacks], i, e, juid);
    LookupChanged(db.lists, Stacks, s[i := e], juid);
  }

  lemma MemberLookup(db: Db, k: Kind, i: nat)
    requires Inv(db) && Room(db) && i < |db.lists[k]|
    ensures Lookup(db.lists, db.lists[k][i].juid) == Some(db.lists[k][i]) && db.lists[k][i].juid > 0
  {
    assert ListOk(k, db.lists[k], db.next[k]);
    FindExact(db, k, i);
  }

  lemma InitializedInv(db: Db)
    requires Inv(db)
    ensures Inv(db.(next := Initialized(db.lists)))
    ensures forall k: Kind :: Initialized(db.lists)[k] <= db.next[k]
  {
    hide ListOk;
    var after := db.(next := Initialized(db.lists));
    forall k: Kind ensures ListOk(k, after.lists[k], after.next[k]) && after.next[k] <= db.next[k] {
      assert ListOk(k, db.lists[k], db.next[k]);
      FirstFreeOk(k, db.lists[k], db.next[k]);
    }
  }

  lemma FreshEffect(db: Db, k: Kind, e: Entry, juid: int)
    requires Inv(db) && Spare(db, k) && e.juid == db.next[k] && k != InstMags && k != Analysis
    requires k == Stacks ==> !Has(db.lists[k], ByName(e.name))
    requires k == Set && e.stype == "TARGET" ==> !Has(db.lists[k], ByTarget(e.name))
    ensures var after := Append(Issue(db, k), k, e);
            Inv(after) && Lookup(after.lists, juid) == (if juid == e.juid then Some(e) else Lookup(db.lists, juid))
    ensures e.juid > 0
  {
    assert ListOk(k, db.lists[k], db.next[k]);
    FreshOk(k, db.lists[k], db.next[k], e);
    AppendEffect(db, k, e, juid);
  }

  lemma TargetReplaced(db: Db, k: Kind, source: int)
    requires Inv(db) && (k == InstMags || k == Analysis)
    ensures var s := db.lists[k];
            var i := Search(s, ByLink(source));
            Replacing(db, k, source).1 == if i < |s| then s[i].juid else db.next[k]
  {
    assert ListOk(k, db.lists[k], db.next[k]);
  }

  lemma FoundLooked(lists: Lists, juid: int)
    ensures Find(lists, juid).Some? <==> Lookup(lists, juid).Some?
  {
  }

  lemma InstMagsEffect(db: Db, source: int, detail: string, juid: int)
    requires Inv(db) && Room(db) && SpareFor(db, AddInstMags(source, detail))
    ensures var op := AddInstMags(source, detail);
            var (after, r) := Apply(db, op); Inv(after) && Effect(db, op, after, r, juid)
  {
    hide KindOf, Lookup, Search, ListOk, Find, Replacing;
    ReplacingEffect(db, InstMags, source, juid);
    ReplacingEffect(db, InstMags, source, source);
    FoundLooked(Replacing(db, InstMags, source).0.lists, source);
    ReplaceEffect(db, InstMags, Entry(Replacing(db, InstMags, source).1, source, "", "", [], [], detail), juid);
    TargetReplaced(db, InstMags, source);
  }

  lemma DiffMagsEffect(db: Db, source: int, detail: string, juid: int)
    requires Inv(db) && Room(db) && SpareFor(db, AddDiffMags(source, detail))
    ensures var op := AddDiffMags(source, detail);
            var (after, r) := Apply(db, op); Inv(after) && Effect(db, op, after, r, juid)
  {
    hide KindOf, Lookup, Search, ListOk, Find, Replacing;
    var e := Entry(Replacing(db, Analysis, source).1, source, "", "DIFF", [source], [], detail);
    ReplaceEffect(db, Analysis, e, juid);
    TargetReplaced(db, Analysis, source);
  }

  lemma RefreshEffect(db: Db, file: string, inputs: seq<int>, actual: bool, detail: string, juid: int)
    requires Inv(db) && Room(db) && SpareFor(db, AddStack(file, inputs, actual, detail))
    ensures var op := AddStack(file, inputs, actual, detail);
            var (after, r) := Apply(db, op); Inv(after) && Effect(db, op, after, r, juid)
  {
    hide KindOf, Lookup, Search, ListOk, Find;
    var s := db.lists[Stacks];
    var i := Search(s, ByName(file));
    if i < |s| {
      MemberLookup(db, Stacks, i);
      StackEffect(db, i, Refreshed(s[i], inputs, actual, detail), juid);
    } else {
      FreshJuid(db, Stacks);
      FreshEffect(db, Stacks, NewStack(db.next[Stacks], file, inputs, actual, detail), juid);
    }
  }

  lemma TargetEffect(db: Db, target: string, juid: int)
    requires Inv(db) && Room(db) && SpareFor(db, NewTarget(target))
    ensures var op := NewTarget(target);
            var (after, r) := Apply(db, op); Inv(after) && Effect(db, op, after, r, juid)
  {
    hide KindOf, Lookup, Search, ListOk, Find;
    var s := db.lists[Set];
    var i := Search(s, ByTarget(target));
    if i < |s| {
      MemberLookup(db, Set, i);
    } else {
      FreshJuid(db, Set);
      FreshEffect(db, Set, Entry(db.next[Set], 0, target, "TARGET", [], [], ""), juid);
    }
  }

  lemma InImagesExactly(path: string)
    ensures InImages(path) <==> IMAGES <= path
  {
    if IMAGES <= path {
      assert path == "/home/IMAGES/" + path[|IMAGES|..];
    }
  }

  /** Every operation that does not give out a number beyond a million keeps the invariant and does
      to the database seen through FindByJUID what it says, and nothing else. */
  lemma StepEffect(db: Db, op: Op, juid: int)
    requires Inv(db) && Room(db) && SpareFor(db, op) && Enabled(db, op)
    ensures var (after, r) := Apply(db, op); Inv(after) && Effect(db, op, after, r, juid)
  {
    hide KindOf, Lookup, Search, ListOk, Find;
    match op
    case AddExposure(path, file, detail) =>
      FreshJuid(db, Image);
      InImagesExactly(path);
      if IMAGES <= path {
        FreshEffect(db, Image, Entry(db.next[Image], 0, file, "", [], [], detail), juid);
      } else {
        IssueInv(db, Image);
      }
    case AddSet(stype, inputs, detail) =>
      FreshEffect(db, Set, Entry(db.next[Set], 0, "", stype, inputs, [], detail), juid);
    case AddStack(file, inputs, actual, detail) => RefreshEffect(db, file, inputs, actual, detail, juid);
    case AddInstMags(source, detail) => InstMagsEffect(db, source, detail, juid);
    case AddDiffMags(source, detail) => DiffMagsEffect(db, source, detail, juid);
    case NewTarget(target) => TargetEffect(db, target, juid);
    case NewDirective(_) =>
      FreshEffect(db, Directive, Entry(db.next[Directive], 0, "", "", [], [], ""), juid);
    case Reactivate =>
      InitializedInv(db);
  }

  /** An exposure is added, under the next image number and its canonical name, if and only if
      the name as given lies in the image directory. */
  lemma ExposureExact(db: Db, path: string, file: string, detail: string)
    requires Inv(db) && Spare(db, Image)
    ensures var (after, r) := Apply(db, AddExposure(path, file, detail));
            && after.next[Image] == db.next[Image] + 1
            && (if exists rest: string :: path == "/home/IMAGES/" + rest then
                  && r == db.next[Image]
                  && Lookup(after.lists, r) == Some(Entry(r, 0, file, "", [], [], detail))
                else r == -1 && after.lists == db.lists)
  {
    hide KindOf, Lookup, Search, ListOk, Find;
    InImagesExactly(path);
    assert InImages(path) <==> exists rest: string :: path == "/home/IMAGES/" + rest;
    if InImages(path) {
      FreshEffect(db, Image, Entry(db.next[Image], 0, file, "", [], [], detail), db.next[Image]);
    }
  }

  /** One file of each kind. */
  lemma ExposurePaths(db: Db)
    requires Inv(db) && Spare(db, Image)
    ensures Apply(db, AddExposure("/home/IMAGES/a.fits", "/home/IMAGES/a.fits", "")).1 == db.next[Image]
    ensures Apply(db, AddExposure("/home/ASTRO/a.fits", "/home/ASTRO/a.fits", "")).1 == -1
  {
    assert "/home/IMAGES/a.fits" == "/home/IMAGES/" + "a.fits";
    assert "/home/ASTRO/a.fits"[6] != "/home/IMAGES/"[6];
  }

  /** A directive numbered by hand keeps the invariant exactly when its number is a free one that has
      already been given out. */
  lemma ChosenDirective(db: Db, chosen: nat)
    requires Inv(db)
    ensures Inv(Apply(db, NewDirective(chosen)).0)
            <==> Root(Directive) <= chosen < db.next[Directive] && !Has(db.lists[Directive], ByJuid(chosen))
  {
    hide ListOk, Root;
    var s, e := db.lists[Directive], Entry(chosen, 0, "", "", [], [], "");
    var after := Apply(db, NewDirective(chosen)).0;
    assert ListOk(Directive, s, db.next[Directive]);
    if Root(Directive) <= chosen < db.next[Directive] && !Has(s, ByJuid(chosen)) {
      OneMore(s, e, db.next[Directive]);
      ListInv(db, Directive, s + [e]);
    }
    if Inv(after) {
      assert ListOk(Directive, after.lists[Directive], after.next[Directive]);
      NoneBefore(s, e, db.next[Directive]);
    }
  }

  lemma OneMore(s: seq<Entry>, e: Entry, next: int)
    requires ListOk(Directive, s, next) && Root(Directive) <= e.juid < next && !Has(s, ByJuid(e.juid))
    ensures ListOk(Directive, s + [e], next)
  {
    AppendOk(Directive, s, next, e, next);
  }

  lemma NoneBefore(s: seq<Entry>, e: Entry, next: int)
    requires ListOk(Directive, s + [e], next)
    ensures !Has(s, ByJuid(e.juid)) && Root(Directive) <= e.juid < next
  {
    var key := ByJuid(e.juid);
    assert Exclusive(Directive, key) && Matches((s + [e])[|s|], key);
    assert forall i :: 0 <= i < |s| ==> (s + [e])[i] == s[i];
  }

  /** What an operation adds to the next number of a kind. */
  predicate IssuesAsSaid(db: Db, op: Op, k: Kind)
  {
    var now, was := Apply(db, op).0.next[k], db.next[k];
    if op.Reactivate? then now <= was else now == was + if Issued(db, op) == Some(k) then 1 else 0
  }

  lemma IssuesOnce(db: Db, op: Op, k: Kind)
    requires Inv(db)
    ensures Apply(db, op).0.next[k] <= db.next[k] + if Issued(db, op) == Some(k) then 1 else 0
    ensures !op.Reactivate? ==> Apply(db, op).0.next[k] == db.next[k] + if Issued(db, op) == Some(k) then 1 else 0
  {
    assert IssuesAsSaid(db, op, k) by {
      hide IssuesAsSaid, Inv;
      match op
      case AddExposure(path, file, detail) => ExposureIssues(db, path, file, detail, k);
      case AddSet(stype, inputs, detail) => SetIssues(db, stype, inputs, detail, k);
      case AddStack(file, inputs, actual, detail) => StackIssues(db, file, inputs, actual, detail, k);
      case AddInstMags(source, detail) => InstMagsIssues(db, source, detail, k);
      case AddDiffMags(source, detail) => DiffMagsIssues(db, source, detail, k);
      case NewTarget(target) => TargetIssues(db, target, k);
      case NewDirective(chosen) => DirectiveIssues(db, chosen, k);
      case Reactivate => ReactivateIssues(db, k);
    }
    hide Apply, Issued;
  }

  lemma ExposureIssues(db: Db, path: string, file: string, detail: string, k: Kind)
    ensures IssuesAsSaid(db, AddExposure(path, file, detail), k)
  {
  }

  lemma SetIssues(db: Db, stype: string, inputs: seq<int>, detail: string, k: Kind)
    ensures IssuesAsSaid(db, AddSet(stype, inputs, detail), k)
  {
  }

  lemma StackIssues(db: Db, file: string, inputs: seq<int>, actual: bool, detail: string, k: Kind)
    ensures IssuesAsSaid(db, AddStack(file, inputs, actual, detail), k)
  {
    hide Has, Refreshed, NewStack;
  }

  lemma InstMagsIssues(db: Db, source: int, detail: string, k: Kind)
    requires Inv(db)
    ensures IssuesAsSaid(db, AddInstMags(source, detail), k)
  {
    hide Inv, Has, Replacing, Find;
    ReplacingIssues(db, InstMags, source);
  }

  lemma DiffMagsIssues(db: Db, source: int, detail: string, k: Kind)
    requires Inv(db)
    ensures IssuesAsSaid(db, AddDiffMags(source, detail), k)
  {
    hide Inv, Has, Replacing;
    ReplacingIssues(db, Analysis, source);
  }

  lemma TargetIssues(db: Db, target: string, k: Kind)
    ensures IssuesAsSaid(db, NewTarget(target), k)
  {
    hide Has;
  }

  lemma DirectiveIssues(db: Db, chosen: int, k: Kind)
    ensures IssuesAsSaid(db, NewDirective(chosen), k)
  {
  }

  lemma ReactivateIssues(db: Db, k: Kind)
    requires Inv(db)
    ensures IssuesAsSaid(db, Reactivate, k)
  {
    hide Inv, Initialized;
    InitializedInv(db);
  }

  lemma PositiveJuid(db: Db, k: Kind, i: nat)
    requires Inv(db) && i < |db.lists[k]|
    ensures db.lists[k][i].juid > 0
  {
    assert ListOk(k, db.lists[k], db.next[k]);
  }

  lemma ReplacingIssues(db: Db, k: Kind, source: int)
    requires Inv(db)
    ensures var next := Replacing(db, k, source).0.next;
            next == if Has(db.lists[k], ByLink(source)) then db.next else db.next[k := db.next[k] + 1]
  {
    hide Inv, Deleted, Search, Has;
    var i := Search(db.lists[k], ByLink(source));
    if i < |db.lists[k]| {
      PositiveJuid(db, k, i);
    }
  }

  /** Measurements of a source that had some are still there exactly when the call succeeds,
      which it does exactly when the source exists (and is not the entry being replaced). */
  lemma MeasurementsSurvive(db: Db, source: int, detail: string)
    requires Inv(db) && Room(db) && SpareFor(db, AddInstMags(source, detail))
    ensures var op := AddInstMags(source, detail);
            var (after, r) := Apply(db, op);
            && (Has(after.lists[InstMags], ByLink(source)) <==> r != 0)
            && (r != 0 <==> Lookup(db.lists, source).Some? && source != Target(db, op))
  {
    hide KindOf, ListOk, Replacing;
    ReplacingEffect(db, InstMags, source, source);
    TargetReplaced(db, InstMags, source);
    var (next, r) := Replacing(db, InstMags, source);
    var s := next.lists[InstMags];
    assert Matches((s + [Entry(r, source, "", "", [], [], detail)])[|s|], ByLink(source));
  }

  /** A database that has measurements, but not the exposure they were made on. */
  function Orphaned(): Db
  {
    Db(map k: Kind | k in AllKinds() :: if k == InstMags then [Entry(4000000, 2000000, "", "", [], [], "old")] else [],
       map k: Kind | k in AllKinds() :: if k == InstMags then 4000001 else Root(k))
  }

  lemma OrphanedOk(k: Kind)
    ensures ListOk(k, Orphaned().lists[k], Orphaned().next[k]) && Orphaned().next[k] <= Root(k) + MILLION
    ensures k != InstMags ==> Orphaned().lists[k] == []
  {
  }

  /** New measurements of that exposure are refused, and the old ones are gone. */
  lemma MissingExposure()
    ensures Inv(Orphaned()) && Has(Orphaned().lists[InstMags], ByLink(2000000))
    ensures var (after, r) := Apply(Orphaned(), AddInstMags(2000000, "new"));
            r == 0 && !Has(after.lists[InstMags], ByLink(2000000))
  {
    var db := Orphaned();
    assert db.lists[InstMags] == [Entry(4000000, 2000000, "", "", [], [], "old")];
    assert Matches(db.lists[InstMags][0], ByLink(2000000));
    hide Orphaned, Apply, ListOk, Replacing, Target;
    forall k: Kind ensures ListOk(k, db.lists[k], db.next[k]) && db.next[k] <= Root(k) + MILLION {
      OrphanedOk(k);
    }
    OrphanedOk(Image);
    MeasurementsSurvive(db, 2000000, "new");
  }

  // ---------------------------------------------------------------- runs

  /** A run of processes taking turns: a process that takes over reactivates first. */
  function Run(db: Db, ops: seq<Op>): Db
    decreases |ops|
  {
    if ops == [] then db else Run(Apply(db, ops[0]).0, ops[1..])
  }

  predicate EnabledRun(db: Db, ops: seq<Op>)
    decreases |ops|
  {
    ops == [] || (Enabled(db, ops[0]) && EnabledRun(Apply(db, ops[0]).0, ops[1..]))
  }

  /** How many numbers of a kind a run gives out. */
  function IssuedBy(db: Db, ops: seq<Op>, k: Kind): nat
    decreases |ops|
  {
    if ops == [] then 0
    else (if Issued(db, ops[0]) == Some(k) then 1 else 0) + IssuedBy(Apply(db, ops[0]).0, ops[1..], k)
  }

  /** The run gives out no number beyond the million of its kind. */
  ghost predicate RoomFor(db: Db, ops: seq<Op>)
  {
    forall k: Kind :: db.next[k] + IssuedBy(db, ops, k) <= Root(k) + MILLION
  }

  lemma RoomStep(db: Db, ops: seq<Op>)
    requires Inv(db) && RoomFor(db, ops)
    ensures Room(db) && (ops != [] ==> SpareFor(db, ops[0]) && RoomFor(Apply(db, ops[0]).0, ops[1..]))
  {
    hide Inv, Apply, Issued;
    forall k: Kind ensures db.next[k] <= Root(k) + MILLION {
      assert db.next[k] + IssuedBy(db, ops, k) <= Root(k) + MILLION;
    }
    if ops != [] {
      forall k: Kind
        ensures Apply(db, ops[0]).0.next[k] + IssuedBy(Apply(db, ops[0]).0, ops[1..], k) <= Root(k) + MILLION
        ensures Issued(db, ops[0]) == Some(k) ==> Spare(db, k)
      {
        IssuesOnce(db, ops[0], k);
        assert db.next[k] + IssuedBy(db, ops, k) <= Root(k) + MILLION;
      }
    }
  }

  lemma {:induction false} RunKeepsInv(db: Db, ops: seq<Op>)
    requires Inv(db) && RoomFor(db, ops) && EnabledRun(db, ops)
    ensures Inv(Run(db, ops)) && Room(Run(db, ops))
    decreases |ops|
  {
    hide Inv, Room, RoomFor, Apply, Enabled, SpareFor;
    RoomStep(db, ops);
    if ops != [] {
      StepEffect(db, ops[0], 0);
      RunKeepsInv(Apply(db, ops[0]).0, ops[1..]);
    }
  }

  /** A new database has room for a million of each kind. */
  lemma NewDatabase(db: Db)
    requires forall k: Kind :: db.lists[k] == [] && db.next[k] == Root(k)
    ensures Inv(db) && forall k: Kind :: db.next[k] + 1000000 <= Root(k) + MILLION
  {
  }

  /** After any run that does not use up a million, every entry is the one found under its juid,
      no juid stands for two entries anywhere, and no two entries measure the same exposure,
      analyse the same set, stack into the same file or stand for the same target. */
  lemma LiveJuids(db: Db, ops: seq<Op>, k: Kind, i: nat, l: Kind, j: nat)
    requires Inv(db) && RoomFor(db, ops) && EnabledRun(db, ops)
    requires i < |Run(db, ops).lists[k]| && j < |Run(db, ops).lists[l]|
    ensures var lists := Run(db, ops).lists;
            var e, f := lists[k][i], lists[l][j];
            && Find(lists, e.juid) == Some((k, i)) && Root(k) <= e.juid < Root(k) + MILLION
            && (e.juid == f.juid <==> k == l && i == j)
            && (k == l && k in {InstMags, Analysis} && e.link == f.link ==> i == j)
            && (k == l == Stacks && e.name == f.name ==> i == j)
            && (k == l == Set && e.stype == f.stype == "TARGET" && e.name == f.name ==> i == j)
  {
    hide Run, EnabledRun, KindOf, Find, Search, ListOk;
    RunKeepsInv(db, ops);
    var after := Run(db, ops);
    InOwnMillion(after, k, i);
    InOwnMillion(after, l, j);
    if k == l {
      var s := after.lists[k];
      assert ListOk(k, s, after.next[k]);
      Apart(k, s, after.next[k], i, j, ByJuid(s[i].juid));
      Apart(k, s, after.next[k], i, j, ByLink(s[i].link));
      Apart(k, s, after.next[k], i, j, ByName(s[i].name));
      Apart(k, s, after.next[k], i, j, ByTarget(s[i].name));
    }
  }

  lemma InOwnMillion(db: Db, k: Kind, i: nat)
    requires Inv(db) && Room(db) && i < |db.lists[k]|
    ensures var juid := db.lists[k][i].juid;
            Root(k) <= juid < Root(k) + MILLION && Find(db.lists, juid) == Some((k, i))
  {
    assert ListOk(k, db.lists[k], db.next[k]);
    FindExact(db, k, i);
  }

  lemma Apart(k: Kind, s: seq<Entry>, next: int, i: nat, j: nat, key: Key)
    requires ListOk(k, s, next) && i < |s| && j < |s|
    ensures Exclusive(k, key) && Matches(s[i], key) && Matches(s[j], key) ==> i == j
  {
  }

  // ---------------------------------------------------------------- the object

  /** The order of JUIDinfo. */
  const SECTIONS: seq<Kind> := [Session, Image, Stacks, InstMags, Analysis, Directive, Submission, Set]

  lemma EverySection(k: Kind)
    ensures exists i :: 0 <= i < 8 && SECTIONS[i] == k
  {
    match k
    case Session => assert SECTIONS[0] == k;
    case Image => assert SECTIONS[1] == k;
    case Stacks => assert SECTIONS[2] == k;
    case InstMags => assert SECTIONS[3] == k;
    case Analysis => assert SECTIONS[4] == k;
    case Directive => assert SECTIONS[5] == k;
    case Submission => assert SECTIONS[6] == k;
    case Set => assert SECTIONS[7] == k;
  }

  /** The search loops of LookupExposure, InstMagsForJUID, DiffPhotForJUID, CreateNewTarget,
      AddRefreshStack and FindMaybeDeleteByJUID, which differ in the key alone. */
  method SearchList(s: seq<Entry>, key: Key) returns (i: nat)
    ensures i == Search(s, key)
  {
    hide Search;
    i := 0;
    while i < |s| && !Matches(s[i], key)
      invariant i <= |s| && forall j :: 0 <= j < i ==> !Matches(s[j], key)
    {
      i := i + 1;
    }
  }

  /** SubtreeFindLargestJUID of a list of entries. */
  method FindLargest(s: seq<Entry>) returns (m: int)
    ensures m == Largest(s)
  {
    m := -1;
    for i := 0 to |s|
      invariant m == Largest(s[..i])
    {
      assert s[..i + 1][..i] == s[..i];
      if s[i].juid > m {
        m := s[i].juid;
      }
    }
    assert s[..|s|] == s;
  }

  /** The path test of AddExposure. */
  method StartsWith(full: string, pattern: string) returns (r: bool)
    ensures r <==> pattern != "" && pattern <= full
  {
    var i := 0;
    while i < |full| && i < |pattern|
      invariant i <= |full| && i <= |pattern| && full[..i] == pattern[..i] && (i < |pattern| || pattern == "")
    {
      if full[i] != pattern[i] {
        return false;
      }
      i := i + 1;
      if i == |pattern| {
        assert full[..i] == pattern;
        return true;
      }
    }
    return false;
  }

  function NoNumbers(): Numbers { map k: Kind | k in AllKinds() :: 0 }

  function NextKnown(lists: Lists, k: Kind): int
  {
    if Largest(lists[k]) > -1 then Largest(lists[k]) + 1 else -1
  }

  function Settled(k: Kind, known: int): int { if known < 0 then Root(k) else known }

  lemma InitializedAt(lists: Lists, k: Kind)
    ensures Initialized(lists)[k] == Settled(k, NextKnown(lists, k))
  {
  }

  class AstroDB {
    var lists: Lists
    var next: Numbers

    ghost function State(): Db
      reads this
    {
      Db(lists, next)
    }

    /** AstroDB::AstroDB on a file that another process keeps, or on a new one. */
    constructor (lists: Lists)
      ensures this.lists == lists && next == Initialized(lists)
    {
      this.lists := lists;
      this.next := NoNumbers();
      new;
      hide NoNumbers, AllFirstFree, Initialized;
      Initialize();
    }

    /** JUID::Initialize */
    method Initialize()
      modifies this`next
      ensures next == Initialized(lists)
      ensures AllFirstFree(lists, next)
    {
      InitializedExact(lists);
      hide Root, NextKnown, Largest, FirstFree, AllKinds, Initialized, Settled;
      var numbers := LargestOfAll();
      next := map k: Kind | k in AllKinds() :: Settled(k, numbers[k]);
      forall k: Kind ensures next[k] == Initialized(lists)[k] {
        InitializedAt(lists, k);
      }
      assert next == Initialized(lists);
    }

    /** Its loop over the sections. */
    method LargestOfAll() returns (numbers: Numbers)
      ensures forall k: Kind :: numbers[k] == NextKnown(lists, k)
    {
      hide Root, NextKnown, Largest, FirstFree, AllKinds, Initialized;
      numbers := map k: Kind | k in AllKinds() :: -1;
      ghost var seen: set<Kind> := {};
      for n := 0 to 8
        invariant forall j :: 0 <= j < n ==> SECTIONS[j] in seen
        invariant forall k: Kind :: numbers[k] == if k in seen then NextKnown(lists, k) else -1
      {
        numbers := NoteSection(numbers, SECTIONS[n]);
        seen := seen + {SECTIONS[n]};
      }
      forall k: Kind ensures k in seen {
        EverySection(k);
      }
    }

    method NoteSection(numbers: Numbers, k: Kind) returns (r: Numbers)
      requires numbers[k] == -1 || numbers[k] == NextKnown(lists, k)
      ensures r == numbers[k := NextKnown(lists, k)]
    {
      hide Largest;
      r := numbers;
      var largest := FindLargest(lists[k]);
      if largest > numbers[k] {
        r := numbers[k := largest + 1];
      }
    }

    /** JUID::GetNextJUID */
    method GetNextJuid(k: Kind) returns (juid: int)
      modifies this`next
      ensures State() == Issue(old(State()), k) && juid == old(next)[k]
    {
      juid := next[k];
      next := next[k := next[k] + 1];
    }

    /** FindMaybeDeleteByJUID */
    method FindMaybeDelete(juid: int, doDelete: bool) returns (found: Option<Entry>)
      modifies this`lists
      ensures found == Lookup(old(lists), juid)
      ensures lists == if doDelete then Deleted(old(lists), juid) else old(lists)
    {
      var root := MILLION * if juid >= 0 then juid / MILLION else -(-juid / MILLION);
      var section: Option<Kind> := None;
      for n := 0 to 8
        invariant section.Some? ==> Root(section.value) == root
        invariant section.None? ==> forall j :: 0 <= j < n ==> Root(SECTIONS[j]) != root
      {
        if Root(SECTIONS[n]) == root {
          section := Some(SECTIONS[n]);
        }
      }
      RootKind(juid, root, section);
      if section.None? {
        return None;
      }
      var k := section.value;
      var i := SearchList(lists[k], ByJuid(juid));
      if i == |lists[k]| {
        return None;
      }
      found := Some(lists[k][i]);
      if doDelete {
        lists := lists[k := lists[k][..i] + lists[k][i + 1..]];
      }
    }

    method AddToArrayEnd(k: Kind, e: Entry)
      modifies this`lists
      ensures State() == Append(old(State()), k, e)
    {
      lists := lists[k := lists[k] + [e]];
    }

    method AddExposure(path: string, file: string, detail: string) returns (r: int)
      modifies this
      ensures (State(), r) == Apply(old(State()), Op.AddExposure(path, file, detail))
      ensures r == if InImages(path) then old(next)[Image] else -1
      ensures lists[Image] == old(lists)[Image] + if InImages(path) then [Entry(r, 0, file, "", [], [], detail)] else []
    {
      InImagesExactly(path);
      var juid := GetNextJuid(Image);
      var inside := StartsWith(path, IMAGES);
      if !inside {
        return -1;
      }
      AddToArrayEnd(Image, Entry(juid, 0, file, "", [], [], detail));
      return juid;
    }

    /** AddSubexpSet, AddMergeSet and AddBVRISet */
    method AddSet(stype: string, inputs: seq<int>, detail: string) returns (r: int)
      modifies this
      ensures (State(), r) == Apply(old(State()), Op.AddSet(stype, inputs, detail))
    {
      r := GetNextJuid(Set);
      AddToArrayEnd(Set, Entry(r, 0, "", stype, inputs, [], detail));
    }

    method AddRefreshStack(file: string, inputs: seq<int>, actual: bool, detail: string) returns (r: int)
      modifies this
      ensures (State(), r) == Apply(old(State()), AddStack(file, inputs, actual, detail))
    {
      var s := lists[Stacks];
      var i := SearchList(s, ByName(file));
      if i == |s| {
        r := GetNextJuid(Stacks);
        var e := Entry(r, 0, file, "", [], [], detail);
        AddToArrayEnd(Stacks, if actual then e.(included := inputs) else e.(inputs := inputs));
      } else {
        r := s[i].juid;
        var e := s[i].(detail := detail);
        lists := lists[Stacks := s[i := if actual then e.(included := inputs) else e.(inputs := inputs)]];
      }
    }

    /** InstMagsForJUID and DiffPhotForJUID: the juid of the entry for a source, or 0. */
    method JuidFor(k: Kind, source: int) returns (juid: int)
      ensures var i := Search(lists[k], ByLink(source)); juid == if i < |lists[k]| then lists[k][i].juid else 0
    {
      var i := SearchList(lists[k], ByLink(source));
      juid := if i < |lists[k]| then lists[k][i].juid else 0;
    }

    /** How AddInstMags and AddDiffMags come by their juid. */
    method Replace(k: Kind, source: int) returns (juid: int)
      modifies this
      ensures (State(), juid) == Replacing(old(State()), k, source)
    {
      var orig := JuidFor(k, source);
      if orig != 0 {
        juid := orig;
        var _ := FindMaybeDelete(orig, true);
      } else {
        juid := GetNextJuid(k);
      }
    }

    method AddInstMags(source: int, detail: string) returns (r: int)
      modifies this
      ensures (State(), r) == Apply(old(State()), Op.AddInstMags(source, detail))
    {
      hide Replacing;
      var juid := Replace(InstMags, source);
      var host := FindMaybeDelete(source, false);
      if host.None? {
        return 0;
      }
      AddToArrayEnd(InstMags, Entry(juid, source, "", "", [], [], detail));
      return juid;
    }

    method AddDiffMags(source: int, detail: string) returns (r: int)
      modifies this
      ensures (State(), r) == Apply(old(State()), Op.AddDiffMags(source, detail))
    {
      hide Replacing;
      r := Replace(Analysis, source);
      AddToArrayEnd(Analysis, Entry(r, source, "", "DIFF", [source], [], detail));
    }

    method CreateNewTarget(target: string) returns (r: int)
      modifies this
      ensures (State(), r) == Apply(old(State()), NewTarget(target))
    {
      var s := lists[Set];
      var i := SearchList(s, ByTarget(target));
      if i < |s| {
        return s[i].juid;
      }
      r := GetNextJuid(Set);
      AddToArrayEnd(Set, Entry(r, 0, target, "TARGET", [], [], ""));
    }

    method CreateEmptyDirective(newJuid: int) returns (r: int)
      modifies this
      ensures (State(), r) == Apply(old(State()), NewDirective(newJuid))
    {
      if newJuid < 0 {
        r := GetNextJuid(Directive);
      } else {
        r := newJuid;
      }
      AddToArrayEnd(Directive, Entry(r, 0, "", "", [], [], ""));
    }

    /** AstroDB::Reactivate, with the lists as the file holds them. */
    method ReactivateFrom(file: Lists)
      modifies this
      ensures State() == Apply(Db(file, old(next)), Reactivate).0
    {
      hide Initialized;
      lists := file;
      Initialize();
    }
  }

  lemma RootKind(juid: int, root: int, section: Option<Kind>)
    requires root == MILLION * if juid >= 0 then juid / MILLION else -(-juid / MILLION)
    requires section.Some? ==> Root(section.value) == root
    requires section.None? ==> forall j :: 0 <= j < 8 ==> Root(SECTIONS[j]) != root
    ensures section == KindOf(juid)
  {
    var kind := KindOf(juid);
    if kind.Some? {
      EverySection(kind.value);
      assert Root(kind.value) == root;
    }
  }
}
