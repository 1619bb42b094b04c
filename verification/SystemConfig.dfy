/** SystemConfig: configurations that include one another, by name or by synonym. */
module SystemConfigs {
  import opened Acyclicity
  import opened Wrappers

  /** The right-hand side of an assignment: a string, a list of strings, or anything else. */
  datatype Value = Text(text: string) | Names(names: seq<string>) | Other(id: int)

  datatype Item = Item(variable: string, value: Value)

  type Xref = map<string, seq<Item>>
  type Synonyms = map<string, string>

  // ---------------------------------------------------------------- synonyms

  function WithAll(m: Synonyms, words: seq<string>, root: string): Synonyms
  {
    if words == [] then m else WithAll(m, words[..|words| - 1], root)[words[|words| - 1] := root]
  }

  predicate Listed(items: seq<Item>) { forall i :: 0 <= i < |items| ==> items[i].value.Names? }

  function SynonymsOf(items: seq<Item>): Synonyms
    requires Listed(items)
  {
    if items == [] then map[]
    else
      var last := items[|items| - 1];
      WithAll(SynonymsOf(items[..|items| - 1]), last.value.names, last.variable)
  }

  lemma {:induction false} WithAllAt(m: Synonyms, words: seq<string>, root: string, word: string)
    ensures word in WithAll(m, words, root) <==> word in words || word in m
    ensures word in words ==> WithAll(m, words, root)[word] == root
    ensures word !in words && word in m ==> WithAll(m, words, root)[word] == m[word]
  {
    if words != [] {
      var front := words[..|words| - 1];
      assert words == front + [words[|words| - 1]];
      WithAllAt(m, front, root, word);
    }
  }

  /** A word stands for the name that lists it last, and for nothing when no name lists it. */
  lemma {:induction false} SynonymsAt(items: seq<Item>, word: string)
    requires Listed(items)
    ensures word in SynonymsOf(items) <==> exists i :: 0 <= i < |items| && word in items[i].value.names
    ensures forall i :: 0 <= i < |items| && word in items[i].value.names
              && (forall j :: i < j < |items| ==> word !in items[j].value.names)
              ==> SynonymsOf(items)[word] == items[i].variable
  {
    if items != [] {
      var n := |items| - 1;
      SynonymsAt(items[..n], word);
      WithAllAt(SynonymsOf(items[..n]), items[n].value.names, items[n].variable, word);
      assert forall i :: 0 <= i < n ==> items[..n][i] == items[i];
    }
  }

  /** One step only: a synonym of a synonym is not looked up again. */
  function Resolve(s: Synonyms, name: string): string { if name in s then s[name] else name }

  // ---------------------------------------------------------------- includes

  function FindAssignment(items: seq<Item>, key: string): Option<Value>
  {
    if items == [] then None
    else if items[0].variable == key then Some(items[0].value)
    else FindAssignment(items[1..], key)
  }

  /** The names a configuration includes, in order; None when the include is neither a name nor a
      list of names. */
  function Includes(items: seq<Item>): Option<seq<string>>
  {
    match FindAssignment(items, "include")
    case None => Some([])
    case Some(Names(names)) => Some(names)
    case Some(Text(name)) => Some([name])
    case Some(Other(_)) => None
  }

  predicate Reserved(variable: string) { variable == "config_name" || variable == "include" }

  /** What a configuration itself assigns. */
  function Own(items: seq<Item>): map<string, Value>
  {
    if items == [] then map[]
    else
      var last := items[|items| - 1];
      var m := Own(items[..|items| - 1]);
      if Reserved(last.variable) then m else m[last.variable := last.value]
  }

  datatype Graph = Graph(xref: Xref, synonyms: Synonyms)

  /** The configurations a configuration leads to. */
  function Next(g: Graph, name: string): seq<string>
  {
    if name in g.xref && Includes(g.xref[name]).Some? then Resolved(g.synonyms, Includes(g.xref[name]).value) else []
  }

  function Resolved(s: Synonyms, names: seq<string>): (r: seq<string>)
    ensures |r| == |names| && forall i :: 0 <= i < |r| ==> r[i] == Resolve(s, names[i])
  {
    seq(|names|, i requires 0 <= i < |names| => Resolve(s, names[i]))
  }

  predicate HasName(config: seq<Item>)
  {
    FindAssignment(config, "config_name").Some? && FindAssignment(config, "config_name").value.Text?
  }

  predicate Named(configs: seq<seq<Item>>) { forall i :: 0 <= i < |configs| ==> HasName(configs[i]) }

  /** The configurations by name, a later one hiding an earlier one of the same name. */
  function XrefOf(configs: seq<seq<Item>>): Xref
    requires Named(configs)
  {
    if configs == [] then map[]
    else
      var last := configs[|configs| - 1];
      XrefOf(configs[..|configs| - 1])[FindAssignment(last, "config_name").value.text := last]
  }

  function LinksOf(g: Graph): Links
  {
    map n | n in g.xref :: Next(g, n)
  }

  /** Nothing that loading a configuration reaches includes itself again. */
  ghost predicate Sound(g: Graph, name: string) { Acyclic(LinksOf(g), name) }

  ghost function HeightOf(g: Graph, name: string): nat { Height(LinksOf(g), name) }

  ghost function Below(g: Graph, name: string): nat
  {
    if HeightOf(g, name) > 0 then HeightOf(g, name) - 1 else 0
  }

  ghost predicate AllBelow(g: Graph, names: seq<string>, bound: nat)
  {
    forall i :: 0 <= i < |names| ==> Sound(g, names[i]) && HeightOf(g, names[i]) <= bound
  }

  /** What a configuration includes is sound again and has shorter chains of includes. */
  lemma Children(g: Graph, name: string)
    requires Sound(g, name) && name in g.xref
    ensures HeightOf(g, name) > 0 && AllBelow(g, Next(g, name), Below(g, name))
  {
    hide Acyclic, Height, Next;
    var links := LinksOf(g);
    MemberHeight(links, name);
    forall i | 0 <= i < |Next(g, name)|
      ensures Sound(g, Next(g, name)[i]) && HeightOf(g, Next(g, name)[i]) <= Below(g, name)
    {
      if Next(g, name)[i] in g.xref {
        Descend(links, name, Next(g, name)[i]);
      } else {
        Missing(links, Next(g, name)[i]);
      }
    }
  }

  /** What loading a configuration brings: its includes merged in order, a later one overriding an
      earlier one, and its own assignments over all of them.  None when the load throws. */
  ghost function Merged(g: Graph, name: string): Option<map<string, Value>>
    requires Sound(g, name)
    decreases HeightOf(g, name), 0
  {
    if name !in g.xref || Includes(g.xref[name]).None? then None
    else
      Children(g, name);
      match MergedAll(g, Next(g, name), Below(g, name))
      case None => None
      case Some(m) => Some(m + Own(g.xref[name]))
  }

  ghost function MergedAll(g: Graph, names: seq<string>, bound: nat): Option<map<string, Value>>
    requires AllBelow(g, names, bound)
    decreases bound, |names|
  {
    if names == [] then Some(map[])
    else
      match (MergedAll(g, names[..|names| - 1], bound), Merged(g, names[|names| - 1]))
      case (Some(a), Some(b)) => Some(a + b)
      case _ => None
  }

  lemma {:induction false} MergedPrefix(g: Graph, names: seq<string>, bound: nat, n: nat)
    requires AllBelow(g, names, bound) && n <= |names|
    ensures AllBelow(g, names[..n], bound)
    ensures MergedAll(g, names, bound).Some? ==> MergedAll(g, names[..n], bound).Some?
    decreases |names|
  {
    if n < |names| {
      MergedPrefix(g, names[..|names| - 1], bound, n);
      assert names[..|names| - 1][..n] == names[..n];
    } else {
      assert names[..n] == names;
    }
  }

  // ---------------------------------------------------------------- the nearest definition

  function OwnLookup(items: seq<Item>, key: string): Option<Value>
  {
    if items == [] then None
    else
      var last := items[|items| - 1];
      if last.variable == key && !Reserved(key) then Some(last.value) else OwnLookup(items[..|items| - 1], key)
  }

  /** A lookup that walks the includes instead of merging them: the configuration's own last
      assignment, else what the last include that knows the key says. */
  ghost function Lookup(g: Graph, name: string, key: string): Option<Value>
    requires Sound(g, name)
    decreases HeightOf(g, name), 0
  {
    if name !in g.xref then None
    else if OwnLookup(g.xref[name], key).Some? then OwnLookup(g.xref[name], key)
    else
      Children(g, name);
      LookupAll(g, Next(g, name), Below(g, name), key)
  }

  ghost function LookupAll(g: Graph, names: seq<string>, bound: nat, key: string): Option<Value>
    requires AllBelow(g, names, bound)
    decreases bound, |names|
  {
    if names == [] then None
    else
      var last := Lookup(g, names[|names| - 1], key);
      if last.Some? then last else LookupAll(g, names[..|names| - 1], bound, key)
  }

  function At(m: map<string, Value>, key: string): Option<Value> { if key in m then Some(m[key]) else None }

  lemma {:induction false} OwnAt(items: seq<Item>, key: string)
    ensures At(Own(items), key) == OwnLookup(items, key)
  {
    if items != [] {
      OwnAt(items[..|items| - 1], key);
    }
  }

  lemma AtPlus(a: map<string, Value>, b: map<string, Value>, key: string)
    ensures At(a + b, key) == if At(b, key).Some? then At(b, key) else At(a, key)
  {
  }

  /** Merging and walking agree on every key. */
  lemma {:induction false} MergedLookup(g: Graph, name: string, key: string)
    requires Sound(g, name) && Merged(g, name).Some?
    ensures At(Merged(g, name).value, key) == Lookup(g, name, key)
    decreases HeightOf(g, name), 0
  {
    hide Own, OwnLookup, At, Next, Includes;
    Children(g, name);
    MergedAllLookup(g, Next(g, name), Below(g, name), key);
    var m := MergedAll(g, Next(g, name), Below(g, name)).value;
    OwnAt(g.xref[name], key);
    AtPlus(m, Own(g.xref[name]), key);
  }

  lemma {:induction false} MergedAllLookup(g: Graph, names: seq<string>, bound: nat, key: string)
    requires AllBelow(g, names, bound) && MergedAll(g, names, bound).Some?
    ensures At(MergedAll(g, names, bound).value, key) == LookupAll(g, names, bound, key)
    decreases bound, |names|
  {
    if names != [] {
      var n := |names| - 1;
      MergedAllLookup(g, names[..n], bound, key);
      MergedLookup(g, names[n], key);
      AtPlus(MergedAll(g, names[..n], bound).value, Merged(g, names[n]).value, key);
    }
  }

  // ---------------------------------------------------------------- from the file's own words

  /** The first item named include gives the names: one, or a list of them; no such item, none. */
  ghost predicate ListsIncludes(items: seq<Item>, names: seq<string>)
  {
    if exists i :: 0 <= i < |items| && items[i].variable == "include" then
      exists i :: 0 <= i < |items| && items[i].variable == "include"
                  && (forall j :: 0 <= j < i ==> items[j].variable != "include")
                  && (items[i].value == Names(names) || (|names| == 1 && items[i].value == Text(names[0])))
    else names == []
  }

  lemma {:induction false} FindFirst(items: seq<Item>, key: string)
    ensures match FindAssignment(items, key)
            case Some(v) => exists i :: 0 <= i < |items| && items[i].variable == key && items[i].value == v
                                        && (forall j :: 0 <= j < i ==> items[j].variable != key)
            case None => forall i :: 0 <= i < |items| ==> items[i].variable != key
  {
    if items != [] && items[0].variable != key {
      FindFirst(items[1..], key);
      assert forall i :: 1 <= i < |items| ==> items[i] == items[1..][i - 1];
      if FindAssignment(items, key).Some? {
        var v := FindAssignment(items, key).value;
        var i :| 0 <= i < |items[1..]| && items[1..][i].variable == key && items[1..][i].value == v
                 && (forall j :: 0 <= j < i ==> items[1..][j].variable != key);
        assert items[i + 1].variable == key;
      }
    }
  }

  lemma IncludesExact(items: seq<Item>, names: seq<string>)
    ensures Includes(items) == Some(names) <==> ListsIncludes(items, names)
  {
    hide FindAssignment;
    FindFirst(items, "include");
    if ListsIncludes(items, names) && FindAssignment(items, "include").Some? {
      var i :| 0 <= i < |items| && items[i].variable == "include"
               && (forall j :: 0 <= j < i ==> items[j].variable != "include")
               && (items[i].value == Names(names) || (|names| == 1 && items[i].value == Text(names[0])));
      assert FindAssignment(items, "include") == Some(items[i].value);
      assert |names| == 1 ==> names == [names[0]];
    }
  }

  /** What a word in an include stands for. */
  predicate StandsFor(s: Synonyms, word: string, name: string)
  {
    if word in s then s[word] == name else word == name
  }

  /** The names a configuration includes, each word with what it stands for. */
  ghost predicate Leads(g: Graph, name: string, words: seq<string>, targets: seq<string>)
  {
    && name in g.xref && ListsIncludes(g.xref[name], words) && |targets| == |words|
    && forall i :: 0 <= i < |words| ==> StandsFor(g.synonyms, words[i], targets[i])
  }

  lemma LeadsNext(g: Graph, name: string, words: seq<string>, targets: seq<string>)
    requires Leads(g, name, words, targets)
    ensures Includes(g.xref[name]) == Some(words) && Next(g, name) == targets
  {
    hide ListsIncludes, Includes;
    IncludesExact(g.xref[name], words);
  }

  /** What a configuration says of a key itself: its last assignment, reserved names aside. */
  ghost predicate Assigns(items: seq<Item>, key: string, value: Value)
  {
    && key != "config_name" && key != "include"
    && exists i :: 0 <= i < |items| && items[i].variable == key && items[i].value == value
                   && (forall j :: i < j < |items| ==> items[j].variable != key)
  }

  /** What a configuration's includes say of a key: what the last one that has it says. */
  ghost predicate Inherits(g: Graph, targets: seq<string>, key: string, value: Value)
    requires forall i :: 0 <= i < |targets| ==> Sound(g, targets[i]) && Merged(g, targets[i]).Some?
  {
    exists i :: 0 <= i < |targets| && At(Merged(g, targets[i]).value, key) == Some(value)
                && (forall j :: i < j < |targets| ==> key !in Merged(g, targets[j]).value)
  }

  /** A configuration that loads has an entry exactly where it assigns one itself, or else where
      one of its includes has one, each include taken by the name its word stands for. */
  lemma LoadedEntry(g: Graph, name: string, words: seq<string>, targets: seq<string>, key: string, value: Value)
    requires Sound(g, name) && Merged(g, name).Some? && Leads(g, name, words, targets)
    ensures forall i :: 0 <= i < |targets| ==> Sound(g, targets[i]) && Merged(g, targets[i]).Some?
    ensures At(Merged(g, name).value, key) == Some(value)
            <==> Assigns(g.xref[name], key, value)
                 || ((forall v :: !Assigns(g.xref[name], key, v)) && Inherits(g, targets, key, value))
  {
    hide Next, Includes, Own, OwnLookup, Leads, Assigns, At, Sound;
    Children(g, name);
    LeadsNext(g, name, words, targets);
    LoadedTargets(g, targets, Below(g, name));
    OwnAt(g.xref[name], key);
    OwnLast(g.xref[name], key);
    var inherited, own := MergedAll(g, targets, Below(g, name)).value, OwnLookup(g.xref[name], key);
    AtPlus(inherited, Own(g.xref[name]), key);
    assert Merged(g, name) == Some(inherited + Own(g.xref[name]));
    assert own.Some? ==> Assigns(g.xref[name], key, own.value);
    InheritsExact(g, targets, Below(g, name), key, value);
  }

  lemma {:induction false} LoadedTargets(g: Graph, names: seq<string>, bound: nat)
    requires AllBelow(g, names, bound) && MergedAll(g, names, bound).Some?
    ensures forall i :: 0 <= i < |names| ==> Sound(g, names[i]) && Merged(g, names[i]).Some?
    decreases |names|
  {
    hide Merged, Sound, HeightOf;
    if names != [] {
      var n := |names| - 1;
      LoadedTargets(g, names[..n], bound);
      assert forall i :: 0 <= i < n ==> names[i] == names[..n][i];
    }
  }

  lemma {:induction false} InheritsExact(g: Graph, names: seq<string>, bound: nat, key: string, value: Value)
    requires AllBelow(g, names, bound) && MergedAll(g, names, bound).Some?
    requires forall i :: 0 <= i < |names| ==> Sound(g, names[i]) && Merged(g, names[i]).Some?
    ensures At(MergedAll(g, names, bound).value, key) == Some(value) <==> Inherits(g, names, key, value)
    decreases |names|
  {
    hide Merged, Sound, HeightOf;
    if names != [] {
      var n := |names| - 1;
      var front := names[..n];
      assert forall i :: 0 <= i < n ==> names[i] == front[i];
      InheritsExact(g, front, bound, key, value);
      if key in Merged(g, names[n]).value {
        assert Inherits(g, names, key, value) ==> At(Merged(g, names[n]).value, key) == Some(value);
      } else {
        assert Inherits(g, names, key, value) ==> Inherits(g, front, key, value);
        assert Inherits(g, front, key, value) ==> Inherits(g, names, key, value);
      }
    }
  }

  lemma {:induction false} OwnLast(items: seq<Item>, key: string)
    ensures match OwnLookup(items, key)
            case Some(v) => forall w :: Assigns(items, key, w) <==> w == v
            case None => forall w :: !Assigns(items, key, w)
  {
    if items != [] {
      var n := |items| - 1;
      OwnLast(items[..n], key);
      if Reserved(key) {
        assert OwnLookup(items, key).Some? ==> Assigns(items[..n], key, OwnLookup(items, key).value);
      } else if items[n].variable == key {
        assert forall w :: Assigns(items, key, w) <==> w == items[n].value;
      } else {
        assert forall w :: Assigns(items, key, w) ==> Assigns(items[..n], key, w);
        assert forall w :: Assigns(items[..n], key, w) ==> Assigns(items, key, w);
      }
    }
  }

  // ---------------------------------------------------------------- when it throws

  /** A chain of includes from a name to one that is missing or whose include makes no sense. */
  predicate BadChain(g: Graph, path: seq<string>, name: string)
    decreases |path|
  {
    && path != [] && path[0] == name
    && (if |path| == 1 then name !in g.xref || Includes(g.xref[name]).None?
        else path[1] in Next(g, name) && BadChain(g, path[1..], path[1]))
  }

  lemma {:induction false} BadChainThrows(g: Graph, path: seq<string>, name: string)
    requires Sound(g, name) && BadChain(g, path, name)
    ensures Merged(g, name).None?
    decreases |path|
  {
    if |path| > 1 {
      Children(g, name);
      BadChainThrows(g, path[1..], path[1]);
      MemberThrows(g, Next(g, name), Below(g, name), path[1]);
    }
  }

  lemma {:induction false} MemberThrows(g: Graph, names: seq<string>, bound: nat, bad: string)
    requires AllBelow(g, names, bound) && bad in names && Merged(g, bad).None?
    ensures MergedAll(g, names, bound).None?
    decreases |names|
  {
    var n := |names| - 1;
    if names[n] != bad {
      assert names == names[..n] + [names[n]];
      MemberThrows(g, names[..n], bound, bad);
    }
  }

  lemma {:induction false} ThrowsBadChain(g: Graph, name: string) returns (path: seq<string>)
    requires Sound(g, name) && Merged(g, name).None?
    ensures BadChain(g, path, name)
    decreases HeightOf(g, name), 0
  {
    path := [name];
    if name in g.xref && Includes(g.xref[name]).Some? {
      Children(g, name);
      var bad, rest := BadMember(g, Next(g, name), Below(g, name));
      path := [name] + rest;
      assert path[1..] == rest;
    }
  }

  lemma {:induction false} BadMember(g: Graph, names: seq<string>, bound: nat)
    returns (bad: string, path: seq<string>)
    requires AllBelow(g, names, bound) && MergedAll(g, names, bound).None?
    ensures bad in names && BadChain(g, path, bad)
    decreases bound, |names|
  {
    var n := |names| - 1;
    if Merged(g, names[n]).None? {
      bad := names[n];
      path := ThrowsBadChain(g, bad);
    } else {
      bad, path := BadMember(g, names[..n], bound);
    }
  }

  ghost predicate HasBadChain(g: Graph, name: string)
  {
    exists path :: BadChain(g, path, name)
  }

  /** Loading throws exactly when some chain of includes leads to a name that is not there. */
  lemma ThrowsExactly(g: Graph, name: string)
    requires Sound(g, name)
    ensures Merged(g, name).None? <==> HasBadChain(g, name)
  {
    if Merged(g, name).None? {
      var path := ThrowsBadChain(g, name);
      assert BadChain(g, path, name);
    }
    if HasBadChain(g, name) {
      var path :| BadChain(g, path, name);
      BadChainThrows(g, path, name);
    }
  }

  // ---------------------------------------------------------------- the object

  class SystemConfig {
    var synonyms: Synonyms
    var data: map<string, Value>

    constructor ()
      ensures synonyms == map[] && data == map[]
    {
      synonyms, data := map[], map[];
    }

    /** BuildSynonymList; false for the exception. */
    method BuildSynonymList(items: seq<Item>) returns (ok: bool)
      modifies this`synonyms
      ensures ok <==> Listed(items)
      ensures ok ==> synonyms == SynonymsOf(items)
    {
      synonyms := map[];
      for i := 0 to |items|
        invariant Listed(items[..i]) && synonyms == SynonymsOf(items[..i])
      {
        assert items[..i + 1][..i] == items[..i];
        if !items[i].value.Names? {
          return false;
        }
        var words := items[i].value.names;
        ghost var before := synonyms;
        for j := 0 to |words|
          invariant synonyms == WithAll(before, words[..j], items[i].variable)
        {
          assert words[..j + 1][..j] == words[..j];
          synonyms := synonyms[words[j] := items[i].variable];
        }
        assert words[..|words|] == words;
      }
      assert items[..|items|] == items;
      return true;
    }

    /** RecursiveLoad; false for the exception. */
    method RecursiveLoad(xref: Xref, configParam: string) returns (ok: bool)
      requires Sound(Graph(xref, synonyms), Resolve(synonyms, configParam))
      modifies this`data
      ensures var m := Merged(Graph(xref, synonyms), Resolve(synonyms, configParam));
              ok == m.Some? && (ok ==> data == old(data) + m.value)
      decreases HeightOf(Graph(xref, synonyms), Resolve(synonyms, configParam)), 0
    {
      hide MergedAll, Own, AllBelow, FindAssignment, Resolved, Sound, HeightOf;
      var configName := configParam;
      if configName in synonyms {
        configName := synonyms[configParam];
      }
      if configName !in xref {
        return false;
      }
      var subconfig := xref[configName];
      var includes := FindAssignment(subconfig, "include");
      if includes.Some? && includes.value.Other? {
        return false;
      }
      var names := if includes.None? then []
                   else if includes.value.Names? then includes.value.names
                   else [includes.value.text];
      assert Resolved(synonyms, names) == Next(Graph(xref, synonyms), configName);
      Children(Graph(xref, synonyms), configName);
      ok := LoadIncludes(xref, names, Below(Graph(xref, synonyms), configName));
      if !ok {
        return;
      }
      LoadItems(subconfig);
    }

    /** The constructor on a parsed file: the configurations by name, the synonyms, and the current
        configuration with all it includes; false for any exception. */
    method Load(configs: seq<seq<Item>>, synonymItems: seq<Item>, current: string) returns (ok: bool)
      requires Named(configs) && Listed(synonymItems) ==>
                 var g := Graph(XrefOf(configs), SynonymsOf(synonymItems)); Sound(g, Resolve(g.synonyms, current))
      modifies this
      ensures ok ==> Named(configs) && Listed(synonymItems)
      ensures Named(configs) && Listed(synonymItems) ==>
                var g := Graph(XrefOf(configs), SynonymsOf(synonymItems));
                var m := Merged(g, Resolve(g.synonyms, current));
                ok == m.Some? && (ok ==> data == old(data) + m.value)
    {
      hide Sound, Merged, Listed, SynonymsOf, FindAssignment;
      var xref: Xref := map[];
      for i := 0 to |configs|
        invariant Named(configs[..i]) && xref == XrefOf(configs[..i])
        invariant data == old(data)
      {
        assert configs[..i + 1][..i] == configs[..i];
        var name := FindAssignment(configs[i], "config_name");
        if name.None? || !name.value.Text? {
          return false;
        }
        xref := xref[name.value.text := configs[i]];
      }
      assert configs[..|configs|] == configs;
      ok := BuildSynonymList(synonymItems);
      if !ok {
        return;
      }
      ok := RecursiveLoad(xref, current);
    }

    /** The loop over the includes. */
    method LoadIncludes(xref: Xref, names: seq<string>, ghost bound: nat) returns (ok: bool)
      requires AllBelow(Graph(xref, synonyms), Resolved(synonyms, names), bound)
      modifies this`data
      ensures var m := MergedAll(Graph(xref, synonyms), Resolved(synonyms, names), bound);
              ok == m.Some? && (ok ==> data == old(data) + m.value)
      decreases bound, |names|
    {
      ghost var g, next, start := Graph(xref, synonyms), Resolved(synonyms, names), data;
      hide Sound, HeightOf, Merged;
      for i := 0 to |names|
        invariant AllBelow(g, next[..i], bound) && MergedAll(g, next[..i], bound).Some?
        invariant data == start + MergedAll(g, next[..i], bound).value
      {
        ghost var so := MergedAll(g, next[..i], bound);
        assert next[..i + 1][..i] == next[..i] && next[..i + 1][i] == Resolve(synonyms, names[i]);
        MergedPrefix(g, next, bound, i + 1);
        ok := RecursiveLoad(xref, names[i]);
        if !ok {
          return;
        }
        PlusPlus(start, so.value, Merged(g, next[i]).value);
      }
      assert next[..|names|] == next;
      return true;
    }

    /** The loop over the assignments of the configuration itself. */
    method LoadItems(items: seq<Item>)
      modifies this`data
      ensures data == old(data) + Own(items)
    {
      ghost var start := data;
      for j := 0 to |items|
        invariant data == start + Own(items[..j])
      {
        assert items[..j + 1][..j] == items[..j];
        var variable := items[j].variable;
        if variable == "config_name" {
          continue;
        }
        if variable == "include" {
          continue;
        }
        data := data[variable := items[j].value];
      }
      assert items[..|items|] == items;
    }
  }

  lemma PlusPlus(a: map<string, Value>, b: map<string, Value>, c: map<string, Value>)
    ensures a + b + c == a + (b + c)
  {
  }
}
