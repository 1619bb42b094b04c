/** ImageProfile: camera settings that a profile takes over from the profile it is based on. */
module ImageProfiles {
  import opened Acyclicity
  import opened Wrappers

  datatype Value = Text(text: string) | Number(n: int)

  /** A profile of the file.  name: None for one that is not a string.  content: the first value of
      each keyword assigned, or None when it is missing or not a sequence. */
  datatype Profile = Profile(name: Option<string>, base: Option<string>, content: Option<map<string, Value>>)

  const FLAGS: seq<string> := ["offset", "gain", "mode", "binning", "compress", "usb_traffic", "format",
                               "box_bottom", "box_top", "box_left", "box_right"]

  lemma KnownKeywords(keyword: string)
    ensures keyword in FLAGS <==> keyword in {"offset", "gain", "mode", "binning", "compress", "usb_traffic", "format",
                                              "box_bottom", "box_top", "box_left", "box_right"}
  {
    assert forall i :: 0 <= i < 11 ==> FLAGS[i] in FLAGS;
  }

  /** The place of the first profile of a name, or the length of the list. */
  function Search(tree: seq<Profile>, name: string): (i: nat)
    ensures i <= |tree|
    ensures i < |tree| ==> tree[i].name == Some(name)
    ensures forall j :: 0 <= j < i ==> tree[j].name != Some(name)
  {
    if tree == [] then 0
    else if tree[0].name == Some(name) then 0
    else
      var i := Search(tree[1..], name);
      assert forall j :: 1 <= j < |tree| ==> tree[j] == tree[1..][j - 1];
      1 + i
  }

  function Found(tree: seq<Profile>, name: string): Option<Profile>
  {
    var i := Search(tree, name);
    if i < |tree| then Some(tree[i]) else None
  }

  function NamesOf(tree: seq<Profile>): set<string>
  {
    set i | 0 <= i < |tree| && tree[i].name.Some? :: tree[i].name.value
  }

  function BasesOf(tree: seq<Profile>, name: string): seq<string>
  {
    if Found(tree, name).Some? && Found(tree, name).value.base.Some? then [Found(tree, name).value.base.value] else []
  }

  function LinksOf(tree: seq<Profile>): Links
  {
    map name | name in NamesOf(tree) :: BasesOf(tree, name)
  }

  /** The chain of bases that starts with a profile does not come back to one it has passed. */
  ghost predicate Sound(tree: seq<Profile>, name: string) { Acyclic(LinksOf(tree), name) }

  ghost function HeightOf(tree: seq<Profile>, name: string): nat { Height(LinksOf(tree), name) }

  lemma BaseOf(tree: seq<Profile>, name: string)
    requires Sound(tree, name) && Found(tree, name).Some? && Found(tree, name).value.base.Some?
    ensures var base := Found(tree, name).value.base.value;
            Sound(tree, base) && HeightOf(tree, base) < HeightOf(tree, name)
  {
    hide Acyclic, Height;
    var links, base := LinksOf(tree), Found(tree, name).value.base.value;
    assert tree[Search(tree, name)].name == Some(name);
    assert name in NamesOf(tree);
    if base in links {
      Descend(links, name, base);
    } else {
      Missing(links, base);
      MemberHeight(links, name);
    }
  }

  /** Every profile of the chain is there and has a content. */
  ghost predicate Complete(tree: seq<Profile>, name: string)
    requires Sound(tree, name)
    decreases HeightOf(tree, name)
  {
    match Found(tree, name)
    case None => false
    case Some(p) =>
      p.content.Some? && (p.base.Some? ==> (BaseOf(tree, name); Complete(tree, p.base.value)))
  }

  /** The nearest definition of a keyword along the chain of bases; only the known keywords have one. */
  ghost function Nearest(tree: seq<Profile>, name: string, keyword: string): Option<Value>
    requires Sound(tree, name)
    decreases HeightOf(tree, name)
  {
    match Found(tree, name)
    case None => None
    case Some(p) =>
      if keyword !in FLAGS then None
      else if p.content.Some? && keyword in p.content.value then Some(p.content.value[keyword])
      else if p.base.Some? then
        BaseOf(tree, name);
        Nearest(tree, p.base.value, keyword)
      else None
  }

  // ---------------------------------------------------------------- along the chain

  /** Profiles of the file, each based on the next. */
  predicate Chain(tree: seq<Profile>, path: seq<string>, name: string)
  {
    && path != [] && path[0] == name
    && forall i :: 0 <= i < |path| - 1 ==>
         Found(tree, path[i]).Some? && Found(tree, path[i]).value.base == Some(path[i + 1])
  }

  function Says(tree: seq<Profile>, name: string, keyword: string): Option<Value>
  {
    match Found(tree, name)
    case Some(Profile(_, _, Some(content))) => if keyword in content then Some(content[keyword]) else None
    case _ => None
  }

  predicate Usable(tree: seq<Profile>, name: string)
  {
    Found(tree, name).Some? && Found(tree, name).value.content.Some?
  }

  lemma ChainCons(tree: seq<Profile>, name: string, rest: seq<string>)
    requires rest != [] && Chain(tree, rest, rest[0])
    requires Found(tree, name).Some? && Found(tree, name).value.base == Some(rest[0])
    ensures Chain(tree, [name] + rest, name)
  {
  }

  lemma ChainTail(tree: seq<Profile>, path: seq<string>, name: string)
    requires Chain(tree, path, name) && |path| > 1
    ensures Found(tree, name).Some? && Found(tree, name).value.base == Some(path[1])
    ensures Chain(tree, path[1..], path[1])
  {
  }

  /** The chain leads to a profile that gives the keyword a value, past none that does. */
  predicate LeadsTo(tree: seq<Profile>, path: seq<string>, keyword: string, value: Value)
  {
    && path != [] && Says(tree, path[|path| - 1], keyword) == Some(value)
    && forall i :: 0 <= i < |path| - 1 ==> Says(tree, path[i], keyword) == None
  }

  /** A keyword has a value exactly if it is a known one and the chain leads to it. */
  lemma NearestExact(tree: seq<Profile>, name: string, keyword: string, value: Value)
    requires Sound(tree, name)
    ensures Nearest(tree, name, keyword) == Some(value)
            <==> keyword in FLAGS && exists path :: Chain(tree, path, name) && LeadsTo(tree, path, keyword, value)
  {
    if Nearest(tree, name, keyword) == Some(value) {
      var path := NearestChain(tree, name, keyword);
      assert Chain(tree, path, name) && LeadsTo(tree, path, keyword, value);
    }
    if keyword in FLAGS && exists path :: Chain(tree, path, name) && LeadsTo(tree, path, keyword, value) {
      var path :| Chain(tree, path, name) && LeadsTo(tree, path, keyword, value);
      ChainNearest(tree, name, path, keyword, value);
    }
  }

  lemma {:induction false} NearestChain(tree: seq<Profile>, name: string, keyword: string)
    returns (path: seq<string>)
    requires Sound(tree, name) && Nearest(tree, name, keyword).Some?
    ensures keyword in FLAGS && Chain(tree, path, name)
    ensures LeadsTo(tree, path, keyword, Nearest(tree, name, keyword).value)
    decreases HeightOf(tree, name)
  {
    path := [name];
    if Says(tree, name, keyword).None? {
      var base := Found(tree, name).value.base.value;
      BaseOf(tree, name);
      var rest := NearestChain(tree, base, keyword);
      ChainCons(tree, name, rest);
      path := path + rest;
    }
  }

  lemma LeadsTail(tree: seq<Profile>, path: seq<string>, keyword: string, value: Value)
    requires LeadsTo(tree, path, keyword, value)
    ensures if |path| == 1 then Says(tree, path[0], keyword) == Some(value)
            else |path| > 1 && Says(tree, path[0], keyword) == None && LeadsTo(tree, path[1..], keyword, value)
  {
  }

  lemma ChainFirst(tree: seq<Profile>, path: seq<string>, name: string)
    requires Chain(tree, path, name)
    ensures path != [] && path[0] == name
  {
  }

  lemma {:induction false} ChainNearest(tree: seq<Profile>, name: string, path: seq<string>, keyword: string,
                                        value: Value)
    requires Sound(tree, name) && keyword in FLAGS && Chain(tree, path, name) && LeadsTo(tree, path, keyword, value)
    ensures Nearest(tree, name, keyword) == Some(value)
    decreases |path|
  {
    hide Chain, LeadsTo, Sound, HeightOf;
    LeadsTail(tree, path, keyword, value);
    ChainFirst(tree, path, name);
    if |path| > 1 {
      ChainTail(tree, path, name);
      BaseOf(tree, name);
      ChainNearest(tree, path[1], path[1..], keyword, value);
    }
  }

  /** The load goes through exactly if every profile the chain leads to is there with a content. */
  lemma CompleteExact(tree: seq<Profile>, name: string)
    requires Sound(tree, name)
    ensures Complete(tree, name) <==> forall path :: Chain(tree, path, name) ==> Usable(tree, path[|path| - 1])
  {
    if Complete(tree, name) {
      forall path | Chain(tree, path, name) ensures Usable(tree, path[|path| - 1]) {
        CompleteChain(tree, name, path);
      }
    } else {
      var path := BrokenChain(tree, name);
    }
  }

  lemma {:induction false} CompleteChain(tree: seq<Profile>, name: string, path: seq<string>)
    requires Sound(tree, name) && Complete(tree, name) && Chain(tree, path, name)
    ensures Usable(tree, path[|path| - 1])
    decreases |path|
  {
    if |path| > 1 {
      ChainTail(tree, path, name);
      BaseOf(tree, name);
      CompleteChain(tree, path[1], path[1..]);
    }
  }

  lemma {:induction false} BrokenChain(tree: seq<Profile>, name: string) returns (path: seq<string>)
    requires Sound(tree, name) && !Complete(tree, name)
    ensures Chain(tree, path, name) && !Usable(tree, path[|path| - 1])
    decreases HeightOf(tree, name)
  {
    path := [name];
    if Usable(tree, name) {
      var base := Found(tree, name).value.base.value;
      BaseOf(tree, name);
      var rest := BrokenChain(tree, base);
      ChainCons(tree, name, rest);
      path := path + rest;
    }
  }

  datatype Pair = Pair(keyword: string, value: Value)

  /** FindByKeyword */
  function Lookup(pairs: seq<Pair>, keyword: string): Option<Value>
  {
    if pairs == [] then None
    else if pairs[0].keyword == keyword then Some(pairs[0].value)
    else Lookup(pairs[1..], keyword)
  }

  /** The pairs after one keyword of a content: overridden in place, or added at the end. */
  function Override(pairs: seq<Pair>, keyword: string, value: Value): seq<Pair>
  {
    if pairs == [] then [Pair(keyword, value)]
    else if pairs[0].keyword == keyword then [Pair(keyword, value)] + pairs[1..]
    else [pairs[0]] + Override(pairs[1..], keyword, value)
  }

  lemma {:induction false} OverrideLookup(pairs: seq<Pair>, keyword: string, value: Value, key: string)
    ensures Lookup(Override(pairs, keyword, value), key) == if key == keyword then Some(value) else Lookup(pairs, key)
  {
    if pairs != [] && pairs[0].keyword != keyword {
      var r := [pairs[0]] + Override(pairs[1..], keyword, value);
      assert r[1..] == Override(pairs[1..], keyword, value);
      OverrideLookup(pairs[1..], keyword, value, key);
    } else if pairs != [] {
      var r := [Pair(keyword, value)] + pairs[1..];
      assert r[1..] == pairs[1..];
    } else {
      assert [Pair(keyword, value)][1..] == [];
    }
  }

  lemma {:induction false} OverrideAt(pairs: seq<Pair>, i: nat, keyword: string, value: Value)
    requires i <= |pairs| && forall j :: 0 <= j < i ==> pairs[j].keyword != keyword
    requires i < |pairs| ==> pairs[i].keyword == keyword
    ensures Override(pairs, keyword, value)
            == if i < |pairs| then pairs[i := Pair(keyword, value)] else pairs + [Pair(keyword, value)]
  {
    if i > 0 {
      OverrideAt(pairs[1..], i - 1, keyword, value);
      assert pairs == [pairs[0]] + pairs[1..];
    }
  }

  function WithContent(pairs: seq<Pair>, content: map<string, Value>, n: nat): seq<Pair>
    requires n <= |FLAGS|
  {
    if n == 0 then pairs
    else
      var r := WithContent(pairs, content, n - 1);
      if FLAGS[n - 1] in content then Override(r, FLAGS[n - 1], content[FLAGS[n - 1]]) else r
  }

  lemma {:induction false} ContentLookup(pairs: seq<Pair>, content: map<string, Value>, n: nat, key: string)
    requires n <= |FLAGS|
    ensures Lookup(WithContent(pairs, content, n), key) ==
            if key in FLAGS[..n] && key in content then Some(content[key]) else Lookup(pairs, key)
    decreases n
  {
    if n > 0 {
      ContentLookup(pairs, content, n - 1, key);
      assert FLAGS[..n] == FLAGS[..n - 1] + [FLAGS[n - 1]];
      if FLAGS[n - 1] in content {
        OverrideLookup(WithContent(pairs, content, n - 1), FLAGS[n - 1], content[FLAGS[n - 1]], key);
      }
    }
  }

  lemma NothingKnown()
    ensures forall key :: Lookup([], key) == None
  {
  }

  class ImageProfile {
    var keywords: seq<Pair>
    var valid: bool

    constructor ()
      ensures keywords == [] && !valid
    {
      keywords, valid := [], false;
    }

    /** FindByKeyword: the place of the pair, or the length of the list for nullptr. */
    method FindByKeyword(keyword: string) returns (i: nat)
      ensures i <= |keywords| && (i < |keywords| ==> keywords[i].keyword == keyword)
      ensures forall j :: 0 <= j < i ==> keywords[j].keyword != keyword
    {
      i := 0;
      while i < |keywords| && keywords[i].keyword != keyword
        invariant i <= |keywords| && forall j :: 0 <= j < i ==> keywords[j].keyword != keyword
      {
        i := i + 1;
      }
    }

    /** The constructor on a parsed tree; false where it prints a message and exits. */
    method Load(name: string, tree: seq<Profile>) returns (ok: bool)
      requires Sound(tree, name) && keywords == []
      modifies this
      ensures ok <==> Complete(tree, name)
      ensures ok ==> valid && forall key :: Lookup(keywords, key) == Nearest(tree, name, key)
      decreases HeightOf(tree, name)
    {
      hide Lookup, Override, Sound, HeightOf;
      var i := 0;
      while i < |tree| && tree[i].name != Some(name)
        invariant i <= |tree| && forall j :: 0 <= j < i ==> tree[j].name != Some(name)
      {
        i := i + 1;
      }
      assert i == Search(tree, name);
      if i == |tree| {
        return false;
      }
      var profile := tree[i];
      assert Found(tree, name) == Some(profile);
      if profile.base.Some? {
        BaseOf(tree, name);
        var base := new ImageProfile();
        ok := base.Load(profile.base.value, tree);
        if !ok {
          return;
        }
        keywords := base.keywords;
      }
      if profile.content.None? {
        return false;
      }
      NothingKnown();
      ghost var inherited := keywords;
      LoadContent(profile.content.value);
      valid := true;
      ok := true;
      forall key ensures Lookup(keywords, key) == Nearest(tree, name, key) {
        ContentLookup(inherited, profile.content.value, |FLAGS|, key);
        assert FLAGS[..|FLAGS|] == FLAGS;
      }
    }

    /** The loop over the known keywords. */
    method LoadContent(content: map<string, Value>)
      modifies this`keywords
      ensures keywords == WithContent(old(keywords), content, |FLAGS|)
    {
      hide Lookup, Override;
      ghost var inherited := keywords;
      for n := 0 to |FLAGS|
        invariant keywords == WithContent(inherited, content, n)
      {
        var keyword := FLAGS[n];
        if keyword in content {
          var at := FindByKeyword(keyword);
          OverrideAt(keywords, at, keyword, content[keyword]);
          if at == |keywords| {
            keywords := keywords + [Pair(keyword, content[keyword])];
          } else {
            keywords := keywords[at := Pair(keyword, content[keyword])];
          }
        }
      }
    }
  }
}
