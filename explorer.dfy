/**
 * The container explorer `explore_tree(tree, definition_path)`: it maps a
 * `/`-separated definition path onto an ECUC-like tree of dictionaries,
 * matching every segment case-insensitively as a prefix of the container
 * names, and answers a nested map of the matched names whose leaves are
 * empty dictionaries. Without a path it lists two levels of containers under
 * the first dictionary-valued top entry.
 */
module Explorer {
  import opened Wrappers
  import opened Strings
  import opened Json

  // ------------------------------------------------------ child_containers

  /** The entries of `es` whose value is a dictionary, in order. */
  function DictValued(es: Entries): (r: Entries)
    ensures forall e :: e in r <==> e in es && e.1.JObj?
  {
    if es == [] then []
    else (if es[0].1.JObj? then [es[0]] else []) + DictValued(es[1..])
  }

  /**
   * `child_containers(node)`: nothing for a non-dictionary, the `containers`
   * dictionary when there is one, and otherwise the dictionary-valued
   * entries of the node.
   */
  function ChildContainers(node: Json): Entries
  {
    if !node.JObj? then []
    else
      var cont := Get(node.entries, "containers");
      if cont.Some? && cont.value.JObj? then cont.value.entries
      else PutAll([], DictValued(node.entries))
  }

  /** The three cases of `child_containers`; without a `containers` dictionary the children are exactly the dictionary-valued entries. */
  lemma ChildContainersCases(node: Json)
    ensures !node.JObj? ==> ChildContainers(node) == []
    ensures node.JObj? && Get(node.entries, "containers").Some? && Get(node.entries, "containers").value.JObj? ==>
      ChildContainers(node) == Get(node.entries, "containers").value.entries
    ensures node.JObj? && !(Get(node.entries, "containers").Some? && Get(node.entries, "containers").value.JObj?) ==>
      && (forall e :: e in ChildContainers(node) ==> e in node.entries && e.1.JObj?)
      && (forall e :: e in node.entries && e.1.JObj? ==> e.0 in Keys(ChildContainers(node)))
      && (UniqueKeys(node.entries) ==> ChildContainers(node) == DictValued(node.entries))
  {
    if node.JObj? && !(Get(node.entries, "containers").Some? && Get(node.entries, "containers").value.JObj?) {
      var dv := DictValued(node.entries);
      PutAllEntries([], dv);
      forall e | e in node.entries && e.1.JObj? ensures e.0 in Keys(ChildContainers(node)) {
        var i :| 0 <= i < |dv| && dv[i] == e;
        assert Keys(dv)[i] == e.0;
      }
      if UniqueKeys(node.entries) {
        DictValuedUnique(node.entries);
        PutAllOwnEntries(dv);
      }
    }
  }

  lemma {:induction false} DictValuedUnique(es: Entries)
    requires UniqueKeys(es)
    ensures UniqueKeys(DictValued(es))
  {
    if es != [] {
      assert UniqueKeys(es[1..]);
      DictValuedUnique(es[1..]);
      var r := DictValued(es);
      if es[0].1.JObj? {
        forall j | 0 < j < |r| ensures r[0].0 != r[j].0 {
          assert r[j] in DictValued(es[1..]);
        }
      }
    }
  }

  // ------------------------------------------------------------ the path

  /** `[p for p in path.strip("/").split("/") if p]`. */
  function Parts(path: string): seq<string>
  {
    NonEmpty(Split(Strip(path, {'/'}), '/'))
  }

  /** Every part is a non-empty name without a slash. */
  lemma PartsShape(path: string)
    ensures forall p :: p in Parts(path) ==> p != [] && '/' !in p
  {
  }

  /** A path made only of slashes has no parts. */
  lemma OnlySlashes(path: string)
    requires forall i :: 0 <= i < |path| ==> path[i] == '/'
    ensures Parts(path) == []
  {
    assert Strip(path, {'/'}) == "";
    assert Split("", '/') == [""];
  }

  /** A path that neither starts nor ends with a slash and whose segments are non-empty has those segments as its parts. */
  lemma PartsOfJoin(segments: seq<string>)
    requires |segments| >= 1
    requires forall i :: 0 <= i < |segments| ==> segments[i] != [] && '/' !in segments[i]
    ensures Parts(Join(segments, '/')) == segments
  {
    var path := Join(segments, '/');
    JoinEnds(segments, '/');
    StripUntouched(path, {'/'});
    SplitJoin(segments, '/');
    NonEmptyKeeps(segments);
  }

  lemma {:induction false} JoinEnds(parts: seq<string>, sep: char)
    requires |parts| >= 1
    requires forall i :: 0 <= i < |parts| ==> parts[i] != [] && sep !in parts[i]
    ensures var s := Join(parts, sep); s != [] && s[0] == parts[0][0] && s[|s| - 1] == parts[|parts| - 1][|parts[|parts| - 1]| - 1]
  {
    if |parts| > 1 {
      JoinEnds(parts[1..], sep);
    }
  }

  lemma StripUntouched(s: string, chars: set<char>)
    requires s != [] && s[0] !in chars && s[|s| - 1] !in chars
    ensures Strip(s, chars) == s
  {
  }

  lemma {:induction false} NonEmptyKeeps(xs: seq<string>)
    requires forall i :: 0 <= i < |xs| ==> xs[i] != []
    ensures NonEmpty(xs) == xs
  {
    if xs != [] {
      NonEmptyKeeps(xs[1..]);
    }
  }

  // ------------------------------------------------------ the top node

  /** The value of the first entry whose key equals `name` up to case. */
  function ExactMatch(tree: Entries, name: string): Option<Json>
  {
    if tree == [] then None
    else if Lower(tree[0].0) == Lower(name) then Some(tree[0].1)
    else ExactMatch(tree[1..], name)
  }

  /** The value of the first entry whose key starts with `name` up to case. */
  function PrefixMatch(tree: Entries, name: string): Option<Json>
  {
    if tree == [] then None
    else if StartsWith(Lower(tree[0].0), Lower(name)) then Some(tree[0].1)
    else PrefixMatch(tree[1..], name)
  }

  /** The exact match found is the value of the first entry whose key equals the name up to case. */
  lemma {:induction false} ExactMatchFirst(tree: Entries, name: string, i: nat)
    requires i < |tree| && Lower(tree[i].0) == Lower(name)
    requires forall j :: 0 <= j < i ==> Lower(tree[j].0) != Lower(name)
    ensures ExactMatch(tree, name) == Some(tree[i].1)
  {
    if i > 0 {
      assert forall j :: 0 <= j < i - 1 ==> tree[1..][j] == tree[j + 1];
      ExactMatchFirst(tree[1..], name, i - 1);
    }
  }

  /** An exact match is the value of an entry whose key equals the name up to case; there is none only when no key does. */
  lemma {:induction false} ExactMatchFound(tree: Entries, name: string)
    ensures ExactMatch(tree, name).Some? ==>
      exists i :: 0 <= i < |tree| && tree[i].1 == ExactMatch(tree, name).value && Lower(tree[i].0) == Lower(name)
    ensures ExactMatch(tree, name).None? <==> forall i :: 0 <= i < |tree| ==> Lower(tree[i].0) != Lower(name)
  {
    if tree != [] && Lower(tree[0].0) != Lower(name) {
      ExactMatchFound(tree[1..], name);
      assert forall j :: 1 <= j < |tree| ==> tree[j] == tree[1..][j - 1];
    }
  }

  /** A prefix match is the value of an entry whose key starts with the name up to case; there is none only when no key does. */
  lemma {:induction false} PrefixMatchFound(tree: Entries, name: string)
    ensures PrefixMatch(tree, name).Some? ==>
      exists i :: 0 <= i < |tree| && tree[i].1 == PrefixMatch(tree, name).value && StartsWith(Lower(tree[i].0), Lower(name))
    ensures PrefixMatch(tree, name).None? <==> forall i :: 0 <= i < |tree| ==> !StartsWith(Lower(tree[i].0), Lower(name))
  {
    if tree != [] && !StartsWith(Lower(tree[0].0), Lower(name)) {
      PrefixMatchFound(tree[1..], name);
      assert forall j :: 1 <= j < |tree| ==> tree[j] == tree[1..][j - 1];
    }
  }

  /**
   * The top node for the first path part: the first exact match, failing
   * that the first prefix match. A match whose value is `None` (JSON null)
   * counts as no match, as the test `top_node is None` cannot tell them
   * apart.
   */
  function TopNode(tree: Entries, name: string): Option<Json>
  {
    var exact := ExactMatch(tree, name);
    if exact.Some? && exact.value != JNull then exact
    else
      var prefix := PrefixMatch(tree, name);
      if prefix.Some? && prefix.value != JNull then prefix else None
  }

  /**
   * The top node found is the non-null value of an entry whose key starts
   * with the name up to case, and the first exact match is preferred when
   * its value is not null.
   */
  lemma TopNodeSpec(tree: Entries, name: string)
    ensures var r := TopNode(tree, name);
      r.Some? ==> r.value != JNull &&
                  exists i :: 0 <= i < |tree| && tree[i].1 == r.value && StartsWith(Lower(tree[i].0), Lower(name))
  {
    ExactMatchFound(tree, name);
    PrefixMatchFound(tree, name);
    var exact := ExactMatch(tree, name);
    if exact.Some? && exact.value != JNull {
      var i :| 0 <= i < |tree| && tree[i].1 == exact.value && Lower(tree[i].0) == Lower(name);
      assert StartsWith(Lower(tree[i].0), Lower(name));
    }
  }

  /** The first key equal to the name up to case wins when its value is not null. */
  lemma TopNodeExact(tree: Entries, name: string, i: nat)
    requires i < |tree| && Lower(tree[i].0) == Lower(name) && tree[i].1 != JNull
    requires forall j :: 0 <= j < i ==> Lower(tree[j].0) != Lower(name)
    ensures TopNode(tree, name) == Some(tree[i].1)
  {
    ExactMatchFirst(tree, name, i);
  }

  /** Nothing is found exactly when neither search finds a non-null value. */
  lemma TopNodeNone(tree: Entries, name: string)
    ensures TopNode(tree, name).None? <==>
      (ExactMatch(tree, name).None? || ExactMatch(tree, name) == Some(JNull)) &&
      (PrefixMatch(tree, name).None? || PrefixMatch(tree, name) == Some(JNull))
  {
  }

  // ----------------------------------------------------------- build_level

  /** The children whose name starts with `part` up to case, in order (the loop filling `matched`). */
  function Matching(conts: Entries, part: string): Entries
  {
    if conts == [] then []
    else
      var n := |conts| - 1;
      Matching(conts[..n], part) + (if StartsWith(Lower(conts[n].0), Lower(part)) then [conts[n]] else [])
  }

  lemma MatchingStep(conts: Entries, part: string, i: nat)
    requires i < |conts|
    ensures Matching(conts[..i + 1], part) ==
      Matching(conts[..i], part) + if StartsWith(Lower(conts[i].0), Lower(part)) then [conts[i]] else []
  {
    assert conts[..i + 1][..i] == conts[..i];
  }

  lemma {:induction false} MatchingExact(conts: Entries, part: string)
    ensures forall e :: e in Matching(conts, part) <==> e in conts && StartsWith(Lower(e.0), Lower(part))
  {
    if conts != [] {
      var n := |conts| - 1;
      MatchingExact(conts[..n], part);
      assert conts == conts[..n] + [conts[n]];
    }
  }

  /** `{name: {} for name, _ in entries}`. */
  function Placeholders(es: Entries): (r: Entries)
    ensures Keys(r) == Keys(es)
  {
    seq(|es|, i requires 0 <= i < |es| => (es[i].0, JObj([])))
  }

  /** The sub-results of the matched children, one level down, in order. */
  function Children(matched: Entries, parts: seq<string>, idx: nat): Entries
    requires idx < |parts|
    decreases |parts| - idx, 2
  {
    seq(|matched|, i requires 0 <= i < |matched| => (matched[i].0, JObj(Level(matched[i].1, parts, idx))))
  }

  /** What `build_level(node, idx)` returns. */
  function Level(node: Json, parts: seq<string>, idx: nat): Entries
    requires idx < |parts|
    decreases |parts| - idx, 1
  {
    var matched := Matching(ChildContainers(node), parts[idx]);
    if idx == |parts| - 1 then PutAll([], Placeholders(matched))
    else PutAll([], Children(matched, parts, idx + 1))
  }

  /** `build_level(node, idx)`. */
  method BuildLevel(node: Json, parts: seq<string>, idx: nat) returns (result: Entries)
    requires idx < |parts|
    ensures result == Level(node, parts, idx)
    decreases |parts| - idx
  {
    var conts := ChildContainers(node);
    var matched: Entries := [];
    for i := 0 to |conts|
      invariant matched == Matching(conts[..i], parts[idx])
    {
      MatchingStep(conts, parts[idx], i);
      if StartsWith(Lower(conts[i].0), Lower(parts[idx])) {
        matched := matched + [conts[i]];
      }
    }
    assert conts[..|conts|] == conts;
    if idx == |parts| - 1 {
      return PutAll([], Placeholders(matched));
    }
    result := [];
    ghost var subs := Children(matched, parts, idx + 1);
    for i := 0 to |matched|
      invariant result == PutAll([], subs[..i])
    {
      PutAllStep([], subs, i);
      var sub := BuildLevel(matched[i].1, parts, idx + 1);
      result := Put(result, matched[i].0, JObj(sub));
    }
    assert subs[..|matched|] == subs;
  }

  /** A dictionary comprehension has exactly the keys it assigns. */
  lemma DictKeys(kvs: Entries, k: string)
    ensures k in Keys(PutAll([], kvs)) <==> k in Keys(kvs)
  {
  }

  /** A key of a list of entries is the key of one of them. */
  lemma KeysMember(es: Entries, k: string)
    ensures k in Keys(es) <==> exists v :: (k, v) in es
  {
    if k in Keys(es) {
      var i :| 0 <= i < |es| && Keys(es)[i] == k;
      assert es[i] in es;
    }
    if exists v :: (k, v) in es {
      var v :| (k, v) in es;
      var i :| 0 <= i < |es| && es[i] == (k, v);
      assert Keys(es)[i] == k;
    }
  }

  /** A level has the keys of the matched children. */
  lemma LevelKeySeq(node: Json, parts: seq<string>, idx: nat)
    requires idx < |parts|
    ensures Keys(Level(node, parts, idx)) == AppendNew([], Keys(Matching(ChildContainers(node), parts[idx])))
  {
    var matched := Matching(ChildContainers(node), parts[idx]);
    if idx < |parts| - 1 {
      assert Keys(Children(matched, parts, idx + 1)) == Keys(matched);
    }
  }

  /** Every key of a level is a child container whose name starts with the level's part up to case, and every such child is a key. */
  lemma LevelKeys(node: Json, parts: seq<string>, idx: nat, k: string)
    requires idx < |parts|
    ensures k in Keys(Level(node, parts, idx)) <==>
      exists v :: (k, v) in ChildContainers(node) && StartsWith(Lower(k), Lower(parts[idx]))
  {
    var matched := Matching(ChildContainers(node), parts[idx]);
    LevelKeySeq(node, parts, idx);
    MatchingExact(ChildContainers(node), parts[idx]);
    KeysMember(matched, k);
  }

  /** A dictionary nested at most `d` levels deep: at depth `d` only empty dictionaries remain. */
  predicate NestedWithin(j: Json, d: nat)
    decreases d
  {
    j.JObj? && if d == 0 then j.entries == [] else forall e :: e in j.entries ==> NestedWithin(e.1, d - 1)
  }

  /** A dictionary comprehension over values nested within `d` is nested within `d + 1`. */
  lemma DictNested(kvs: Entries, d: nat)
    requires forall e :: e in kvs ==> NestedWithin(e.1, d)
    ensures NestedWithin(JObj(PutAll([], kvs)), d + 1)
  {
    PutAllEntries([], kvs);
  }

  /** Names mapped to `{}` are one level deep. */
  lemma PlaceholdersNested(es: Entries)
    ensures NestedWithin(JObj(PutAll([], Placeholders(es))), 1)
  {
    DictNested(Placeholders(es), 0);
  }

  /** The level built for part `idx` is nested at most as deep as the parts that remain; its leaves are empty. */
  lemma {:induction false} LevelNested(node: Json, parts: seq<string>, idx: nat)
    requires idx < |parts|
    ensures NestedWithin(JObj(Level(node, parts, idx)), |parts| - idx)
    decreases |parts| - idx, 1
  {
    var matched := Matching(ChildContainers(node), parts[idx]);
    if idx == |parts| - 1 {
      PlaceholdersNested(matched);
    } else {
      ChildrenNested(matched, parts, idx + 1);
      DictNested(Children(matched, parts, idx + 1), |parts| - idx - 1);
    }
  }

  lemma {:induction false} ChildrenNested(matched: Entries, parts: seq<string>, idx: nat)
    requires idx < |parts|
    ensures forall e :: e in Children(matched, parts, idx) ==> NestedWithin(e.1, |parts| - idx)
    decreases |parts| - idx, 2
  {
    var subs := Children(matched, parts, idx);
    forall e | e in subs ensures NestedWithin(e.1, |parts| - idx) {
      var i :| 0 <= i < |subs| && subs[i] == e;
      LevelNested(matched[i].1, parts, idx);
    }
  }

  // ----------------------------------------------------------- explore_tree

  /** The first entry whose value is a dictionary. */
  function FirstDict(tree: Entries): Option<(string, Json)>
  {
    if tree == [] then None
    else if tree[0].1.JObj? then Some(tree[0])
    else FirstDict(tree[1..])
  }

  /** The entry found is the first dictionary-valued one; there is none only when no value is a dictionary. */
  lemma {:induction false} FirstDictFound(tree: Entries)
    ensures FirstDict(tree).Some? ==> exists i :: 0 <= i < |tree| && tree[i] == FirstDict(tree).value && tree[i].1.JObj? &&
                                                  forall j :: 0 <= j < i ==> !tree[j].1.JObj?
    ensures FirstDict(tree).None? <==> forall i :: 0 <= i < |tree| ==> !tree[i].1.JObj?
  {
    if tree != [] && !tree[0].1.JObj? {
      FirstDictFound(tree[1..]);
      assert forall j :: 1 <= j < |tree| ==> tree[j] == tree[1..][j - 1];
      if FirstDict(tree).Some? {
        var i :| 0 <= i < |tree| - 1 && tree[1..][i] == FirstDict(tree).value && tree[1..][i].1.JObj? &&
                 forall j :: 0 <= j < i ==> !tree[1..][j].1.JObj?;
        assert tree[i + 1] == FirstDict(tree).value;
      }
    }
  }

  /** The containers of `node` each mapped to the names of its own containers (the two nested loops). */
  function TwoLevels(node: Json): Entries
  {
    var level1 := ChildContainers(node);
    PutAll([], Rows(level1))
  }

  /** One row per first-level container: its name and its child names mapped to `{}`. */
  function Rows(level1: Entries): (r: Entries)
    ensures Keys(r) == Keys(level1)
  {
    seq(|level1|, i requires 0 <= i < |level1| => (level1[i].0, JObj(PutAll([], Placeholders(ChildContainers(level1[i].1))))))
  }

  /** What `explore_tree(tree, definition_path)` returns; `None` and `""` both mean no path. */
  function Explore(tree: Entries, definitionPath: Option<string>): Entries
  {
    if definitionPath.Some? && definitionPath.value != "" then
      var parts := Parts(definitionPath.value);
      if parts == [] then []
      else
        var top := TopNode(tree, parts[0]);
        if top.None? then []
        else if |parts| == 1 then [(parts[0], JObj(PutAll([], Placeholders(ChildContainers(top.value)))))]
        else [(parts[0], JObj(Level(top.value, parts, 1)))]
    else
      var first := FirstDict(tree);
      if first.None? then [] else [(first.value.0, JObj(TwoLevels(first.value.1)))]
  }

  /** The two search loops for the top node: exact match first, then prefix match. */
  method FindTopNode(tree: Entries, name: string) returns (topNode: Option<Json>)
    ensures topNode == TopNode(tree, name)
  {
    topNode := None;
    var i := 0;
    while i < |tree|
      invariant 0 <= i <= |tree|
      invariant ExactMatch(tree, name) == ExactMatch(tree[i..], name)
    {
      assert tree[i..][1..] == tree[i + 1..];
      if Lower(tree[i].0) == Lower(name) {
        topNode := Some(tree[i].1);
        break;
      }
      i := i + 1;
    }
    if i == |tree| {
      assert tree[i..] == [];
    }
    if topNode.None? || topNode.value == JNull {
      topNode := None;
      i := 0;
      while i < |tree|
        invariant 0 <= i <= |tree|
        invariant PrefixMatch(tree, name) == PrefixMatch(tree[i..], name)
      {
        assert tree[i..][1..] == tree[i + 1..];
        if StartsWith(Lower(tree[i].0), Lower(name)) {
          topNode := Some(tree[i].1);
          break;
        }
        i := i + 1;
      }
      if i == |tree| {
        assert tree[i..] == [];
      }
      if topNode.Some? && topNode.value == JNull {
        topNode := None;
      }
    }
  }

  /** The loop looking for the first dictionary-valued top entry. */
  method FindFirstDict(tree: Entries) returns (first: Option<(string, Json)>)
    ensures first == FirstDict(tree)
  {
    first := None;
    var i := 0;
    while i < |tree|
      invariant 0 <= i <= |tree|
      invariant FirstDict(tree) == FirstDict(tree[i..])
    {
      assert tree[i..][1..] == tree[i + 1..];
      if tree[i].1.JObj? {
        first := Some(tree[i]);
        break;
      }
      i := i + 1;
    }
    if i == |tree| {
      assert tree[i..] == [];
    }
  }

  /** The two nested loops filling `out[top_key]`. */
  method ListTwoLevels(node: Json) returns (inner: Entries)
    ensures inner == TwoLevels(node)
  {
    var level1 := ChildContainers(node);
    inner := [];
    for k := 0 to |level1|
      invariant inner == PutAll([], Rows(level1)[..k])
    {
      PutAllStep([], Rows(level1), k);
      var level2 := ChildContainers(level1[k].1);
      var sub: Entries := [];
      for m := 0 to |level2|
        invariant sub == PutAll([], Placeholders(level2)[..m])
      {
        PutAllStep([], Placeholders(level2), m);
        sub := Put(sub, level2[m].0, JObj([]));
      }
      assert Placeholders(level2)[..|level2|] == Placeholders(level2);
      inner := Put(inner, level1[k].0, JObj(sub));
    }
    assert Rows(level1)[..|level1|] == Rows(level1);
  }

  /** `explore_tree(tree, definition_path)`. */
  method ExploreTree(tree: Entries, definitionPath: Option<string>) returns (out: Entries)
    ensures out == Explore(tree, definitionPath)
  {
    if definitionPath.Some? && definitionPath.value != "" {
      var parts := Parts(definitionPath.value);
      if parts == [] {
        return [];
      }
      var topNode := FindTopNode(tree, parts[0]);
      if topNode.None? {
        return [];
      }
      if |parts| == 1 {
        var conts := ChildContainers(topNode.value);
        return [(parts[0], JObj(PutAll([], Placeholders(conts))))];
      }
      var level := BuildLevel(topNode.value, parts, 1);
      return [(parts[0], JObj(level))];
    }
    var first := FindFirstDict(tree);
    if first.None? {
      return [];
    }
    var inner := ListTwoLevels(first.value.1);
    out := [(first.value.0, JObj(inner))];
  }

  /**
   * With a path: the answer is empty, or has the single key `parts[0]` as
   * the caller spelt it, nested at most as deep as the parts (two levels for
   * a one-part path), with empty leaves.
   */
  lemma ExploreWithPath(tree: Entries, path: string)
    requires path != ""
    ensures var r := Explore(tree, Some(path));
      var parts := Parts(path);
      r == [] || (parts != [] && |r| == 1 && r[0].0 == parts[0] &&
                  NestedWithin(JObj(r), if |parts| == 1 then 2 else |parts|))
    ensures Parts(path) == [] || TopNode(tree, Parts(path)[0]).None? <==> Explore(tree, Some(path)) == []
  {
    var parts := Parts(path);
    if parts != [] && TopNode(tree, parts[0]).Some? {
      var top := TopNode(tree, parts[0]).value;
      if |parts| == 1 {
        PutAllEntries([], Placeholders(ChildContainers(top)));
      } else {
        LevelNested(top, parts, 1);
      }
    }
  }

  /** A one-part path maps exactly the child container names of the top node to `{}`. */
  lemma ExploreOnePart(tree: Entries, path: string, k: string)
    requires path != "" && |Parts(path)| == 1 && TopNode(tree, Parts(path)[0]).Some?
    ensures var r := Explore(tree, Some(path));
      && |r| == 1 && r[0].0 == Parts(path)[0]
      && (k in Keys(r[0].1.entries) <==> k in Keys(ChildContainers(TopNode(tree, Parts(path)[0]).value)))
      && forall e :: e in r[0].1.entries ==> e.1 == JObj([])
  {
    var conts := ChildContainers(TopNode(tree, Parts(path)[0]).value);
    PutAllEntries([], Placeholders(conts));
  }

  /**
   * Without a path: the answer is empty exactly when no top entry is a
   * dictionary; otherwise its one key is the first such entry's, under it
   * every container of that entry, and under each of those the names of its
   * own containers mapped to `{}`.
   */
  lemma ExploreWithoutPath(tree: Entries, definitionPath: Option<string>, k1: string)
    requires definitionPath == None || definitionPath == Some("")
    ensures var r := Explore(tree, definitionPath);
      && (r == [] <==> forall i :: 0 <= i < |tree| ==> !tree[i].1.JObj?)
      && (r != [] ==>
           var top := FirstDict(tree).value;
           && |r| == 1 && r[0].0 == top.0
           && NestedWithin(JObj(r), 3)
           && (k1 in Keys(r[0].1.entries) <==> k1 in Keys(ChildContainers(top.1))))
  {
    FirstDictFound(tree);
    var first := FirstDict(tree);
    if first.Some? {
      TwoLevelsShape(first.value.1, k1);
    }
  }

  /** Two levels: the node's containers, each over its own containers mapped to `{}`. */
  lemma TwoLevelsShape(node: Json, k1: string)
    ensures NestedWithin(JObj(TwoLevels(node)), 2)
    ensures k1 in Keys(TwoLevels(node)) <==> k1 in Keys(ChildContainers(node))
  {
    var level1 := ChildContainers(node);
    var rows := Rows(level1);
    forall e | e in rows ensures NestedWithin(e.1, 1) {
      var i :| 0 <= i < |rows| && rows[i] == e;
      PlaceholdersNested(ChildContainers(level1[i].1));
    }
    DictNested(rows, 1);
    DictKeys(rows, k1);
  }

  // ----------------------------------------------------------- the fixture

  /** The `ecuc` sample tree. */
  const ComIPduEsp10: Json := JObj([("type", JStr("ComIPdu")), ("parameters", JObj([
    ("ComIPduDirection", JStr("RECEIVE")), ("ComIPduSignalProcessing", JStr("DEFERRED"))]))])
  const ComIPduEsp19: Json := JObj([("type", JStr("ComIPdu")), ("parameters", JObj([
    ("ComIPduDirection", JStr("SEND")), ("ComIPduSignalProcessing", JStr("IMMEDIATE"))]))])
  const ComConfig0: Json := JObj([("type", JStr("ComConfig")), ("containers", JObj([
    ("ComIPdu_ESP_10", ComIPduEsp10), ("ComIPdu_ESP_19", ComIPduEsp19)]))])
  const ComModule: Json := JObj([("type", JStr("Com")), ("containers", JObj([("ComConfig_0", ComConfig0)]))])
  const PduRModule: Json := JObj([("type", JStr("PduR")), ("containers", JObj([
    ("PduRGeneral", JObj([("type", JStr("PduRGeneral")), ("parameters", JObj([("PduRDevErrorDetect", JBool(true))]))]))]))])
  const Ecuc: Entries := [("com", ComModule), ("pdur", PduRModule)]

  /** A case-sensitive prefix stays a prefix after lower-casing both sides. */
  lemma StartsWithLower(s: string, p: string)
    requires StartsWith(s, p)
    ensures StartsWith(Lower(s), Lower(p))
  {
  }

  /** The `containers` dictionary of a node whose only other key is `type`. */
  lemma ContainersOf(t: Json, cs: Entries)
    ensures ChildContainers(JObj([("type", t), ("containers", JObj(cs))])) == cs
  {
    var es := [("type", t), ("containers", JObj(cs))];
    assert Keys(es) == ["type", "containers"];
    assert "containers" in Keys(es);
    assert KeyIndex(es, "containers") == 1;
  }

  /** The level for the last part lists the matching children of a node as `{}`. */
  lemma LastLevelOf(node: Json, parts: seq<string>, idx: nat, cs: Entries)
    requires idx == |parts| - 1
    requires Matching(ChildContainers(node), parts[idx]) == cs
    ensures Level(node, parts, idx) == PutAll([], Placeholders(cs))
  {
  }

  const ExampleParts: seq<string> := ["Com", "ComConfig", "ComIPdu"]

  /** The instances found under `ComConfig_0`, as `{}`. */
  const ExampleLeaves: Entries := [("ComIPdu_ESP_10", JObj([])), ("ComIPdu_ESP_19", JObj([]))]

  lemma ExamplePath()
    ensures Parts(ExamplePathText) == ExampleParts
  {
    assert Join(ExampleParts, '/') == ExamplePathText;
    PartsOfJoin(ExampleParts);
  }

  lemma ExampleTop()
    ensures TopNode(Ecuc, "Com") == Some(ComModule)
  {
    assert Lower("com") == Lower("Com");
    TopNodeExact(Ecuc, "Com", 0);
  }

  /** Children that all match are all kept, in order. */
  lemma {:induction false} MatchingAll(conts: Entries, part: string)
    requires forall i :: 0 <= i < |conts| ==> StartsWith(Lower(conts[i].0), Lower(part))
    ensures Matching(conts, part) == conts
  {
    if conts != [] {
      var n := |conts| - 1;
      MatchingAll(conts[..n], part);
      assert conts[..n] + [conts[n]] == conts;
    }
  }

  const ExampleIPduEntries: Entries := [("ComIPdu_ESP_10", ComIPduEsp10), ("ComIPdu_ESP_19", ComIPduEsp19)]

  lemma ExampleIPduMatches()
    ensures Matching(ExampleIPduEntries, "ComIPdu") == ExampleIPduEntries
  {
    StartsWithLower("ComIPdu_ESP_10", "ComIPdu");
    StartsWithLower("ComIPdu_ESP_19", "ComIPdu");
    MatchingAll(ExampleIPduEntries, "ComIPdu");
  }

  lemma ExampleLeavesDict()
    ensures PutAll([], Placeholders(ExampleIPduEntries)) == ExampleLeaves
  {
    assert Placeholders(ExampleIPduEntries) == ExampleLeaves;
    assert "ComIPdu_ESP_10" != "ComIPdu_ESP_19";
    assert UniqueKeys(ExampleLeaves);
    PutAllOwnEntries(ExampleLeaves);
  }

  lemma ExampleIPdus()
    ensures Level(ComConfig0, ExampleParts, 2) == ExampleLeaves
  {
    ContainersOf(JStr("ComConfig"), ExampleIPduEntries);
    ExampleIPduMatches();
    ExampleLeavesDict();
  }

  lemma ExampleConfigs()
    ensures Level(ComModule, ExampleParts, 1) == [("ComConfig_0", JObj(ExampleLeaves))]
  {
    var configs := [("ComConfig_0", ComConfig0)];
    ContainersOf(JStr("Com"), configs);
    StartsWithLower("ComConfig_0", "ComConfig");
    MatchingStep(configs, "ComConfig", 0);
    assert configs[..1] == configs;
    ExampleIPdus();
    var subs := Children(configs, ExampleParts, 2);
    assert subs == [("ComConfig_0", JObj(ExampleLeaves))];
    PutAllStep([], subs, 0);
    assert subs[..1] == subs;
  }

  /** A path of several parts whose top node is found answers the top part over the level built beneath it. */
  lemma ExploreDeep(tree: Entries, path: string)
    requires path != "" && |Parts(path)| >= 2 && TopNode(tree, Parts(path)[0]).Some?
    ensures Explore(tree, Some(path)) == [(Parts(path)[0], JObj(Level(TopNode(tree, Parts(path)[0]).value, Parts(path), 1)))]
  {
  }

  /** Any path whose parts are `Com`, `ComConfig`, `ComIPdu` gives the instances of the example. */
  lemma ExampleFor(path: string)
    requires path != "" && Parts(path) == ExampleParts
    ensures Explore(Ecuc, Some(path)) == [("Com", JObj([("ComConfig_0", JObj(ExampleLeaves))]))]
  {
    ExploreDeep(Ecuc, path);
    ExampleTop();
    ExampleConfigs();
  }

  const ExamplePathText: string := "Com/ComConfig/ComIPdu"

  /** The worked example: `'Com/ComConfig/ComIPdu'` over `ecuc`. */
  lemma WorkedExample()
    ensures Explore(Ecuc, Some(ExamplePathText)) ==
      [("Com", JObj([("ComConfig_0", JObj([("ComIPdu_ESP_10", JObj([])), ("ComIPdu_ESP_19", JObj([]))]))]))]
  {
    ExamplePath();
    ExampleFor(ExamplePathText);
  }
}
