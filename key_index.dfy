/**
 * The key index of a converted document (`get_keys`) and the search for the
 * definition path of a key (`find_path`).
 */
module KeyIndex {
  import opened Wrappers
  import opened Strings
  import opened Json

  // ------------------------------------------------------------ get_keys

  /** Every key of every dictionary in `j`, at any depth, including dictionaries inside lists. */
  function KeySet(j: Json): (r: set<string>)
    ensures !j.JObj? && !j.JList? ==> r == {}
    decreases j, 1
  {
    match j
    case JObj(_) => EntryKeys(j, 0)
    case JList(_) => ItemKeys(j, 0)
    case _ => {}
  }

  /** The keys of the entries of the dictionary `j` from entry `i` on, with the keys inside their values. */
  function EntryKeys(j: Json, i: nat): set<string>
    requires j.JObj?
    decreases j, 0, |j.entries| - i
  {
    if i >= |j.entries| then {}
    else {j.entries[i].0} + KeySet(j.entries[i].1) + EntryKeys(j, i + 1)
  }

  /** The keys inside the items of the list `j` from item `i` on. */
  function ItemKeys(j: Json, i: nat): set<string>
    requires j.JList?
    decreases j, 0, |j.items| - i
  {
    if i >= |j.items| then {}
    else KeySet(j.items[i]) + ItemKeys(j, i + 1)
  }

  /** `get_keys(data)`. */
  method GetKeys(j: Json) returns (keys: set<string>)
    ensures keys == KeySet(j)
    decreases j
  {
    keys := {};
    match j {
      case JObj(es) =>
        for i := 0 to |es|
          invariant keys + EntryKeys(j, i) == KeySet(j)
        {
          keys := keys + {es[i].0};
          var sub := GetKeys(es[i].1);
          keys := keys + sub;
        }
      case JList(xs) =>
        for i := 0 to |xs|
          invariant keys + ItemKeys(j, i) == KeySet(j)
        {
          var sub := GetKeys(xs[i]);
          keys := keys + sub;
        }
      case _ =>
    }
  }

  /** A key is among the entry keys from `i` on exactly when some entry from `i` on has it or holds it. */
  lemma {:induction false} EntryKeysAt(j: Json, i: nat, k: string)
    requires j.JObj?
    ensures k in EntryKeys(j, i) <==>
      exists n :: i <= n < |j.entries| && (j.entries[n].0 == k || k in KeySet(j.entries[n].1))
    decreases |j.entries| - i
  {
    if i < |j.entries| {
      EntryKeysAt(j, i + 1, k);
    }
  }

  /** A key is among the item keys from `i` on exactly when some item from `i` on holds it. */
  lemma {:induction false} ItemKeysAt(j: Json, i: nat, k: string)
    requires j.JList?
    ensures k in ItemKeys(j, i) <==> exists n :: i <= n < |j.items| && k in KeySet(j.items[n])
    decreases |j.items| - i
  {
    if i < |j.items| {
      ItemKeysAt(j, i + 1, k);
    }
  }

  /** One step down a document: into the value of entry `i` of a dictionary, or into item `i` of a list. */
  datatype Step = Entry(i: nat) | Item(i: nat)

  /** The value reached by following `p` from `j`, if every step exists. */
  function Nav(j: Json, p: seq<Step>): Option<Json>
    decreases |p|
  {
    if p == [] then Some(j)
    else match p[0]
      case Entry(i) => if j.JObj? && i < |j.entries| then Nav(j.entries[i].1, p[1..]) else None
      case Item(i) => if j.JList? && i < |j.items| then Nav(j.items[i], p[1..]) else None
  }

  /** `p` leads from `j` to a dictionary that has the key `k`. */
  ghost predicate KeyAt(j: Json, p: seq<Step>, k: string)
  {
    Nav(j, p).Some? && Nav(j, p).value.JObj? && k in Keys(Nav(j, p).value.entries)
  }

  /** Completeness: a key of any dictionary reachable from `j`, through dictionaries and lists, is collected. */
  lemma {:induction false} KeysComplete(j: Json, p: seq<Step>, k: string)
    requires KeyAt(j, p, k)
    ensures k in KeySet(j)
    decreases |p|
  {
    if p == [] {
      var i :| 0 <= i < |j.entries| && Keys(j.entries)[i] == k;
      EntryKeysAt(j, 0, k);
    } else {
      match p[0]
      case Entry(i) =>
        KeysComplete(j.entries[i].1, p[1..], k);
        EntryKeysAt(j, 0, k);
      case Item(i) =>
        KeysComplete(j.items[i], p[1..], k);
        ItemKeysAt(j, 0, k);
    }
  }

  /** Soundness: every collected key is a key of some dictionary reachable from `j`. */
  lemma {:induction false} KeysSound(j: Json, k: string) returns (p: seq<Step>)
    requires k in KeySet(j)
    ensures KeyAt(j, p, k)
    decreases j
  {
    match j
    case JObj(es) =>
      EntryKeysAt(j, 0, k);
      var i :| 0 <= i < |es| && (es[i].0 == k || k in KeySet(es[i].1));
      if es[i].0 == k {
        assert Keys(es)[i] == k;
        p := [];
      } else {
        var q := KeysSound(es[i].1, k);
        p := [Entry(i)] + q;
        assert p[1..] == q;
      }
    case JList(xs) =>
      ItemKeysAt(j, 0, k);
      var i :| 0 <= i < |xs| && k in KeySet(xs[i]);
      var q := KeysSound(xs[i], k);
      p := [Item(i)] + q;
      assert p[1..] == q;
  }

  /** A dictionary whose values hold no dictionary and no list has exactly its own keys. */
  lemma FlatKeys(es: Entries)
    requires forall i :: 0 <= i < |es| ==> !es[i].1.JObj? && !es[i].1.JList?
    ensures KeySet(JObj(es)) == set k | k in Keys(es)
  {
    forall k ensures k in KeySet(JObj(es)) <==> k in Keys(es) {
      EntryKeysAt(JObj(es), 0, k);
      if k in Keys(es) {
        var i :| 0 <= i < |es| && Keys(es)[i] == k;
      }
      if k in KeySet(JObj(es)) {
        var i :| 0 <= i < |es| && (es[i].0 == k || k in KeySet(es[i].1));
        assert Keys(es)[i] == k;
      }
    }
  }

  /** A value that holds no dictionary has no keys. */
  lemma {:induction false} NoObjectNoKeys(j: Json)
    requires HoldsNoObject(j)
    ensures KeySet(j) == {}
    decreases j
  {
    match j
    case JList(xs) =>
      forall k | k in KeySet(j) ensures false {
        ItemKeysAt(j, 0, k);
        var i :| 0 <= i < |xs| && k in KeySet(xs[i]);
        NoObjectNoKeys(xs[i]);
      }
    case _ =>
  }

  /** `{"a": 1, "b": {"c": 2}, "d": [{"e": 3}, {"f": 4}]}` has the keys `a` to `f`, and no other. */
  lemma KeysExample()
    ensures KeySet(JObj([("a", JInt(1)), ("b", JObj([("c", JInt(2))])),
                         ("d", JList([JObj([("e", JInt(3))]), JObj([("f", JInt(4))])]))]))
            == {"a", "b", "c", "d", "e", "f"}
  {
    var c := JObj([("c", JInt(2))]);
    var e := JObj([("e", JInt(3))]);
    var f := JObj([("f", JInt(4))]);
    var d := JList([e, f]);
    var j := JObj([("a", JInt(1)), ("b", c), ("d", d)]);
    assert KeySet(c) == {"c"} by { assert EntryKeys(c, 1) == {}; }
    assert KeySet(e) == {"e"} by { assert EntryKeys(e, 1) == {}; }
    assert KeySet(f) == {"f"} by { assert EntryKeys(f, 1) == {}; }
    assert KeySet(d) == {"e", "f"} by { assert ItemKeys(d, 2) == {}; assert ItemKeys(d, 1) == {"f"}; }
    assert EntryKeys(j, 3) == {};
    assert EntryKeys(j, 2) == {"d", "e", "f"};
    assert EntryKeys(j, 1) == {"b", "c", "d", "e", "f"};
  }

  // ----------------------------------------------------------- find_path

  /**
   * `find_path(data, target_key, path)` searching the entries of the
   * dictionary `j` from entry `i` on: the first key that equals the target
   * case-insensitively, found depth-first with each key tested before the
   * dictionary it holds; `path` is prepended to the result.
   */
  function FindFrom(j: Json, target: string, path: seq<string>, i: nat): (r: Option<seq<string>>)
    requires j.JObj?
    ensures r.Some? ==> |r.value| > |path| && r.value[..|path|] == path
    ensures r.Some? ==> Lower(r.value[|r.value| - 1]) == Lower(target)
    decreases j, |j.entries| - i
  {
    if i >= |j.entries| then None
    else
      var key := j.entries[i].0;
      var value := j.entries[i].1;
      var newPath := path + [key];
      if Lower(key) == Lower(target) then Some(newPath)
      else if value.JObj? then
        var result := FindFrom(value, target, newPath, 0);
        if result.Some? && result.value != [] then
          assert result.value[..|path|] == newPath[..|path|];
          result
        else FindFrom(j, target, path, i + 1)
      else FindFrom(j, target, path, i + 1)
  }

  /** `find_path(data, target_key)`. */
  function FindPath(j: Json, target: string): (r: Option<seq<string>>)
    requires j.JObj?
    ensures r.Some? ==> r.value != [] && Lower(r.value[|r.value| - 1]) == Lower(target)
  {
    FindFrom(j, target, [], 0)
  }

  /**
   * `ks` is spelled by a chain of entries from `j`: `ks[0]` is a key of the
   * dictionary `j`, `ks[1]` a key of the dictionary it holds, and so on.
   */
  ghost predicate IsRoute(j: Json, ks: seq<string>)
    decreases |ks|
  {
    ks == [] ||
    (j.JObj? && exists i :: 0 <= i < |j.entries| && j.entries[i].0 == ks[0] && IsRoute(j.entries[i].1, ks[1..]))
  }

  /** Every route through the dictionaries of `j` from entry `i` on, each key before its dictionary's routes (preorder). */
  function RoutesFrom(j: Json, i: nat): seq<seq<string>>
    requires j.JObj?
    decreases j, |j.entries| - i
  {
    if i >= |j.entries| then []
    else
      var key := j.entries[i].0;
      var value := j.entries[i].1;
      var below := if value.JObj? then RoutesFrom(value, 0) else [];
      [[key]] + Prefixed(key, below) + RoutesFrom(j, i + 1)
  }

  /** Every route through the dictionaries of `j` in preorder. */
  function Routes(j: Json): seq<seq<string>>
    requires j.JObj?
  {
    RoutesFrom(j, 0)
  }

  function Prefixed(key: string, rs: seq<seq<string>>): (r: seq<seq<string>>)
    ensures |r| == |rs| && forall n :: 0 <= n < |rs| ==> r[n] == [key] + rs[n]
  {
    seq(|rs|, n requires 0 <= n < |rs| => [key] + rs[n])
  }

  /** A route whose last key equals `target` case-insensitively. */
  predicate Matches(r: seq<string>, target: string)
  {
    r != [] && Lower(r[|r| - 1]) == Lower(target)
  }

  /** The first of `rs` that matches `target`. */
  function FirstMatch(rs: seq<seq<string>>, target: string): (r: Option<seq<string>>)
    ensures r.None? <==> forall n :: 0 <= n < |rs| ==> !Matches(rs[n], target)
    ensures r.Some? ==> exists n :: 0 <= n < |rs| && rs[n] == r.value && Matches(rs[n], target) &&
                                    forall m :: 0 <= m < n ==> !Matches(rs[m], target)
  {
    if rs == [] then None
    else if Matches(rs[0], target) then Some(rs[0])
    else
      var r := FirstMatch(rs[1..], target);
      assert forall n :: 1 <= n < |rs| ==> rs[n] == rs[1..][n - 1];
      if r.Some? then
        var n :| 0 <= n < |rs| - 1 && rs[1..][n] == r.value && Matches(rs[1..][n], target) &&
                 forall m :: 0 <= m < n ==> !Matches(rs[1..][m], target);
        assert rs[n + 1] == r.value;
        r
      else r
  }

  lemma FirstMatchAppend(a: seq<seq<string>>, b: seq<seq<string>>, target: string)
    ensures FirstMatch(a + b, target) == if FirstMatch(a, target).Some? then FirstMatch(a, target) else FirstMatch(b, target)
  {
    if a == [] {
      assert a + b == b;
    } else {
      assert (a + b)[1..] == a[1..] + b;
      FirstMatchAppend(a[1..], b, target);
    }
  }

  lemma {:induction false} FirstMatchPrefixed(key: string, rs: seq<seq<string>>, target: string)
    requires forall n :: 0 <= n < |rs| ==> rs[n] != []
    ensures FirstMatch(Prefixed(key, rs), target) ==
      match FirstMatch(rs, target) case None => None case Some(r) => Some([key] + r)
    decreases |rs|
  {
    if rs != [] {
      var p := Prefixed(key, rs);
      assert p[0] == [key] + rs[0];
      assert Matches(p[0], target) <==> Matches(rs[0], target);
      assert p[1..] == Prefixed(key, rs[1..]);
      FirstMatchPrefixed(key, rs[1..], target);
    }
  }

  lemma {:induction false} RoutesNonEmpty(j: Json, i: nat)
    requires j.JObj?
    ensures forall n :: 0 <= n < |RoutesFrom(j, i)| ==> RoutesFrom(j, i)[n] != []
    decreases j, |j.entries| - i
  {
    if i < |j.entries| {
      var value := j.entries[i].1;
      if value.JObj? {
        RoutesNonEmpty(value, 0);
      }
      RoutesNonEmpty(j, i + 1);
    }
  }

  /** The first match among the routes from entry `i`: the key itself, else its dictionary's routes, else the next entries'. */
  lemma FirstMatchStep(j: Json, i: nat, target: string)
    requires j.JObj? && i < |j.entries|
    ensures var key := j.entries[i].0;
      var value := j.entries[i].1;
      var below := if value.JObj? then RoutesFrom(value, 0) else [];
      FirstMatch(RoutesFrom(j, i), target) ==
        if Lower(key) == Lower(target) then Some([key])
        else match FirstMatch(below, target)
          case Some(r) => Some([key] + r)
          case None => FirstMatch(RoutesFrom(j, i + 1), target)
  {
    var key := j.entries[i].0;
    var value := j.entries[i].1;
    var below := if value.JObj? then RoutesFrom(value, 0) else [];
    if value.JObj? {
      RoutesNonEmpty(value, 0);
    }
    FirstMatchPrefixed(key, below, target);
    FirstMatchAppend([[key]] + Prefixed(key, below), RoutesFrom(j, i + 1), target);
    FirstMatchAppend([[key]], Prefixed(key, below), target);
    assert Matches([key], target) <==> Lower(key) == Lower(target);
  }

  /** One entry of the search: a hit returns at once, a dictionary is searched before the next entry. */
  lemma FindFromStep(j: Json, target: string, path: seq<string>, i: nat)
    requires j.JObj? && i < |j.entries|
    ensures var key := j.entries[i].0;
      var value := j.entries[i].1;
      FindFrom(j, target, path, i) ==
        if Lower(key) == Lower(target) then Some(path + [key])
        else if value.JObj? && FindFrom(value, target, path + [key], 0).Some? then FindFrom(value, target, path + [key], 0)
        else FindFrom(j, target, path, i + 1)
  {
  }

  /** The search returns the first match among the routes in preorder, after the given prefix. */
  lemma {:induction false} FindFromFirstMatch(j: Json, target: string, path: seq<string>, i: nat)
    requires j.JObj?
    ensures FindFrom(j, target, path, i) == Prefix(path, FirstMatch(RoutesFrom(j, i), target))
    decreases j, |j.entries| - i
  {
    if i < |j.entries| {
      var key := j.entries[i].0;
      var value := j.entries[i].1;
      FirstMatchStep(j, i, target);
      FindFromStep(j, target, path, i);
      if Lower(key) != Lower(target) {
        FindFromFirstMatch(j, target, path, i + 1);
        if value.JObj? {
          FindFromFirstMatch(value, target, path + [key], 0);
          PrefixAppend(path, key, FirstMatch(RoutesFrom(value, 0), target));
        }
      }
    }
  }

  lemma PrefixAppend(path: seq<string>, key: string, r: Option<seq<string>>)
    ensures Prefix(path + [key], r) == Prefix(path, match r case None => None case Some(ks) => Some([key] + ks))
  {
    if r.Some? {
      assert path + [key] + r.value == path + ([key] + r.value);
    }
  }

  /** A found route behind the given prefix. */
  function Prefix(path: seq<string>, r: Option<seq<string>>): Option<seq<string>>
  {
    match r
    case None => None
    case Some(ks) => Some(path + ks)
  }

  /** `find_path(data, target_key)` is the first match in preorder over the routes of `data`. */
  lemma FindPathFirstMatch(j: Json, target: string)
    requires j.JObj?
    ensures FindPath(j, target) == FirstMatch(Routes(j), target)
  {
    FindFromFirstMatch(j, target, [], 0);
    if FirstMatch(Routes(j), target).Some? {
      var r := FirstMatch(Routes(j), target).value;
      assert [] + r == r;
    }
  }

  /** Membership in the routes from entry `i`: the key alone, the key before one of its dictionary's routes, or a later route. */
  lemma RoutesFromMember(j: Json, i: nat, ks: seq<string>)
    requires j.JObj? && i < |j.entries|
    ensures var key := j.entries[i].0;
      var value := j.entries[i].1;
      var below := if value.JObj? then RoutesFrom(value, 0) else [];
      ks in RoutesFrom(j, i) <==>
        ks == [key] || (ks != [] && ks[0] == key && ks[1..] in below) || ks in RoutesFrom(j, i + 1)
  {
    var key := j.entries[i].0;
    var value := j.entries[i].1;
    var below := if value.JObj? then RoutesFrom(value, 0) else [];
    if ks != [] && ks[0] == key && ks[1..] in below {
      var n :| 0 <= n < |below| && below[n] == ks[1..];
      assert Prefixed(key, below)[n] == ks;
    }
    if ks in Prefixed(key, below) {
      var n :| 0 <= n < |below| && Prefixed(key, below)[n] == ks;
      assert ks[1..] == below[n];
    }
  }

  /** The routes listed are exactly the non-empty routes through the dictionaries of `j`, by their first entry. */
  lemma {:induction false} RoutesFromExact(j: Json, i: nat, ks: seq<string>)
    requires j.JObj?
    ensures ks in RoutesFrom(j, i) <==>
      ks != [] && exists n :: i <= n < |j.entries| && j.entries[n].0 == ks[0] && IsRoute(j.entries[n].1, ks[1..])
    decreases j, |j.entries| - i
  {
    if i < |j.entries| {
      var key := j.entries[i].0;
      var value := j.entries[i].1;
      RoutesFromExact(j, i + 1, ks);
      RoutesFromMember(j, i, ks);
      if ks != [] && ks[0] == key {
        if value.JObj? {
          RoutesFromExact(value, 0, ks[1..]);
          RoutesNonEmpty(value, 0);
          assert IsRoute(value, ks[1..]) <==> ks[1..] == [] || ks[1..] in RoutesFrom(value, 0);
        } else {
          assert IsRoute(value, ks[1..]) <==> ks[1..] == [];
        }
        assert ks == [key] <==> ks[1..] == [];
      }
    }
  }

  /** A non-empty key sequence is a listed route exactly when it is a route through the dictionaries of `j`. */
  lemma RoutesExact(j: Json, ks: seq<string>)
    requires j.JObj?
    ensures ks in Routes(j) <==> ks != [] && IsRoute(j, ks)
  {
    RoutesFromExact(j, 0, ks);
  }

  /**
   * `find_path` returns `None` exactly when no key reachable from `data`
   * through dictionaries equals the target case-insensitively; a path it
   * returns is a route through nested dictionaries whose last key is such a
   * key in its original casing, and it is the first one in preorder.
   */
  lemma FindPathSpec(j: Json, target: string)
    requires j.JObj?
    ensures FindPath(j, target).None? <==> forall ks :: IsRoute(j, ks) && ks != [] ==> !Matches(ks, target)
    ensures FindPath(j, target).Some? ==> IsRoute(j, FindPath(j, target).value) && Matches(FindPath(j, target).value, target)
  {
    FindPathFirstMatch(j, target);
    var rs := Routes(j);
    if FindPath(j, target).None? {
      forall ks | IsRoute(j, ks) && ks != [] ensures !Matches(ks, target) {
        RoutesExact(j, ks);
      }
    } else {
      var r := FindPath(j, target).value;
      assert r in rs;
      RoutesExact(j, r);
    }
  }

  /** Every prefix of a route is a route: each segment is a key at its level and each value passed through a dictionary. */
  lemma {:induction false} RoutePrefix(j: Json, ks: seq<string>, n: nat)
    requires IsRoute(j, ks) && n <= |ks|
    ensures IsRoute(j, ks[..n])
    decreases |ks|
  {
    if n > 0 {
      var i :| 0 <= i < |j.entries| && j.entries[i].0 == ks[0] && IsRoute(j.entries[i].1, ks[1..]);
      RoutePrefix(j.entries[i].1, ks[1..], n - 1);
      assert ks[..n][1..] == ks[1..][..n - 1];
    }
  }

  /**
   * In a document whose lists hold no dictionaries, as every converted
   * document, each collected key is found by `find_path`.
   */
  lemma {:induction false} CollectedKeysResolve(j: Json, k: string)
    requires j.JObj? && ListsHoldNoObjects(j) && k in KeySet(j)
    ensures FindPath(j, k).Some?
  {
    var ks := KeyRoute(j, k);
    assert Matches(ks, k);
    FindPathSpec(j, k);
  }

  /** A route to a collected key, in a document whose lists hold no dictionaries. */
  lemma {:induction false} KeyRoute(j: Json, k: string) returns (ks: seq<string>)
    requires ListsHoldNoObjects(j) && k in KeySet(j)
    ensures ks != [] && IsRoute(j, ks) && ks[|ks| - 1] == k
    decreases j
  {
    match j
    case JObj(es) =>
      EntryKeysAt(j, 0, k);
      var i :| 0 <= i < |es| && (es[i].0 == k || k in KeySet(es[i].1));
      if es[i].0 == k {
        ks := [k];
        assert IsRoute(es[i].1, ks[1..]);
      } else {
        var rest := KeyRoute(es[i].1, k);
        ks := [es[i].0] + rest;
        assert ks[1..] == rest;
      }
    case JList(xs) =>
      ItemKeysAt(j, 0, k);
      var i :| 0 <= i < |xs| && k in KeySet(xs[i]);
      NoObjectNoKeys(xs[i]);
  }

  /** A key that sits only in a dictionary inside a list is collected but not found. */
  lemma ListedKeyUnresolved()
    ensures var j := JObj([("d", JList([JObj([("e", JInt(3))])]))]);
      "e" in KeySet(j) && FindPath(j, "e") == None
  {
    var inner := JObj([("e", JInt(3))]);
    var j := JObj([("d", JList([inner]))]);
    assert "e" in KeySet(inner);
    assert "e" in KeySet(JList([inner]));
    assert Lower("d") == "d" && Lower("e") == "e";
  }
}
