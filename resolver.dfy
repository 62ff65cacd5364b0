/**
 * The definition resolver: over every parameter-definition document of the
 * workspace, convert it, index its keys, ask a fuzzy scorer for the keys
 * close to a keyword, and report the matching keys (`get_definition_files`)
 * or their definition paths (`get_definition_path_difflib`,
 * `get_definition_path_rapidfuzz`).
 *
 * The scorers are parameters: `Extract` stands for RapidFuzz's
 * `process.extract` with `WRatio`, the configured limit and cutoff, giving
 * `(key, score)` pairs with integer percentage scores; `CloseMatches` stands
 * for difflib's `get_close_matches` with its configured count and cutoff.
 */
module Resolver {
  import opened Wrappers
  import opened Strings
  import opened Json
  import opened Xml
  import opened Converter
  import opened KeyIndex
  import opened Ranking

  /** `process.extract(keyword, keys, ...)`: `(key, score)` pairs. */
  type Extract = (string, set<string>) -> seq<(string, int)>

  /** `get_close_matches(keyword, keys, ...)`: the close keys, best first. */
  type CloseMatches = (string, set<string>) -> seq<string>

  /** A document of the workspace: its path and the outcome of converting it. */
  datatype Doc = Doc(path: string, outcome: Result<Entries, ConvertError>)

  /** The document at `path` whose parse gave `parsed`. */
  function Load(path: string, parsed: Option<Elem>): (d: Doc)
    ensures d.outcome.Ok? <==> Convert(parsed).Ok?
    ensures d.outcome.Ok? ==> JObj(d.outcome.value) == Convert(parsed).value
    ensures d.outcome.Err? ==> d.outcome.error == Convert(parsed).error
  {
    match Convert(parsed)
    case Ok(j) => Doc(path, Ok(j.entries))
    case Err(e) => Doc(path, Err(e))
  }

  // --------------------------------------------------- surviving documents

  /**
   * The converted documents the loops go on with, as written: a parse error
   * is an `Exception` and the document is skipped, but a missing module
   * definition raises `SystemExit`, which `except Exception` does not catch,
   * so the whole call ends there (`None`).
   */
  function SurvivorsAsWritten(docs: seq<Doc>): Option<seq<(string, Entries)>>
  {
    if docs == [] then Some([])
    else
      var rest := SurvivorsAsWritten(docs[1..]);
      match docs[0].outcome
      case Ok(es) => (if rest.Some? then Some([(docs[0].path, es)] + rest.value) else None)
      case Err(ParseFailed) => rest
      case Err(NoModuleDef) => None
  }

  /** The converted documents, every document whose conversion fails being skipped. */
  function Survivors(docs: seq<Doc>): seq<(string, Entries)>
  {
    if docs == [] then []
    else
      (match docs[0].outcome case Ok(es) => [(docs[0].path, es)] case Err(_) => []) + Survivors(docs[1..])
  }

  /** As written, the call ends exactly when some document has no module definition; otherwise it skips like the corrected one. */
  lemma {:induction false} SurvivorsAsWrittenExits(docs: seq<Doc>)
    ensures SurvivorsAsWritten(docs).None? <==> exists i :: 0 <= i < |docs| && docs[i].outcome == Err(NoModuleDef)
    ensures SurvivorsAsWritten(docs).Some? ==> SurvivorsAsWritten(docs).value == Survivors(docs)
  {
    if docs != [] {
      SurvivorsAsWrittenExits(docs[1..]);
      assert forall i :: 1 <= i < |docs| ==> docs[i] == docs[1..][i - 1];
      if SurvivorsAsWritten(docs[1..]).None? {
        var i :| 0 <= i < |docs[1..]| && docs[1..][i].outcome == Err(NoModuleDef);
        assert docs[i + 1].outcome == Err(NoModuleDef);
      }
    }
  }

  /** A workspace whose first file has no module definition: as written nothing is resolved, corrected the second file's keys are. */
  lemma MissingModuleAborts(es: Entries)
    ensures var docs := [Doc("a.arxml", Err(NoModuleDef)), Doc("b.arxml", Ok(es))];
      SurvivorsAsWritten(docs) == None && Survivors(docs) == [("b.arxml", es)]
  {
    var docs := [Doc("a.arxml", Err(NoModuleDef)), Doc("b.arxml", Ok(es))];
    assert docs[1..] == [Doc("b.arxml", Ok(es))];
    assert docs[1..][1..] == [];
    assert Survivors(docs[1..]) == [("b.arxml", es)];
  }

  lemma {:induction false} SurvivorsAppend(a: seq<Doc>, b: seq<Doc>)
    ensures Survivors(a + b) == Survivors(a) + Survivors(b)
  {
    if a == [] {
      assert a + b == b;
    } else {
      assert (a + b)[1..] == a[1..] + b;
      SurvivorsAppend(a[1..], b);
    }
  }

  /** A document whose conversion fails contributes nothing; the others are kept, in order. */
  lemma SurvivorsSkipFailed(a: seq<Doc>, d: Doc, b: seq<Doc>)
    requires d.outcome.Err?
    ensures Survivors(a + [d] + b) == Survivors(a + b)
  {
    SurvivorsAppend(a + [d], b);
    SurvivorsAppend(a, [d]);
    SurvivorsAppend(a, b);
    assert Survivors([d]) == [] by { assert [d][1..] == []; }
  }

  lemma {:induction false} SurvivorsExact(docs: seq<Doc>, s: (string, Entries))
    ensures s in Survivors(docs) <==> exists i :: 0 <= i < |docs| && docs[i] == Doc(s.0, Ok(s.1))
  {
    if docs != [] {
      SurvivorsExact(docs[1..], s);
      assert forall i :: 1 <= i < |docs| ==> docs[i] == docs[1..][i - 1];
      if s in Survivors(docs[1..]) {
        var i :| 0 <= i < |docs[1..]| && docs[1..][i] == Doc(s.0, Ok(s.1));
        assert docs[i + 1] == Doc(s.0, Ok(s.1));
      }
    }
  }

  /** Every converted document is kept when the scorer is given converted documents only. */
  lemma SurvivorsOfLoaded(paths: seq<string>, trees: seq<Option<Elem>>, i: nat)
    requires |paths| == |trees| && i < |paths| && Convert(trees[i]).Ok?
    ensures (paths[i], Convert(trees[i]).value.entries) in
            Survivors(seq(|paths|, n requires 0 <= n < |paths| => Load(paths[n], trees[n])))
  {
    var docs := seq(|paths|, n requires 0 <= n < |paths| => Load(paths[n], trees[n]));
    SurvivorsExact(docs, (paths[i], Convert(trees[i]).value.entries));
    assert docs[i] == Doc(paths[i], Ok(Convert(trees[i]).value.entries));
  }

  // ------------------------------------------------- get_definition_files

  /** One reported key: the file, the key, and its score. */
  datatype FileMatch = FileMatch(file: string, key: string, score: int)

  /** `(-x[1], x[0])` on a `(key, score)` pair. */
  function PairRank(m: (string, int)): Rank
  {
    Rank(m.1, m.0)
  }

  /** `(-x[2], x[1])` on a reported key. */
  function FileRank(f: FileMatch): Rank
  {
    Rank(f.score, f.key)
  }

  /** `get_close_matches_rapidfuzz(keyword, keys, n, cutoff)`. */
  function CloseMatchesRapidfuzz(extract: Extract, keyword: string, keys: set<string>): seq<(string, int)>
  {
    SortBy(extract(keyword, keys), PairRank)
  }

  /** The ranked matches: the scorer's pairs, by descending score and then ascending key. */
  lemma CloseMatchesRapidfuzzSorted(extract: Extract, keyword: string, keys: set<string>)
    ensures var r := CloseMatchesRapidfuzz(extract, keyword, keys);
      SortedBy(r, PairRank) && multiset(r) == multiset(extract(keyword, keys))
  {
    SortByCorrect(extract(keyword, keys), PairRank);
  }

  // ------------------------------------------------------- concatenation

  /** `f(xs[0]) + f(xs[1]) + ...`: what a loop appending `f(x)` for each `x` of `xs` builds. */
  function FlatMap<S, T>(xs: seq<S>, f: S -> seq<T>): seq<T>
  {
    if xs == [] then [] else FlatMap(xs[..|xs| - 1], f) + f(xs[|xs| - 1])
  }

  /** One more round of the loop. */
  lemma FlatMapStep<S, T>(xs: seq<S>, i: nat, f: S -> seq<T>)
    requires i < |xs|
    ensures FlatMap(xs[..i + 1], f) == FlatMap(xs[..i], f) + f(xs[i])
  {
    assert xs[..i + 1][..i] == xs[..i];
  }

  lemma {:induction false} FlatMapAppend<S, T>(a: seq<S>, b: seq<S>, f: S -> seq<T>)
    ensures FlatMap(a + b, f) == FlatMap(a, f) + FlatMap(b, f)
    decreases |b|
  {
    if b == [] {
      assert a + b == a;
    } else {
      var n := |b| - 1;
      assert (a + b)[..|a + b| - 1] == a + b[..n];
      FlatMapAppend(a, b[..n], f);
    }
  }

  /** An element of the concatenation comes from one of the parts, and every part is in it. */
  lemma {:induction false} FlatMapMember<S, T>(xs: seq<S>, f: S -> seq<T>, t: T)
    ensures t in FlatMap(xs, f) <==> exists i :: 0 <= i < |xs| && t in f(xs[i])
  {
    if xs != [] {
      var n := |xs| - 1;
      FlatMapMember(xs[..n], f, t);
      assert forall i :: 0 <= i < n ==> xs[..n][i] == xs[i];
    }
  }

  lemma {:induction false} FlatMapLength<S, T>(xs: seq<S>, f: S -> seq<T>)
    requires forall x :: x in xs ==> |f(x)| == 1
    ensures |FlatMap(xs, f)| == |xs|
  {
    if xs != [] {
      var n := |xs| - 1;
      assert forall x :: x in xs[..n] ==> x in xs;
      FlatMapLength(xs[..n], f);
    }
  }

  // ------------------------------------------------- get_definition_files

  /** The keys one converted document reports, in the scorer's ranked order. */
  function FileMatchesOf(file: string, ms: seq<(string, int)>): seq<FileMatch>
  {
    seq(|ms|, n requires 0 <= n < |ms| => FileMatch(file, ms[n].0, ms[n].1))
  }

  /** The keys one converted document `s` (its path and its object) reports. */
  function SurvivorFileMatches(s: (string, Entries), keyword: string, extract: Extract): seq<FileMatch>
  {
    FileMatchesOf(s.0, CloseMatchesRapidfuzz(extract, keyword, KeySet(JObj(s.1))))
  }

  /** The keys one document reports: none when its conversion failed. */
  function DocFileMatches(d: Doc, keyword: string, extract: Extract): seq<FileMatch>
  {
    if d.outcome.Err? then []
    else SurvivorFileMatches((d.path, d.outcome.value), keyword, extract)
  }

  /** The keys every document reports, document after document, before the final sort. */
  function FileMatches(docs: seq<Doc>, keyword: string, extract: Extract): seq<FileMatch>
  {
    FlatMap(docs, d => DocFileMatches(d, keyword, extract))
  }

  lemma FileMatchesStep(docs: seq<Doc>, i: nat, keyword: string, extract: Extract)
    requires i < |docs|
    ensures FileMatches(docs[..i + 1], keyword, extract) ==
            FileMatches(docs[..i], keyword, extract) + DocFileMatches(docs[i], keyword, extract)
  {
    FlatMapStep(docs, i, d => DocFileMatches(d, keyword, extract));
  }

  /** What `get_definition_files(keyword)` returns over the workspace `docs`. */
  function DefinitionFiles(docs: seq<Doc>, keyword: string, extract: Extract): Option<seq<FileMatch>>
  {
    if docs == [] then None else Some(SortBy(FileMatches(docs, keyword, extract), FileRank))
  }

  /** `get_definition_files(keyword)` over the workspace `docs`. */
  method GetDefinitionFiles(docs: seq<Doc>, keyword: string, extract: Extract) returns (r: Option<seq<FileMatch>>)
    ensures r == DefinitionFiles(docs, keyword, extract)
  {
    if docs == [] {
      return None;
    }
    var matches: seq<FileMatch> := [];
    for i := 0 to |docs|
      invariant matches == FileMatches(docs[..i], keyword, extract)
    {
      FileMatchesStep(docs, i, keyword, extract);
      if docs[i].outcome.Err? {
        continue;
      }
      var keys := GetKeys(JObj(docs[i].outcome.value));
      var close := CloseMatchesRapidfuzz(extract, keyword, keys);
      matches := matches + FileMatchesOf(docs[i].path, close);
    }
    assert docs[..|docs|] == docs;
    r := Some(SortBy(matches, FileRank));
  }

  /** One converted document reports exactly the scorer's pairs for its key index. */
  lemma DocFileMatchesExact(d: Doc, keyword: string, extract: Extract, f: FileMatch)
    ensures f in DocFileMatches(d, keyword, extract) <==>
      d.path == f.file && d.outcome.Ok? && (f.key, f.score) in extract(keyword, KeySet(JObj(d.outcome.value)))
  {
    if d.outcome.Ok? {
      var keys := KeySet(JObj(d.outcome.value));
      var ms := CloseMatchesRapidfuzz(extract, keyword, keys);
      CloseMatchesRapidfuzzSorted(extract, keyword, keys);
      var here := FileMatchesOf(d.path, ms);
      if f in here {
        var k :| 0 <= k < |here| && here[k] == f;
        assert ms[k] == (f.key, f.score);
        assert ms[k] in multiset(ms);
      }
      if f.file == d.path && (f.key, f.score) in extract(keyword, keys) {
        assert (f.key, f.score) in multiset(extract(keyword, keys));
        assert (f.key, f.score) in ms;
        var k :| 0 <= k < |ms| && ms[k] == (f.key, f.score);
        assert here[k] == f;
      }
    }
  }

  /** The keys reported over the workspace are exactly the scorer's pairs for the key index of some converted document. */
  lemma FileMatchesExact(docs: seq<Doc>, keyword: string, extract: Extract, f: FileMatch)
    ensures f in FileMatches(docs, keyword, extract) <==>
      exists i :: 0 <= i < |docs| && docs[i].path == f.file && docs[i].outcome.Ok? &&
                  (f.key, f.score) in extract(keyword, KeySet(JObj(docs[i].outcome.value)))
  {
    FlatMapMember(docs, d => DocFileMatches(d, keyword, extract), f);
    forall i | 0 <= i < |docs| {
      DocFileMatchesExact(docs[i], keyword, extract, f);
    }
  }

  /** A document whose conversion fails reports nothing; the others keep their order. */
  lemma FileMatchesOrder(a: seq<Doc>, d: Doc, b: seq<Doc>, keyword: string, extract: Extract)
    ensures FileMatches(a + [d] + b, keyword, extract) ==
      FileMatches(a, keyword, extract) + DocFileMatches(d, keyword, extract) + FileMatches(b, keyword, extract)
    ensures d.outcome.Err? ==> DocFileMatches(d, keyword, extract) == []
  {
    var f := d => DocFileMatches(d, keyword, extract);
    FlatMapAppend(a + [d], b, f);
    FlatMapAppend(a, [d], f);
    assert [d][..0] == [];
  }

  /**
   * `get_definition_files` returns `None` exactly for an empty workspace;
   * otherwise every key the scorer reports for a converted document, sorted
   * by descending score and then ascending key, equal ranks in document
   * order.
   */
  lemma DefinitionFilesSpec(docs: seq<Doc>, keyword: string, extract: Extract)
    ensures DefinitionFiles(docs, keyword, extract).None? <==> docs == []
    ensures docs != [] ==>
      var r := DefinitionFiles(docs, keyword, extract).value;
      && SortedBy(r, FileRank)
      && multiset(r) == multiset(FileMatches(docs, keyword, extract))
      && forall rank :: WithRank(r, FileRank, rank) == WithRank(FileMatches(docs, keyword, extract), FileRank, rank)
  {
    SortByCorrect(FileMatches(docs, keyword, extract), FileRank);
  }

  // ---------------------------------------------------- definition paths

  /** A definition path found with difflib: the file and the `/`-joined key path. */
  datatype PathMatch = PathMatch(file: string, definitionPath: string)

  /** A definition path found with RapidFuzz, with the score of its key. */
  datatype ScoredPath = ScoredPath(file: string, definitionPath: string, score: int)

  /** `(-x["similarity_score"], x["definition_path"])`. */
  function PathRank(p: ScoredPath): Rank
  {
    Rank(p.score, p.definitionPath)
  }

  /** The path reported for one matched key `m` of the document `es`: none when `find_path` finds nothing. */
  function PathOf(file: string, es: Entries, m: string): seq<PathMatch>
  {
    var path := FindPath(JObj(es), m);
    if path.Some? && path.value != [] then [PathMatch(file, Join(path.value, '/'))] else []
  }

  /** The paths reported for the matched keys `ms` of one document, in their order. */
  function PathsFor(file: string, es: Entries, ms: seq<string>): seq<PathMatch>
  {
    FlatMap(ms, m => PathOf(file, es, m))
  }

  /** The paths one converted document `s` reports. */
  function SurvivorPaths(s: (string, Entries), keyword: string, closeMatches: CloseMatches): seq<PathMatch>
  {
    PathsFor(s.0, s.1, closeMatches(keyword, KeySet(JObj(s.1))))
  }

  /** The paths one document reports: none when its conversion failed. */
  function DocPaths(d: Doc, keyword: string, closeMatches: CloseMatches): seq<PathMatch>
  {
    if d.outcome.Err? then []
    else SurvivorPaths((d.path, d.outcome.value), keyword, closeMatches)
  }

  /** What `get_definition_path_difflib(keyword)` returns over the workspace `docs`. */
  function DifflibPaths(docs: seq<Doc>, keyword: string, closeMatches: CloseMatches): seq<PathMatch>
  {
    FlatMap(docs, d => DocPaths(d, keyword, closeMatches))
  }

  lemma PathsForStep(file: string, es: Entries, ms: seq<string>, k: nat)
    requires k < |ms|
    ensures PathsFor(file, es, ms[..k + 1]) == PathsFor(file, es, ms[..k]) + PathOf(file, es, ms[k])
  {
    FlatMapStep(ms, k, m => PathOf(file, es, m));
  }

  lemma DifflibPathsStep(docs: seq<Doc>, i: nat, keyword: string, closeMatches: CloseMatches)
    requires i < |docs|
    ensures DifflibPaths(docs[..i + 1], keyword, closeMatches) ==
            DifflibPaths(docs[..i], keyword, closeMatches) + DocPaths(docs[i], keyword, closeMatches)
  {
    FlatMapStep(docs, i, d => DocPaths(d, keyword, closeMatches));
  }

  /** `get_definition_path_difflib(keyword)` over the workspace `docs`. */
  method GetDefinitionPathDifflib(docs: seq<Doc>, keyword: string, closeMatches: CloseMatches)
    returns (paths: seq<PathMatch>)
    ensures paths == DifflibPaths(docs, keyword, closeMatches)
  {
    paths := [];
    for i := 0 to |docs|
      invariant paths == DifflibPaths(docs[..i], keyword, closeMatches)
    {
      DifflibPathsStep(docs, i, keyword, closeMatches);
      if docs[i].outcome.Err? {
        continue;
      }
      var es := docs[i].outcome.value;
      var keys := GetKeys(JObj(es));
      var close := closeMatches(keyword, keys);
      ghost var before := paths;
      for k := 0 to |close|
        invariant paths == before + PathsFor(docs[i].path, es, close[..k])
      {
        PathsForStep(docs[i].path, es, close, k);
        var path := FindPath(JObj(es), close[k]);
        if path.Some? && path.value != [] {
          paths := paths + [PathMatch(docs[i].path, Join(path.value, '/'))];
        }
      }
      assert close[..|close|] == close;
    }
    assert docs[..|docs|] == docs;
  }

  /**
   * The difflib paths keep the order of the workspace and, within a
   * document, of its matches; a document whose conversion fails contributes
   * nothing.
   */
  lemma DifflibPathsOrder(a: seq<Doc>, d: Doc, b: seq<Doc>, keyword: string, closeMatches: CloseMatches)
    ensures DifflibPaths(a + [d] + b, keyword, closeMatches) ==
      DifflibPaths(a, keyword, closeMatches) + DocPaths(d, keyword, closeMatches) + DifflibPaths(b, keyword, closeMatches)
    ensures d.outcome.Err? ==> DocPaths(d, keyword, closeMatches) == []
  {
    var f := d => DocPaths(d, keyword, closeMatches);
    FlatMapAppend(a + [d], b, f);
    FlatMapAppend(a, [d], f);
    assert [d][..0] == [];
  }

  /** The paths of one document: for each matched key that `find_path` resolves, the `/`-join of its route. */
  lemma PathsForExact(file: string, es: Entries, ms: seq<string>, p: PathMatch)
    ensures p in PathsFor(file, es, ms) <==>
      exists m :: m in ms && FindPath(JObj(es), m).Some? && p == PathMatch(file, Join(FindPath(JObj(es), m).value, '/'))
  {
    FlatMapMember(ms, m => PathOf(file, es, m), p);
    if p in PathsFor(file, es, ms) {
      var i :| 0 <= i < |ms| && p in PathOf(file, es, ms[i]);
      assert ms[i] in ms;
    }
  }

  /** The paths one document reports: its matched keys that `find_path` resolves, their routes `/`-joined. */
  lemma DocPathsExact(d: Doc, keyword: string, closeMatches: CloseMatches, p: PathMatch)
    ensures p in DocPaths(d, keyword, closeMatches) <==>
      d.path == p.file && d.outcome.Ok? &&
      exists m :: m in closeMatches(keyword, KeySet(JObj(d.outcome.value))) &&
        FindPath(JObj(d.outcome.value), m).Some? &&
        p.definitionPath == Join(FindPath(JObj(d.outcome.value), m).value, '/')
  {
    if d.outcome.Ok? {
      PathsForExact(d.path, d.outcome.value, closeMatches(keyword, KeySet(JObj(d.outcome.value))), p);
    }
  }

  /**
   * Every difflib path comes from a converted document of the workspace and
   * a key the scorer matched in it, and is its `find_path` route `/`-joined;
   * every matched key that `find_path` resolves is reported.
   */
  lemma DifflibPathsExact(docs: seq<Doc>, keyword: string, closeMatches: CloseMatches, p: PathMatch)
    ensures p in DifflibPaths(docs, keyword, closeMatches) <==>
      exists i :: 0 <= i < |docs| && docs[i].path == p.file && docs[i].outcome.Ok? &&
        exists m :: m in closeMatches(keyword, KeySet(JObj(docs[i].outcome.value))) &&
          FindPath(JObj(docs[i].outcome.value), m).Some? &&
          p.definitionPath == Join(FindPath(JObj(docs[i].outcome.value), m).value, '/')
  {
    FlatMapMember(docs, d => DocPaths(d, keyword, closeMatches), p);
    forall i | 0 <= i < |docs|
      ensures p in DocPaths(docs[i], keyword, closeMatches) <==>
        docs[i].path == p.file && docs[i].outcome.Ok? &&
        exists m :: m in closeMatches(keyword, KeySet(JObj(docs[i].outcome.value))) &&
          FindPath(JObj(docs[i].outcome.value), m).Some? &&
          p.definitionPath == Join(FindPath(JObj(docs[i].outcome.value), m).value, '/')
    {
      DocPathsExact(docs[i], keyword, closeMatches, p);
    }
  }

  /** Every reported path ends in a key equal to the matched key up to case. */
  lemma PathMatchesKey(file: string, es: Entries, m: string, p: PathMatch)
    requires p in PathOf(file, es, m)
    ensures exists route :: route != [] && p.definitionPath == Join(route, '/') && Lower(route[|route| - 1]) == Lower(m)
  {
  }

  /**
   * When the key index has no dictionaries inside lists (so every key the
   * scorer can return lies on a route of dictionaries) and the scorer
   * returns keys of the index it was given, each matched key yields a path.
   */
  lemma PathsForComplete(file: string, es: Entries, ms: seq<string>)
    requires ListsHoldNoObjects(JObj(es))
    requires forall m :: m in ms ==> m in KeySet(JObj(es))
    ensures |PathsFor(file, es, ms)| == |ms|
  {
    forall m | m in ms ensures |PathOf(file, es, m)| == 1 {
      CollectedKeysResolve(JObj(es), m);
    }
    FlatMapLength(ms, m => PathOf(file, es, m));
  }

  /**
   * For a document the converter produced, no key the scorer matches is
   * dropped: every one of them has a definition path, provided the scorer
   * returns keys of the index it was given.
   */
  lemma LoadedPathsComplete(path: string, parsed: Option<Elem>, keyword: string, closeMatches: CloseMatches)
    requires Convert(parsed).Ok?
    requires forall keys: set<string>, m :: m in closeMatches(keyword, keys) ==> m in keys
    ensures var d := Load(path, parsed);
      |DocPaths(d, keyword, closeMatches)| == |closeMatches(keyword, KeySet(JObj(d.outcome.value)))|
  {
    var d := Load(path, parsed);
    ConvertNoObjectsInLists(parsed);
    PathsForComplete(path, d.outcome.value, closeMatches(keyword, KeySet(JObj(d.outcome.value))));
  }

  /** The scored path reported for one ranked match of the document `es`. */
  function ScoredPathOf(file: string, es: Entries, m: (string, int)): seq<ScoredPath>
  {
    var path := FindPath(JObj(es), m.0);
    if path.Some? && path.value != [] then [ScoredPath(file, Join(path.value, '/'), m.1)] else []
  }

  /** The scored paths reported for the ranked matches `ms` of one document, in their order. */
  function ScoredPathsFor(file: string, es: Entries, ms: seq<(string, int)>): seq<ScoredPath>
  {
    FlatMap(ms, m => ScoredPathOf(file, es, m))
  }

  /** The scored paths one converted document `s` reports. */
  function SurvivorScoredPaths(s: (string, Entries), keyword: string, extract: Extract): seq<ScoredPath>
  {
    ScoredPathsFor(s.0, s.1, CloseMatchesRapidfuzz(extract, keyword, KeySet(JObj(s.1))))
  }

  /** The scored paths one document reports: none when its conversion failed. */
  function DocScoredPaths(d: Doc, keyword: string, extract: Extract): seq<ScoredPath>
  {
    if d.outcome.Err? then []
    else SurvivorScoredPaths((d.path, d.outcome.value), keyword, extract)
  }

  /** The scored paths every document reports, before the final sort. */
  function RapidfuzzPathsUnsorted(docs: seq<Doc>, keyword: string, extract: Extract): seq<ScoredPath>
  {
    FlatMap(docs, d => DocScoredPaths(d, keyword, extract))
  }

  /** What `get_definition_path_rapidfuzz(keyword)` returns over the workspace `docs`. */
  function RapidfuzzPaths(docs: seq<Doc>, keyword: string, extract: Extract): seq<ScoredPath>
  {
    SortBy(RapidfuzzPathsUnsorted(docs, keyword, extract), PathRank)
  }

  lemma ScoredPathsForStep(file: string, es: Entries, ms: seq<(string, int)>, k: nat)
    requires k < |ms|
    ensures ScoredPathsFor(file, es, ms[..k + 1]) == ScoredPathsFor(file, es, ms[..k]) + ScoredPathOf(file, es, ms[k])
  {
    FlatMapStep(ms, k, m => ScoredPathOf(file, es, m));
  }

  lemma RapidfuzzPathsStep(docs: seq<Doc>, i: nat, keyword: string, extract: Extract)
    requires i < |docs|
    ensures RapidfuzzPathsUnsorted(docs[..i + 1], keyword, extract) ==
            RapidfuzzPathsUnsorted(docs[..i], keyword, extract) + DocScoredPaths(docs[i], keyword, extract)
  {
    FlatMapStep(docs, i, d => DocScoredPaths(d, keyword, extract));
  }

  /** `get_definition_path_rapidfuzz(keyword)` over the workspace `docs`. */
  method GetDefinitionPathRapidfuzz(docs: seq<Doc>, keyword: string, extract: Extract)
    returns (paths: seq<ScoredPath>)
    ensures paths == RapidfuzzPaths(docs, keyword, extract)
  {
    paths := [];
    for i := 0 to |docs|
      invariant paths == RapidfuzzPathsUnsorted(docs[..i], keyword, extract)
    {
      RapidfuzzPathsStep(docs, i, keyword, extract);
      if docs[i].outcome.Err? {
        continue;
      }
      var es := docs[i].outcome.value;
      var keys := GetKeys(JObj(es));
      var close := CloseMatchesRapidfuzz(extract, keyword, keys);
      ghost var before := paths;
      for k := 0 to |close|
        invariant paths == before + ScoredPathsFor(docs[i].path, es, close[..k])
      {
        ScoredPathsForStep(docs[i].path, es, close, k);
        var path := FindPath(JObj(es), close[k].0);
        if path.Some? && path.value != [] {
          paths := paths + [ScoredPath(docs[i].path, Join(path.value, '/'), close[k].1)];
        }
      }
      assert close[..|close|] == close;
    }
    assert docs[..|docs|] == docs;
    paths := SortBy(paths, PathRank);
  }

  /**
   * The RapidFuzz paths are sorted by descending score and then ascending
   * definition path, and are a permutation of the paths found document by
   * document, equal ranks in the order found.
   */
  lemma RapidfuzzPathsSorted(docs: seq<Doc>, keyword: string, extract: Extract)
    ensures var r := RapidfuzzPaths(docs, keyword, extract);
      var u := RapidfuzzPathsUnsorted(docs, keyword, extract);
      && SortedBy(r, PathRank)
      && multiset(r) == multiset(u)
      && forall rank :: WithRank(r, PathRank, rank) == WithRank(u, PathRank, rank)
  {
    SortByCorrect(RapidfuzzPathsUnsorted(docs, keyword, extract), PathRank);
  }

  /** The scored paths of one document: for each scored key that `find_path` resolves, its route `/`-joined with the key's score. */
  lemma ScoredPathsForExact(file: string, es: Entries, ms: seq<(string, int)>, p: ScoredPath)
    ensures p in ScoredPathsFor(file, es, ms) <==>
      exists m :: m in ms && FindPath(JObj(es), m.0).Some? &&
                  p == ScoredPath(file, Join(FindPath(JObj(es), m.0).value, '/'), m.1)
  {
    FlatMapMember(ms, m => ScoredPathOf(file, es, m), p);
    if p in ScoredPathsFor(file, es, ms) {
      var i :| 0 <= i < |ms| && p in ScoredPathOf(file, es, ms[i]);
      assert ms[i] in ms;
    }
  }

  /** The scored paths one document reports: the scorer's pairs whose key `find_path` resolves. */
  lemma DocScoredPathsExact(d: Doc, keyword: string, extract: Extract, p: ScoredPath)
    ensures p in DocScoredPaths(d, keyword, extract) <==>
      d.path == p.file && d.outcome.Ok? &&
      exists m :: m in extract(keyword, KeySet(JObj(d.outcome.value))) &&
        FindPath(JObj(d.outcome.value), m.0).Some? &&
        p.definitionPath == Join(FindPath(JObj(d.outcome.value), m.0).value, '/') && p.score == m.1
  {
    if d.outcome.Ok? {
      var es := d.outcome.value;
      var keys := KeySet(JObj(es));
      var ranked := CloseMatchesRapidfuzz(extract, keyword, keys);
      CloseMatchesRapidfuzzSorted(extract, keyword, keys);
      ScoredPathsForExact(d.path, es, ranked, p);
      forall m ensures m in ranked <==> m in extract(keyword, keys) {
        assert m in ranked <==> m in multiset(ranked);
        assert m in extract(keyword, keys) <==> m in multiset(extract(keyword, keys));
      }
    }
  }

  /**
   * Every RapidFuzz path comes from a converted document and a pair the
   * scorer returned for its key index whose key `find_path` resolves, with
   * that pair's score; and every such pair is reported.
   */
  lemma RapidfuzzPathsExact(docs: seq<Doc>, keyword: string, extract: Extract, p: ScoredPath)
    ensures p in RapidfuzzPaths(docs, keyword, extract) <==>
      exists i :: 0 <= i < |docs| && docs[i].path == p.file && docs[i].outcome.Ok? &&
        exists m :: m in extract(keyword, KeySet(JObj(docs[i].outcome.value))) &&
          FindPath(JObj(docs[i].outcome.value), m.0).Some? &&
          p.definitionPath == Join(FindPath(JObj(docs[i].outcome.value), m.0).value, '/') && p.score == m.1
  {
    RapidfuzzPathsSorted(docs, keyword, extract);
    assert p in RapidfuzzPaths(docs, keyword, extract) <==> p in RapidfuzzPathsUnsorted(docs, keyword, extract) by {
      assert p in RapidfuzzPaths(docs, keyword, extract) <==> p in multiset(RapidfuzzPaths(docs, keyword, extract));
    }
    FlatMapMember(docs, d => DocScoredPaths(d, keyword, extract), p);
    forall i | 0 <= i < |docs|
      ensures p in DocScoredPaths(docs[i], keyword, extract) <==>
        docs[i].path == p.file && docs[i].outcome.Ok? &&
        exists m :: m in extract(keyword, KeySet(JObj(docs[i].outcome.value))) &&
          FindPath(JObj(docs[i].outcome.value), m.0).Some? &&
          p.definitionPath == Join(FindPath(JObj(docs[i].outcome.value), m.0).value, '/') && p.score == m.1
    {
      DocScoredPathsExact(docs[i], keyword, extract, p);
    }
  }

  // ------------------------------------------------ the loops as written

  /**
   * How a call of the source ends: with its value, or with the `SystemExit`
   * that `find_module` raises and `except Exception` lets through.
   */
  datatype Run<T> = Done(value: T) | Exited

  /** A concatenation over the documents is the concatenation over the converted ones when a failed document gives nothing. */
  lemma {:induction false} FlatMapSurvivors<T>(docs: seq<Doc>, f: Doc -> seq<T>, g: ((string, Entries)) -> seq<T>)
    requires forall d :: f(d) == (if d.outcome.Ok? then g((d.path, d.outcome.value)) else [])
    ensures FlatMap(docs, f) == FlatMap(Survivors(docs), g)
  {
    if docs != [] {
      var d := docs[0];
      var head := match d.outcome case Ok(es) => [(d.path, es)] case Err(_) => [];
      FlatMapSurvivors(docs[1..], f, g);
      assert docs == [d] + docs[1..];
      FlatMapAppend([d], docs[1..], f);
      FlatMapAppend(head, Survivors(docs[1..]), g);
      assert [d][..0] == [];
      if d.outcome.Ok? {
        assert head[..0] == [];
      }
    }
  }

  /** The corrected `get_definition_files` goes over the converted documents only. */
  lemma FileMatchesSurvivors(docs: seq<Doc>, keyword: string, extract: Extract)
    ensures FileMatches(docs, keyword, extract) == FlatMap(Survivors(docs), s => SurvivorFileMatches(s, keyword, extract))
  {
    FlatMapSurvivors(docs, d => DocFileMatches(d, keyword, extract), s => SurvivorFileMatches(s, keyword, extract));
  }

  /** The corrected difflib search goes over the converted documents only. */
  lemma DifflibPathsSurvivors(docs: seq<Doc>, keyword: string, closeMatches: CloseMatches)
    ensures DifflibPaths(docs, keyword, closeMatches) == FlatMap(Survivors(docs), s => SurvivorPaths(s, keyword, closeMatches))
  {
    FlatMapSurvivors(docs, d => DocPaths(d, keyword, closeMatches), s => SurvivorPaths(s, keyword, closeMatches));
  }

  /** The corrected RapidFuzz search goes over the converted documents only. */
  lemma RapidfuzzPathsSurvivors(docs: seq<Doc>, keyword: string, extract: Extract)
    ensures RapidfuzzPathsUnsorted(docs, keyword, extract) == FlatMap(Survivors(docs), s => SurvivorScoredPaths(s, keyword, extract))
  {
    FlatMapSurvivors(docs, d => DocScoredPaths(d, keyword, extract), s => SurvivorScoredPaths(s, keyword, extract));
  }

  /** What `get_definition_files(keyword)` does as written: it exits on a document without a module definition. */
  function DefinitionFilesAsWritten(docs: seq<Doc>, keyword: string, extract: Extract): Run<Option<seq<FileMatch>>>
  {
    if docs == [] then Done(None)
    else
      var ss := SurvivorsAsWritten(docs);
      if ss.None? then Exited
      else Done(Some(SortBy(FlatMap(ss.value, s => SurvivorFileMatches(s, keyword, extract)), FileRank)))
  }

  /** What `get_definition_path_difflib(keyword)` does as written. */
  function DifflibPathsAsWritten(docs: seq<Doc>, keyword: string, closeMatches: CloseMatches): Run<seq<PathMatch>>
  {
    var ss := SurvivorsAsWritten(docs);
    if ss.None? then Exited
    else Done(FlatMap(ss.value, s => SurvivorPaths(s, keyword, closeMatches)))
  }

  /** What `get_definition_path_rapidfuzz(keyword)` does as written. */
  function RapidfuzzPathsAsWritten(docs: seq<Doc>, keyword: string, extract: Extract): Run<seq<ScoredPath>>
  {
    var ss := SurvivorsAsWritten(docs);
    if ss.None? then Exited
    else Done(SortBy(FlatMap(ss.value, s => SurvivorScoredPaths(s, keyword, extract)), PathRank))
  }

  /**
   * As written, `get_definition_files` exits exactly when the workspace
   * holds a document without a module definition; otherwise it returns what
   * the corrected loop returns.
   */
  lemma DefinitionFilesAsWrittenAgrees(docs: seq<Doc>, keyword: string, extract: Extract)
    ensures DefinitionFilesAsWritten(docs, keyword, extract).Exited? <==>
      exists i :: 0 <= i < |docs| && docs[i].outcome == Err(NoModuleDef)
    ensures DefinitionFilesAsWritten(docs, keyword, extract).Done? ==>
      DefinitionFilesAsWritten(docs, keyword, extract).value == DefinitionFiles(docs, keyword, extract)
  {
    SurvivorsAsWrittenExits(docs);
    FileMatchesSurvivors(docs, keyword, extract);
  }

  /** As written, the difflib search exits exactly on a document without a module definition, and otherwise agrees with the corrected loop. */
  lemma DifflibPathsAsWrittenAgrees(docs: seq<Doc>, keyword: string, closeMatches: CloseMatches)
    ensures DifflibPathsAsWritten(docs, keyword, closeMatches).Exited? <==>
      exists i :: 0 <= i < |docs| && docs[i].outcome == Err(NoModuleDef)
    ensures DifflibPathsAsWritten(docs, keyword, closeMatches).Done? ==>
      DifflibPathsAsWritten(docs, keyword, closeMatches).value == DifflibPaths(docs, keyword, closeMatches)
  {
    SurvivorsAsWrittenExits(docs);
    DifflibPathsSurvivors(docs, keyword, closeMatches);
  }

  /** As written, the RapidFuzz search exits exactly on a document without a module definition, and otherwise agrees with the corrected loop. */
  lemma RapidfuzzPathsAsWrittenAgrees(docs: seq<Doc>, keyword: string, extract: Extract)
    ensures RapidfuzzPathsAsWritten(docs, keyword, extract).Exited? <==>
      exists i :: 0 <= i < |docs| && docs[i].outcome == Err(NoModuleDef)
    ensures RapidfuzzPathsAsWritten(docs, keyword, extract).Done? ==>
      RapidfuzzPathsAsWritten(docs, keyword, extract).value == RapidfuzzPaths(docs, keyword, extract)
  {
    SurvivorsAsWrittenExits(docs);
    RapidfuzzPathsSurvivors(docs, keyword, extract);
  }

  /**
   * A workspace whose first file has no module definition: as written all
   * three searches exit, while the corrected ones return exactly what the
   * second file alone gives.
   */
  lemma MissingModuleHidesResults(es: Entries, keyword: string, extract: Extract, closeMatches: CloseMatches)
    ensures var docs := [Doc("a.arxml", Err(NoModuleDef)), Doc("b.arxml", Ok(es))];
      var b := [Doc("b.arxml", Ok(es))];
      && DefinitionFilesAsWritten(docs, keyword, extract) == Exited
      && DifflibPathsAsWritten(docs, keyword, closeMatches) == Exited
      && RapidfuzzPathsAsWritten(docs, keyword, extract) == Exited
      && DefinitionFiles(docs, keyword, extract) == DefinitionFiles(b, keyword, extract)
      && DefinitionFiles(b, keyword, extract) == Some(SortBy(SurvivorFileMatches(("b.arxml", es), keyword, extract), FileRank))
      && DifflibPaths(docs, keyword, closeMatches) == SurvivorPaths(("b.arxml", es), keyword, closeMatches)
      && RapidfuzzPaths(docs, keyword, extract) == SortBy(SurvivorScoredPaths(("b.arxml", es), keyword, extract), PathRank)
  {
    var a := Doc("a.arxml", Err(NoModuleDef));
    var docs := [a, Doc("b.arxml", Ok(es))];
    var b := [Doc("b.arxml", Ok(es))];
    MissingModuleAborts(es);
    FileMatchesSurvivors(docs, keyword, extract);
    FileMatchesSurvivors(b, keyword, extract);
    DifflibPathsSurvivors(docs, keyword, closeMatches);
    RapidfuzzPathsSurvivors(docs, keyword, extract);
    assert Survivors(b) == [("b.arxml", es)] by { assert b[1..] == []; }
    var sb := [("b.arxml", es)];
    assert sb[..0] == [];
    assert FileMatches(b, keyword, extract) == SurvivorFileMatches(("b.arxml", es), keyword, extract);
    assert DifflibPaths(docs, keyword, closeMatches) == SurvivorPaths(("b.arxml", es), keyword, closeMatches);
    assert RapidfuzzPathsUnsorted(docs, keyword, extract) == SurvivorScoredPaths(("b.arxml", es), keyword, extract);
  }
}
