/**
 * Two small text helpers: `strip_result`, which names the file of the first
 * reported match by its last path segment, and the arithmetic of
 * `_spaces_to_tabs`, which rewrites a run of leading indentation spaces as
 * tabs when JSON is exported with tabs.
 */
module TextUtils {
  import opened Wrappers
  import opened Strings

  /** The separator of a file path: a backslash if the path holds one, else a slash. */
  function PathSeparator(file: string): (sep: char)
    ensures sep == '\\' <==> '\\' in file
    ensures sep != '\\' ==> sep == '/'
  {
    if '\\' in file then '\\' else '/'
  }

  /**
   * `strip_result(result)`, given the `file` fields of the results in
   * order: the lower-cased last segment of the first file, or `None` when
   * there is no result.
   */
  function StripResult(files: seq<string>): Option<string>
  {
    if files == [] then None
    else Some(Lower(LastSegment(files[0], PathSeparator(files[0]))))
  }

  /**
   * `None` exactly for no result; otherwise the name is the lower-cased
   * suffix of the first file after its last separator, holding no separator
   * and no upper-case letter.
   */
  lemma StripResultSpec(files: seq<string>)
    ensures StripResult(files).None? <==> files == []
    ensures files != [] ==>
      var name := StripResult(files).value;
      var f := files[0];
      var sep := PathSeparator(f);
      var seg := LastSegment(f, sep);
      && name == Lower(seg)
      && |seg| <= |f| && f[|f| - |seg|..] == seg
      && (|seg| == |f| || f[|f| - |seg| - 1] == sep)
      && sep !in name
      && forall i :: 0 <= i < |name| ==> !IsUpper(name[i])
  {
    if files != [] {
      var f := files[0];
      var sep := PathSeparator(f);
      LastSegmentIsSuffix(f, sep);
      LowerKeeps(LastSegment(f, sep), sep);
    }
  }

  /** A file name without any separator is reported whole, lower-cased. */
  lemma StripResultBareName(files: seq<string>)
    requires files != [] && '\\' !in files[0] && '/' !in files[0]
    ensures StripResult(files) == Some(Lower(files[0]))
  {
    LastSegmentWithoutSeparator(files[0], '/');
  }

  /** `_spaces_to_tabs` on a run of `count` spaces: `count // indent` tabs, then `count % indent` spaces. */
  function SpacesToTabs(count: nat, indent: int): (r: string)
    requires indent >= 1
  {
    Repeat('\t', count / indent) + Repeat(' ', count % indent)
  }

  /** The width of indentation when a tab stands for `indent` columns and a space for one. */
  function Width(s: string, indent: nat): nat
  {
    if s == [] then 0 else (if s[0] == '\t' then indent else if s[0] == ' ' then 1 else 0) + Width(s[1..], indent)
  }

  lemma {:induction false} WidthAppend(a: string, b: string, indent: nat)
    ensures Width(a + b, indent) == Width(a, indent) + Width(b, indent)
  {
    if a == [] {
      assert a + b == b;
    } else {
      assert (a + b)[0] == a[0];
      assert (a + b)[1..] == a[1..] + b;
      WidthAppend(a[1..], b, indent);
    }
  }

  lemma {:induction false} WidthRepeat(c: char, n: nat, indent: nat)
    requires c == '\t' || c == ' '
    ensures Width(Repeat(c, n), indent) == n * (if c == '\t' then indent else 1)
  {
    if n > 0 {
      assert Repeat(c, n)[1..] == Repeat(c, n - 1);
      WidthRepeat(c, n - 1, indent);
    }
  }

  /**
   * The tabs come first, then fewer spaces than one tab is worth, and the
   * indentation keeps its width: tabs times `indent` plus the spaces is the
   * number of spaces replaced.
   */
  lemma SpacesToTabsSpec(count: nat, indent: int)
    requires indent >= 1
    ensures var r := SpacesToTabs(count, indent);
      var tabs := count / indent;
      var rem := count % indent;
      && |r| == tabs + rem
      && (forall i :: 0 <= i < tabs ==> r[i] == '\t')
      && (forall i :: tabs <= i < |r| ==> r[i] == ' ')
      && tabs * indent + rem == count
      && rem < indent
      && Width(r, indent) == count
  {
    var tabs := count / indent;
    var rem := count % indent;
    WidthAppend(Repeat('\t', tabs), Repeat(' ', rem), indent);
    WidthRepeat('\t', tabs, indent);
    WidthRepeat(' ', rem, indent);
  }
}
