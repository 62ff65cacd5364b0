/**
 * The ParamDef-to-JSON converter: from the element tree of an AUTOSAR ECUC
 * parameter-definition document (module, containers, sub-containers, choices,
 * parameters) to the ordered JSON-like dictionary the tool works on.
 */
module Converter {
  import opened Wrappers
  import opened Strings
  import opened Json
  import opened Xml

  // ---------------------------------------------------------------- text

  /** `text(elem)`: the element's text without surrounding whitespace, `''` when there is none. */
  function Text(e: Option<Elem>): string
  {
    if e.Some? && e.value.text.Some? && e.value.text.value != [] then
      Strip(e.value.text.value, Whitespace)
    else
      ""
  }

  /** The text is `''` without an element or a text, else its text with the surrounding whitespace removed. */
  lemma TextStripped(e: Option<Elem>)
    ensures var r := Text(e);
      && (e.None? || e.value.text.None? ==> r == "")
      && (r == [] || (r[0] !in Whitespace && r[|r| - 1] !in Whitespace))
      && (e.Some? && e.value.text.Some? ==> exists a :: StrippedAt(e.value.text.value, Whitespace, r, a))
  {
    if !(e.Some? && e.value.text.Some? && e.value.text.value != []) {
      assert e.Some? && e.value.text.Some? ==> StrippedAt(e.value.text.value, Whitespace, "", 0);
    }
  }

  /** The text of the `SHORT-NAME` child. */
  function ShortName(e: Elem): string
  {
    Text(Find(e, "SHORT-NAME"))
  }

  // -------------------------------------------------------- multiplicity

  /** `text(x) or '1'`. */
  function OrOne(s: string): (r: string)
    ensures r != ""
  {
    if s != "" then s else "1"
  }

  /** A multiplicity bound as the converter reads it from the `ar:` + `local` child; `"1"` when missing or empty. */
  function BoundText(e: Elem, local: string): (r: string)
    ensures r != ""
    ensures Find(e, local).None? ==> r == "1"
    ensures Text(Find(e, local)) == "" ==> r == "1"
    ensures Text(Find(e, local)) != "" ==> r == Text(Find(e, local))
  {
    OrOne(Text(Find(e, local)))
  }

  function LowerBound(e: Elem): string
  {
    BoundText(e, "LOWER-MULTIPLICITY")
  }

  function UpperText(e: Elem): string
  {
    BoundText(e, "UPPER-MULTIPLICITY")
  }

  /** An `UPPER-MULTIPLICITY-INFINITE` child whose text is `true` or `True`. */
  predicate InfiniteMarked(e: Elem)
  {
    var inf := Find(e, "UPPER-MULTIPLICITY-INFINITE");
    inf.Some? && Text(inf) in {"true", "True"}
  }

  /** The rendering of `multiplicity` from the bounds it has read. */
  function Render(low: string, up: string, infinite: bool): (r: string)
    requires low != ""
    ensures r != ""
  {
    if infinite then low + "..*"
    else if up == "*" then low + "..*"
    else if low == up then low
    else low + ".." + up
  }

  /** `multiplicity(elem)`. */
  function Multiplicity(e: Elem): (r: string)
    ensures r != ""
  {
    Render(LowerBound(e), UpperText(e), InfiniteMarked(e))
  }

  /** An upper bound: a finite text, or unbounded. */
  datatype Bound = Finite(text: string) | Unbounded

  /** The upper bound a definition means: unbounded when marked infinite or written `*`. */
  function UpperBound(e: Elem): Bound
  {
    if InfiniteMarked(e) || UpperText(e) == "*" then Unbounded else Finite(UpperText(e))
  }

  /** The position of the first `..` in `s`. */
  function DotDot(s: string): (r: Option<nat>)
    ensures r.Some? ==> r.value + 1 < |s| && s[r.value] == '.' && s[r.value + 1] == '.'
    ensures r.None? ==> forall i :: 0 <= i < |s| - 1 ==> !(s[i] == '.' && s[i + 1] == '.')
    ensures r.Some? ==> forall i :: 0 <= i < r.value ==> !(s[i] == '.' && s[i + 1] == '.')
  {
    if |s| < 2 then None
    else if s[0] == '.' && s[1] == '.' then Some(0)
    else match DotDot(s[1..])
      case None => None
      case Some(i) => Some(i + 1)
  }

  /** Reads a rendered multiplicity back: the bare `x`, `low..*` or `low..up`. */
  function ParseMultiplicity(m: string): (string, Bound)
  {
    match DotDot(m)
    case None => (m, Finite(m))
    case Some(i) => (m[..i], if m[i + 2..] == "*" then Unbounded else Finite(m[i + 2..]))
  }

  /** The first `..` of `low + ".." + rest` is the one after `low` when `low` has no dot. */
  lemma {:induction false} DotDotAfter(low: string, rest: string)
    requires '.' !in low
    ensures DotDot(low + ".." + rest) == Some(|low|)
  {
    if low != [] {
      assert (low + ".." + rest)[1..] == low[1..] + ".." + rest;
      DotDotAfter(low[1..], rest);
    }
  }

  /** A text without a dot has no `..`. */
  lemma {:induction false} DotDotNone(s: string)
    requires '.' !in s
    ensures DotDot(s) == None
  {
    if |s| >= 2 {
      DotDotNone(s[1..]);
    }
  }

  /** Reading a rendering back gives the lower bound and the upper bound it stands for. */
  lemma RenderRoundTrip(low: string, up: string, infinite: bool)
    requires low != "" && '.' !in low
    ensures ParseMultiplicity(Render(low, up, infinite)) ==
      (low, if infinite || up == "*" then Unbounded else Finite(up))
  {
    var m := Render(low, up, infinite);
    if m == low {
      DotDotNone(low);
    } else {
      var rest := if infinite || up == "*" then "*" else up;
      assert m == low + ".." + rest;
      DotDotAfter(low, rest);
      assert m[..|low|] == low && m[|low| + 2..] == rest;
    }
  }

  /**
   * The rendering loses nothing: reading the multiplicity back gives the
   * lower bound and the upper bound the definition means (a lower bound with
   * a dot in it is the one case the rendering cannot tell apart).
   */
  lemma MultiplicityRoundTrip(e: Elem)
    requires '.' !in LowerBound(e)
    ensures ParseMultiplicity(Multiplicity(e)) == (LowerBound(e), UpperBound(e))
  {
    RenderRoundTrip(LowerBound(e), UpperText(e), InfiniteMarked(e));
  }

  /** Unbounded definitions render as `<low>..*`. */
  lemma MultiplicityUnbounded(e: Elem)
    requires UpperBound(e) == Unbounded
    ensures Multiplicity(e) == LowerBound(e) + "..*"
  {
  }

  /** Bounded definitions render as the bare value when both bounds agree, else as `<low>..<up>`. */
  lemma MultiplicityBounded(e: Elem)
    requires UpperBound(e).Finite?
    ensures Multiplicity(e) == if LowerBound(e) == UpperText(e) then LowerBound(e) else LowerBound(e) + ".." + UpperText(e)
  {
  }

  /** Without any multiplicity element the multiplicity is `"1"`. */
  lemma MultiplicityDefault(e: Elem)
    requires Find(e, "LOWER-MULTIPLICITY").None? && Find(e, "UPPER-MULTIPLICITY").None?
    requires Find(e, "UPPER-MULTIPLICITY-INFINITE").None?
    ensures Multiplicity(e) == "1"
  {
  }

  // ---------------------------------------------------------- parameters

  /** The parameter kinds the converter names; other tags pass through. */
  const TypeMap: map<string, string> := map[
    "ECUC-BOOLEAN-PARAM-DEF" := "BOOLEAN",
    "ECUC-INTEGER-PARAM-DEF" := "INTEGER",
    "ECUC-FLOAT-PARAM-DEF" := "FLOAT",
    "ECUC-STRING-PARAM-DEF" := "STRING",
    "ECUC-ENUMERATION-PARAM-DEF" := "ENUMERATION",
    "ECUC-FUNCTION-NAME-DEF" := "FUNCTION_NAME"
  ]

  /** `type_map.get(tag, tag)` on the local part of the element's tag. */
  function ParamType(tag: string): string
  {
    var local := LocalName(tag);
    if local in TypeMap then TypeMap[local] else local
  }

  /** A known kind in the AUTOSAR namespace gets its name; any other local tag is kept as it is. */
  lemma ParamTypeOfQualified(local: string)
    requires '}' !in local
    ensures ParamType(Qualified(local)) == if local in TypeMap then TypeMap[local] else local
  {
    LocalNameOfQualified(local);
  }

  /** `if value: d[key] = value`. */
  function Field(es: Entries, key: string, value: string): Entries
  {
    if value != "" then Put(es, key, JStr(value)) else es
  }

  /** The non-empty short-names of the given literal definitions, in order. */
  function ShortNames(ls: seq<Elem>): seq<string>
  {
    if ls == [] then []
    else
      var n := |ls| - 1;
      var name := ShortName(ls[n]);
      ShortNames(ls[..n]) + (if name != "" then [name] else [])
  }

  /** The literals are exactly the non-empty short-names of the definitions. */
  lemma {:induction false} ShortNamesExact(ls: seq<Elem>)
    ensures forall x :: x in ShortNames(ls) <==> x != "" && exists l :: l in ls && ShortName(l) == x
  {
    if ls != [] {
      var n := |ls| - 1;
      assert forall l :: l in ls <==> l in ls[..n] || l == ls[n];
      ShortNamesExact(ls[..n]);
    }
  }

  /** One more definition adds its short-name when that is not empty. */
  lemma ShortNamesStep(ls: seq<Elem>, i: nat)
    requires i < |ls|
    ensures ShortNames(ls[..i + 1]) ==
      ShortNames(ls[..i]) + (if ShortName(ls[i]) != "" then [ShortName(ls[i])] else [])
  {
    assert ls[..i + 1][..i] == ls[..i];
  }

  /** The literal definitions under a `LITERALS` child, whatever the parameter's kind. */
  function LiteralDefs(p: Elem): seq<Elem>
  {
    match Find(p, "LITERALS")
    case None => []
    case Some(le) => FindAll(le, "ECUC-ENUMERATION-LITERAL-DEF")
  }

  /** The literal names of a parameter. */
  function Literals(p: Elem): seq<string>
  {
    ShortNames(LiteralDefs(p))
  }

  /** What `parse_parameter` reads from a parameter definition before building its dictionary. */
  datatype ParamTexts = ParamTexts(
    kind: string, mult: string, maxv: string, minv: string, default: string, desc: string, lits: seq<string>)

  function ReadParameter(p: Elem): ParamTexts
  {
    ParamTexts(ParamType(p.tag), Multiplicity(p), Text(Find(p, "MAX")), Text(Find(p, "MIN")),
               Text(Find(p, "DEFAULT-VALUE")), Text(FindEnglishDesc(p)), Literals(p))
  }

  /** `type`, `param_type` and, unless it is `"1"`, `multiplicity`. */
  function ParamHeader(t: ParamTexts): Entries
  {
    var es: Entries := [("type", JStr("PARAMETER")), ("param_type", JStr(t.kind))];
    if t.mult != "" && t.mult != "1" then Put(es, "multiplicity", JStr(t.mult)) else es
  }

  /** The header followed by the non-empty `maxValue`, `minValue`, `defaultValue` and `description`. */
  function ParamValues(t: ParamTexts): Entries
  {
    Field(Field(Field(Field(ParamHeader(t), "maxValue", t.maxv), "minValue", t.minv),
                "defaultValue", t.default), "description", t.desc)
  }

  /** The dictionary `parse_parameter` builds: the values, then `literals` when there are any. */
  function ParamEntries(t: ParamTexts): Entries
  {
    if t.lits != [] then Put(ParamValues(t), "literals", JList(Strs(t.lits))) else ParamValues(t)
  }

  /** What `parse_parameter` returns for `p`: its short-name and its JSON. */
  function ParameterOf(p: Elem): (string, Json)
  {
    (ShortName(p), JObj(ParamEntries(ReadParameter(p))))
  }

  /** The literal names under `LITERALS`, collected by the loop of `parse_parameter`. */
  method CollectLiterals(p: Elem) returns (lits: seq<string>)
    ensures lits == Literals(p)
  {
    lits := [];
    var literals := Find(p, "LITERALS");
    if literals.Some? {
      var defs := FindAll(literals.value, "ECUC-ENUMERATION-LITERAL-DEF");
      for i := 0 to |defs|
        invariant lits == ShortNames(defs[..i])
      {
        ShortNamesStep(defs, i);
        var n := ShortName(defs[i]);
        if n != "" {
          lits := lits + [n];
        }
      }
      assert defs[..|defs|] == defs;
    }
  }

  /** The dictionary-building half of `parse_parameter`, on the texts already read. */
  method BuildParameter(t: ParamTexts) returns (es: Entries)
    ensures es == ParamEntries(t)
  {
    es := [("type", JStr("PARAMETER")), ("param_type", JStr(t.kind))];
    if t.mult != "" && t.mult != "1" {
      es := Put(es, "multiplicity", JStr(t.mult));
    }
    assert es == ParamHeader(t);
    if t.maxv != "" { es := Put(es, "maxValue", JStr(t.maxv)); }
    if t.minv != "" { es := Put(es, "minValue", JStr(t.minv)); }
    if t.default != "" { es := Put(es, "defaultValue", JStr(t.default)); }
    if t.desc != "" { es := Put(es, "description", JStr(t.desc)); }
    assert es == ParamValues(t);
    if t.lits != [] {
      es := Put(es, "literals", JList(Strs(t.lits)));
    }
  }

  /** `parse_parameter(param_elem)`. */
  method ParseParameter(p: Elem) returns (name: string, param: Json)
    ensures (name, param) == ParameterOf(p)
  {
    name := ShortName(p);
    var desc := Text(FindEnglishDesc(p));
    var mult := Multiplicity(p);
    var maxv := Text(Find(p, "MAX"));
    var minv := Text(Find(p, "MIN"));
    var default := Text(Find(p, "DEFAULT-VALUE"));
    var lits := CollectLiterals(p);
    var es := BuildParameter(ParamTexts(ParamType(p.tag), mult, maxv, minv, default, desc, lits));
    param := JObj(es);
  }

  /** The value `Field` leaves under its key. */
  lemma FieldGet(es: Entries, key: string, value: string, k: string)
    ensures Get(Field(es, key, value), k) == if k == key && value != "" then Some(JStr(value)) else Get(es, k)
  {
    if value != "" {
      PutGet(es, key, JStr(value), k);
    }
  }

  lemma FieldEntries(es: Entries, key: string, value: string)
    ensures UniqueKeys(es) ==> UniqueKeys(Field(es, key, value))
  {
    if value != "" {
      PutEntries(es, key, JStr(value));
    }
  }

  lemma ParamHeaderGet(t: ParamTexts, k: string)
    requires t.mult != ""
    ensures Get(ParamHeader(t), k) ==
      if k == "type" then Some(JStr("PARAMETER"))
      else if k == "param_type" then Some(JStr(t.kind))
      else if k == "multiplicity" && t.mult != "1" then Some(JStr(t.mult))
      else None
  {
    var es: Entries := [("type", JStr("PARAMETER")), ("param_type", JStr(t.kind))];
    assert Keys(es) == ["type", "param_type"];
    PutGet(es, "multiplicity", JStr(t.mult), k);
  }

  lemma ParamValuesGet(t: ParamTexts, k: string)
    ensures Get(ParamValues(t), k) ==
      if k == "maxValue" && t.maxv != "" then Some(JStr(t.maxv))
      else if k == "minValue" && t.minv != "" then Some(JStr(t.minv))
      else if k == "defaultValue" && t.default != "" then Some(JStr(t.default))
      else if k == "description" && t.desc != "" then Some(JStr(t.desc))
      else Get(ParamHeader(t), k)
  {
    var h := ParamHeader(t);
    var es2 := Field(h, "maxValue", t.maxv);
    var es3 := Field(es2, "minValue", t.minv);
    var es4 := Field(es3, "defaultValue", t.default);
    FieldGet(h, "maxValue", t.maxv, k);
    FieldGet(es2, "minValue", t.minv, k);
    FieldGet(es3, "defaultValue", t.default, k);
    FieldGet(es4, "description", t.desc, k);
  }

  /**
   * The field a key holds in a parameter's dictionary: `type` and
   * `param_type` always; `multiplicity` unless it is `"1"`; the four value
   * fields when their text is not empty; `literals` when there is at least
   * one literal name; no other key.
   */
  lemma ParamEntriesGet(t: ParamTexts, k: string)
    requires t.mult != ""
    ensures Get(ParamEntries(t), k) ==
      if k == "type" then Some(JStr("PARAMETER"))
      else if k == "param_type" then Some(JStr(t.kind))
      else if k == "multiplicity" then (if t.mult == "1" then None else Some(JStr(t.mult)))
      else if k == "maxValue" then (if t.maxv == "" then None else Some(JStr(t.maxv)))
      else if k == "minValue" then (if t.minv == "" then None else Some(JStr(t.minv)))
      else if k == "defaultValue" then (if t.default == "" then None else Some(JStr(t.default)))
      else if k == "description" then (if t.desc == "" then None else Some(JStr(t.desc)))
      else if k == "literals" then (if t.lits == [] then None else Some(JList(Strs(t.lits))))
      else None
  {
    ParamHeaderGet(t, k);
    ParamValuesGet(t, k);
    PutGet(ParamValues(t), "literals", JList(Strs(t.lits)), k);
  }

  /** A parameter's dictionary never holds a key twice. */
  lemma ParamEntriesUnique(t: ParamTexts)
    ensures UniqueKeys(ParamEntries(t))
  {
    var es: Entries := [("type", JStr("PARAMETER")), ("param_type", JStr(t.kind))];
    PutEntries(es, "multiplicity", JStr(t.mult));
    var h := ParamHeader(t);
    var es2 := Field(h, "maxValue", t.maxv);
    var es3 := Field(es2, "minValue", t.minv);
    var es4 := Field(es3, "defaultValue", t.default);
    FieldEntries(h, "maxValue", t.maxv);
    FieldEntries(es2, "minValue", t.minv);
    FieldEntries(es3, "defaultValue", t.default);
    FieldEntries(es4, "description", t.desc);
    PutEntries(ParamValues(t), "literals", JList(Strs(t.lits)));
  }

  /** Setting a key other than the first two leaves the first two entries in place. */
  lemma PutKeepsStart(es: Entries, k: string, v: Json)
    requires |es| >= 2 && es[0].0 != k && es[1].0 != k
    ensures |Put(es, k, v)| >= 2 && Put(es, k, v)[0] == es[0] && Put(es, k, v)[1] == es[1]
  {
    PutKeepsPrefix(es, k, v);
  }

  lemma FieldKeepsStart(es: Entries, key: string, value: string)
    requires |es| >= 2 && es[0].0 != key && es[1].0 != key
    ensures |Field(es, key, value)| >= 2 && Field(es, key, value)[..2] == es[..2]
  {
    PutKeepsStart(es, key, JStr(value));
  }

  /** The dictionary always starts with `type` and `param_type`, in that order. */
  lemma ParamEntriesStart(t: ParamTexts)
    ensures |ParamEntries(t)| >= 2
    ensures ParamEntries(t)[..2] == [("type", JStr("PARAMETER")), ("param_type", JStr(t.kind))]
  {
    var es: Entries := [("type", JStr("PARAMETER")), ("param_type", JStr(t.kind))];
    PutKeepsStart(es, "multiplicity", JStr(t.mult));
    var h := ParamHeader(t);
    assert h[..2] == es;
    var es2 := Field(h, "maxValue", t.maxv);
    FieldKeepsStart(h, "maxValue", t.maxv);
    var es3 := Field(es2, "minValue", t.minv);
    FieldKeepsStart(es2, "minValue", t.minv);
    var es4 := Field(es3, "defaultValue", t.default);
    FieldKeepsStart(es3, "defaultValue", t.default);
    FieldKeepsStart(es4, "description", t.desc);
    var v := ParamValues(t);
    assert v[..2] == es;
    PutKeepsStart(v, "literals", JList(Strs(t.lits)));
  }

  // ----------------------------------------------------------- containers

  /** Every child of the `ar:` + `local` child of `e` (all of them, whatever their tag); none when it is missing. */
  function ChildrenOf(e: Elem, local: string): (r: seq<Elem>)
    ensures forall x :: x in r ==> x < e
    ensures Find(e, local).None? ==> r == []
  {
    match Find(e, local)
    case None => []
    case Some(g) => g.children
  }

  /** `{'type': 'CONTAINER'}`, with the description `desc` when it is not empty. */
  function ContainerHead(desc: string): Entries
  {
    Field([("type", JStr("CONTAINER"))], "description", desc)
  }

  /** The `(name, parameter)` pairs of the children of `PARAMETERS`, one per child, in order. */
  function ParamPairs(c: Elem): (r: Entries)
    ensures |r| == |ChildrenOf(c, "PARAMETERS")|
  {
    var ps := ChildrenOf(c, "PARAMETERS");
    seq(|ps|, i requires 0 <= i < |ps| => ParameterOf(ps[i]))
  }

  /**
   * The merge at the end of `parse_container`: the parameter dictionary
   * copied into `base`, then the sub-container dictionary, each dictionary
   * built by assigning its pairs in order.
   */
  function Assemble(base: Entries, params: Entries, subs: Entries): Entries
  {
    PutAll(PutAll(base, PutAll([], params)), PutAll([], subs))
  }

  /** What `parse_container` returns for `c`: its short-name and its JSON. */
  function ContainerOf(c: Elem): (string, Json)
    decreases c, 3
  {
    (ShortName(c), JObj(ContainerEntries(c)))
  }

  /** The container's dictionary: base, parameters, then sub-containers and choices. */
  function ContainerEntries(c: Elem): Entries
    decreases c, 2
  {
    Assemble(ContainerHead(Text(FindEnglishDesc(c))), ParamPairs(c), SubPairs(c))
  }

  /** The sub-containers, then the choices (which `parse_container` treats as containers). */
  function SubPairs(c: Elem): Entries
    decreases c, 1
  {
    ContainerPairs(c, "SUB-CONTAINERS") + ContainerPairs(c, "CHOICES")
  }

  /** The `(name, container)` pairs of the children of the `ar:` + `local` child, one per child, in order. */
  function ContainerPairs(c: Elem, local: string): (r: Entries)
    ensures |r| == |ChildrenOf(c, local)|
    decreases c, 0
  {
    var xs := ChildrenOf(c, local);
    seq(|xs|, i requires 0 <= i < |xs| => ContainerOf(xs[i]))
  }

  /** Proof step: the `i`-th parameter pair is the parse of the `i`-th child. */
  lemma ParamPairsAt(c: Elem, i: nat)
    requires i < |ChildrenOf(c, "PARAMETERS")|
    ensures ParamPairs(c)[i] == ParameterOf(ChildrenOf(c, "PARAMETERS")[i])
  {
  }

  /** Proof step: the `i`-th container pair is the parse of the `i`-th child. */
  lemma ContainerPairsAt(c: Elem, local: string, i: nat)
    requires i < |ChildrenOf(c, local)|
    ensures ContainerPairs(c, local)[i] == ContainerOf(ChildrenOf(c, local)[i])
  {
  }

  /**
   * The parameter dictionary of `parse_container` is keyed by the short names
   * of the children of `PARAMETERS`, and each name holds the parameter parsed
   * from the last child with that name.
   */
  lemma ParametersByName(c: Elem, k: string)
    ensures var ps := ChildrenOf(c, "PARAMETERS");
      var params := PutAll([], ParamPairs(c));
      && (k in Keys(params) <==> exists i :: 0 <= i < |ps| && ShortName(ps[i]) == k)
      && (k in Keys(params) ==>
            exists i :: 0 <= i < |ps| && ShortName(ps[i]) == k && Get(params, k) == Some(ParameterOf(ps[i]).1) &&
                        forall j :: i < j < |ps| ==> ShortName(ps[j]) != k)
  {
    var ps := ChildrenOf(c, "PARAMETERS");
    var kvs := ParamPairs(c);
    assert forall i :: 0 <= i < |ps| ==> kvs[i].0 == ShortName(ps[i]) && kvs[i].1 == ParameterOf(ps[i]).1;
    AssignedByName(kvs, k);
  }

  /**
   * The sub-container dictionary of `parse_container` is keyed by the short
   * names of the children of `SUB-CONTAINERS` and then of `CHOICES`, and each
   * name holds the container parsed from the last of those children with
   * that name (so a choice overrides a sub-container of the same name).
   */
  lemma {:induction false} SubContainersByName(c: Elem, k: string)
    ensures var xs := ChildrenOf(c, "SUB-CONTAINERS") + ChildrenOf(c, "CHOICES");
      var subs := PutAll([], SubPairs(c));
      && (k in Keys(subs) <==> exists i :: 0 <= i < |xs| && ShortName(xs[i]) == k)
      && (k in Keys(subs) ==>
            exists i :: 0 <= i < |xs| && ShortName(xs[i]) == k && Get(subs, k) == Some(ContainerOf(xs[i]).1) &&
                        forall j :: i < j < |xs| ==> ShortName(xs[j]) != k)
  {
    var xs := ChildrenOf(c, "SUB-CONTAINERS") + ChildrenOf(c, "CHOICES");
    var kvs := SubPairs(c);
    ChildPairsNamed(c, xs, kvs);
    NamedKeys(xs, kvs, k);
    if k in Keys(PutAll([], kvs)) {
      var i := NamedLast(xs, kvs, k);
      SubPairAt(c, xs, i);
    }
  }

  /** Proof step: pairs named by the short names of `xs` build a dictionary keyed by those names. */
  lemma NamedKeys(xs: seq<Elem>, kvs: Entries, k: string)
    requires |kvs| == |xs| && forall i :: 0 <= i < |xs| ==> kvs[i].0 == ShortName(xs[i])
    ensures k in Keys(PutAll([], kvs)) <==> exists i :: 0 <= i < |xs| && ShortName(xs[i]) == k
  {
    AssignedByName(kvs, k);
  }

  /** Proof step: the position of the last pair named `k`, whose value the dictionary keeps. */
  lemma NamedLast(xs: seq<Elem>, kvs: Entries, k: string) returns (i: nat)
    requires |kvs| == |xs| && forall i :: 0 <= i < |xs| ==> kvs[i].0 == ShortName(xs[i])
    requires k in Keys(PutAll([], kvs))
    ensures i < |xs| && ShortName(xs[i]) == k && Get(PutAll([], kvs), k) == Some(kvs[i].1)
    ensures forall j :: i < j < |xs| ==> ShortName(xs[j]) != k
  {
    AssignedByName(kvs, k);
    PutAllGet([], kvs, k);
    i := LastValueAt(kvs, k);
  }

  /** Proof step: the sub-container pairs are named by the children of both sections. */
  lemma ChildPairsNamed(c: Elem, xs: seq<Elem>, kvs: Entries)
    requires xs == ChildrenOf(c, "SUB-CONTAINERS") + ChildrenOf(c, "CHOICES") && kvs == SubPairs(c)
    ensures |kvs| == |xs| && forall i :: 0 <= i < |xs| ==> kvs[i].0 == ShortName(xs[i])
  {
    forall i | 0 <= i < |xs| ensures kvs[i].0 == ShortName(xs[i]) {
      SubPairAt(c, xs, i);
    }
  }

  /** Proof step: the `i`-th sub-container pair is the parse of the `i`-th child of both sections. */
  lemma SubPairAt(c: Elem, xs: seq<Elem>, i: nat)
    requires xs == ChildrenOf(c, "SUB-CONTAINERS") + ChildrenOf(c, "CHOICES") && i < |xs|
    ensures i < |SubPairs(c)| && SubPairs(c)[i] == ContainerOf(xs[i])
  {
    var n := |ChildrenOf(c, "SUB-CONTAINERS")|;
    if i < n {
      ContainerPairsAt(c, "SUB-CONTAINERS", i);
    } else {
      ContainerPairsAt(c, "CHOICES", i - n);
    }
  }

  /** `for k, v in d.items(): target[k] = v`. */
  method CopyInto(target: Entries, d: Entries) returns (r: Entries)
    ensures r == PutAll(target, d)
  {
    r := target;
    for i := 0 to |d|
      invariant r == PutAll(target, d[..i])
    {
      PutAllStep(target, d, i);
      r := Put(r, d[i].0, d[i].1);
    }
    assert d[..|d|] == d;
  }

  /** The parameter loop of `parse_container`. */
  method ParseParameters(c: Elem) returns (params: Entries)
    ensures params == PutAll([], ParamPairs(c))
  {
    params := [];
    var parent := Find(c, "PARAMETERS");
    if parent.Some? {
      var ps := parent.value.children;
      assert ps == ChildrenOf(c, "PARAMETERS");
      for i := 0 to |ps|
        invariant params == PutAll([], ParamPairs(c)[..i])
      {
        PutAllStep([], ParamPairs(c), i);
        ParamPairsAt(c, i);
        var pname, pjson := ParseParameter(ps[i]);
        params := Put(params, pname, pjson);
      }
      assert ParamPairs(c)[..|ps|] == ParamPairs(c);
    }
  }

  /** The sub-container loop and the choice loop of `parse_container`, assigning into `subs`. */
  method ParseChildContainers(c: Elem, local: string, subs0: Entries) returns (subs: Entries)
    ensures subs == PutAll(subs0, ContainerPairs(c, local))
    decreases c, 0
  {
    subs := subs0;
    var parent := Find(c, local);
    if parent.Some? {
      var xs := parent.value.children;
      assert xs == ChildrenOf(c, local);
      for i := 0 to |xs|
        invariant subs == PutAll(subs0, ContainerPairs(c, local)[..i])
      {
        PutAllStep(subs0, ContainerPairs(c, local), i);
        ContainerPairsAt(c, local, i);
        var name, json := ParseContainer(xs[i]);
        subs := Put(subs, name, json);
      }
      assert ContainerPairs(c, local)[..|xs|] == ContainerPairs(c, local);
    }
  }

  /** `parse_container(cont_elem)`. */
  method ParseContainer(c: Elem) returns (name: string, container: Json)
    ensures (name, container) == ContainerOf(c)
    decreases c, 1
  {
    name := ShortName(c);
    var desc := Text(FindEnglishDesc(c));
    var es: Entries := [("type", JStr("CONTAINER"))];
    if desc != "" {
      es := Put(es, "description", JStr(desc));
    }
    var params := ParseParameters(c);
    var subs := ParseChildContainers(c, "SUB-CONTAINERS", []);
    subs := ParseChildContainers(c, "CHOICES", subs);
    PutAllAppend([], ContainerPairs(c, "SUB-CONTAINERS"), ContainerPairs(c, "CHOICES"));
    assert subs == PutAll([], SubPairs(c));
    es := CopyInto(es, params);
    es := CopyInto(es, subs);
    container := JObj(es);
  }

  /**
   * The key order of a merged container: the base keys, then every key the
   * parameters and then the sub-containers introduce, each at its first
   * occurrence (a key already placed keeps its place).
   */
  lemma AssembleKeys(base: Entries, params: Entries, subs: Entries)
    ensures Keys(Assemble(base, params, subs)) == AppendNew(Keys(base), Keys(params) + Keys(subs))
  {
    AppendNewDistinct(Keys(base), Keys(params));
    var k1 := AppendNew(Keys(base), Keys(params));
    AppendNewDistinct(k1, Keys(subs));
    AppendNewAppend(Keys(base), Keys(params), Keys(subs));
  }

  /**
   * The value a key holds in a merged container: a sub-container's (the last
   * one of that name) over a parameter's (the last one of that name) over the
   * base's.
   */
  lemma AssembleGet(base: Entries, params: Entries, subs: Entries, k: string)
    ensures Get(Assemble(base, params, subs), k) ==
      if k in Keys(subs) then LastValue(subs, k)
      else if k in Keys(params) then LastValue(params, k)
      else Get(base, k)
  {
    var p := PutAll([], params);
    var s := PutAll([], subs);
    PutAllEntries([], params);
    PutAllEntries([], subs);
    PutAllGet([], params, k);
    PutAllGet([], subs, k);
    LastValueUnique(p, k);
    LastValueUnique(s, k);
    PutAllGet(base, p, k);
    PutAllGet(PutAll(base, p), s, k);
  }

  lemma AssembleUnique(base: Entries, params: Entries, subs: Entries)
    requires UniqueKeys(base)
    ensures UniqueKeys(Assemble(base, params, subs))
  {
    PutAllEntries(base, PutAll([], params));
    PutAllEntries(PutAll(base, PutAll([], params)), PutAll([], subs));
  }

  /** The head of a container: `type` first, then the description when it is not empty. */
  lemma ContainerHeadShape(desc: string, k: string)
    ensures UniqueKeys(ContainerHead(desc))
    ensures Keys(ContainerHead(desc)) == ["type"] + (if desc == "" then [] else ["description"])
    ensures Get(ContainerHead(desc), k) ==
      if k == "type" then Some(JStr("CONTAINER"))
      else if k == "description" && desc != "" then Some(JStr(desc))
      else None
  {
    var es: Entries := [("type", JStr("CONTAINER"))];
    assert Keys(es) == ["type"];
    FieldEntries(es, "description", desc);
    FieldGet(es, "description", desc, k);
  }

  /**
   * A container's dictionary: `type` first (then `description` when there is
   * one), then the names of its parameters, sub-containers and choices in
   * document order, each at its first occurrence; a name holds the last
   * sub-container or choice of that name, else the last parameter of that
   * name, else the head's field; no key occurs twice.
   */
  lemma ContainerFields(c: Elem, k: string)
    ensures var es := ContainerEntries(c);
      var head := ContainerHead(Text(FindEnglishDesc(c)));
      && UniqueKeys(es)
      && Keys(es) == AppendNew(Keys(head), Keys(ParamPairs(c)) + Keys(SubPairs(c)))
      && Keys(es)[0] == "type"
      && Get(es, k) ==
           if k in Keys(SubPairs(c)) then LastValue(SubPairs(c), k)
           else if k in Keys(ParamPairs(c)) then LastValue(ParamPairs(c), k)
           else Get(head, k)
  {
    HeadAssembleFields(Text(FindEnglishDesc(c)), ParamPairs(c), SubPairs(c), k);
  }

  /** `ContainerFields` for any description, parameters and sub-containers. */
  lemma HeadAssembleFields(desc: string, params: Entries, subs: Entries, k: string)
    ensures var head := ContainerHead(desc);
      var es := Assemble(head, params, subs);
      && UniqueKeys(es)
      && Keys(es) == AppendNew(Keys(head), Keys(params) + Keys(subs))
      && Keys(es)[0] == "type"
      && Get(es, k) ==
           if k in Keys(subs) then LastValue(subs, k)
           else if k in Keys(params) then LastValue(params, k)
           else Get(head, k)
  {
    HeadAssembleKeys(desc, params, subs);
    AssembleGet(ContainerHead(desc), params, subs, k);
  }

  /** The key order of a container's dictionary, which starts with `type`. */
  lemma HeadAssembleKeys(desc: string, params: Entries, subs: Entries)
    ensures var head := ContainerHead(desc);
      var es := Assemble(head, params, subs);
      && UniqueKeys(es)
      && Keys(es) == AppendNew(Keys(head), Keys(params) + Keys(subs))
      && Keys(es)[0] == "type"
  {
    var head := ContainerHead(desc);
    ContainerHeadShape(desc, "type");
    AssembleUnique(head, params, subs);
    AssembleKeys(head, params, subs);
    var ks := AppendNew(Keys(head), Keys(params) + Keys(subs));
    assert ks[..|Keys(head)|] == Keys(head);
    assert ks[0] == ks[..|Keys(head)|][0];
  }

  // -------------------------------------------------------------- module

  /** `{'type': 'MODULE', 'description': module_desc}`: the description is kept even when empty. */
  function ModuleHead(desc: string): Entries
  {
    [("type", JStr("MODULE")), ("description", JStr(desc))]
  }

  /** The module's dictionary: its head, then every container under `CONTAINERS`, assigned in order. */
  function ModuleEntries(m: Elem): Entries
  {
    PutAll(ModuleHead(Text(FindEnglishDesc(m))), ContainerPairs(m, "CONTAINERS"))
  }

  /** Why a document yields no dictionary. */
  datatype ConvertError =
    | ParseFailed  // the file could not be read or is not well-formed XML
    | NoModuleDef  // the document has no `ECUC-MODULE-DEF` element

  /** What `find_module(root)` returns, or the error it raises when no module definition is found. */
  function FindModuleOf(root: Elem): (r: Result<(string, Entries), ConvertError>)
    ensures r.Err? ==> r == Err(NoModuleDef)
    ensures r.Ok? ==> exists m :: m in Descendants(root) && m.tag == Qualified("ECUC-MODULE-DEF") && r.value.0 == ShortName(m)
  {
    FindDescendantFound(root, "ECUC-MODULE-DEF");
    match FindDescendant(root, "ECUC-MODULE-DEF")
    case None => Err(NoModuleDef)
    case Some(m) => Ok((ShortName(m), ModuleEntries(m)))
  }

  /** `find_module(root)`. */
  method FindModule(root: Elem) returns (r: Result<(string, Entries), ConvertError>)
    ensures r == FindModuleOf(root)
  {
    var found := FindDescendant(root, "ECUC-MODULE-DEF");
    if found.None? {
      return Err(NoModuleDef);
    }
    var m := found.value;
    var name := ShortName(m);
    var desc := Text(FindEnglishDesc(m));
    var es: Entries := [("type", JStr("MODULE")), ("description", JStr(desc))];
    es := ParseChildContainers(m, "CONTAINERS", es);
    r := Ok((name, es));
  }

  /**
   * `convert_paramdef_to_json(arxml_path)` on the outcome of parsing the
   * file: `{module_name: module}`, or the reason there is none.
   */
  function Convert(parsed: Option<Elem>): (r: Result<Json, ConvertError>)
    ensures parsed.None? ==> r == Err(ParseFailed)
    ensures parsed.Some? ==> (r.Err? <==> FindModuleOf(parsed.value).Err?)
    ensures r.Ok? ==> r.value.JObj? && |r.value.entries| == 1
  {
    match parsed
    case None => Err(ParseFailed)
    case Some(root) =>
      match FindModuleOf(root)
      case Err(e) => Err(e)
      case Ok(found) => Ok(JObj([(found.0, JObj(found.1))]))
  }

  /** `convert_paramdef_to_json(arxml_path)`, with `ET.parse` replaced by its outcome. */
  method ConvertParamdefToJson(parsed: Option<Elem>) returns (r: Result<Json, ConvertError>)
    ensures r == Convert(parsed)
  {
    if parsed.None? {
      return Err(ParseFailed);
    }
    var found := FindModule(parsed.value);
    match found
    case Err(e) => r := Err(e);
    case Ok((name, es)) => r := Ok(JObj([(name, JObj(es))]));
  }

  /**
   * A module's dictionary: `type`, `description`, then its containers'
   * names in document order, each at its first occurrence; a name holds the
   * last container of that name; no key occurs twice.
   */
  lemma ModuleFields(m: Elem, k: string)
    ensures var es := ModuleEntries(m);
      var cs := ContainerPairs(m, "CONTAINERS");
      && UniqueKeys(es)
      && Keys(es) == AppendNew(["type", "description"], Keys(cs))
      && Get(es, k) ==
           if k in Keys(cs) then LastValue(cs, k)
           else if k == "type" then Some(JStr("MODULE"))
           else if k == "description" then Some(JStr(Text(FindEnglishDesc(m))))
           else None
  {
    ModuleHeadFields(Text(FindEnglishDesc(m)), ContainerPairs(m, "CONTAINERS"), k);
  }

  lemma ModuleHeadFields(desc: string, cs: Entries, k: string)
    ensures var es := PutAll(ModuleHead(desc), cs);
      && UniqueKeys(es)
      && Keys(es) == AppendNew(["type", "description"], Keys(cs))
      && Get(es, k) ==
           if k in Keys(cs) then LastValue(cs, k)
           else if k == "type" then Some(JStr("MODULE"))
           else if k == "description" then Some(JStr(desc))
           else None
  {
    var head := ModuleHead(desc);
    ModuleHeadGet(desc, k);
    PutAllEntries(head, cs);
    PutAllGet(head, cs, k);
  }

  lemma ModuleHeadGet(desc: string, k: string)
    ensures UniqueKeys(ModuleHead(desc))
    ensures Keys(ModuleHead(desc)) == ["type", "description"]
    ensures Get(ModuleHead(desc), k) ==
      if k == "type" then Some(JStr("MODULE")) else if k == "description" then Some(JStr(desc)) else None
  {
    var head := ModuleHead(desc);
    assert Keys(head) == ["type", "description"];
    if k == "description" {
      assert KeyIndex(head, k) == 1;
    }
  }

  /**
   * The outcome of converting a document: `ParseFailed` when it could not be
   * parsed, `NoModuleDef` when it has no module definition, and otherwise a
   * dictionary whose one key is the short-name of the first module
   * definition in document order, holding that module's dictionary.
   */
  lemma ConvertOutcome(parsed: Option<Elem>)
    ensures parsed.None? ==> Convert(parsed) == Err(ParseFailed)
    ensures parsed.Some? && FindDescendant(parsed.value, "ECUC-MODULE-DEF").None? ==>
              Convert(parsed) == Err(NoModuleDef)
    ensures parsed.Some? && FindDescendant(parsed.value, "ECUC-MODULE-DEF").Some? ==>
              var m := FindDescendant(parsed.value, "ECUC-MODULE-DEF").value;
              Convert(parsed) == Ok(JObj([(ShortName(m), JObj(ModuleEntries(m)))]))
  {
  }

  // ------------------------------------------ lists hold only literal names

  lemma ParamEntriesNoObjectsInLists(t: ParamTexts)
    ensures ListsHoldNoObjects(JObj(ParamEntries(t)))
  {
    var es: Entries := [("type", JStr("PARAMETER")), ("param_type", JStr(t.kind))];
    PutNoObjectsInLists(es, "multiplicity", JStr(t.mult));
    var h := ParamHeader(t);
    var es2 := Field(h, "maxValue", t.maxv);
    var es3 := Field(es2, "minValue", t.minv);
    var es4 := Field(es3, "defaultValue", t.default);
    PutNoObjectsInLists(h, "maxValue", JStr(t.maxv));
    PutNoObjectsInLists(es2, "minValue", JStr(t.minv));
    PutNoObjectsInLists(es3, "defaultValue", JStr(t.default));
    PutNoObjectsInLists(es4, "description", JStr(t.desc));
    PutNoObjectsInLists(ParamValues(t), "literals", JList(Strs(t.lits)));
  }

  /** The only lists a container holds, at any depth, are lists of literal names. */
  lemma {:induction false} ContainerNoObjectsInLists(c: Elem)
    ensures ListsHoldNoObjects(ContainerOf(c).1)
    decreases c
  {
    var head := ContainerHead(Text(FindEnglishDesc(c)));
    var params := ParamPairs(c);
    var subs := SubPairs(c);
    PutNoObjectsInLists([("type", JStr("CONTAINER"))], "description", JStr(Text(FindEnglishDesc(c))));
    forall i | 0 <= i < |params| ensures ListsHoldNoObjects(params[i].1) {
      ParamPairsAt(c, i);
      ParamEntriesNoObjectsInLists(ReadParameter(ChildrenOf(c, "PARAMETERS")[i]));
    }
    ChildContainersNoObjectsInLists(c, "SUB-CONTAINERS");
    ChildContainersNoObjectsInLists(c, "CHOICES");
    forall i | 0 <= i < |subs| ensures ListsHoldNoObjects(subs[i].1) {
      assert subs[i] in ContainerPairs(c, "SUB-CONTAINERS") || subs[i] in ContainerPairs(c, "CHOICES");
    }
    AssembleNoObjectsInLists(head, params, subs);
  }

  lemma AssembleNoObjectsInLists(base: Entries, params: Entries, subs: Entries)
    requires ListsHoldNoObjects(JObj(base)) && ListsHoldNoObjects(JObj(params)) && ListsHoldNoObjects(JObj(subs))
    ensures ListsHoldNoObjects(JObj(Assemble(base, params, subs)))
  {
    PutAllNoObjectsInLists([], params);
    PutAllNoObjectsInLists([], subs);
    PutAllNoObjectsInLists(base, PutAll([], params));
    PutAllNoObjectsInLists(PutAll(base, PutAll([], params)), PutAll([], subs));
  }

  lemma {:induction false} ChildContainersNoObjectsInLists(c: Elem, local: string)
    ensures forall e :: e in ContainerPairs(c, local) ==> ListsHoldNoObjects(e.1)
    decreases c, 0
  {
    var xs := ChildrenOf(c, local);
    forall e | e in ContainerPairs(c, local) ensures ListsHoldNoObjects(e.1) {
      var i :| 0 <= i < |xs| && ContainerPairs(c, local)[i] == e;
      ContainerNoObjectsInLists(xs[i]);
    }
  }

  lemma ModuleNoObjectsInLists(m: Elem)
    ensures ListsHoldNoObjects(JObj(ModuleEntries(m)))
  {
    ChildContainersNoObjectsInLists(m, "CONTAINERS");
    PutAllNoObjectsInLists(ModuleHead(Text(FindEnglishDesc(m))), ContainerPairs(m, "CONTAINERS"));
  }

  /** The only lists in a converted document, at any depth, are lists of literal names. */
  lemma ConvertNoObjectsInLists(parsed: Option<Elem>)
    requires Convert(parsed).Ok?
    ensures ListsHoldNoObjects(Convert(parsed).value)
  {
    ConvertOutcome(parsed);
    var m := FindDescendant(parsed.value, "ECUC-MODULE-DEF").value;
    ModuleNoObjectsInLists(m);
  }
}
