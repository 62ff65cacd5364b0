/**
 * An already-parsed ElementTree document and the three ElementPath searches
 * the converter uses: `find('ar:X')`, `findall('ar:X')`,
 * `find('ar:DESC/ar:L-2[@L="EN"]')` and `find('.//ar:X')`.
 */
module Xml {
  import opened Wrappers
  import opened Strings

  /** The namespace that the `ar:` prefix stands for (AUTOSAR schema release 4.0). */
  const Namespace := "http://autosar.org/schema/r4.0"

  /** ElementTree's spelling of a tag in that namespace: `{namespace}LOCAL`. */
  function Qualified(local: string): string
  {
    "{" + Namespace + "}" + local
  }

  /** An element: its tag, its text before the first child (`None` when absent), attributes and children. */
  datatype Elem = Elem(tag: string, text: Option<string>, attrib: seq<(string, string)>, children: seq<Elem>)

  /** The first element of `es` with tag `tag`. */
  function FirstWithTag(es: seq<Elem>, tag: string): (r: Option<Elem>)
    ensures r.None? <==> forall i :: 0 <= i < |es| ==> es[i].tag != tag
    ensures r.Some? ==> exists i :: 0 <= i < |es| && es[i] == r.value && r.value.tag == tag &&
                                    forall j :: 0 <= j < i ==> es[j].tag != tag
  {
    if es == [] then None
    else if es[0].tag == tag then Some(es[0])
    else
      var r := FirstWithTag(es[1..], tag);
      assert r.Some? ==> exists i :: 0 <= i < |es| - 1 && es[1..][i] == r.value && forall j :: 0 <= j < i ==> es[1..][j].tag != tag;
      assert r.Some? ==> exists i :: 1 <= i < |es| && es[i] == r.value && forall j :: 0 <= j < i ==> es[j].tag != tag by {
        if r.Some? {
          var i :| 0 <= i < |es| - 1 && es[1..][i] == r.value && forall j :: 0 <= j < i ==> es[1..][j].tag != tag;
          assert forall j :: 1 <= j < i + 1 ==> es[j].tag == es[1..][j - 1].tag;
        }
      }
      r
  }

  /** `e.find('ar:' + local)`: the first child with that tag. */
  function Find(e: Elem, local: string): (r: Option<Elem>)
    ensures r.None? <==> forall c :: c in e.children ==> c.tag != Qualified(local)
    ensures r.Some? ==> r.value in e.children && r.value.tag == Qualified(local)
  {
    FirstWithTag(e.children, Qualified(local))
  }

  /** The elements of `es` with tag `tag`, in order. */
  function AllWithTag(es: seq<Elem>, tag: string): (r: seq<Elem>)
    ensures forall c :: c in r <==> c in es && c.tag == tag
  {
    if es == [] then []
    else if es[0].tag == tag then [es[0]] + AllWithTag(es[1..], tag)
    else AllWithTag(es[1..], tag)
  }

  /** `e.findall('ar:' + local)`: every child with that tag, in document order. */
  function FindAll(e: Elem, local: string): seq<Elem>
  {
    AllWithTag(e.children, Qualified(local))
  }

  /** `e.get(name)`. */
  function Attr(e: Elem, name: string): Option<string>
  {
    AttrIn(e.attrib, name)
  }

  function AttrIn(attrs: seq<(string, string)>, name: string): (r: Option<string>)
    ensures r.Some? ==> (name, r.value) in attrs
  {
    if attrs == [] then None
    else if attrs[0].0 == name then Some(attrs[0].1)
    else AttrIn(attrs[1..], name)
  }

  /** An `ar:L-2` element whose `L` attribute is `EN`. */
  predicate IsEnglish(g: Elem)
  {
    g.tag == Qualified("L-2") && Attr(g, "L") == Some("EN")
  }

  /** The English `ar:L-2` children of `d`, in order. */
  function EnglishOf(d: Elem): (r: seq<Elem>)
    ensures forall g :: g in r <==> g in d.children && IsEnglish(g)
  {
    EnglishAmong(FindAll(d, "L-2"))
  }

  function EnglishAmong(gs: seq<Elem>): (r: seq<Elem>)
    ensures forall g :: g in r <==> g in gs && IsEnglish(g)
  {
    if gs == [] then []
    else if IsEnglish(gs[0]) then [gs[0]] + EnglishAmong(gs[1..])
    else EnglishAmong(gs[1..])
  }

  /** The English `ar:L-2` grandchildren under the given `ar:DESC` children, in document order. */
  function EnglishUnder(ds: seq<Elem>): (r: seq<Elem>)
    ensures forall g :: g in r <==> exists d :: d in ds && g in d.children && IsEnglish(g)
  {
    if ds == [] then []
    else
      var r := EnglishOf(ds[0]) + EnglishUnder(ds[1..]);
      assert forall d :: d in ds <==> d == ds[0] || d in ds[1..];
      r
  }

  /**
   * `e.find('ar:DESC/ar:L-2[@L="EN"]')`: the first `ar:L-2` child with
   * `L="EN"` of any `ar:DESC` child of `e`, searched in document order.
   */
  function FindEnglishDesc(e: Elem): Option<Elem>
  {
    var candidates := EnglishUnder(FindAll(e, "DESC"));
    if candidates == [] then None else Some(candidates[0])
  }

  /** The English description found is one; none is found only when there is none. */
  lemma FindEnglishDescFound(e: Elem)
    ensures var r := FindEnglishDesc(e);
      && (r.Some? ==> IsEnglish(r.value) && exists d :: d in e.children && d.tag == Qualified("DESC") && r.value in d.children)
      && (r.None? <==> forall d, g :: d in e.children && d.tag == Qualified("DESC") && g in d.children ==> !IsEnglish(g))
  {
    var candidates := EnglishUnder(FindAll(e, "DESC"));
    if candidates != [] {
      assert candidates[0] in candidates;
    }
  }

  /** The descendants of `e` from its child `i` on, in document order (preorder). */
  function DescendantsFrom(e: Elem, i: nat): seq<Elem>
    decreases e, |e.children| - i
  {
    if i >= |e.children| then []
    else [e.children[i]] + DescendantsFrom(e.children[i], 0) + DescendantsFrom(e, i + 1)
  }

  /** Every proper descendant of `e` in document order: `e.iter()` without `e` itself. */
  function Descendants(e: Elem): seq<Elem>
  {
    DescendantsFrom(e, 0)
  }

  /** Children and their descendants are descendants. */
  lemma {:induction false} DescendantsFromContains(e: Elem, i: nat, j: nat)
    requires i <= j < |e.children|
    ensures e.children[j] in DescendantsFrom(e, i)
    ensures forall d :: d in Descendants(e.children[j]) ==> d in DescendantsFrom(e, i)
    decreases |e.children| - i
  {
    if i < j {
      DescendantsFromContains(e, i + 1, j);
    }
  }

  /** `e.find('.//ar:' + local)`: the first proper descendant with that tag in document order. */
  function FindDescendant(e: Elem, local: string): Option<Elem>
  {
    FirstWithTag(Descendants(e), Qualified(local))
  }

  /** The descendant found has the tag; none is found only when no descendant has it. */
  lemma FindDescendantFound(e: Elem, local: string)
    ensures var r := FindDescendant(e, local);
      && (r.None? <==> forall d :: d in Descendants(e) ==> d.tag != Qualified(local))
      && (r.Some? ==> r.value in Descendants(e) && r.value.tag == Qualified(local))
  {
  }

  /** `tag.split('}')[-1]`: the local part of a tag. */
  function LocalName(tag: string): (r: string)
    ensures '}' !in r
  {
    LastSegmentIsSuffix(tag, '}');
    LastSegment(tag, '}')
  }

  /** The local name of a qualified tag is the name it was built from. */
  lemma LocalNameOfQualified(local: string)
    requires '}' !in local
    ensures LocalName(Qualified(local)) == local
  {
    var q := Qualified(local);
    assert q == ("{" + Namespace) + ['}'] + local;
    var pieces := ["{" + Namespace, local];
    assert '}' !in "{" + Namespace;
    assert Join(pieces, '}') == q;
    SplitJoin(pieces, '}');
  }
}
