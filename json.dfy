/**
 * JSON-like values as the tool builds them in Python: dictionaries are
 * ordered association lists, and `d[k] = v` is `Put`, which keeps an existing
 * key where it is and replaces its value, or appends a new key at the end.
 */
module Json {
  import opened Wrappers

  datatype Json =
    | JNull
    | JBool(b: bool)
    | JInt(n: int)
    | JStr(s: string)
    | JList(items: seq<Json>)
    | JObj(entries: seq<(string, Json)>)

  type Entries = seq<(string, Json)>

  /** The keys of a dictionary in iteration order. */
  function Keys(es: Entries): (ks: seq<string>)
    ensures |ks| == |es|
    ensures forall i :: 0 <= i < |es| ==> ks[i] == es[i].0
  {
    seq(|es|, i requires 0 <= i < |es| => es[i].0)
  }

  /** No key occurs twice, as in every Python dictionary. */
  predicate UniqueKeys(es: Entries)
  {
    forall i, j :: 0 <= i < j < |es| ==> es[i].0 != es[j].0
  }

  /** The position of the first entry with key `k`. */
  function KeyIndex(es: Entries, k: string): (r: nat)
    requires k in Keys(es)
    ensures r < |es| && es[r].0 == k
    ensures forall j :: 0 <= j < r ==> es[j].0 != k
  {
    if es[0].0 == k then 0
    else
      assert k in Keys(es[1..]) by {
        var i :| 0 <= i < |es| && Keys(es)[i] == k;
        assert Keys(es[1..])[i - 1] == k;
      }
      1 + KeyIndex(es[1..], k)
  }

  /** `d.get(k)`. */
  function Get(es: Entries, k: string): (r: Option<Json>)
    ensures r.None? <==> k !in Keys(es)
    ensures r.Some? ==> (k, r.value) in es
  {
    if k in Keys(es) then Some(es[KeyIndex(es, k)].1) else None
  }

  /** In a dictionary with unique keys an entry is found by its key. */
  lemma GetEntry(es: Entries, k: string, v: Json)
    requires UniqueKeys(es) && (k, v) in es
    ensures Get(es, k) == Some(v)
  {
    var i :| 0 <= i < |es| && es[i] == (k, v);
    assert Keys(es)[i] == k;
  }

  /** `d[k] = v`: an existing key keeps its position and gets the new value; a new key goes last. */
  function Put(es: Entries, k: string, v: Json): (r: Entries)
    ensures k !in Keys(es) ==> r == es + [(k, v)]
    ensures k in Keys(es) ==> Keys(r) == Keys(es)
  {
    if k in Keys(es) then es[KeyIndex(es, k) := (k, v)] else es + [(k, v)]
  }

  lemma PutGet(es: Entries, k: string, v: Json, k': string)
    ensures Get(Put(es, k, v), k') == if k' == k then Some(v) else Get(es, k')
  {
    var r := Put(es, k, v);
    assert Keys(r) == if k in Keys(es) then Keys(es) else Keys(es) + [k];
    if k' in Keys(r) {
      var i := KeyIndex(r, k');
      if k' == k {
        assert i == if k in Keys(es) then KeyIndex(es, k) else |es|;
      } else {
        assert k' in Keys(es);
        var j := KeyIndex(es, k');
        assert r[j] == es[j];
        assert forall m :: 0 <= m < j ==> r[m].0 == es[m].0;
        assert i == j;
      }
    }
  }

  lemma PutEntries(es: Entries, k: string, v: Json)
    ensures forall e :: e in Put(es, k, v) ==> e == (k, v) || e in es
    ensures UniqueKeys(es) ==> UniqueKeys(Put(es, k, v))
  {
    var r := Put(es, k, v);
    forall e | e in r ensures e == (k, v) || e in es {
      var i :| 0 <= i < |r| && r[i] == e;
      if i < |es| && r[i] != (k, v) {
        assert r[i] == es[i];
      }
    }
    if UniqueKeys(es) {
      assert Keys(r) == if k in Keys(es) then Keys(es) else Keys(es) + [k];
      forall i, j | 0 <= i < j < |r| ensures r[i].0 != r[j].0 {
        assert Keys(r)[i] == r[i].0 && Keys(r)[j] == r[j].0;
        if j < |es| {
          assert Keys(es)[i] == es[i].0 && Keys(es)[j] == es[j].0;
        }
      }
    }
  }

  /** `d[k] = v` leaves every entry with another key where it was. */
  lemma PutKeepsPrefix(es: Entries, k: string, v: Json)
    ensures |Put(es, k, v)| >= |es|
    ensures forall i :: 0 <= i < |es| && es[i].0 != k ==> Put(es, k, v)[i] == es[i]
  {
  }

  /** The value of the last entry with key `k` in a list of assignments. */
  function LastValue(kvs: Entries, k: string): (r: Option<Json>)
    ensures r.None? <==> k !in Keys(kvs)
    ensures r.Some? ==> (k, r.value) in kvs
  {
    if kvs == [] then None
    else
      var n := |kvs| - 1;
      assert Keys(kvs) == Keys(kvs[..n]) + [kvs[n].0];
      if kvs[n].0 == k then Some(kvs[n].1) else LastValue(kvs[..n], k)
  }

  /** The last assignment to `k` is the one whose value `k` keeps: no later assignment has that key. */
  lemma {:induction false} LastValueAt(kvs: Entries, k: string) returns (i: nat)
    requires k in Keys(kvs)
    ensures i < |kvs| && kvs[i].0 == k && LastValue(kvs, k) == Some(kvs[i].1)
    ensures forall j :: i < j < |kvs| ==> kvs[j].0 != k
    decreases |kvs|
  {
    var n := |kvs| - 1;
    assert Keys(kvs) == Keys(kvs[..n]) + [kvs[n].0];
    if kvs[n].0 == k {
      i := n;
    } else {
      i := LastValueAt(kvs[..n], k);
    }
  }

  /**
   * The dictionary a run of assignments builds from scratch holds exactly the
   * assigned keys, each with the value of its last assignment.
   */
  lemma AssignedByName(kvs: Entries, k: string)
    ensures var d := PutAll([], kvs);
      && (k in Keys(d) <==> exists i :: 0 <= i < |kvs| && kvs[i].0 == k)
      && (k in Keys(d) ==>
            exists i :: 0 <= i < |kvs| && kvs[i].0 == k && Get(d, k) == Some(kvs[i].1) &&
                        forall j :: i < j < |kvs| ==> kvs[j].0 != k)
  {
    PutAllGet([], kvs, k);
    if k in Keys(kvs) {
      var i := LastValueAt(kvs, k);
    }
  }

  /**
   * `ks0` followed by the elements of `ks` that are not already there, each at
   * its first occurrence: the key order after assigning the keys `ks` in turn
   * to a dictionary whose keys are `ks0`.
   */
  function AppendNew(ks0: seq<string>, ks: seq<string>): (r: seq<string>)
    ensures |ks0| <= |r| && r[..|ks0|] == ks0
    ensures forall x :: x in r <==> x in ks0 || x in ks
    ensures forall i :: |ks0| <= i < |r| ==> r[i] in ks && r[i] !in ks0
    ensures (forall i, j :: 0 <= i < j < |ks0| ==> ks0[i] != ks0[j]) ==>
              forall i, j :: 0 <= i < j < |r| ==> r[i] != r[j]
  {
    if ks == [] then ks0
    else
      var n := |ks| - 1;
      var a := AppendNew(ks0, ks[..n]);
      assert ks == ks[..n] + [ks[n]];
      if ks[n] in a then a else a + [ks[n]]
  }

  /** The assignments `d[k] = v` for every `(k, v)` of `kvs`, in order. */
  function PutAll(es: Entries, kvs: Entries): (r: Entries)
    ensures Keys(r) == AppendNew(Keys(es), Keys(kvs))
    decreases |kvs|
  {
    if kvs == [] then es
    else
      var n := |kvs| - 1;
      var m := PutAll(es, kvs[..n]);
      assert Keys(kvs) == Keys(kvs[..n]) + [kvs[n].0];
      var r := Put(m, kvs[n].0, kvs[n].1);
      assert kvs[n].0 !in Keys(m) ==> Keys(r) == Keys(m) + [kvs[n].0];
      r
  }

  /** One more assignment of a loop over `kvs`. */
  lemma PutAllStep(es: Entries, kvs: Entries, i: nat)
    requires i < |kvs|
    ensures PutAll(es, kvs[..i + 1]) == Put(PutAll(es, kvs[..i]), kvs[i].0, kvs[i].1)
  {
    assert kvs[..i + 1][..i] == kvs[..i];
  }

  /** After the assignments a key holds its last assigned value, or its old one if never assigned. */
  lemma {:induction false} PutAllGet(es: Entries, kvs: Entries, k: string)
    ensures Get(PutAll(es, kvs), k) == if k in Keys(kvs) then LastValue(kvs, k) else Get(es, k)
    decreases |kvs|
  {
    if kvs != [] {
      var n := |kvs| - 1;
      assert Keys(kvs) == Keys(kvs[..n]) + [kvs[n].0];
      PutAllGet(es, kvs[..n], k);
      PutGet(PutAll(es, kvs[..n]), kvs[n].0, kvs[n].1, k);
    }
  }

  /** Every entry after the assignments is an old entry or one of the assignments. */
  lemma {:induction false} PutAllEntries(es: Entries, kvs: Entries)
    ensures forall e :: e in PutAll(es, kvs) ==> e in es || e in kvs
    ensures UniqueKeys(es) ==> UniqueKeys(PutAll(es, kvs))
    decreases |kvs|
  {
    if kvs != [] {
      var n := |kvs| - 1;
      PutAllEntries(es, kvs[..n]);
      PutEntries(PutAll(es, kvs[..n]), kvs[n].0, kvs[n].1);
      assert forall e :: e in kvs[..n] ==> e in kvs;
    }
  }

  /** Assigning `a` and then `b` is assigning `a + b`. */
  lemma {:induction false} PutAllAppend(es: Entries, a: Entries, b: Entries)
    ensures PutAll(es, a + b) == PutAll(PutAll(es, a), b)
    decreases |b|
  {
    if b == [] {
      assert a + b == a;
    } else {
      var n := |b| - 1;
      assert (a + b)[..|a + b| - 1] == a + b[..n];
      PutAllAppend(es, a, b[..n]);
    }
  }

  /** A dictionary with unique keys is rebuilt by assigning its own entries to `{}`. */
  lemma {:induction false} PutAllOwnEntries(es: Entries)
    requires UniqueKeys(es)
    ensures PutAll([], es) == es
    decreases |es|
  {
    if es != [] {
      var n := |es| - 1;
      assert UniqueKeys(es[..n]);
      PutAllOwnEntries(es[..n]);
      assert es[n].0 !in Keys(es[..n]);
      assert es[..n] + [es[n]] == es;
    }
  }

  /** Appending the keys `a` and then `b` is appending `a + b`. */
  lemma {:induction false} AppendNewAppend(ks0: seq<string>, a: seq<string>, b: seq<string>)
    ensures AppendNew(ks0, a + b) == AppendNew(AppendNew(ks0, a), b)
    decreases |b|
  {
    if b == [] {
      assert a + b == a;
    } else {
      var n := |b| - 1;
      assert (a + b)[..|a + b| - 1] == a + b[..n];
      assert (a + b)[|a + b| - 1] == b[n];
      AppendNewAppend(ks0, a, b[..n]);
    }
  }

  /** Appending the distinct keys of `a` is appending `a`: repeats add nothing. */
  lemma {:induction false} AppendNewDistinct(ks0: seq<string>, a: seq<string>)
    ensures AppendNew(ks0, AppendNew([], a)) == AppendNew(ks0, a)
    decreases |a|
  {
    if a != [] {
      var n := |a| - 1;
      var x := a[n];
      var d := AppendNew([], a[..n]);
      var e := AppendNew(ks0, a[..n]);
      assert a[..n] + [x] == a;
      assert AppendNew(ks0, a) == if x in e then e else e + [x];
      AppendNewDistinct(ks0, a[..n]);
      assert AppendNew(ks0, d) == e;
      if x in d {
        assert AppendNew([], a) == d;
      } else {
        assert AppendNew([], a) == d + [x];
        assert (d + [x])[..|d|] == d;
        assert AppendNew(ks0, d + [x]) == if x in e then e else e + [x];
      }
    }
  }

  /** In a list of assignments with distinct keys the last value of a key is its only one. */
  lemma {:induction false} LastValueUnique(kvs: Entries, k: string)
    requires UniqueKeys(kvs)
    ensures LastValue(kvs, k) == Get(kvs, k)
    decreases |kvs|
  {
    if kvs != [] {
      var n := |kvs| - 1;
      assert UniqueKeys(kvs[..n]);
      LastValueUnique(kvs[..n], k);
      if kvs[n].0 == k {
        GetEntry(kvs, k, kvs[n].1);
      } else if k in Keys(kvs) {
        var v := Get(kvs, k).value;
        var i :| 0 <= i < |kvs| && kvs[i] == (k, v);
        assert kvs[..n][i] == (k, v);
        GetEntry(kvs[..n], k, v);
        GetEntry(kvs, k, v);
      }
    }
  }

  /** `Keys` distributes over concatenation. */
  lemma KeysAppend(a: Entries, b: Entries)
    ensures Keys(a + b) == Keys(a) + Keys(b)
  {
  }

  /** No dictionary occurs anywhere inside `j`. */
  predicate HoldsNoObject(j: Json)
  {
    match j
    case JObj(_) => false
    case JList(xs) => forall i :: 0 <= i < |xs| ==> HoldsNoObject(xs[i])
    case _ => true
  }

  /** No list of `j`, at any depth, holds a dictionary. */
  predicate ListsHoldNoObjects(j: Json)
  {
    match j
    case JObj(es) => forall i :: 0 <= i < |es| ==> ListsHoldNoObjects(es[i].1)
    case JList(xs) => forall i :: 0 <= i < |xs| ==> HoldsNoObject(xs[i])
    case _ => true
  }

  /** Setting a value with no dictionary in its lists keeps a dictionary that way. */
  lemma PutNoObjectsInLists(es: Entries, k: string, v: Json)
    requires ListsHoldNoObjects(JObj(es)) && ListsHoldNoObjects(v)
    ensures ListsHoldNoObjects(JObj(Put(es, k, v)))
  {
    var r := Put(es, k, v);
    PutEntries(es, k, v);
    forall i | 0 <= i < |r| ensures ListsHoldNoObjects(r[i].1) {
      assert r[i] in r;
      if r[i] != (k, v) {
        var j :| 0 <= j < |es| && es[j] == r[i];
      }
    }
  }

  /** Assigning pairs with no dictionary in their lists keeps a dictionary that way. */
  lemma PutAllNoObjectsInLists(es: Entries, kvs: Entries)
    requires ListsHoldNoObjects(JObj(es)) && ListsHoldNoObjects(JObj(kvs))
    ensures ListsHoldNoObjects(JObj(PutAll(es, kvs)))
  {
    var r := PutAll(es, kvs);
    PutAllEntries(es, kvs);
    forall i | 0 <= i < |r| ensures ListsHoldNoObjects(r[i].1) {
      assert r[i] in r;
      if r[i] in es {
        var j :| 0 <= j < |es| && es[j] == r[i];
      } else {
        var j :| 0 <= j < |kvs| && kvs[j] == r[i];
      }
    }
  }

  /** A list of strings, as `json` renders a Python list of `str`. */
  function Strs(xs: seq<string>): (r: seq<Json>)
    ensures |r| == |xs| && forall i :: 0 <= i < |xs| ==> r[i] == JStr(xs[i])
  {
    seq(|xs|, i requires 0 <= i < |xs| => JStr(xs[i]))
  }
}
