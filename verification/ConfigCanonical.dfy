/**
 The canonical form of an agent's configuration: object keys sorted at every level,
 so that the checksum does not depend on the order in which keys were written.
 */
module ConfigCanonical {

  import opened Bytes

  /** A JSON value with its keys in the order they were written. */
  datatype Json =
    | Null | Bool(b: bool) | Num(literal: Text) | Str(s: Text) | Arr(items: seq<Json>) | Obj(fields: seq<Field>)

  datatype Field = Field(name: Text, value: Json)

  // ---------- the canonical form ----------

  /** Insertion into a sorted map; an equal name is replaced. */
  function Insert(fs: seq<Field>, f: Field): (r: seq<Field>)
  {
    if fs == [] then [f]
    else if fs[0].name == f.name then [f] + fs[1..]
    else if TextLess(f.name, fs[0].name) then [f] + fs
    else [fs[0]] + Insert(fs[1..], f)
  }

  function Sorted(fs: seq<Field>): seq<Field>
  {
    if fs == [] then [] else Insert(Sorted(fs[..|fs| - 1]), fs[|fs| - 1])
  }

  function Canonical(v: Json): Json
  {
    match v
    case Arr(items) => Arr(seq(|items|, i requires 0 <= i < |items| => Canonical(items[i])))
    case Obj(fs) => Obj(Sorted(seq(|fs|, i requires 0 <= i < |fs| => Field(fs[i].name, Canonical(fs[i].value)))))
    case _ => v
  }

  // ---------- what a value means ----------

  /** The value with objects as unordered maps. */
  datatype Meaning =
    | MNull | MBool(b: bool) | MNum(literal: Text) | MStr(s: Text) | MArr(items: seq<Meaning>)
    | MObj(fields: map<Text, Meaning>)

  predicate Distinct(fs: seq<Field>)
  {
    forall i, j :: 0 <= i < j < |fs| ==> fs[i].name != fs[j].name
  }

  /** No key twice in an object, as the JSON parser guarantees. */
  predicate WellFormed(v: Json)
  {
    match v
    case Arr(items) => forall i :: 0 <= i < |items| ==> WellFormed(items[i])
    case Obj(fs) => Distinct(fs) && forall i :: 0 <= i < |fs| ==> WellFormed(fs[i].value)
    case _ => true
  }

  function Position(fs: seq<Field>, name: Text): (k: nat)
    ensures k <= |fs| && (k < |fs| ==> fs[k].name == name)
    ensures forall i :: 0 <= i < k ==> fs[i].name != name
  {
    if fs == [] || fs[0].name == name then 0 else 1 + Position(fs[1..], name)
  }

  ghost function Names(fs: seq<Field>): set<Text>
  {
    set i | 0 <= i < |fs| :: fs[i].name
  }

  ghost function Meant(v: Json): Meaning
  {
    match v
    case Null => MNull
    case Bool(b) => MBool(b)
    case Num(t) => MNum(t)
    case Str(s) => MStr(s)
    case Arr(items) => MArr(seq(|items|, i requires 0 <= i < |items| => Meant(items[i])))
    case Obj(fs) => MObj(map name | name in Names(fs) :: Meant(fs[Position(fs, name)].value))
  }

  // ---------- sorting ----------

  predicate StrictlySorted(fs: seq<Field>)
  {
    forall i, j :: 0 <= i < j < |fs| ==> TextLess(fs[i].name, fs[j].name)
  }

  lemma SortedIsDistinct(fs: seq<Field>)
    requires StrictlySorted(fs)
    ensures Distinct(fs)
  {
    forall i, j | 0 <= i < j < |fs|
      ensures fs[i].name != fs[j].name
    {
      TextOrder(fs[i].name, fs[i].name, fs[i].name);
    }
  }

  lemma {:induction false} InsertSpec(fs: seq<Field>, f: Field)
    requires StrictlySorted(fs) && f.name !in Names(fs)
    ensures StrictlySorted(Insert(fs, f))
    ensures forall g :: g in Insert(fs, f) <==> g in fs || g == f
  {
    if fs != [] {
      assert fs == [fs[0]] + fs[1..] && fs[0].name in Names(fs);
      assert forall i :: 0 <= i < |fs[1..]| ==> fs[1..][i] == fs[i + 1];
      if TextLess(f.name, fs[0].name) {
        PrependSorted(f, fs);
      } else {
        forall i | 0 <= i < |fs[1..]|
          ensures fs[1..][i].name != f.name
        {
          assert fs[i + 1].name in Names(fs);
        }
        InsertSpec(fs[1..], f);
        TextOrder(f.name, fs[0].name, f.name);
        PrependSmaller(fs[0], Insert(fs[1..], f));
      }
    }
  }

  lemma PrependSorted(f: Field, fs: seq<Field>)
    requires StrictlySorted(fs) && fs != [] && TextLess(f.name, fs[0].name)
    ensures StrictlySorted([f] + fs)
  {
    forall j | 0 < j < |fs|
      ensures TextLess(f.name, fs[j].name)
    {
      TextOrder(f.name, fs[0].name, fs[j].name);
    }
  }

  lemma PrependSmaller(f: Field, fs: seq<Field>)
    requires StrictlySorted(fs) && forall g :: g in fs ==> TextLess(f.name, g.name)
    ensures StrictlySorted([f] + fs)
  {
    assert forall i :: 0 <= i < |fs| ==> fs[i] in fs;
  }

  /** Sorting distinct names keeps the fields and puts them in order. */
  lemma {:induction false} SortedSpec(fs: seq<Field>)
    requires Distinct(fs)
    ensures StrictlySorted(Sorted(fs))
    ensures forall g :: g in Sorted(fs) <==> g in fs
  {
    if fs != [] {
      var before, f := fs[..|fs| - 1], fs[|fs| - 1];
      assert fs == before + [f];
      SortedSpec(before);
      forall i | 0 <= i < |Sorted(before)|
        ensures Sorted(before)[i].name != f.name
      {
        assert Sorted(before)[i] in before;
      }
      InsertSpec(Sorted(before), f);
    }
  }

  /** A strictly sorted list of fields is determined by its names. */
  lemma {:induction false} SortedNamesUnique(fs: seq<Field>, gs: seq<Field>, k: nat)
    requires StrictlySorted(fs) && StrictlySorted(gs) && Names(fs) == Names(gs) && k <= |fs|
    ensures k <= |gs| && forall i :: 0 <= i < k ==> fs[i].name == gs[i].name
  {
    if k > 0 {
      SortedNamesUnique(fs, gs, k - 1);
      NextName(fs, gs, k - 1);
    }
  }

  lemma NextName(fs: seq<Field>, gs: seq<Field>, k: nat)
    requires StrictlySorted(fs) && StrictlySorted(gs) && Names(fs) == Names(gs) && k < |fs| && k <= |gs|
    requires forall i :: 0 <= i < k ==> fs[i].name == gs[i].name
    ensures k < |gs| && fs[k].name == gs[k].name
  {
    var p := Later(fs, gs, k);
    var q := Later(gs, fs, k);
    TextOrder(fs[k].name, gs[k].name, fs[k].name);
    TextOrder(fs[k].name, fs[k].name, fs[k].name);
  }

  /** A name at position k of one list is at position k or later in the other. */
  lemma Later(fs: seq<Field>, gs: seq<Field>, k: nat) returns (p: nat)
    requires StrictlySorted(fs) && Names(fs) == Names(gs) && k < |fs| && k <= |gs|
    requires forall i :: 0 <= i < k ==> fs[i].name == gs[i].name
    ensures k <= p < |gs| && gs[p].name == fs[k].name
  {
    SortedIsDistinct(fs);
    assert fs[k].name in Names(gs);
    p :| 0 <= p < |gs| && gs[p].name == fs[k].name;
  }

  // ---------- canonicalization keeps the meaning ----------

  /** The fields with canonical values, in the order written. */
  function CanonicalFields(fs: seq<Field>): (gs: seq<Field>)
  {
    seq(|fs|, i requires 0 <= i < |fs| => Field(fs[i].name, Canonical(fs[i].value)))
  }

  /** In a list of distinct names, the field with a name is where Position says. */
  lemma FoundAt(fs: seq<Field>, f: Field)
    requires Distinct(fs) && f in fs
    ensures Position(fs, f.name) < |fs| && fs[Position(fs, f.name)] == f
  {
    var i :| 0 <= i < |fs| && fs[i] == f;
    assert Position(fs, f.name) <= i;
  }

  lemma SameNames(fs: seq<Field>, gs: seq<Field>)
    requires forall g :: g in gs <==> g in fs
    ensures Names(fs) == Names(gs)
  {
    forall i | 0 <= i < |fs|
      ensures fs[i].name in Names(gs)
    {
      assert fs[i] in gs;
    }
    forall i | 0 <= i < |gs|
      ensures gs[i].name in Names(fs)
    {
      assert gs[i] in fs;
    }
  }

  /** Reordering fields does not change what they mean. */
  lemma ReorderedMeansSame(fs: seq<Field>, gs: seq<Field>)
    requires Distinct(fs) && Distinct(gs) && forall g :: g in gs <==> g in fs
    ensures Meant(Obj(fs)) == Meant(Obj(gs))
  {
    SameNames(fs, gs);
    forall name | name in Names(fs)
      ensures gs[Position(gs, name)] == fs[Position(fs, name)]
    {
      FoundAt(gs, fs[Position(fs, name)]);
    }
    ObjectsMeanSame(fs, gs);
  }

  lemma {:induction false} MeaningKept(v: Json)
    requires WellFormed(v)
    ensures Meant(Canonical(v)) == Meant(v)
  {
    match v
    case Arr(items) =>
      forall i | 0 <= i < |items|
        ensures Meant(Canonical(items[i])) == Meant(items[i])
      {
        MeaningKept(items[i]);
      }
    case Obj(fs) =>
      forall i | 0 <= i < |fs|
        ensures Meant(Canonical(fs[i].value)) == Meant(fs[i].value)
      {
        MeaningKept(fs[i].value);
      }
      PointwiseMeaning(CanonicalFields(fs), fs);
      SortedSpec(CanonicalFields(fs));
      SortedIsDistinct(Sorted(CanonicalFields(fs)));
      ReorderedMeansSame(CanonicalFields(fs), Sorted(CanonicalFields(fs)));
    case _ =>
  }

  lemma SamePosition(fs: seq<Field>, gs: seq<Field>, name: Text)
    requires |fs| == |gs| && forall i :: 0 <= i < |fs| ==> fs[i].name == gs[i].name
    ensures Position(fs, name) == Position(gs, name)
  {
    var p, q := Position(fs, name), Position(gs, name);
    assert p < |fs| ==> gs[p].name == name;
    assert q < |gs| ==> fs[q].name == name;
  }

  lemma PointwiseNames(fs: seq<Field>, gs: seq<Field>)
    requires |fs| == |gs| && forall i :: 0 <= i < |fs| ==> fs[i].name == gs[i].name
    ensures Names(fs) == Names(gs)
  {
    forall i | 0 <= i < |fs|
      ensures fs[i].name in Names(gs) && gs[i].name in Names(fs)
    {
    }
  }

  /** Two objects mean the same if they have the same names and the values under each name mean the same. */
  lemma ObjectsMeanSame(fs: seq<Field>, gs: seq<Field>)
    requires Names(fs) == Names(gs)
    requires forall name :: name in Names(fs) ==>
               Meant(fs[Position(fs, name)].value) == Meant(gs[Position(gs, name)].value)
    ensures Meant(Obj(fs)) == Meant(Obj(gs))
  {
    ObjectMeaning(fs);
    ObjectMeaning(gs);
    assert Values(fs) == Values(gs);
  }

  ghost function Values(fs: seq<Field>): map<Text, Meaning>
  {
    map name | name in Names(fs) :: Meant(fs[Position(fs, name)].value)
  }

  lemma ObjectMeaning(fs: seq<Field>)
    ensures Meant(Obj(fs)) == MObj(Values(fs))
  {
    var m := map name | name in Names(fs) :: Meant(fs[Position(fs, name)].value);
    assert Values(fs) == m;
    assert Meant(Obj(fs)) == MObj(m);
  }

  lemma PointwiseMeaning(fs: seq<Field>, gs: seq<Field>)
    requires |fs| == |gs| && forall i :: 0 <= i < |fs| ==> fs[i].name == gs[i].name
    requires forall i :: 0 <= i < |fs| ==> Meant(fs[i].value) == Meant(gs[i].value)
    ensures Meant(Obj(fs)) == Meant(Obj(gs))
  {
    PointwiseNames(fs, gs);
    forall name | name in Names(fs)
      ensures Meant(fs[Position(fs, name)].value) == Meant(gs[Position(gs, name)].value)
    {
      SamePosition(fs, gs, name);
    }
    ObjectsMeanSame(fs, gs);
  }

  // ---------- canonical values are determined by their meaning ----------

  predicate IsCanonical(v: Json)
  {
    match v
    case Arr(items) => forall i :: 0 <= i < |items| ==> IsCanonical(items[i])
    case Obj(fs) => StrictlySorted(fs) && forall i :: 0 <= i < |fs| ==> IsCanonical(fs[i].value)
    case _ => true
  }

  lemma {:induction false} CanonicalIsCanonical(v: Json)
    requires WellFormed(v)
    ensures IsCanonical(Canonical(v))
  {
    match v
    case Arr(items) =>
      forall i | 0 <= i < |items|
        ensures IsCanonical(Canonical(items[i]))
      {
        CanonicalIsCanonical(items[i]);
      }
    case Obj(fs) =>
      var gs := CanonicalFields(fs);
      forall i | 0 <= i < |fs|
        ensures IsCanonical(gs[i].value)
      {
        CanonicalIsCanonical(fs[i].value);
      }
      SortedSpec(gs);
      forall i | 0 <= i < |Sorted(gs)|
        ensures IsCanonical(Sorted(gs)[i].value)
      {
        assert Sorted(gs)[i] in gs;
      }
    case _ =>
  }

  lemma {:induction false} CanonicalUnique(v: Json, w: Json)
    requires IsCanonical(v) && IsCanonical(w) && Meant(v) == Meant(w)
    ensures v == w
  {
    match v
    case Arr(items) =>
      assert Meant(v).items == Meant(w).items;
      forall i | 0 <= i < |items|
        ensures items[i] == w.items[i]
      {
        assert Meant(v).items[i] == Meant(w).items[i];
        CanonicalUnique(items[i], w.items[i]);
      }
    case Obj(fs) =>
      SameObjectNames(fs, w.fields);
      forall i | 0 <= i < |fs|
        ensures fs[i] == w.fields[i]
      {
        SameFieldMeaning(fs, w.fields, i);
        CanonicalUnique(fs[i].value, w.fields[i].value);
      }
    case _ =>
  }

  lemma SameObjectNames(fs: seq<Field>, gs: seq<Field>)
    requires StrictlySorted(fs) && StrictlySorted(gs) && Meant(Obj(fs)) == Meant(Obj(gs))
    ensures |fs| == |gs| && forall i :: 0 <= i < |fs| ==> fs[i].name == gs[i].name
  {
    assert Meant(Obj(fs)).fields.Keys == Names(fs);
    assert Meant(Obj(gs)).fields.Keys == Names(gs);
    SortedNamesUnique(fs, gs, |fs|);
    SortedNamesUnique(gs, fs, |gs|);
  }

  lemma SameFieldMeaning(fs: seq<Field>, gs: seq<Field>, i: nat)
    requires StrictlySorted(fs) && StrictlySorted(gs) && Meant(Obj(fs)) == Meant(Obj(gs))
    requires i < |fs| && i < |gs| && fs[i].name == gs[i].name
    ensures Meant(fs[i].value) == Meant(gs[i].value)
  {
    SortedIsDistinct(fs);
    SortedIsDistinct(gs);
    FoundAt(fs, fs[i]);
    FoundAt(gs, gs[i]);
    assert fs[i].name in Names(fs) && gs[i].name in Names(gs);
    assert Meant(Obj(fs)).fields[fs[i].name] == Meant(Obj(gs)).fields[gs[i].name];
  }

  /** Two configurations have the same canonical form exactly when they mean the same. */
  lemma CanonicalIff(v: Json, w: Json)
    requires WellFormed(v) && WellFormed(w)
    ensures Canonical(v) == Canonical(w) <==> Meant(v) == Meant(w)
  {
    MeaningKept(v);
    MeaningKept(w);
    CanonicalIsCanonical(v);
    CanonicalIsCanonical(w);
    if Meant(v) == Meant(w) {
      CanonicalUnique(Canonical(v), Canonical(w));
    }
  }
}
