/** cJSON_Compare on trees, against equality of what the trees denote: objects as maps. Numbers are
    reals, so that NaN is not covered; the trees compared share no node. */
module JsonCompare {
  import opened Options
  import opened JsonText

  datatype Tree =
    | Invalid
    | Null
    | False
    | True
    | Num(value: real)
    | Str(bytes: Option<Bytes>)       // a string node may lack its string,
    | Raw(bytes: Option<Bytes>)
    | Arr(items: seq<Tree>)
    | Obj(fields: seq<Field>)

  datatype Field = Field(key: Option<Bytes>, value: Tree)       // and a member its name

  // ---------- keys

  function Lower(c: bv8): bv8 {
    if 0x41 <= c <= 0x5A then c + 0x20 else c
  }

  function Fold(key: Bytes, caseSensitive: bool): (r: Bytes)
    ensures |r| == |key|
  {
    if caseSensitive then key else seq(|key|, i requires 0 <= i < |key| => Lower(key[i]))
  }

  /** Whether a member has a name and it is the given one, under the case mode. */
  predicate IsNamed(f: Field, name: Bytes, cs: bool) {
    f.key.Some? && Fold(f.key.value, cs) == Fold(name, cs)
  }

  /** get_object_item: the first member whose name matches, or none; without a name to look for there is
      none. A search that respects case stops at a member without a name, the other goes on. */
  function GetItem(fields: seq<Field>, name: Option<Bytes>, cs: bool): (r: Option<nat>)
    ensures r.Some? ==> name.Some? && r.value < |fields| && IsNamed(fields[r.value], name.value, cs)
    ensures r.Some? ==> forall i :: 0 <= i < r.value ==> !IsNamed(fields[i], name.value, cs)
    ensures r.None? && name.Some? && Named(fields) ==>
              forall i :: 0 <= i < |fields| ==> !IsNamed(fields[i], name.value, cs)
  {
    if name.None? || fields == [] || (cs && fields[0].key.None?) then None
    else if IsNamed(fields[0], name.value, cs) then Some(0)
    else
      match GetItem(fields[1..], name, cs)
      case None => None
      case Some(i) => Some(i + 1)
  }

  predicate Named(fields: seq<Field>) {
    forall i :: 0 <= i < |fields| ==> fields[i].key.Some?
  }

  // ---------- comparison

  function Size(t: Tree): (n: nat)
    ensures n > 0
    decreases t, 1
  {
    match t
    case Arr(items) => 1 + ItemsSize(items)
    case Obj(fields) => 1 + FieldsSize(fields)
    case _ => 1
  }

  function ItemsSize(items: seq<Tree>): (n: nat)
    ensures forall i :: 0 <= i < |items| ==> Size(items[i]) <= n
    decreases items, 0
  {
    if items == [] then 0 else Size(items[0]) + ItemsSize(items[1..])
  }

  function FieldsSize(fields: seq<Field>): (n: nat)
    ensures forall i :: 0 <= i < |fields| ==> FieldSize(fields[i]) <= n
    decreases fields, 0
  {
    if fields == [] then 0 else FieldSize(fields[0]) + FieldsSize(fields[1..])
  }

  function FieldSize(f: Field): (n: nat)
    ensures n == Size(f.value)
    decreases f, 2
  {
    Size(f.value)
  }

  predicate Compare(a: Tree, b: Tree, cs: bool)
    decreases Size(a) + Size(b), 0
  {
    match (a, b)
    case (False, False) => true
    case (True, True) => true
    case (Null, Null) => true
    case (Num(x), Num(y)) => x == y
    case (Str(s), Str(t)) => s.Some? && t.Some? && s.value == t.value
    case (Raw(s), Raw(t)) => s.Some? && t.Some? && s.value == t.value
    case (Arr(xs), Arr(ys)) => CompareItems(xs, ys, cs)
    case (Obj(xs), Obj(ys)) => Covers(xs, ys, cs) && Covers(ys, xs, cs)
    case _ => false
  }

  predicate CompareItems(xs: seq<Tree>, ys: seq<Tree>, cs: bool)
    decreases ItemsSize(xs) + ItemsSize(ys), 1
  {
    if xs == [] || ys == [] then xs == ys
    else Compare(xs[0], ys[0], cs) && CompareItems(xs[1..], ys[1..], cs)
  }

  /** One of the two passes over an object: every member of xs has its like in ys. */
  predicate Covers(xs: seq<Field>, ys: seq<Field>, cs: bool)
    decreases FieldsSize(xs) + FieldsSize(ys), |xs|
  {
    xs == [] ||
    (var j := GetItem(ys, xs[0].key, cs);
     j.Some? && Compare(xs[0].value, ys[j.value].value, cs) && Covers(xs[1..], ys, cs))
  }

  // ---------- meaning

  datatype Meaning =
    | MInvalid
    | MNull
    | MFalse
    | MTrue
    | MNum(value: real)
    | MStr(bytes: Option<Bytes>)
    | MRaw(bytes: Option<Bytes>)
    | MArr(items: seq<Meaning>)
    | MObj(fields: map<Bytes, Meaning>)

  function Denote(t: Tree, cs: bool): Meaning
    decreases t, 1
  {
    match t
    case Invalid => MInvalid
    case Null => MNull
    case False => MFalse
    case True => MTrue
    case Num(x) => MNum(x)
    case Str(s) => MStr(s)
    case Raw(s) => MRaw(s)
    case Arr(items) => MArr(DenoteItems(items, cs))
    case Obj(fields) => MObj(DenoteFields(fields, cs))
  }

  function DenoteItems(items: seq<Tree>, cs: bool): (r: seq<Meaning>)
    ensures |r| == |items|
    decreases items, 0
  {
    if items == [] then [] else [Denote(items[0], cs)] + DenoteItems(items[1..], cs)
  }

  /** The first member of a name counts. */
  function DenoteFields(fields: seq<Field>, cs: bool): map<Bytes, Meaning>
    decreases fields, 0
  {
    if fields == [] then map[]
    else
      var rest := DenoteFields(fields[1..], cs);
      if fields[0].key.None? then rest else rest[Fold(fields[0].key.value, cs) := DenoteField(fields[0], cs)]
  }

  function DenoteField(f: Field, cs: bool): Meaning
    decreases f, 2
  {
    Denote(f.value, cs)
  }

  /** Whether member i of xs has a name under which the map of ys holds the same value. */
  ghost predicate Included(xs: seq<Field>, i: int, ys: seq<Field>, cs: bool)
    requires 0 <= i < |xs| && xs[i].key.Some?
  {
    var k, m := Fold(xs[i].key.value, cs), DenoteFields(ys, cs);
    k in m && m[k] == Denote(xs[i].value, cs)
  }

  /** Every member has a name and denotes what the first member of that name does, every string has its
      bytes, and no node is invalid, at every level. */
  ghost predicate Coherent(t: Tree, cs: bool)
    decreases t, 1
  {
    match t
    case Invalid => false
    case Str(s) => s.Some?
    case Raw(s) => s.Some?
    case Arr(items) => forall i :: 0 <= i < |items| ==> Coherent(items[i], cs)
    case Obj(fields) => CoherentFields(fields, cs)
    case _ => true
  }

  ghost predicate CoherentFields(fields: seq<Field>, cs: bool)
    decreases fields, 0
  {
    && Named(fields)
    && (forall i :: 0 <= i < |fields| ==> CoherentField(fields[i], cs))
    && (forall i :: 0 <= i < |fields| ==> Included(fields, i, fields, cs))
  }

  ghost predicate CoherentField(f: Field, cs: bool)
    decreases f, 2
  {
    Coherent(f.value, cs)
  }

  // ---------- the theorem

  lemma {:induction false} FieldsDenote(fields: seq<Field>, name: Bytes, cs: bool)
    requires Named(fields)
    ensures var j := GetItem(fields, Some(name), cs);
            (Fold(name, cs) in DenoteFields(fields, cs) <==> j.Some?)
            && (j.Some? ==> DenoteFields(fields, cs)[Fold(name, cs)] == Denote(fields[j.value].value, cs))
  {
    if fields != [] {
      FieldsDenote(fields[1..], name, cs);
    }
  }

  /** Every name in the map is the folded name of some member. */
  lemma {:induction false} NamesInMap(fields: seq<Field>, k: Bytes, cs: bool)
    requires Named(fields) && k in DenoteFields(fields, cs)
    ensures exists i :: 0 <= i < |fields| && Fold(fields[i].key.value, cs) == k
  {
    if Fold(fields[0].key.value, cs) != k {
      NamesInMap(fields[1..], k, cs);
      var i :| 0 <= i < |fields[1..]| && Fold(fields[1..][i].key.value, cs) == k;
      assert Fold(fields[i + 1].key.value, cs) == k;
    }
  }

  /** The two-pass comparison holds exactly when both trees are coherent and denote the same value. */
  lemma {:induction false} CompareIsEquality(a: Tree, b: Tree, cs: bool)
    ensures Compare(a, b, cs) <==> Coherent(a, cs) && Coherent(b, cs) && Denote(a, cs) == Denote(b, cs)
    decreases Size(a) + Size(b), 0
  {
    hide Compare, Coherent, Denote, CoherentFields, Covers, CompareItems;
    match (a, b)
    case (Arr(xs), Arr(ys)) =>
      ItemsEquality(xs, ys, cs);
      ArraysCompared(xs, ys, cs);
    case (Obj(xs), Obj(ys)) =>
      CoversIsMatching(xs, ys, 0, cs);
      CoversIsMatching(ys, xs, 0, cs);
      assert xs[0..] == xs && ys[0..] == ys;
      MatchingBothWays(xs, ys, cs);
      ObjectsCompared(xs, ys, cs);
    case _ => OthersCompared(a, b, cs);
  }

  lemma ArraysCompared(xs: seq<Tree>, ys: seq<Tree>, cs: bool)
    ensures Compare(Arr(xs), Arr(ys), cs) <==> CompareItems(xs, ys, cs)
    ensures Coherent(Arr(xs), cs) <==> forall i :: 0 <= i < |xs| ==> Coherent(xs[i], cs)
    ensures Coherent(Arr(ys), cs) <==> forall i :: 0 <= i < |ys| ==> Coherent(ys[i], cs)
    ensures Denote(Arr(xs), cs) == Denote(Arr(ys), cs) <==> DenoteItems(xs, cs) == DenoteItems(ys, cs)
  {
    hide CompareItems, DenoteItems;
  }

  lemma ObjectsCompared(xs: seq<Field>, ys: seq<Field>, cs: bool)
    ensures Compare(Obj(xs), Obj(ys), cs) <==> Covers(xs, ys, cs) && Covers(ys, xs, cs)
    ensures Coherent(Obj(xs), cs) <==> CoherentFields(xs, cs)
    ensures Coherent(Obj(ys), cs) <==> CoherentFields(ys, cs)
    ensures Denote(Obj(xs), cs) == Denote(Obj(ys), cs) <==> DenoteFields(xs, cs) == DenoteFields(ys, cs)
  {
    hide Covers, CoherentFields, DenoteFields;
  }

  lemma OthersCompared(a: Tree, b: Tree, cs: bool)
    requires !(a.Arr? && b.Arr?) && !(a.Obj? && b.Obj?)
    ensures Compare(a, b, cs) <==> Coherent(a, cs) && Coherent(b, cs) && Denote(a, cs) == Denote(b, cs)
  {
    hide CoherentFields, DenoteFields, DenoteItems;
  }

  lemma {:induction false} ItemsEquality(xs: seq<Tree>, ys: seq<Tree>, cs: bool)
    ensures CompareItems(xs, ys, cs) <==>
              && (forall i :: 0 <= i < |xs| ==> Coherent(xs[i], cs))
              && (forall i :: 0 <= i < |ys| ==> Coherent(ys[i], cs))
              && DenoteItems(xs, cs) == DenoteItems(ys, cs)
    decreases ItemsSize(xs) + ItemsSize(ys), 1
  {
    if xs != [] && ys != [] {
      CompareIsEquality(xs[0], ys[0], cs);
      ItemsEquality(xs[1..], ys[1..], cs);
      FirstAndRest(xs, cs);
      FirstAndRest(ys, cs);
      var p, q := DenoteItems(xs, cs), DenoteItems(ys, cs);
      assert p == q ==> p[0] == q[0] && p[1..] == q[1..];
    }
  }

  lemma FirstAndRest(xs: seq<Tree>, cs: bool)
    requires xs != []
    ensures (forall i :: 0 <= i < |xs| ==> Coherent(xs[i], cs))
            <==> Coherent(xs[0], cs) && forall i :: 0 <= i < |xs[1..]| ==> Coherent(xs[1..][i], cs)
  {
    hide Coherent;
    if Coherent(xs[0], cs) && forall i :: 0 <= i < |xs[1..]| ==> Coherent(xs[1..][i], cs) {
      forall i | 0 <= i < |xs|
        ensures Coherent(xs[i], cs)
      {
        assert i > 0 ==> xs[i] == xs[1..][i - 1];
      }
    }
  }

  /** Whether member i of xs is found in ys by its name, with an equal value. */
  ghost predicate Matched(xs: seq<Field>, i: int, ys: seq<Field>, cs: bool)
    requires 0 <= i < |xs|
  {
    var j := GetItem(ys, xs[i].key, cs);
    && j.Some? && Coherent(xs[i].value, cs) && Coherent(ys[j.value].value, cs)
    && Denote(xs[i].value, cs) == Denote(ys[j.value].value, cs)
  }

  lemma {:induction false} CoversIsMatching(xs: seq<Field>, ys: seq<Field>, from: nat, cs: bool)
    requires from <= |xs|
    ensures Covers(xs[from..], ys, cs) <==> forall i :: from <= i < |xs| ==> Matched(xs, i, ys, cs)
    decreases FieldsSize(xs[from..]) + FieldsSize(ys), |xs| - from
  {
    if from < |xs| {
      var rest := xs[from..];
      assert rest[1..] == xs[from + 1..] && rest[0] == xs[from];
      var j := GetItem(ys, xs[from].key, cs);
      if j.Some? {
        CompareIsEquality(xs[from].value, ys[j.value].value, cs);
      }
      CoversIsMatching(xs, ys, from + 1, cs);
      assert Matched(xs, from, ys, cs) <==> j.Some? && Compare(xs[from].value, ys[j.value].value, cs);
    } else {
      assert xs[from..] == [];
    }
  }

  ghost predicate AllMatched(xs: seq<Field>, ys: seq<Field>, cs: bool) {
    forall i :: 0 <= i < |xs| ==> Matched(xs, i, ys, cs)
  }

  lemma MatchingBothWays(xs: seq<Field>, ys: seq<Field>, cs: bool)
    ensures AllMatched(xs, ys, cs) && AllMatched(ys, xs, cs)
            <==> CoherentFields(xs, cs) && CoherentFields(ys, cs) && DenoteFields(xs, cs) == DenoteFields(ys, cs)
  {
    if AllMatched(xs, ys, cs) && AllMatched(ys, xs, cs) {
      MatchedIsCoherent(xs, ys, cs);
      MatchedIsCoherent(ys, xs, cs);
      MapIncluded(xs, ys, cs);
      MapIncluded(ys, xs, cs);
      var p, q := DenoteFields(xs, cs), DenoteFields(ys, cs);
      assert p == q;
    }
    if CoherentFields(xs, cs) && CoherentFields(ys, cs) && DenoteFields(xs, cs) == DenoteFields(ys, cs) {
      CoherentIsMatched(xs, ys, cs);
      CoherentIsMatched(ys, xs, cs);
    }
  }

  lemma MatchedIsNamed(xs: seq<Field>, ys: seq<Field>, cs: bool)
    requires AllMatched(xs, ys, cs)
    ensures Named(xs)
  {
    forall i | 0 <= i < |xs|
      ensures xs[i].key.Some?
    {
      assert Matched(xs, i, ys, cs);
    }
  }

  lemma MatchedIsIncluded(xs: seq<Field>, ys: seq<Field>, i: nat, cs: bool)
    requires Named(xs) && Named(ys) && i < |xs| && Matched(xs, i, ys, cs)
    ensures Included(xs, i, ys, cs)
  {
    hide Coherent, Denote, DenoteFields, Fold;
    FieldsDenote(ys, xs[i].key.value, cs);
  }

  /** What both maps hold under a name is what every member of that name denotes. */
  lemma MatchedIsCoherent(xs: seq<Field>, ys: seq<Field>, cs: bool)
    requires AllMatched(xs, ys, cs) && AllMatched(ys, xs, cs)
    ensures CoherentFields(xs, cs)
  {
    hide Coherent, Denote, DenoteFields, Fold, GetItem;
    MatchedIsNamed(xs, ys, cs);
    MatchedIsNamed(ys, xs, cs);
    forall i | 0 <= i < |xs|
      ensures CoherentField(xs[i], cs) && Included(xs, i, xs, cs)
    {
      var name := xs[i].key.value;
      assert Matched(xs, i, ys, cs);
      MatchedIsIncluded(xs, ys, i, cs);
      FieldsDenote(xs, name, cs);
      var first := GetItem(xs, Some(name), cs);
      FoundSomewhere(xs, i, cs);
      assert Matched(xs, first.value, ys, cs);
      MatchedIsIncluded(xs, ys, first.value, cs);
    }
  }

  lemma FoundSomewhere(xs: seq<Field>, i: nat, cs: bool)
    requires Named(xs) && i < |xs|
    ensures var j := GetItem(xs, xs[i].key, cs);
            j.Some? && j.value < |xs| && Fold(xs[j.value].key.value, cs) == Fold(xs[i].key.value, cs)
  {
    assert IsNamed(xs[i], xs[i].key.value, cs);
  }

  lemma MapIncluded(xs: seq<Field>, ys: seq<Field>, cs: bool)
    requires Named(xs) && Named(ys) && AllMatched(xs, ys, cs) && CoherentFields(xs, cs)
    ensures forall k :: k in DenoteFields(xs, cs) ==>
              k in DenoteFields(ys, cs) && DenoteFields(ys, cs)[k] == DenoteFields(xs, cs)[k]
  {
    hide Coherent, Denote, DenoteFields, Fold, GetItem, Matched;
    forall k | k in DenoteFields(xs, cs)
      ensures k in DenoteFields(ys, cs) && DenoteFields(ys, cs)[k] == DenoteFields(xs, cs)[k]
    {
      NamesInMap(xs, k, cs);
      var i :| 0 <= i < |xs| && Fold(xs[i].key.value, cs) == k;
      assert Matched(xs, i, ys, cs) && Included(xs, i, xs, cs);
      MatchedIsIncluded(xs, ys, i, cs);
    }
  }

  lemma CoherentIsMatched(xs: seq<Field>, ys: seq<Field>, cs: bool)
    requires CoherentFields(xs, cs) && CoherentFields(ys, cs) && DenoteFields(xs, cs) == DenoteFields(ys, cs)
    ensures AllMatched(xs, ys, cs)
  {
    hide Coherent, Denote, DenoteFields, Fold, GetItem;
    forall i | 0 <= i < |xs|
      ensures Matched(xs, i, ys, cs)
    {
      assert CoherentField(xs[i], cs) && Included(xs, i, xs, cs);
      FieldsDenote(ys, xs[i].key.value, cs);
      GetItemInside(ys, xs[i].key, cs);
      assert CoherentField(ys[GetItem(ys, xs[i].key, cs).value], cs);
    }
  }

  lemma GetItemInside(ys: seq<Field>, name: Option<Bytes>, cs: bool)
    ensures var j := GetItem(ys, name, cs); j.Some? ==> j.value < |ys|
  {
  }

  // ---------- what follows

  /** Symmetric and transitive on all trees, and reflexive on exactly the coherent ones. */
  lemma CompareIsEquivalence(a: Tree, b: Tree, c: Tree, cs: bool)
    ensures Compare(a, a, cs) <==> Coherent(a, cs)
    ensures Compare(a, b, cs) <==> Compare(b, a, cs)
    ensures Compare(a, b, cs) && Compare(b, c, cs) ==> Compare(a, c, cs)
  {
    hide Compare, Coherent, Denote;
    CompareIsEquality(a, a, cs);
    CompareIsEquality(a, b, cs);
    CompareIsEquality(b, a, cs);
    CompareIsEquality(b, c, cs);
    CompareIsEquality(a, c, cs);
  }

  /** Names are there and differ pairwise under the case mode, strings have their bytes, and no node is
      invalid, at every level. */
  predicate Distinct(t: Tree, cs: bool)
    decreases t, 0
  {
    match t
    case Invalid => false
    case Str(s) => s.Some?
    case Raw(s) => s.Some?
    case Arr(items) => forall i :: 0 <= i < |items| ==> Distinct(items[i], cs)
    case Obj(fields) =>
      && Named(fields)
      && (forall i :: 0 <= i < |fields| ==> DistinctField(fields[i], cs))
      && (forall i, j :: 0 <= i < j < |fields| ==>
            Fold(fields[i].key.value, cs) != Fold(fields[j].key.value, cs))
    case _ => true
  }

  predicate DistinctField(f: Field, cs: bool)
    decreases f, 1
  {
    Distinct(f.value, cs)
  }

  /** Distinct names are one way of being coherent. */
  lemma {:induction false} DistinctIsCoherent(t: Tree, cs: bool)
    requires Distinct(t, cs)
    ensures Coherent(t, cs)
    decreases t, 0
  {
    match t
    case Arr(items) =>
      forall i | 0 <= i < |items|
        ensures Coherent(items[i], cs)
      {
        DistinctIsCoherent(items[i], cs);
      }
    case Obj(fields) =>
      forall i | 0 <= i < |fields|
        ensures CoherentField(fields[i], cs)
        ensures Included(fields, i, fields, cs)
      {
        FieldIsCoherent(fields[i], cs);
        OnlyOne(fields, i, cs);
      }
    case _ =>
  }

  lemma {:induction false} FieldIsCoherent(f: Field, cs: bool)
    requires DistinctField(f, cs)
    ensures CoherentField(f, cs)
    decreases f, 1
  {
    DistinctIsCoherent(f.value, cs);
  }

  lemma OnlyOne(fields: seq<Field>, i: nat, cs: bool)
    requires i < |fields| && Named(fields)
    requires forall i, j :: 0 <= i < j < |fields| ==> Fold(fields[i].key.value, cs) != Fold(fields[j].key.value, cs)
    ensures Included(fields, i, fields, cs)
  {
    hide Denote, DenoteFields, Fold, GetItem;
    FieldsDenote(fields, fields[i].key.value, cs);
    FoundSomewhere(fields, i, cs);
    var j := GetItem(fields, fields[i].key, cs);
    assert j.value == i;
  }

  /** An object with one name twice equals itself exactly when the two values, coherent themselves,
      denote the same. */
  lemma RepeatedName(key: Bytes, v: Tree, w: Tree, cs: bool)
    ensures var o := Obj([Field(Some(key), v), Field(Some(key), w)]);
            Compare(o, o, cs) <==> Coherent(v, cs) && Coherent(w, cs) && Denote(v, cs) == Denote(w, cs)
  {
    hide Coherent, Denote, Fold;
    var xs := [Field(Some(key), v), Field(Some(key), w)];
    CompareIsEquality(Obj(xs), Obj(xs), cs);
    ObjectCoherent(xs, cs);
    TwoFields(xs, cs);
    assert CoherentField(xs[0], cs) == Coherent(v, cs) && CoherentField(xs[1], cs) == Coherent(w, cs);
    assert Included(xs, 0, xs, cs) && (Included(xs, 1, xs, cs) <==> Denote(v, cs) == Denote(w, cs));
  }

  lemma ObjectCoherent(fields: seq<Field>, cs: bool)
    ensures Coherent(Obj(fields), cs) <==> CoherentFields(fields, cs)
  {
    hide CoherentFields;
  }

  lemma TwoFields(xs: seq<Field>, cs: bool)
    requires |xs| == 2 && xs[0].key.Some? && xs[1].key == xs[0].key
    ensures var m := DenoteFields(xs, cs);
            var k := Fold(xs[0].key.value, cs);
            k in m && m[k] == Denote(xs[0].value, cs)
  {
    hide Denote, Fold;
  }

  /** For example one that holds both true and false under a name. */
  lemma RepeatedNameDiffers(key: Bytes, cs: bool)
    ensures var o := Obj([Field(Some(key), Tree.True), Field(Some(key), Tree.False)]); !Compare(o, o, cs)
    ensures var o := Obj([Field(Some(key), Tree.True), Field(Some(key), Tree.True)]); Compare(o, o, cs)
  {
    RepeatedName(key, Tree.True, Tree.False, cs);
    RepeatedName(key, Tree.True, Tree.True, cs);
  }

  /** An object with an unnamed member equals nothing, not even its copy. */
  lemma UnnamedDiffers(fields: seq<Field>, i: nat, b: Tree, cs: bool)
    requires i < |fields| && fields[i].key.None?
    ensures !Compare(Obj(fields), b, cs) && !Compare(b, Obj(fields), cs)
  {
    hide Compare, Denote;
    CompareIsEquality(Obj(fields), b, cs);
    CompareIsEquality(b, Obj(fields), cs);
    ObjectCoherent(fields, cs);
  }

  // ---------- names in two cases

  /** The same byte, or the two cases of one of the letters A to Z. */
  predicate Alike(c: bv8, d: bv8) {
    c == d || (0x41 <= c <= 0x5A && d - c == 0x20) || (0x41 <= d <= 0x5A && c - d == 0x20)
  }

  lemma LowerAlike(c: bv8, d: bv8)
    ensures Lower(c) == Lower(d) <==> Alike(c, d)
  {
  }

  /** Names match if they are the same but, where case is not respected, for the case of ASCII letters. */
  ghost predicate Matching(k: Bytes, l: Bytes, cs: bool) {
    if cs then k == l else |k| == |l| && forall i :: 0 <= i < |k| ==> Alike(k[i], l[i])
  }

  lemma FoldMatching(k: Bytes, l: Bytes, cs: bool)
    ensures Fold(k, cs) == Fold(l, cs) <==> Matching(k, l, cs)
  {
    if !cs && |k| == |l| {
      hide Lower, Alike;
      forall i | 0 <= i < |k|
        ensures Lower(k[i]) == Lower(l[i]) <==> Alike(k[i], l[i])
      {
        LowerAlike(k[i], l[i]);
      }
      if Fold(k, cs) == Fold(l, cs) {
        forall i | 0 <= i < |k|
          ensures Alike(k[i], l[i])
        {
          assert Fold(k, cs)[i] == Lower(k[i]) && Fold(l, cs)[i] == Lower(l[i]);
        }
      }
    }
  }

  /** Two objects of one member each are equal exactly when the names match and the values are equal. */
  lemma OneMember(k: Bytes, v: Tree, l: Bytes, u: Tree, cs: bool)
    ensures Compare(Obj([Field(Some(k), v)]), Obj([Field(Some(l), u)]), cs)
            <==> Matching(k, l, cs) && Compare(v, u, cs)
  {
    hide Fold, Matching;
    FoldMatching(k, l, cs);
    CompareIsEquivalence(v, u, v, cs);
    var xs, ys := [Field(Some(k), v)], [Field(Some(l), u)];
    assert xs[1..] == [] && ys[1..] == [];
    assert Covers(xs, ys, cs) <==> IsNamed(ys[0], k, cs) && Compare(v, u, cs);
    assert Covers(ys, xs, cs) <==> IsNamed(xs[0], l, cs) && Compare(u, v, cs);
  }

  /** {"A":v} and {"a":v} differ if case is respected, and else are equal as far as v equals itself. */
  lemma UpperAndLower(v: Tree)
    ensures !Compare(Obj([Field(Some([0x41]), v)]), Obj([Field(Some([0x61]), v)]), true)
    ensures Compare(Obj([Field(Some([0x41]), v)]), Obj([Field(Some([0x61]), v)]), false) <==> Coherent(v, false)
  {
    hide Compare, Coherent;
    OneMember([0x41], v, [0x61], v, true);
    OneMember([0x41], v, [0x61], v, false);
    CompareIsEquivalence(v, v, v, false);
    assert Alike(0x41, 0x61);
  }
}
