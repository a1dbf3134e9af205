/** `ObjectOfArrays.set`, the copy every double-buffered state uses to start
    its next state from the committed one. JavaScript values are modelled by
    the kinds the copy distinguishes: primitives (assigned), typed arrays and
    nested `ObjectOfArrays` (which have a `set` method and delegate to it),
    plain arrays (no `set`, copied element by element up to their own
    length) and other objects (no `set` and no `length`, so left alone).
    A thrown TypeError or RangeError is None. */
module ObjectOfArrays {
  import opened Common

  datatype Primitive = Num(x: real) | Flag(b: bool) | Text(t: string) | Null | Undefined

  datatype Value =
    | Prim(p: Primitive)
    | Typed(elems: seq<real>)
    | Plain(items: seq<Value>)
    | Record(fields: seq<Field>, hasSet: bool)

  /** An enumerable property, in enumeration order. */
  datatype Field = Field(key: string, value: Value)

  /** The keys of a list of properties, in order. */
  function Keys(fs: seq<Field>): (ks: seq<string>)
    ensures |ks| == |fs| && forall i | 0 <= i < |fs| :: ks[i] == fs[i].key
  {
    seq(|fs|, i requires 0 <= i < |fs| => fs[i].key)
  }

  /** `source[k]`: the first property with key `k`, or `undefined`. */
  function Lookup(fs: seq<Field>, k: string): (v: Value)
    ensures k !in Keys(fs) ==> v == Prim(Undefined)
    ensures forall i | 0 <= i < |fs| && fs[i].key == k && k !in Keys(fs[..i]) :: v == fs[i].value
  {
    if |fs| == 0 then Prim(Undefined)
    else if fs[0].key == k then fs[0].value
    else
      var v := Lookup(fs[1..], k);
      assert forall i | 1 <= i <= |fs| :: fs[1..][..i - 1] == fs[1..i];
      assert forall i | 1 <= i <= |fs| :: Keys(fs[..i]) == [fs[0].key] + Keys(fs[1..i]);
      v
  }

  /** The element-wise copy of a plain array: each of the destination's
      `length` slots takes the source's element, or `undefined` past its end. */
  function CopyItems(d: seq<Value>, s: seq<Value>): (r: seq<Value>)
    ensures |r| == |d|
    ensures forall i | 0 <= i < |d| :: r[i] == (if i < |s| then s[i] else Prim(Undefined))
  {
    seq(|d|, i requires 0 <= i < |d| => if i < |s| then s[i] else Prim(Undefined))
  }

  /** The same copy from a typed source, whose elements are numbers. */
  function CopyNumbers(d: seq<Value>, s: seq<real>): (r: seq<Value>)
    ensures |r| == |d|
    ensures forall i | 0 <= i < |d| :: r[i] == (if i < |s| then Prim(Num(s[i])) else Prim(Undefined))
  {
    seq(|d|, i requires 0 <= i < |d| => if i < |s| then Prim(Num(s[i])) else Prim(Undefined))
  }

  /** The value a destination property holds after the copy from `s`. */
  function SetValue(d: Value, s: Value): (r: Option<Value>)
    ensures d.Prim? ==> r == Some(s)
    ensures d.Typed? ==> (r.Some? <==> s.Typed? && |s.elems| <= |d.elems|)
    ensures d.Typed? && r.Some? ==>
              r.value.Typed? && r.value.elems == s.elems + d.elems[|s.elems|..]
    ensures d.Plain? ==> (r.Some? <==> s.Plain? || s.Typed?)
    ensures d.Plain? && s.Plain? ==> r == Some(Plain(CopyItems(d.items, s.items)))
    ensures d.Plain? && s.Typed? ==> r == Some(Plain(CopyNumbers(d.items, s.elems)))
    ensures d.Record? && !d.hasSet ==> r == Some(d)
    ensures d.Record? && d.hasSet && r.Some? ==>
              s.Record? && r.value.Record? && r.value.hasSet && |r.value.fields| == |d.fields|
    decreases d, 1, 0
  {
    match d
    case Prim(_) => Some(s)
    case Typed(a) =>
      if s.Typed? && |s.elems| <= |a| then Some(Typed(s.elems + a[|s.elems|..])) else None
    case Plain(a) =>
      if s.Plain? then Some(Plain(CopyItems(a, s.items)))
      else if s.Typed? then Some(Plain(CopyNumbers(a, s.elems)))
      else None
    case Record(fs, hasSet) =>
      if !hasSet then Some(d)
      else if !s.Record? then None
      else
        var t := SetFields(d, s, 0);
        if t.None? then None else Some(Record(t.value, true))
  }

  /** The loop over the destination's properties from the `i`-th on. */
  function SetFields(d: Value, s: Value, i: nat): (r: Option<seq<Field>>)
    requires d.Record? && s.Record? && i <= |d.fields|
    ensures r.Some? ==> |r.value| == |d.fields| - i
    decreases d, 0, |d.fields| - i
  {
    if i == |d.fields| then Some([])
    else
      var v := Copied(d, s, i);
      if v.None? then None
      else
        var rest := SetFields(d, s, i + 1);
        if rest.None? then None else Some([Field(d.fields[i].key, v.value)] + rest.value)
  }

  /** The copy of the destination's `i`-th property from the source's
      property of the same key. */
  function Copied(d: Value, s: Value, i: nat): (r: Option<Value>)
    requires d.Record? && s.Record? && i < |d.fields|
    decreases d, 0, 0
  {
    var f := d.fields[i];
    assert f in d.fields;
    SetValue(f.value, Lookup(s.fields, f.key))
  }

  /** `dst.set(src)` for two `ObjectOfArrays`. */
  function Set(dst: seq<Field>, src: seq<Field>): (r: Option<seq<Field>>)
    ensures r.Some? ==> |r.value| == |dst|
  {
    SetFields(Record(dst, true), Record(src, true), 0)
  }

  /** One turn of the loop: a successful copy of the `i`-th property followed
      by a successful rest. */
  lemma SetFieldsCons(d: Value, s: Value, i: nat, v: Value, rest: seq<Field>)
    requires d.Record? && s.Record? && i < |d.fields|
    requires Copied(d, s, i) == Some(v) && SetFields(d, s, i + 1) == Some(rest)
    ensures SetFields(d, s, i) == Some([Field(d.fields[i].key, v)] + rest)
  {
  }

  /** A suffix of a list of properties is its first element followed by the rest. */
  lemma SuffixCons(fs: seq<Field>, i: nat)
    requires i < |fs|
    ensures fs[i..] == [fs[i]] + fs[i + 1..]
  {
  }

  /** Each destination property is copied from the source property of the
      same key, or from `undefined` when the source lacks it; the copy fails
      exactly when one of those copies fails. */
  lemma {:induction false} SetFieldsSpec(d: Value, s: Value, i: nat)
    requires d.Record? && s.Record? && i <= |d.fields|
    ensures var r := SetFields(d, s, i);
            && ((forall j | i <= j < |d.fields| :: Copied(d, s, j).Some?) ==> r.Some?)
            && (r.Some? ==> forall j | i <= j < |d.fields| ::
                  Copied(d, s, j).Some? && r.value[j - i] == Field(d.fields[j].key, Copied(d, s, j).value))
    decreases |d.fields| - i
  {
    if i < |d.fields| {
      SetFieldsSpec(d, s, i + 1);
      var r := SetFields(d, s, i);
      if r.Some? {
        var rest := SetFields(d, s, i + 1).value;
        assert r.value == [Field(d.fields[i].key, Copied(d, s, i).value)] + rest;
        forall j | i < j < |d.fields|
          ensures Copied(d, s, j).Some? && r.value[j - i] == Field(d.fields[j].key, Copied(d, s, j).value)
        {
          assert r.value[j - i] == rest[j - (i + 1)];
        }
      }
    }
  }

  /** Only the destination's properties are visited: two sources that agree
      on the destination's keys give the same result, whatever else they hold. */
  lemma SourceOnlyKeysIgnored(dst: seq<Field>, src1: seq<Field>, src2: seq<Field>)
    requires forall j | 0 <= j < |dst| :: Lookup(src1, dst[j].key) == Lookup(src2, dst[j].key)
    ensures Set(dst, src1) == Set(dst, src2)
  {
    SameLookupsSameCopy(Record(dst, true), Record(src1, true), Record(src2, true), 0);
  }

  lemma {:induction false} SameLookupsSameCopy(d: Value, s1: Value, s2: Value, i: nat)
    requires d.Record? && s1.Record? && s2.Record? && i <= |d.fields|
    requires forall j | 0 <= j < |d.fields| :: Lookup(s1.fields, d.fields[j].key) == Lookup(s2.fields, d.fields[j].key)
    ensures SetFields(d, s1, i) == SetFields(d, s2, i)
  {
    forall j | i <= j < |d.fields|
      ensures Copied(d, s1, j) == Copied(d, s2, j)
    {
      assert Lookup(s1.fields, d.fields[j].key) == Lookup(s2.fields, d.fields[j].key);
    }
    SameCopiesSameFields(d, s1, s2, i);
  }

  lemma {:induction false} SameCopiesSameFields(d: Value, s1: Value, s2: Value, i: nat)
    requires d.Record? && s1.Record? && s2.Record? && i <= |d.fields|
    requires forall j | i <= j < |d.fields| :: Copied(d, s1, j) == Copied(d, s2, j)
    ensures SetFields(d, s1, i) == SetFields(d, s2, i)
    decreases |d.fields| - i
  {
    if i < |d.fields| {
      SameCopiesSameFields(d, s1, s2, i + 1);
    }
  }

  /** No key occurs twice. */
  predicate UniqueKeys(fs: seq<Field>) {
    forall i, j | 0 <= i < j < |fs| :: fs[i].key != fs[j].key
  }

  /** A source with distinct keys yields each of its properties by key. */
  lemma LookupUnique(fs: seq<Field>, i: nat)
    requires UniqueKeys(fs) && i < |fs|
    ensures Lookup(fs, fs[i].key) == fs[i].value
  {
    assert fs[i].key !in Keys(fs[..i]);
  }

  /** Destination and source have the same shape: the same kinds, the same
      lengths for arrays, the same keys in the same order for nested
      `ObjectOfArrays`, and identical values where the copy leaves the
      destination alone. */
  predicate SameShape(d: Value, s: Value)
    decreases d
  {
    match d
    case Prim(_) => s.Prim?
    case Typed(a) => s.Typed? && |s.elems| == |a|
    case Plain(a) => s.Plain? && |s.items| == |a|
    case Record(fs, hasSet) =>
      if !hasSet then s == d
      else
        && s.Record? && s.hasSet && |s.fields| == |fs| && UniqueKeys(s.fields)
        && forall j | 0 <= j < |fs| :: fs[j].key == s.fields[j].key && SameShape(fs[j].value, s.fields[j].value)
  }

  /** Copying into a same-shaped destination reproduces the source exactly. */
  lemma {:induction false} SameShapeCopies(d: Value, s: Value)
    requires SameShape(d, s)
    ensures SetValue(d, s) == Some(s)
    decreases d, 1, 0
  {
    match d
    case Prim(_) =>
    case Typed(a) =>
      assert s.elems + a[|s.elems|..] == s.elems;
    case Plain(a) =>
      assert CopyItems(a, s.items) == s.items;
    case Record(fs, hasSet) =>
      if hasSet {
        SameShapeFields(d, s, 0);
        assert s.fields[0..] == s.fields;
      }
  }

  lemma {:induction false} SameShapeFields(d: Value, s: Value, i: nat)
    requires d.Record? && d.hasSet && SameShape(d, s) && i <= |d.fields|
    ensures SetFields(d, s, i) == Some(s.fields[i..])
    decreases d, 0, |d.fields| - i
  {
    assert |s.fields| == |d.fields|;
    if i < |d.fields| {
      var f := d.fields[i];
      assert f in d.fields;
      var g := s.fields[i];
      assert f.key == g.key && SameShape(f.value, g.value);
      LookupUnique(s.fields, i);
      SameShapeCopies(f.value, g.value);
      assert Copied(d, s, i) == Some(g.value);
      SameShapeFields(d, s, i + 1);
      SetFieldsCons(d, s, i, g.value, s.fields[i + 1..]);
      SuffixCons(s.fields, i);
    } else {
      assert s.fields[i..] == [];
    }
  }

  /** Every object inside `v` has distinct keys, as JavaScript objects do. */
  predicate WellKeyed(v: Value)
    decreases v
  {
    match v
    case Record(fs, _) => UniqueKeys(fs) && forall j | 0 <= j < |fs| :: WellKeyed(fs[j].value)
    case _ => true
  }

  lemma LookupWellKeyed(v: Value, k: string)
    requires v.Record? && WellKeyed(v)
    ensures WellKeyed(Lookup(v.fields, k))
  {
    var fs := v.fields;
    if k in Keys(fs) {
      var i :| 0 <= i < |fs| && Keys(fs)[i] == k;
      LookupUnique(fs, i);
    }
  }

  /** A value copied onto itself comes back unchanged. */
  lemma {:induction false} SetValueOnSelf(s: Value)
    requires WellKeyed(s)
    ensures SetValue(s, s) == Some(s)
    decreases s, 1, 0
  {
    match s
    case Prim(_) =>
    case Typed(a) =>
      assert a + a[|a|..] == a;
    case Plain(a) =>
      assert CopyItems(a, a) == a;
    case Record(fs, hasSet) =>
      if hasSet {
        SetFieldsOnSelf(s, 0);
        assert fs[0..] == fs;
      }
  }

  lemma {:induction false} SetFieldsOnSelf(s: Value, i: nat)
    requires s.Record? && WellKeyed(s) && i <= |s.fields|
    ensures SetFields(s, s, i) == Some(s.fields[i..])
    decreases s, 0, |s.fields| - i
  {
    if i < |s.fields| {
      var f := s.fields[i];
      assert f in s.fields;
      LookupUnique(s.fields, i);
      SetValueOnSelf(f.value);
      assert Copied(s, s, i) == Some(f.value);
      SetFieldsOnSelf(s, i + 1);
      SetFieldsCons(s, s, i, f.value, s.fields[i + 1..]);
      SuffixCons(s.fields, i);
    } else {
      assert s.fields[i..] == [];
    }
  }

  /** Repeating a copy from the same source changes nothing. */
  lemma {:induction false} SetValueIdempotent(d: Value, s: Value)
    requires WellKeyed(s) && SetValue(d, s).Some?
    ensures SetValue(SetValue(d, s).value, s) == SetValue(d, s)
    decreases d, 1, 0
  {
    var r := SetValue(d, s).value;
    match d
    case Prim(_) =>
      SetValueOnSelf(s);
    case Typed(a) =>
      assert s.elems + r.elems[|s.elems|..] == r.elems;
    case Plain(a) =>
      if s.Plain? {
        assert CopyItems(r.items, s.items) == r.items;
      } else {
        assert CopyNumbers(r.items, s.elems) == r.items;
      }
    case Record(fs, hasSet) =>
      if hasSet {
        var t := SetFields(d, s, 0).value;
        SetFieldsIdempotent(d, s, t, 0);
        assert t[0..] == t;
      }
  }

  lemma {:induction false} SetFieldsIdempotent(d: Value, s: Value, t: seq<Field>, i: nat)
    requires d.Record? && d.hasSet && s.Record? && WellKeyed(s)
    requires SetFields(d, s, 0) == Some(t) && i <= |t|
    ensures SetFields(Record(t, true), s, i) == Some(t[i..])
    decreases d, 0, |d.fields| - i
  {
    if i < |t| {
      SetFieldsSpec(d, s, 0);
      var f := d.fields[i];
      assert f in d.fields;
      var src := Lookup(s.fields, f.key);
      LookupWellKeyed(s, f.key);
      assert t[i] == Field(f.key, SetValue(f.value, src).value);
      SetValueIdempotent(f.value, src);
      var e := Record(t, true);
      assert e.fields[i] == t[i];
      assert Copied(e, s, i) == Some(t[i].value);
      SetFieldsIdempotent(d, s, t, i + 1);
      SetFieldsCons(e, s, i, t[i].value, t[i + 1..]);
      SuffixCons(t, i);
    } else {
      assert t[i..] == [];
    }
  }

  /** `dst.set(src); dst.set(src)` leaves `dst` as one copy does. */
  lemma SetIdempotent(dst: seq<Field>, src: seq<Field>)
    requires WellKeyed(Record(src, true)) && Set(dst, src).Some?
    ensures Set(Set(dst, src).value, src) == Set(dst, src)
  {
    var t := Set(dst, src).value;
    assert dst[0..] == dst;
    SetFieldsIdempotent(Record(dst, true), Record(src, true), t, 0);
    assert t[0..] == t;
  }

  /** For same-shaped states `dst.set(src)` makes `dst` equal to `src`. */
  lemma SetSameShape(dst: seq<Field>, src: seq<Field>)
    requires SameShape(Record(dst, true), Record(src, true))
    ensures Set(dst, src) == Some(src)
  {
    SameShapeFields(Record(dst, true), Record(src, true), 0);
    assert dst[0..] == dst && src[0..] == src;
  }
}
