/** Iterating an unordered field map: the order is the hash table's own, so everything the printer
    computes is stated for every enumeration of the map. */
module FieldLists {
  import opened Bytes
  import opened Decoders

  predicate DistinctTags(fs: seq<Field>) {
    forall i, j :: 0 <= i < j < |fs| ==> fs[i].tag != fs[j].tag
  }

  /** The map an iteration runs over. */
  function MapOf(fs: seq<Field>): FieldMap {
    SetAll(map[], fs)
  }

  /** `fs` is an iteration over `m`: every entry, each exactly once. */
  predicate Enumerates(fs: seq<Field>, m: FieldMap) {
    DistinctTags(fs) && MapOf(fs) == m
  }

  /** The loops' filter: the fields whose tag is not in `tags`, in order. */
  function Except(fs: seq<Field>, tags: set<int>): seq<Field> {
    if fs == [] then []
    else if fs[0].tag in tags then Except(fs[1..], tags)
    else [fs[0]] + Except(fs[1..], tags)
  }

  lemma {:induction false} ExceptConcat(a: seq<Field>, b: seq<Field>, tags: set<int>)
    ensures Except(a + b, tags) == Except(a, tags) + Except(b, tags)
  {
    if a == [] {
      assert a + b == b;
    } else {
      assert (a + b)[1..] == a[1..] + b;
      ExceptConcat(a[1..], b, tags);
    }
  }

  lemma {:induction false} ExceptMembers(fs: seq<Field>, tags: set<int>)
    ensures forall f :: f in Except(fs, tags) <==> f in fs && f.tag !in tags
    ensures forall k :: HasTag(Except(fs, tags), k) <==> HasTag(fs, k) && k !in tags
  {
    if fs != [] {
      var f, tail := fs[0], fs[1..];
      ExceptMembers(tail, tags);
      assert fs == [f] + tail;
      forall k ensures HasTag(Except(fs, tags), k) <==> HasTag(fs, k) && k !in tags {
        HasTagCons(f, tail, k);
        HasTagCons(f, Except(tail, tags), k);
      }
    }
  }

  // ---------------------------------------------------------------- additive measures

  /** Sum of a measure of the rendered fields: their byte total or their length. */
  function Sum(fs: seq<Field>, w: Field -> nat): nat {
    if fs == [] then 0 else w(fs[0]) + Sum(fs[1..], w)
  }

  function RenderedTotal(): Field -> nat { (f: Field) => Total(Render(f)) }

  function RenderedLength(): Field -> nat { (f: Field) => |Render(f)| }

  lemma {:induction false} SumIsTotal(fs: seq<Field>)
    ensures Total(RenderAll(fs)) == Sum(fs, RenderedTotal())
    ensures |RenderAll(fs)| == Sum(fs, RenderedLength())
  {
    if fs != [] {
      SumIsTotal(fs[1..]);
      TotalConcat(Render(fs[0]), RenderAll(fs[1..]));
    }
  }

  lemma {:induction false} SumConcat(a: seq<Field>, b: seq<Field>, w: Field -> nat)
    ensures Sum(a + b, w) == Sum(a, w) + Sum(b, w)
  {
    if a == [] {
      assert a + b == b;
    } else {
      assert (a + b)[1..] == a[1..] + b;
      SumConcat(a[1..], b, w);
    }
  }

  /** Leaving out one more tag takes exactly that field's share away. */
  lemma {:induction false} SumExcept(fs: seq<Field>, tags: set<int>, t: int, w: Field -> nat)
    requires DistinctTags(fs) && t !in tags
    ensures var m := MapOf(fs);
            Sum(Except(fs, tags), w) == Sum(Except(fs, tags + {t}), w) + if t in m then w(Field(t, m[t])) else 0
  {
    if fs != [] {
      var f, tail := fs[0], fs[1..];
      SumExcept(tail, tags, t, w);
      MapOfCons(fs);
      if f.tag == t { NotInTail(fs); }
    }
  }

  lemma NotInTail(fs: seq<Field>)
    requires fs != [] && DistinctTags(fs)
    ensures fs[0].tag !in MapOf(fs[1..])
  {
    var tail := fs[1..];
    assert forall i :: 0 <= i < |tail| ==> tail[i] == fs[i + 1];
    SetAllOutside(map[], tail, fs[0].tag);
  }

  lemma {:induction false} SetAllOutside(m: FieldMap, fs: seq<Field>, k: int)
    requires !HasTag(fs, k)
    ensures k in SetAll(m, fs) <==> k in m
    ensures k in m ==> SetAll(m, fs)[k] == m[k]
    decreases |fs|
  {
    if fs != [] {
      assert fs == [fs[0]] + fs[1..];
      HasTagCons(fs[0], fs[1..], k);
      SetAllOutside(m[fs[0].tag := fs[0].value], fs[1..], k);
    }
  }

  /** With distinct tags, storing a list over a map is the map overridden by the list's own map. */
  lemma {:induction false} SetAllOverrides(m: FieldMap, fs: seq<Field>)
    ensures SetAll(m, fs) == m + MapOf(fs)
    decreases |fs|
  {
    if fs == [] {
      assert m + map[] == m;
    } else {
      var f, tail := fs[0], fs[1..];
      SetAllOverrides(m[f.tag := f.value], tail);
      SetAllOverrides(map[][f.tag := f.value], tail);
    }
  }

  lemma MapOfCons(fs: seq<Field>)
    requires fs != [] && DistinctTags(fs)
    ensures MapOf(fs) == MapOf(fs[1..])[fs[0].tag := fs[0].value]
    ensures DistinctTags(fs[1..])
  {
    var f, tail := fs[0], fs[1..];
    SetAllOverrides(map[][f.tag := f.value], tail);
    NotInTail(fs);
    assert map[][f.tag := f.value] + MapOf(tail) == MapOf(tail)[f.tag := f.value];
  }

  lemma {:induction false} MapOfLookup(fs: seq<Field>)
    requires DistinctTags(fs)
    ensures forall f :: f in fs <==> f.tag in MapOf(fs) && MapOf(fs)[f.tag] == f.value
    ensures forall k :: k in MapOf(fs) <==> HasTag(fs, k)
  {
    if fs != [] {
      var f, tail := fs[0], fs[1..];
      MapOfCons(fs);
      NotInTail(fs);
      MapOfLookup(tail);
      assert fs == [f] + tail;
      forall k ensures k in MapOf(fs) <==> HasTag(fs, k) { HasTagCons(f, tail, k); }
    }
  }

  lemma {:induction false} MapOfExcept(fs: seq<Field>, tags: set<int>)
    requires DistinctTags(fs)
    ensures MapOf(Except(fs, tags)) == MapOf(fs) - tags
    ensures DistinctTags(Except(fs, tags))
  {
    hide MapOf, DistinctTags, Except;
    ExceptUnfolds(fs, tags);
    if fs == [] {
      MapOfNothing();
      assert MapOf(fs) - tags == map[];
    } else {
      var f, tail := fs[0], fs[1..];
      var m, ex := MapOf(tail), Except(tail, tags);
      MapOfCons(fs);
      MapOfExcept(tail, tags);
      if f.tag in tags {
        assert m - tags == m[f.tag := f.value] - tags;
      } else {
        NotInTail(fs);
        ConsDistinct(f, ex);
        MapOfCons([f] + ex);
        assert ([f] + ex)[1..] == ex;
        assert (m - tags)[f.tag := f.value] == m[f.tag := f.value] - tags;
      }
    }
  }

  lemma MapOfNothing()
    ensures MapOf([]) == map[] && DistinctTags([])
  {
  }

  lemma ExceptUnfolds(fs: seq<Field>, tags: set<int>)
    ensures Except(fs, tags) ==
      if fs == [] then []
      else if fs[0].tag in tags then Except(fs[1..], tags)
      else [fs[0]] + Except(fs[1..], tags)
  {
  }

  /** A field with a tag of its own in front of the others. */
  lemma ConsDistinct(f: Field, fs: seq<Field>)
    requires DistinctTags(fs) && f.tag !in MapOf(fs)
    ensures DistinctTags([f] + fs)
  {
    hide MapOf;
    MapOfLookup(fs);
    var all := [f] + fs;
    forall j | 1 <= j < |all| ensures all[j].tag != f.tag { assert all[j] == fs[j - 1] && fs[j - 1] in fs; }
    assert forall j :: 1 <= j < |all| ==> all[j] == fs[j - 1];
  }

  // ---------------------------------------------------------------- any two enumerations

  /** A measure does not depend on the order of iteration. */
  lemma {:induction false} SumPermutes(a: seq<Field>, b: seq<Field>, w: Field -> nat)
    requires DistinctTags(a) && DistinctTags(b) && MapOf(a) == MapOf(b)
    ensures Sum(a, w) == Sum(b, w)
    decreases |a|
  {
    hide MapOf, DistinctTags, Except, Sum;
    SumUnfolds(a, w);
    SumUnfolds(b, w);
    assert b != [] ==> b[0] in b;
    if a == [] {
      MapOfLookup(a);
      MapOfLookup(b);
    } else {
      var f := a[0];
      TakeOut(b, f, w);
      assert f in a && MapOf(a)[f.tag] == f.value by { MapOfLookup(a); }
      MapOfExcept(b, {f.tag});
      MapOfCons(a);
      NotInTail(a);
      assert MapOf(a[1..]) == MapOf(b) - {f.tag};
      SumPermutes(a[1..], Except(b, {f.tag}), w);
    }
  }

  lemma SumUnfolds(fs: seq<Field>, w: Field -> nat)
    ensures Sum(fs, w) == if fs == [] then 0 else w(fs[0]) + Sum(fs[1..], w)
  {
  }

  /** One field and the rest. */
  lemma TakeOut(fs: seq<Field>, f: Field, w: Field -> nat)
    requires DistinctTags(fs)
    ensures f.tag in MapOf(fs) && MapOf(fs)[f.tag] == f.value ==> Sum(fs, w) == w(f) + Sum(Except(fs, {f.tag}), w)
  {
    hide MapOf, DistinctTags, Except, Sum;
    ExceptNone(fs);
    SumExcept(fs, {}, f.tag, w);
    assert {} + {f.tag} == {f.tag};
  }

  lemma {:induction false} ExceptNone(fs: seq<Field>)
    ensures Except(fs, {}) == fs
  {
    if fs != [] { ExceptNone(fs[1..]); }
  }
}
