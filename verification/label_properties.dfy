/** Properties of `set_value_labels` and `set_catalog_to_sas` that relate
    several calls, or a call and a concrete input. */
module LabelProperties {
  import opened Values
  import opened ValueLabels

  /** `df[cols]`: the frame cut down to some of its columns. */
  function Restrict(frame: Frame, cols: set<string>): (sub: Frame)
    ensures sub.Keys == frame.Keys * cols
    ensures forall name | name in sub :: sub[name] == frame[name]
  {
    map name | name in frame && name in cols :: frame[name]
  }

  /** With no label sets or no format names, the frame comes back as it was. */
  lemma NoMetadataKeepsFrame(frame: Frame, meta: Metadata, asCategory: bool, asOrdered: bool)
    requires meta.valueLabels == map[] || meta.variableToLabel == map[]
    ensures SetValueLabels(frame, meta, asCategory, asOrdered) == Returned(frame)
  {
  }

  /** Relabelling a frame holding only some of the metadata's columns gives
      those columns exactly as relabelling the whole frame would. */
  lemma SetValueLabelsOnColumnSubset(frame: Frame, meta: Metadata, cols: set<string>, asCategory: bool, asOrdered: bool)
    requires SetValueLabels(frame, meta, asCategory, asOrdered).Returned?
    ensures SetValueLabels(Restrict(frame, cols), meta, asCategory, asOrdered)
              == Returned(Restrict(SetValueLabels(frame, meta, asCategory, asOrdered).value, cols))
  {
    var sub := Restrict(frame, cols);
    var full := SetValueLabels(frame, meta, asCategory, asOrdered).value;
    var part := SetValueLabels(sub, meta, asCategory, asOrdered);
    assert !part.RaisedTypeError?;
    forall name | name in sub
      ensures part.value[name] == full[name]
    {
      if Resolves(meta, name) {
        ColumnRelabelledIsUnique(frame[name], LabelsOf(meta, name), asCategory, asOrdered, part.value[name], full[name]);
      }
    }
    assert part.value.Keys == Restrict(full, cols).Keys;
    assert part.value == Restrict(full, cols);
  }

  /** A column has only one relabelled form. */
  lemma ColumnRelabelledIsUnique(col: Column, labels: LabelMap, asCategory: bool, asOrdered: bool, a: Column, b: Column)
    requires ColumnRelabelled(col, labels, asCategory, asOrdered, a)
    requires ColumnRelabelled(col, labels, asCategory, asOrdered, b)
    ensures a == b
  {
    assert a.cells == b.cells;
  }

  /** Two frames relabelled in ordered mode from the same frame, one with
      `formats_as_category` set and one without, are the same. */
  lemma OrderedFramesAgree(frame: Frame, meta: Metadata, a: Frame, b: Frame)
    requires a.Keys == frame.Keys && b.Keys == frame.Keys
    requires forall name | name in frame && !Resolves(meta, name) :: a[name] == frame[name] && b[name] == frame[name]
    requires forall name | name in frame && Resolves(meta, name) ::
               ColumnRelabelled(frame[name], LabelsOf(meta, name), true, true, a[name])
               && ColumnRelabelled(frame[name], LabelsOf(meta, name), false, true, b[name])
    ensures a == b
  {
    forall name | name in frame && Resolves(meta, name)
      ensures a[name] == b[name]
    {
      ColumnRelabelledIsUnique(frame[name], LabelsOf(meta, name), true, true, a[name], b[name]);
    }
  }

  /** The ordered mode wins whatever `formats_as_category` says. */
  lemma OrderedModeTakesPrecedence(frame: Frame, meta: Metadata)
    ensures SetValueLabels(frame, meta, true, true) == SetValueLabels(frame, meta, false, true)
  {
    var a := SetValueLabels(frame, meta, true, true);
    var b := SetValueLabels(frame, meta, false, true);
    if a.Returned? && b.Returned? {
      OrderedFramesAgree(frame, meta, a.value, b.value);
    }
  }

  /** A catalog none of whose non-empty label sets is named by a variable's
      format leaves the frame as it was and yields an empty
      `variable_value_labels`, though the label sets are still replaced. */
  lemma CatalogWithoutMatchingFormats(frame: Frame, meta: Metadata, catalog: Metadata, asCategory: bool, asOrdered: bool)
    requires catalog.valueLabels != map[] && meta.variableToLabel != map[]
    requires forall name | name in meta.variableToLabel ::
               meta.variableToLabel[name] !in catalog.valueLabels
               || catalog.valueLabels[meta.variableToLabel[name]] == map[]
    ensures SetCatalogToSas(frame, meta, catalog, asCategory, asOrdered)
              == Returned((frame, meta.(valueLabels := catalog.valueLabels, variableValueLabels := map[])))
  {
    var metadata := meta.(valueLabels := catalog.valueLabels);
    var r := SetValueLabels(frame, metadata, asCategory, asOrdered);
    assert r.Returned? && r.value == frame by {
      assert forall name | name in frame :: !Resolves(metadata, name);
    }
    assert CatalogVariableLabels(metadata.variableToLabel, catalog.valueLabels) == map[];
  }

  /** When the smallest code carrying a label is truthy, `revdict` holds that
      code: the first code met in ascending order is kept. */
  lemma RevDictTakesLeastTruthyCode(ext: LabelMap, cat: Value, least: Value)
    requires least in ext && ext[least] == cat && Truthy(least)
    requires forall t | t in ext && ext[t] == cat :: Le(least, t)
    ensures RevDict(ext)[cat] == least
  {
    RevDictChoosesCode(ext, cat);
    var code := RevDict(ext)[cat];
    assert Le(code, least);
    LeAntisymmetric(code, least);
  }

  /** When the smallest code carrying a label is falsy (`0`, `0.0`, `""`) and
      another code carries the same label, `revdict` does not hold the
      smallest code: the test `not revdict.get(curcat)` lets a later code
      overwrite it. */
  lemma RevDictSkipsFalsyLeastCode(ext: LabelMap, cat: Value, least: Value, other: Value)
    requires least in ext && ext[least] == cat && !Truthy(least)
    requires forall t | t in ext && ext[t] == cat :: Le(least, t)
    requires other in ext && ext[other] == cat && other != least
    ensures RevDict(ext)[cat] != least
  {
    RevDictChoosesCode(ext, cat);
    var code := RevDict(ext)[cat];
    if code == least {
      assert Le(other, least);
      LeAntisymmetric(other, least);
    }
  }

  /** A sequence without repeats has as many distinct elements as entries. */
  lemma {:induction false} DistinctElems(vs: seq<Value>)
    requires forall i, j | 0 <= i < j < |vs| :: vs[i] != vs[j]
    ensures |Elems(vs)| == |vs|
  {
    if |vs| > 0 {
      var tail := vs[1..];
      DistinctElems(tail);
      assert Elems(vs) == {vs[0]} + Elems(tail) by {
        forall v | v in Elems(vs) ensures v in {vs[0]} + Elems(tail) {
          var i :| 0 <= i < |vs| && vs[i] == v;
          if i > 0 { assert tail[i - 1] == v; }
        }
      }
      assert vs[0] !in Elems(tail);
    }
  }

  const Low := Str("low")
  const Medium := Str("medium")
  const High := Str("high")

  /** The label set of the example: 3 is "high", 1 "low", 2 "medium". */
  const LevelLabels: LabelMap := map[Num(3.0) := High, Num(1.0) := Low, Num(2.0) := Medium]

  const LevelColumn := Column([Num(1.0), Num(2.0), Num(3.0), Num(1.0)], Plain)

  /** The column's values are all codes, so the dictionary needs no
      self-mapped entries. */
  lemma LevelColumnNeedsNoExtension()
    ensures ExtendLabels(LevelLabels, LevelColumn.cells) == LevelLabels
    ensures Homogeneous(LevelLabels.Keys + Elems(LevelColumn.cells))
  {
    assert Elems(LevelColumn.cells) == LevelLabels.Keys by {
      assert LevelColumn.cells[0] == Num(1.0) && LevelColumn.cells[1] == Num(2.0) && LevelColumn.cells[2] == Num(3.0);
    }
  }

  lemma LevelCells()
    ensures RelabelCells(LevelColumn.cells, LevelLabels) == [Low, Medium, High, Low]
  {
    LevelColumnNeedsNoExtension();
    var r := RelabelCells(LevelColumn.cells, LevelLabels);
    assert |r| == 4 && r[0] == Low && r[1] == Medium && r[2] == High && r[3] == Low;
  }

  /** A label carried by a single code gets that code. */
  lemma RevDictOfSoleCode(ext: LabelMap, cat: Value, code: Value)
    requires code in ext && ext[code] == cat
    requires forall k | k in ext && ext[k] == cat :: k == code
    ensures RevDict(ext)[cat] == code
  {
    RevDictChoosesCode(ext, cat);
  }

  /** A label carried by a single truthy code gets that code, whatever falsy
      code also carries it. */
  lemma RevDictOfSoleTruthyCode(ext: LabelMap, cat: Value, code: Value)
    requires code in ext && ext[code] == cat && Truthy(code)
    requires forall k | k in ext && ext[k] == cat && Truthy(k) :: k == code
    ensures RevDict(ext)[cat] == code
  {
    RevDictChoosesCode(ext, cat);
  }

  lemma ElemsMember(vs: seq<Value>, v: Value)
    requires v in vs
    ensures v in Elems(vs)
  {
    var i :| 0 <= i < |vs| && vs[i] == v;
  }

  /** Two labels, listed in code order. */
  lemma TwoSortedByCode(cats: seq<Value>, rev: map<Value, Value>, x: Value, y: Value, cx: real, cy: real)
    requires forall c :: c in cats <==> c == x || c == y
    requires forall i, j | 0 <= i < j < |cats| :: cats[i] != cats[j]
    requires forall i | 0 <= i < |cats| :: cats[i] in rev
    requires forall i, j | 0 <= i < j < |cats| :: Lt(rev[cats[i]], rev[cats[j]])
    requires x != y && x in rev && y in rev && rev[x] == Num(cx) && rev[y] == Num(cy) && cx < cy
    ensures cats == [x, y]
  {
    DistinctElems(cats);
    assert Elems(cats) == {x, y} by {
      ElemsMember(cats, x);
      ElemsMember(cats, y);
      forall v | v in Elems(cats) ensures v == x || v == y {
        var i :| 0 <= i < |cats| && cats[i] == v;
        assert cats[i] in cats;
      }
    }
    assert Lt(rev[cats[0]], rev[cats[1]]);
  }

  /** Three labels, listed in code order. */
  lemma ThreeSortedByCode(cats: seq<Value>, rev: map<Value, Value>, x: Value, y: Value, z: Value, cx: real, cy: real, cz: real)
    requires forall c :: c in cats <==> c == x || c == y || c == z
    requires forall i, j | 0 <= i < j < |cats| :: cats[i] != cats[j]
    requires forall i | 0 <= i < |cats| :: cats[i] in rev
    requires forall i, j | 0 <= i < j < |cats| :: Lt(rev[cats[i]], rev[cats[j]])
    requires x != y && y != z && x != z
    requires x in rev && y in rev && z in rev
    requires rev[x] == Num(cx) && rev[y] == Num(cy) && rev[z] == Num(cz) && cx < cy < cz
    ensures cats == [x, y, z]
  {
    DistinctElems(cats);
    assert Elems(cats) == {x, y, z} by {
      ElemsMember(cats, x);
      ElemsMember(cats, y);
      ElemsMember(cats, z);
      forall v | v in Elems(cats) ensures v == x || v == y || v == z {
        var i :| 0 <= i < |cats| && cats[i] == v;
        assert cats[i] in cats;
      }
    }
    assert Lt(rev[cats[0]], rev[cats[1]]) && Lt(rev[cats[1]], rev[cats[2]]);
  }

  lemma ValuesOfThree(ext: LabelMap, x: Value, y: Value, z: Value, cx: real, cy: real, cz: real)
    requires ext == map[Num(cx) := x, Num(cy) := y, Num(cz) := z]
    requires cx < cy < cz
    ensures forall c :: c in ext.Values <==> c == x || c == y || c == z
  {
    assert ext[Num(cx)] == x && ext[Num(cy)] == y && ext[Num(cz)] == z;
    forall c | c in ext.Values ensures c == x || c == y || c == z {
      var k :| k in ext && ext[k] == c;
    }
  }

  lemma ValuesOfTwo(ext: LabelMap, a: Value, b: Value, ca: real, cb: real)
    requires ext == map[Num(0.0) := a, Num(cb) := b, Num(ca) := a]
    requires 0.0 < cb < ca
    ensures forall c :: c in ext.Values <==> c == a || c == b
  {
    assert ext[Num(ca)] == a && ext[Num(cb)] == b;
    forall c | c in ext.Values ensures c == a || c == b {
      var k :| k in ext && ext[k] == c;
    }
  }

  /** Three codes whose labels are listed in code order, whatever the labels'
      own order. */
  lemma SoleKeysOfThree(ext: LabelMap, x: Value, y: Value, z: Value, cx: real, cy: real, cz: real)
    requires ext == map[Num(cx) := x, Num(cy) := y, Num(cz) := z]
    requires x != y && y != z && x != z && cx < cy < cz
    ensures Num(cx) in ext && ext[Num(cx)] == x
    ensures Num(cy) in ext && ext[Num(cy)] == y
    ensures Num(cz) in ext && ext[Num(cz)] == z
    ensures forall k | k in ext && ext[k] == x :: k == Num(cx)
    ensures forall k | k in ext && ext[k] == y :: k == Num(cy)
    ensures forall k | k in ext && ext[k] == z :: k == Num(cz)
  {
  }

  lemma RevDictOfThree(ext: LabelMap, x: Value, y: Value, z: Value, cx: real, cy: real, cz: real)
    requires ext == map[Num(cx) := x, Num(cy) := y, Num(cz) := z]
    requires x != y && y != z && x != z && cx < cy < cz
    ensures x in RevDict(ext) && RevDict(ext)[x] == Num(cx)
    ensures y in RevDict(ext) && RevDict(ext)[y] == Num(cy)
    ensures z in RevDict(ext) && RevDict(ext)[z] == Num(cz)
  {
    SoleKeysOfThree(ext, x, y, z, cx, cy, cz);
    RevDictOfSoleCode(ext, x, Num(cx));
    RevDictOfSoleCode(ext, y, Num(cy));
    RevDictOfSoleCode(ext, z, Num(cz));
  }

  lemma OrderedThreeLevels(ext: LabelMap, x: Value, y: Value, z: Value, cx: real, cy: real, cz: real)
    requires ext == map[Num(cx) := x, Num(cy) := y, Num(cz) := z]
    requires x != y && y != z && x != z && cx < cy < cz
    ensures OrderedCategories(ext) == [x, y, z]
  {
    RevDictOfThree(ext, x, y, z, cx, cy, cz);
    ValuesOfThree(ext, x, y, z, cx, cy, cz);
    var cats := OrderedCategories(ext);
    ThreeSortedByCode(cats, RevDict(ext), x, y, z, cx, cy, cz);
  }

  /** Ordered mode on the example: the labels replace the codes and the
      categories follow the codes, not the label text. */
  lemma OrderedLevelsExample()
    ensures RelabelColumn(LevelColumn, LevelLabels, false, true)
              == Returned(Column([Low, Medium, High, Low], OrderedCategorical([Low, Medium, High])))
  {
    LevelColumnNeedsNoExtension();
    LevelCells();
    OrderedThreeLevels(LevelLabels, Low, Medium, High, 1.0, 2.0, 3.0);
  }

  /** Unordered categorical mode on the same example. */
  lemma CategoricalLevelsExample()
    ensures RelabelColumn(LevelColumn, LevelLabels, true, false)
              == Returned(Column([Low, Medium, High, Low], Categorical))
  {
    LevelCells();
  }

  lemma SoleKeysOfFalsyFirst(ext: LabelMap, a: Value, b: Value, ca: real, cb: real)
    requires ext == map[Num(0.0) := a, Num(cb) := b, Num(ca) := a]
    requires a != b && 0.0 < cb < ca
    ensures Num(ca) in ext && ext[Num(ca)] == a && Truthy(Num(ca))
    ensures Num(cb) in ext && ext[Num(cb)] == b
    ensures forall k | k in ext && ext[k] == a && Truthy(k) :: k == Num(ca)
    ensures forall k | k in ext && ext[k] == b :: k == Num(cb)
  {
  }

  lemma RevDictOfFalsyFirst(ext: LabelMap, a: Value, b: Value, ca: real, cb: real)
    requires ext == map[Num(0.0) := a, Num(cb) := b, Num(ca) := a]
    requires a != b && 0.0 < cb < ca
    ensures a in RevDict(ext) && RevDict(ext)[a] == Num(ca)
    ensures b in RevDict(ext) && RevDict(ext)[b] == Num(cb)
  {
    SoleKeysOfFalsyFirst(ext, a, b, ca, cb);
    RevDictOfSoleTruthyCode(ext, a, Num(ca));
    RevDictOfSoleCode(ext, b, Num(cb));
  }

  /** Codes 0 and `ca` carry label `a`, code `cb` label `b`, with
      `0 < cb < ca`. The falsy code 0 is overwritten by `ca`, so `b` comes
      before `a`, although the smallest code of all carries `a`. */
  lemma FalsyCodeReordersCategories(ext: LabelMap, a: Value, b: Value, ca: real, cb: real)
    requires ext == map[Num(0.0) := a, Num(cb) := b, Num(ca) := a]
    requires a != b && 0.0 < cb < ca
    ensures OrderedCategories(ext) == [b, a]
  {
    RevDictOfFalsyFirst(ext, a, b, ca, cb);
    ValuesOfTwo(ext, a, b, ca, cb);
    var cats := OrderedCategories(ext);
    TwoSortedByCode(cats, RevDict(ext), b, a, cb, ca);
  }
}
