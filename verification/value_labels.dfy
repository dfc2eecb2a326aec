/** Value-label resolution and catalog substitution of
    `pyreadstat/pyfunctions.py`: `set_value_labels` replaces coded values by
    their labels (optionally building an ordered category list from the raw
    codes) and `set_catalog_to_sas` swaps in the label sets of a SAS catalog
    before delegating to it.

    Frames, columns and metadata are immutable values, so the source's
    clone-then-transform discipline holds by construction: every result is a
    new value and the arguments cannot be changed. */
module ValueLabels {
  import opened Values

  /** A value-label dictionary: raw code to label. */
  type LabelMap = map<Value, Value>

  /** The dtype a relabelled column ends up with. */
  datatype Kind =
    | Plain
    | Categorical
    | OrderedCategorical(categories: seq<Value>)

  datatype Column = Column(cells: seq<Value>, kind: Kind)

  /** A data frame: column name to column. */
  type Frame = map<string, Column>

  /** The metadata fields the label code reads or writes; `columnNames` stands
      for all the fields it only copies. */
  datatype Metadata = Metadata(
    columnNames: seq<string>,
    variableToLabel: map<string, string>,
    valueLabels: map<string, LabelMap>,
    variableValueLabels: map<string, LabelMap>)

  /** A Python call that either returns or raises `TypeError` (the only
      exception the modelled code can raise: sorting codes of mixed kinds). */
  datatype PyResult<+T> = Returned(value: T) | RaisedTypeError {
    predicate IsFailure() { RaisedTypeError? }

    function PropagateFailure<U>(): PyResult<U>
      requires RaisedTypeError?
    {
      RaisedTypeError
    }

    function Extract(): T
      requires Returned?
    {
      value
    }
  }

  /** The distinct values of a column or of a list of codes. */
  function Elems(vs: seq<Value>): set<Value> {
    set i | 0 <= i < |vs| :: vs[i]
  }

  /** The label dictionary of a variable, when its format name resolves to a
      non-empty one (the truthiness test `if labels:`). */
  predicate Resolves(meta: Metadata, name: string) {
    && name in meta.variableToLabel
    && meta.variableToLabel[name] in meta.valueLabels
    && meta.valueLabels[meta.variableToLabel[name]] != map[]
  }

  function LabelsOf(meta: Metadata, name: string): LabelMap
    requires Resolves(meta, name)
  {
    meta.valueLabels[meta.variableToLabel[name]]
  }

  /** The copy of a label dictionary extended so that every value of the
      column not already a key maps to itself. */
  function ExtendLabels(labels: LabelMap, cells: seq<Value>): (ext: LabelMap)
    ensures ext.Keys == labels.Keys + Elems(cells)
    ensures forall k | k in labels :: ext[k] == labels[k]
    ensures forall k | k in ext && k !in labels :: ext[k] == k
  {
    labels + map v | v in Elems(cells) && v !in labels :: v
  }

  /** The value a cell takes after relabelling: its label, or itself. */
  function LabelOrSelf(labels: LabelMap, v: Value): Value {
    if v in labels then labels[v] else v
  }

  /** Each cell replaced by its label, unmatched cells kept. */
  ghost predicate CellsRelabelled(before: seq<Value>, labels: LabelMap, after: seq<Value>) {
    && |after| == |before|
    && forall i | 0 <= i < |before| :: after[i] == LabelOrSelf(labels, before[i])
  }

  // ---------------------------------------------------------------------
  // Ordered categories

  /** One pass of the loop building `revdict`: a label keeps its code unless
      it has none yet or the code it has is falsy. */
  function RevStep(rev: map<Value, Value>, code: Value, ext: LabelMap): map<Value, Value>
    requires code in ext
  {
    var cat := ext[code];
    if cat in rev && Truthy(rev[cat]) then rev else rev[cat := code]
  }

  /** `revdict` after the loop has visited `codes` in order. */
  function RevFold(codes: seq<Value>, ext: LabelMap): (rev: map<Value, Value>)
    requires forall i | 0 <= i < |codes| :: codes[i] in ext
    ensures forall i | 0 <= i < |codes| :: ext[codes[i]] in rev
    ensures forall cat | cat in rev :: rev[cat] in codes && ext[rev[cat]] == cat
    decreases |codes|
  {
    if |codes| == 0 then map[]
    else RevStep(RevFold(codes[..|codes| - 1], ext), codes[|codes| - 1], ext)
  }

  /** `revdict` for a whole extended dictionary, visiting its codes in
      ascending order. */
  function RevDict(ext: LabelMap): (rev: map<Value, Value>)
    ensures rev.Keys == ext.Values
    ensures forall cat | cat in rev :: rev[cat] in ext && ext[rev[cat]] == cat
  {
    var codes := SortedElems(ext.Keys);
    var rev := RevFold(codes, ext);
    assert forall cat | cat in ext.Values :: cat in rev by {
      forall cat | cat in ext.Values ensures cat in rev {
        var k :| k in ext && ext[k] == cat;
        var i :| 0 <= i < |codes| && codes[i] == k;
      }
    }
    rev
  }

  /** The code the source picks for `cat` among `codes`: the least truthy
      code carrying the label when there is one, otherwise (every such code
      is falsy) the greatest. This is the declarative reading of the loop's
      `if not revdict.get(curcat)` test. */
  ghost predicate ChosenCode(ext: LabelMap, codes: set<Value>, cat: Value, code: Value)
    requires codes <= ext.Keys
  {
    && code in codes
    && ext[code] == cat
    && if exists t | t in codes && ext[t] == cat :: Truthy(t) then
         Truthy(code) && forall t | t in codes && ext[t] == cat && Truthy(t) :: Le(code, t)
       else
         forall t | t in codes && ext[t] == cat :: Le(t, code)
  }

  /** Position `j` holds the first truthy code labelled `cat` in `codes`, or,
      when every code labelled `cat` is falsy, the last of them. */
  ghost predicate Picked(ext: LabelMap, codes: seq<Value>, cat: Value, j: int)
    requires forall i | 0 <= i < |codes| :: codes[i] in ext
  {
    && 0 <= j < |codes|
    && ext[codes[j]] == cat
    && if Truthy(codes[j]) then
         forall i | 0 <= i < j && ext[codes[i]] == cat :: !Truthy(codes[i])
       else
         forall i | 0 <= i < |codes| && i != j && ext[codes[i]] == cat :: i < j && !Truthy(codes[i])
  }

  /** The loop leaves in `revdict[cat]` the code at the `Picked` position. */
  lemma {:induction false} RevFoldPicks(codes: seq<Value>, ext: LabelMap, cat: Value) returns (j: int)
    requires forall i | 0 <= i < |codes| :: codes[i] in ext
    requires cat in RevFold(codes, ext)
    ensures Picked(ext, codes, cat, j) && RevFold(codes, ext)[cat] == codes[j]
    decreases |codes|
  {
    var n := |codes| - 1;
    var pre := codes[..n];
    var k := codes[n];
    var acc := RevFold(pre, ext);
    assert forall i | 0 <= i < n :: pre[i] == codes[i];
    if cat in acc {
      var p := RevFoldPicks(pre, ext, cat);
      if cat != ext[k] || Truthy(acc[cat]) {
        j := p;
      } else {
        j := n;
      }
    } else {
      forall i | 0 <= i < n ensures ext[codes[i]] != cat {
        assert ext[pre[i]] in acc;
      }
      j := n;
    }
  }

  /** In ascending codes the `Picked` code is the `ChosenCode`. */
  lemma PickedIsChosen(ext: LabelMap, codes: seq<Value>, cat: Value, j: int)
    requires StrictlySorted(codes)
    requires forall i | 0 <= i < |codes| :: codes[i] in ext
    requires Picked(ext, codes, cat, j)
    ensures Elems(codes) <= ext.Keys
    ensures ChosenCode(ext, Elems(codes), cat, codes[j])
  {
    LeReflexive(codes[j]);
    if Truthy(codes[j]) {
      forall t | t in Elems(codes) && ext[t] == cat && Truthy(t) ensures Le(codes[j], t) {
        var i :| 0 <= i < |codes| && codes[i] == t;
      }
    } else {
      forall t | t in Elems(codes) && ext[t] == cat ensures Le(t, codes[j]) && !Truthy(t) {
        var i :| 0 <= i < |codes| && codes[i] == t;
      }
    }
  }

  /** `revdict` maps every label to its `ChosenCode`. */
  lemma RevDictChoosesCode(ext: LabelMap, cat: Value)
    requires cat in ext.Values
    ensures ChosenCode(ext, ext.Keys, cat, RevDict(ext)[cat])
  {
    var codes := SortedElems(ext.Keys);
    assert Elems(codes) == ext.Keys;
    var j := RevFoldPicks(codes, ext, cat);
    PickedIsChosen(ext, codes, cat, j);
  }

  /** The labels picked out of `codes`, in code order, keeping a label at the
      code `rev` chose for it. */
  function CategoriesFrom(codes: seq<Value>, ext: LabelMap, rev: map<Value, Value>): (cats: seq<Value>)
    requires StrictlySorted(codes)
    requires forall i | 0 <= i < |codes| :: codes[i] in ext && ext[codes[i]] in rev
    ensures forall i | 0 <= i < |cats| :: cats[i] in rev && rev[cats[i]] in codes
    ensures forall i | 0 <= i < |codes| :: rev[ext[codes[i]]] == codes[i] ==> ext[codes[i]] in cats
    ensures forall i, j | 0 <= i < j < |cats| :: Lt(rev[cats[i]], rev[cats[j]])
    decreases |codes|
  {
    if |codes| == 0 then []
    else
      var cat := ext[codes[0]];
      var tail := CategoriesFrom(codes[1..], ext, rev);
      assert forall i | 0 <= i < |tail| :: Lt(codes[0], rev[tail[i]]) by {
        forall i | 0 <= i < |tail| ensures Lt(codes[0], rev[tail[i]]) {
          var j :| 0 <= j < |codes[1..]| && codes[1..][j] == rev[tail[i]];
          assert codes[j + 1] == rev[tail[i]];
        }
      }
      assert forall i | 1 <= i < |codes| :: codes[i] == codes[1..][i - 1];
      if rev[cat] == codes[0] then [cat] + tail else tail
  }

  /** Given every code in ascending order and a `revdict` with a code for
      every label, `CategoriesFrom` picks out every label. */
  lemma CategoriesCoverLabels(codes: seq<Value>, ext: LabelMap, rev: map<Value, Value>)
    requires StrictlySorted(codes)
    requires forall i | 0 <= i < |codes| :: codes[i] in ext && ext[codes[i]] in rev
    requires forall k | k in ext :: k in codes
    requires rev.Keys == ext.Values
    requires forall c | c in rev :: rev[c] in ext && ext[rev[c]] == c
    ensures forall c :: c in CategoriesFrom(codes, ext, rev) <==> c in ext.Values
  {
    var cats := CategoriesFrom(codes, ext, rev);
    forall c | c in ext.Values ensures c in cats {
      var p :| 0 <= p < |codes| && codes[p] == rev[c];
      assert ext[codes[p]] == c;
    }
  }

  /** The labels `CategoriesFrom` picks are distinct, being sorted by
      distinct codes. */
  lemma CategoriesDistinct(codes: seq<Value>, ext: LabelMap, rev: map<Value, Value>)
    requires StrictlySorted(codes)
    requires forall i | 0 <= i < |codes| :: codes[i] in ext && ext[codes[i]] in rev
    ensures var cats := CategoriesFrom(codes, ext, rev);
            forall i, j | 0 <= i < j < |cats| :: cats[i] != cats[j]
  {
    var cats := CategoriesFrom(codes, ext, rev);
    forall i, j | 0 <= i < j < |cats| ensures cats[i] != cats[j] {
      assert Lt(rev[cats[i]], rev[cats[j]]);
    }
  }

  /** The category list of an ordered column: every label of the extended
      dictionary once, sorted by the code `revdict` holds for it. */
  function OrderedCategories(ext: LabelMap): (cats: seq<Value>)
    ensures forall c :: c in cats <==> c in ext.Values
    ensures forall i, j | 0 <= i < j < |cats| :: cats[i] != cats[j]
    ensures forall i | 0 <= i < |cats| :: cats[i] in RevDict(ext)
    ensures forall i, j | 0 <= i < j < |cats| :: Lt(RevDict(ext)[cats[i]], RevDict(ext)[cats[j]])
  {
    var codes := SortedElems(ext.Keys);
    var rev := RevDict(ext);
    CategoriesCoverLabels(codes, ext, rev);
    CategoriesDistinct(codes, ext, rev);
    CategoriesFrom(codes, ext, rev)
  }

  // ---------------------------------------------------------------------
  // Relabelling one column and a whole frame

  /** `replace_strict` with the extended dictionary: every cell looked up. */
  function RelabelCells(cells: seq<Value>, labels: LabelMap): (r: seq<Value>)
    ensures CellsRelabelled(cells, labels, r)
  {
    var ext := ExtendLabels(labels, cells);
    seq(|cells|, i requires 0 <= i < |cells| => ext[cells[i]])
  }

  /** The dtype and contents one relabelled column must have. */
  ghost predicate ColumnRelabelled(before: Column, labels: LabelMap, asCategory: bool, asOrdered: bool, after: Column) {
    && CellsRelabelled(before.cells, labels, after.cells)
    && (asOrdered ==> after.kind.OrderedCategorical?
                      && after.kind.categories == OrderedCategories(ExtendLabels(labels, before.cells)))
    && (!asOrdered && asCategory ==> after.kind == Categorical)
    && (!asOrdered && !asCategory ==> after.kind == Plain)
  }

  /** The labels of the extended dictionary: the original labels and the
      unmatched cell values. */
  lemma ExtendedLabelValues(labels: LabelMap, cells: seq<Value>)
    ensures forall c :: c in ExtendLabels(labels, cells).Values <==>
              (c in labels.Values || (c in Elems(cells) && c !in labels))
  {
    var ext := ExtendLabels(labels, cells);
    forall c | c in Elems(cells) && c !in labels ensures c in ext.Values {
      assert ext[c] == c;
    }
  }

  /** Relabels one column (the body of the `if var_name in df_copy.columns`
      branch). Only the ordered mode can raise: sorting the codes raises
      `TypeError` when numbers and strings are mixed. */
  function RelabelColumn(col: Column, labels: LabelMap, asCategory: bool, asOrdered: bool): (r: PyResult<Column>)
    ensures r.RaisedTypeError? <==> asOrdered && !Homogeneous(labels.Keys + Elems(col.cells))
    ensures r.Returned? ==> ColumnRelabelled(col, labels, asCategory, asOrdered, r.value)
  {
    var cells := RelabelCells(col.cells, labels);
    if asOrdered then
      if !Homogeneous(labels.Keys + Elems(col.cells)) then RaisedTypeError
      else Returned(Column(cells, OrderedCategorical(OrderedCategories(ExtendLabels(labels, col.cells)))))
    else if asCategory then Returned(Column(cells, Categorical))
    else Returned(Column(cells, Plain))
  }

  /** The categories of an ordered column are the labels of the dictionary
      together with the column values that have no label. */
  lemma OrderedColumnCategories(col: Column, labels: LabelMap, asCategory: bool)
    requires RelabelColumn(col, labels, asCategory, true).Returned?
    ensures forall c :: c in RelabelColumn(col, labels, asCategory, true).value.kind.categories <==>
              (c in labels.Values || (c in Elems(col.cells) && c !in labels))
  {
    ExtendedLabelValues(labels, col.cells);
  }

  /** Some column that would be relabelled raises. */
  predicate AnyRaises(frame: Frame, meta: Metadata, asCategory: bool, asOrdered: bool) {
    exists name | name in frame && Resolves(meta, name) ::
      RelabelColumn(frame[name], LabelsOf(meta, name), asCategory, asOrdered).RaisedTypeError?
  }

  /** `set_value_labels`: relabel every column of the frame whose format name
      resolves to a non-empty label dictionary; every other column is kept. */
  function SetValueLabels(frame: Frame, meta: Metadata, asCategory: bool, asOrdered: bool): (r: PyResult<Frame>)
    ensures r.RaisedTypeError? <==>
              asOrdered && exists name | name in frame && Resolves(meta, name) ::
                !Homogeneous(LabelsOf(meta, name).Keys + Elems(frame[name].cells))
    ensures r.Returned? ==> r.value.Keys == frame.Keys
    ensures r.Returned? ==> forall name | name in frame && !Resolves(meta, name) :: r.value[name] == frame[name]
    ensures r.Returned? ==> forall name | name in frame && Resolves(meta, name) ::
              ColumnRelabelled(frame[name], LabelsOf(meta, name), asCategory, asOrdered, r.value[name])
  {
    if meta.valueLabels == map[] || meta.variableToLabel == map[] then Returned(frame)
    else if AnyRaises(frame, meta, asCategory, asOrdered) then RaisedTypeError
    else
      Returned(map name | name in frame ::
        if Resolves(meta, name) then RelabelColumn(frame[name], LabelsOf(meta, name), asCategory, asOrdered).value
        else frame[name])
  }

  /** The `variable_value_labels` rebuilt from a catalog: each variable whose
      format name names a non-empty catalog dictionary, mapped to it. */
  function CatalogVariableLabels(variableToLabel: map<string, string>, catalog: map<string, LabelMap>): (vvl: map<string, LabelMap>)
    ensures forall name :: name in vvl <==>
              name in variableToLabel && variableToLabel[name] in catalog && catalog[variableToLabel[name]] != map[]
    ensures forall name | name in vvl :: vvl[name] == catalog[variableToLabel[name]]
  {
    map name | name in variableToLabel && variableToLabel[name] in catalog && catalog[variableToLabel[name]] != map[]
      :: catalog[variableToLabel[name]]
  }

  /** `set_catalog_to_sas`: when the catalog has label sets and the data has
      format names, replace the label sets by the catalog's, relabel the frame
      with them and rebuild `variable_value_labels`; otherwise return the
      frame and metadata as they are. */
  function SetCatalogToSas(frame: Frame, meta: Metadata, catalog: Metadata, asCategory: bool, asOrdered: bool): (r: PyResult<(Frame, Metadata)>)
    ensures !(catalog.valueLabels != map[] && meta.variableToLabel != map[]) ==> r == Returned((frame, meta))
    ensures catalog.valueLabels != map[] && meta.variableToLabel != map[] ==>
              && (r.RaisedTypeError? <==> SetValueLabels(frame, meta.(valueLabels := catalog.valueLabels), asCategory, asOrdered).RaisedTypeError?)
              && (r.Returned? ==>
                    && r.value.0 == SetValueLabels(frame, meta.(valueLabels := catalog.valueLabels), asCategory, asOrdered).value
                    && r.value.1.valueLabels == catalog.valueLabels
                    && r.value.1.variableToLabel == meta.variableToLabel
                    && r.value.1.columnNames == meta.columnNames
                    && (forall name :: name in r.value.1.variableValueLabels <==>
                          name in meta.variableToLabel && Resolves(r.value.1, name))
                    && (forall name | name in r.value.1.variableValueLabels ::
                          r.value.1.variableValueLabels[name] == catalog.valueLabels[meta.variableToLabel[name]]))
  {
    if catalog.valueLabels != map[] && meta.variableToLabel != map[] then
      var metadata := meta.(valueLabels := catalog.valueLabels);
      var df :- SetValueLabels(frame, metadata, asCategory, asOrdered);
      Returned((df, metadata.(variableValueLabels := CatalogVariableLabels(metadata.variableToLabel, catalog.valueLabels))))
    else
      Returned((frame, meta))
  }
}
