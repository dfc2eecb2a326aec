/** Cell values of a data frame and of value-label dictionaries, with the
    parts of Python's semantics the label code relies on: equality (where
    `1 == 1.0`), truthiness, and the `<` order used by `list.sort`. */
module Values {

  /** A Python scalar as it appears in a frame cell or a label dictionary.
      Every Python number (int or float) is a `Num`; `1` and `1.0` are the
      same value, as they are the same dictionary key in Python. */
  datatype Value = Num(x: real) | Str(s: string)

  /** Python truthiness: `0`, `0.0` and `""` are false, everything else true. */
  predicate Truthy(v: Value) {
    match v
    case Num(x) => x != 0.0
    case Str(s) => s != []
  }

  /** Python can order two values only when both are numbers or both strings. */
  predicate SameKind(a: Value, b: Value) {
    a.Num? == b.Num?
  }

  /** All the values can be sorted together without a `TypeError`. */
  predicate Homogeneous(vs: set<Value>) {
    forall a, b | a in vs && b in vs :: SameKind(a, b)
  }

  /** Python's string order: lexicographic on code points. */
  predicate LexLe(a: string, b: string) {
    |a| == 0 || (|b| > 0 && (a[0] < b[0] || (a[0] == b[0] && LexLe(a[1..], b[1..]))))
  }

  /** Python's `<=` on values of the same kind. Numbers are put before
      strings only to make the order total; the label code reports a
      `TypeError` before it would compare values of different kinds. */
  predicate Le(a: Value, b: Value) {
    match (a, b)
    case (Num(x), Num(y)) => x <= y
    case (Str(s), Str(t)) => LexLe(s, t)
    case (Num(_), Str(_)) => true
    case (Str(_), Num(_)) => false
  }

  predicate Lt(a: Value, b: Value) {
    Le(a, b) && a != b
  }

  lemma {:induction false} LexLeReflexive(a: string)
    ensures LexLe(a, a)
  {
    if |a| > 0 {
      LexLeReflexive(a[1..]);
    }
  }

  lemma {:induction false} LexLeTotal(a: string, b: string)
    ensures LexLe(a, b) || LexLe(b, a)
  {
    if |a| > 0 && |b| > 0 && a[0] == b[0] {
      LexLeTotal(a[1..], b[1..]);
    }
  }

  lemma {:induction false} LexLeAntisymmetric(a: string, b: string)
    requires LexLe(a, b) && LexLe(b, a)
    ensures a == b
  {
    if |a| > 0 && |b| > 0 {
      LexLeAntisymmetric(a[1..], b[1..]);
      assert a == [a[0]] + a[1..];
      assert b == [b[0]] + b[1..];
    }
  }

  lemma {:induction false} LexLeTransitive(a: string, b: string, c: string)
    requires LexLe(a, b) && LexLe(b, c)
    ensures LexLe(a, c)
  {
    if |a| > 0 && |b| > 0 && |c| > 0 && a[0] == b[0] && b[0] == c[0] {
      LexLeTransitive(a[1..], b[1..], c[1..]);
    }
  }

  lemma LeReflexive(a: Value)
    ensures Le(a, a)
  {
    if a.Str? {
      LexLeReflexive(a.s);
    }
  }

  lemma LeTotal(a: Value, b: Value)
    ensures Le(a, b) || Le(b, a)
  {
    if a.Str? && b.Str? {
      LexLeTotal(a.s, b.s);
    }
  }

  lemma LeAntisymmetric(a: Value, b: Value)
    requires Le(a, b) && Le(b, a)
    ensures a == b
  {
    if a.Str? && b.Str? {
      LexLeAntisymmetric(a.s, b.s);
    }
  }

  lemma LeTransitive(a: Value, b: Value, c: Value)
    requires Le(a, b) && Le(b, c)
    ensures Le(a, c)
  {
    if a.Str? && b.Str? && c.Str? {
      LexLeTransitive(a.s, b.s, c.s);
    }
  }

  /** Every non-empty finite set of values has a least element. */
  lemma {:induction false} LeastExists(vs: set<Value>)
    requires vs != {}
    ensures exists m :: m in vs && forall y | y in vs :: Le(m, y)
    decreases |vs|
  {
    var a :| a in vs;
    if vs == {a} {
      LeReflexive(a);
      assert forall y | y in vs :: Le(a, y);
    } else {
      var rest := vs - {a};
      LeastExists(rest);
      var m :| m in rest && forall y | y in rest :: Le(m, y);
      LeTotal(a, m);
      if Le(m, a) {
        assert forall y | y in vs :: Le(m, y);
      } else {
        LeReflexive(a);
        forall y | y in vs
          ensures Le(a, y)
        {
          if y != a {
            LeTransitive(a, m, y);
          }
        }
      }
    }
  }

  /** The least element of a non-empty set. */
  function Least(vs: set<Value>): (m: Value)
    requires vs != {}
    ensures m in vs
    ensures forall y | y in vs :: Le(m, y)
  {
    LeastExists(vs);
    forall a, b | Le(a, b) && Le(b, a) ensures a == b {
      LeAntisymmetric(a, b);
    }
    var m :| m in vs && forall y | y in vs :: Le(m, y);
    m
  }

  /** The elements are in strictly increasing order. */
  predicate StrictlySorted(vs: seq<Value>) {
    forall i, j | 0 <= i < j < |vs| :: Lt(vs[i], vs[j])
  }

  /** The elements of a finite set in ascending order, as Python's
      `sorted(...)` returns them for a set of values of one kind. */
  function SortedElems(vs: set<Value>): (r: seq<Value>)
    ensures |r| == |vs|
    ensures forall i | 0 <= i < |r| :: r[i] in vs
    ensures forall v | v in vs :: v in r
    ensures StrictlySorted(r)
    decreases |vs|
  {
    if vs == {} then []
    else
      var m := Least(vs);
      var tail := SortedElems(vs - {m});
      assert forall i | 0 <= i < |tail| :: Lt(m, tail[i]);
      [m] + tail
  }
}
