/**
 * The column records of an IES table (IesColumn, ColumnType) and the order
 * the catalog is sorted into (IesColumn.CompareTo, then List.Sort).
 *
 * CompareTo compares positions when the two types are equal or are String and
 * String2, and compares the type ordinals otherwise. That is the same as
 * comparing the key (group, position) where String2 falls into String's
 * group, so CompareTo is a total preorder and the sorted catalog is every
 * Float column by position, then every String/String2 column by position
 * (then any other ordinal, by ordinal and position).
 */
module Columns {
  import opened Primitives

  /** ColumnType is an enum cast from the raw u16, so any ordinal can occur. */
  type ColumnType = uint16

  const FLOAT: ColumnType := 0
  const STRING: ColumnType := 1
  const STRING2: ColumnType := 2

  /** One catalog entry: display name, secondary name, type and declared position. */
  datatype Column = Column(name: seq<byte>, name2: seq<byte>, kind: ColumnType, position: uint16)

  /**
   * IesColumn.IsNumber: a Float column holds a 4-byte number in each row,
   * every other one a text. The numeric columns are exactly those of the
   * first sort group.
   */
  predicate IsNumber(c: Column): (r: bool)
    ensures r <==> Group(c.kind) == 0
  {
    c.kind == FLOAT
  }

  /** A numeric column compares before every text column, whatever the positions. */
  lemma NumbersCompareFirst(a: Column, b: Column)
    requires IsNumber(a) && !IsNumber(b)
    ensures CompareTo(a, b) < 0 && CompareTo(b, a) > 0
  {
  }

  function Names(cols: seq<Column>): (r: seq<seq<byte>>)
    ensures |r| == |cols| && forall i :: 0 <= i < |cols| ==> r[i] == cols[i].name
  {
    seq(|cols|, i requires 0 <= i < |cols| => cols[i].name)
  }

  /** The ordering group of a type: String2 sorts with String; every other ordinal is its own group. */
  function Group(kind: ColumnType): nat {
    if kind == STRING2 then STRING as nat else kind as nat
  }

  /** Strictly before in the order (group, position). */
  predicate KeyLess(a: Column, b: Column) {
    Group(a.kind) < Group(b.kind) || (Group(a.kind) == Group(b.kind) && a.position < b.position)
  }

  predicate SameKey(a: Column, b: Column) {
    Group(a.kind) == Group(b.kind) && a.position == b.position
  }

  /**
   * IesColumn.CompareTo. Positions are compared with UInt16.CompareTo, which
   * returns the difference of the two values.
   */
  function CompareTo(a: Column, b: Column): (r: int)
    ensures r < 0 <==> KeyLess(a, b)
    ensures r == 0 <==> SameKey(a, b)
    ensures 0 < r <==> KeyLess(b, a)
  {
    if a.kind == b.kind || (a.kind == STRING && b.kind == STRING2) || (a.kind == STRING2 && b.kind == STRING) then
      a.position - b.position
    else if a.kind < b.kind then -1
    else 1
  }

  /**
   * CompareTo is a total preorder: reflexive, sign-antisymmetric, transitive
   * for both <= 0 and < 0, and total; so List.Sort sorts consistently.
   */
  lemma CompareToIsTotalPreorder(a: Column, b: Column, c: Column)
    ensures CompareTo(a, a) == 0
    ensures CompareTo(a, b) < 0 <==> CompareTo(b, a) > 0
    ensures CompareTo(a, b) == 0 <==> CompareTo(b, a) == 0
    ensures CompareTo(a, b) <= 0 && CompareTo(b, c) <= 0 ==> CompareTo(a, c) <= 0
    ensures CompareTo(a, b) < 0 && CompareTo(b, c) < 0 ==> CompareTo(a, c) < 0
    ensures CompareTo(a, b) <= 0 || CompareTo(b, a) <= 0
  {
  }

  /** Sorted by CompareTo: no later column compares less than an earlier one. */
  predicate Sorted(s: seq<Column>) {
    forall i, j :: 0 <= i < j < |s| ==> !KeyLess(s[j], s[i])
  }

  /** Column names pairwise different, stated over any two indices. */
  predicate UniqueNames(s: seq<Column>) {
    forall i, j :: 0 <= i < |s| && 0 <= j < |s| && i != j ==> s[i].name != s[j].name
  }

  lemma UniqueNamesDistinct(s: seq<Column>)
    ensures UniqueNames(s) <==> Distinct(Names(s))
  {
    if Distinct(Names(s)) {
      forall i, j | 0 <= i < |s| && 0 <= j < |s| && i != j
        ensures s[i].name != s[j].name
      {
        if i < j { assert Names(s)[i] != Names(s)[j]; } else { assert Names(s)[j] != Names(s)[i]; }
      }
    }
  }

  /** In a sorted catalog every Float column comes before every String or String2 column. */
  lemma NumbersBeforeText(s: seq<Column>, i: int, j: int)
    requires Sorted(s)
    requires 0 <= i < |s| && 0 <= j < |s|
    requires IsNumber(s[j]) && (s[i].kind == STRING || s[i].kind == STRING2)
    ensures j < i
  {
  }

  /** Swapping two neighbours keeps the same columns. */
  lemma SwapNeighbours(a: seq<Column>, j: int)
    requires 0 < j < |a|
    ensures multiset(a[j - 1 := a[j]][j := a[j - 1]]) == multiset(a)
  {
    assert a == a[..j - 1] + [a[j - 1], a[j]] + a[j + 1..];
    assert a[j - 1 := a[j]][j := a[j - 1]] == a[..j - 1] + [a[j], a[j - 1]] + a[j + 1..];
  }

  /** With unique names no column occurs twice. */
  lemma {:induction false} OccursAtMostOnce(s: seq<Column>, c: Column)
    requires UniqueNames(s)
    ensures multiset(s)[c] <= 1
    decreases |s|
  {
    if s != [] {
      var init := s[..|s| - 1];
      assert s == init + [s[|s| - 1]];
      assert UniqueNames(init) by {
        forall i, j | 0 <= i < |init| && 0 <= j < |init| && i != j
          ensures init[i].name != init[j].name
        {
          assert init[i] == s[i] && init[j] == s[j];
        }
      }
      OccursAtMostOnce(init, c);
    }
  }

  /** A column at two different places occurs at least twice. */
  lemma OccursTwice(s: seq<Column>, i: int, j: int)
    requires 0 <= i < j < |s| && s[i] == s[j]
    ensures multiset(s)[s[i]] >= 2
  {
    assert s == s[..j] + [s[j]] + s[j + 1..];
    assert s[i] in s[..j];
  }

  /** Any reordering of columns with unique names has unique names. */
  lemma PermutationKeepsUniqueNames(a: seq<Column>, b: seq<Column>)
    requires multiset(a) == multiset(b) && UniqueNames(a)
    ensures UniqueNames(b)
  {
    forall i, j | 0 <= i < |b| && 0 <= j < |b| && i != j
      ensures b[i].name != b[j].name
    {
      if b[i] == b[j] {
        OccursAtMostOnce(a, b[i]);
        if i < j { OccursTwice(b, i, j); } else { OccursTwice(b, j, i); }
      } else {
        assert b[i] in multiset(a) && b[j] in multiset(a);
        var p :| 0 <= p < |a| && a[p] == b[i];
        var q :| 0 <= q < |a| && a[q] == b[j];
        assert a[p].name != a[q].name;
      }
    }
  }

  /** The number of numeric columns in a catalog. */
  function NumberCount(s: seq<Column>): (n: nat)
    ensures n <= |s|
  {
    if s == [] then 0 else (if IsNumber(s[0]) then 1 else 0) + NumberCount(s[1..])
  }

  lemma {:induction false} NumberCountAppend(a: seq<Column>, b: seq<Column>)
    ensures NumberCount(a + b) == NumberCount(a) + NumberCount(b)
    decreases |a|
  {
    if a == [] {
      assert a + b == b;
    } else {
      assert (a + b)[1..] == a[1..] + b;
      NumberCountAppend(a[1..], b);
    }
  }

  /** Reordering a catalog keeps its number of numeric columns. */
  lemma {:induction false} NumberCountPermutation(a: seq<Column>, b: seq<Column>)
    requires multiset(a) == multiset(b)
    ensures NumberCount(a) == NumberCount(b)
    decreases |a|
  {
    if a == [] {
      assert |b| == |multiset(b)| == 0;
    } else {
      var x := a[0];
      assert x in multiset(b);
      var j :| 0 <= j < |b| && b[j] == x;
      var rest := b[..j] + b[j + 1..];
      assert b == b[..j] + [x] + b[j + 1..];
      assert a == [x] + a[1..];
      assert multiset(b) == multiset(b[..j]) + multiset{x} + multiset(b[j + 1..]);
      assert multiset(rest) == multiset(b[..j]) + multiset(b[j + 1..]);
      assert multiset(a) == multiset{x} + multiset(a[1..]);
      assert multiset(a[1..]) == multiset(a) - multiset{x};
      assert multiset(rest) == multiset(b) - multiset{x};
      NumberCountPermutation(a[1..], rest);
      NumberCountAppend(b[..j] + [x], b[j + 1..]);
      NumberCountAppend(b[..j], [x]);
      NumberCountAppend(b[..j], b[j + 1..]);
      NumberCountAppend([x], a[1..]);
    }
  }

  /** In a sorted catalog the numeric columns are exactly the first NumberCount ones. */
  lemma {:induction false} SortedNumbersFirst(s: seq<Column>)
    requires Sorted(s)
    ensures forall i :: 0 <= i < |s| ==> (IsNumber(s[i]) <==> i < NumberCount(s))
    decreases |s|
  {
    if s != [] {
      var rest := s[1..];
      assert Sorted(rest) by {
        forall i, j | 0 <= i < j < |rest|
          ensures !KeyLess(rest[j], rest[i])
        {
          assert rest[i] == s[i + 1] && rest[j] == s[j + 1];
        }
      }
      SortedNumbersFirst(rest);
      if !IsNumber(s[0]) && rest != [] {
        assert rest[0] == s[1] && !KeyLess(s[1], s[0]);
        assert !IsNumber(rest[0]);
      }
      forall i | 0 < i < |s|
        ensures IsNumber(s[i]) <==> i < NumberCount(s)
      {
        assert s[i] == rest[i - 1];
      }
    }
  }

  /** Two catalogs whose columns are numeric at the same places. */
  predicate SameKinds(a: seq<Column>, b: seq<Column>) {
    |a| == |b| && forall i :: 0 <= i < |a| ==> IsNumber(a[i]) == IsNumber(b[i])
  }

  /**
   * However List.Sort orders columns with equal keys, every sorted
   * reordering of a catalog has its numeric columns at the same places.
   */
  lemma SortedPermutationsSameKinds(a: seq<Column>, b: seq<Column>)
    requires Sorted(a) && Sorted(b) && multiset(a) == multiset(b)
    ensures SameKinds(a, b)
  {
    assert |a| == |multiset(a)| == |multiset(b)| == |b|;
    NumberCountPermutation(a, b);
    SortedNumbersFirst(a);
    SortedNumbersFirst(b);
  }

  /**
   * Columns.Sort(): List.Sort with CompareTo. Its introsort is not stable, so
   * the model promises what every correct sort gives: the result is sorted
   * and is a permutation of the input (here by insertion sort).
   */
  method SortColumns(cols: seq<Column>) returns (sorted: seq<Column>)
    ensures Sorted(sorted)
    ensures multiset(sorted) == multiset(cols) && |sorted| == |cols|
  {
    var a := cols;
    var i := 0;
    while i < |a|
      invariant 0 <= i <= |a| == |cols|
      invariant multiset(a) == multiset(cols)
      invariant forall x, y :: 0 <= x < y < i ==> !KeyLess(a[y], a[x])
    {
      a := InsertAt(a, i);
      i := i + 1;
    }
    sorted := a;
  }

  /** One pass of the insertion sort: moves a[i] down into the sorted prefix a[..i]. */
  method InsertAt(s: seq<Column>, i: nat) returns (a: seq<Column>)
    requires i < |s|
    requires forall x, y :: 0 <= x < y < i ==> !KeyLess(s[y], s[x])
    ensures multiset(a) == multiset(s) && |a| == |s|
    ensures forall x, y :: 0 <= x < y <= i ==> !KeyLess(a[y], a[x])
  {
    a := s;
    var j := i;
    while 0 < j && CompareTo(a[j - 1], a[j]) > 0
      invariant 0 <= j <= i < |a| == |s|
      invariant multiset(a) == multiset(s)
      invariant forall x, y :: 0 <= x < y <= i && x != j && y != j ==> !KeyLess(a[y], a[x])
      invariant forall y :: j < y <= i ==> !KeyLess(a[y], a[j])
    {
      SwapNeighbours(a, j);
      a := a[j - 1 := a[j]][j := a[j - 1]];
      j := j - 1;
    }
  }
}
