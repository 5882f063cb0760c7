/**
 * Duplicate-name resolution of the column catalog (IesFile.ReadColumns): a
 * column whose name is already in the catalog is renamed to name + "_" + j for
 * the least j >= 1 that is not taken yet.
 *
 * The spec is a bounded search for the least free candidate; the method is the
 * source's unbounded loop, proved to stop (after at most |taken| + 1 tries)
 * and to agree with the spec.
 */
module ColumnNames {
  import opened Primitives

  const UNDERSCORE: byte := 0x5F

  function Digit(d: nat): (b: byte)
    requires d < 10
    ensures b as int == 0x30 + d
  {
    (0x30 + d) as byte
  }

  /** The ASCII decimal digits of n, as Int32.ToString writes a non-negative value. */
  function Decimal(n: nat): (r: seq<byte>)
    ensures 1 <= |r|
    ensures 10 <= n ==> 2 <= |r|
    decreases n
  {
    if n < 10 then [Digit(n)] else Decimal(n / 10) + [Digit(n % 10)]
  }

  /** Different numbers have different decimal spellings. */
  lemma {:induction false} DecimalInjective(a: nat, b: nat)
    requires Decimal(a) == Decimal(b)
    ensures a == b
    decreases a
  {
    var da, db := Decimal(a), Decimal(b);
    if a < 10 && b < 10 {
      assert Digit(a) == da[0] == db[0] == Digit(b);
    } else if 10 <= a && 10 <= b {
      assert Digit(a % 10) == da[|da| - 1] == db[|db| - 1] == Digit(b % 10);
      assert Decimal(a / 10) == da[..|da| - 1] == db[..|db| - 1] == Decimal(b / 10);
      DecimalInjective(a / 10, b / 10);
    }
  }

  /** The k-th name tried for `stem`: the stem itself, then stem_1, stem_2, ... */
  function Candidate(stem: seq<byte>, k: nat): seq<byte> {
    if k == 0 then stem else stem + [UNDERSCORE] + Decimal(k)
  }

  lemma CandidateInjective(stem: seq<byte>, i: nat, k: nat)
    requires Candidate(stem, i) == Candidate(stem, k)
    ensures i == k
  {
    var ci, ck := Candidate(stem, i), Candidate(stem, k);
    if i != 0 && k != 0 {
      assert Decimal(i) == ci[|stem| + 1..] == ck[|stem| + 1..] == Decimal(k);
      DecimalInjective(i, k);
    }
  }

  /** The first m candidates. */
  function CandidateSet(stem: seq<byte>, m: nat): set<seq<byte>>
    decreases m
  {
    if m == 0 then {} else CandidateSet(stem, m - 1) + {Candidate(stem, m - 1)}
  }

  lemma {:induction false} CandidateOutside(stem: seq<byte>, m: nat, j: nat)
    requires m <= j
    ensures Candidate(stem, j) !in CandidateSet(stem, m)
    decreases m
  {
    if m > 0 {
      CandidateOutside(stem, m - 1, j);
      if Candidate(stem, j) == Candidate(stem, m - 1) {
        CandidateInjective(stem, j, m - 1);
      }
    }
  }

  /** The first m candidates are m different names. */
  lemma {:induction false} CandidateSetSize(stem: seq<byte>, m: nat)
    ensures |CandidateSet(stem, m)| == m
    decreases m
  {
    if m > 0 {
      CandidateSetSize(stem, m - 1);
      CandidateOutside(stem, m - 1, m - 1);
    }
  }

  lemma {:induction false} CandidateSetWithin(stem: seq<byte>, m: nat, taken: set<seq<byte>>)
    requires forall i :: 0 <= i < m ==> Candidate(stem, i) in taken
    ensures CandidateSet(stem, m) <= taken
    decreases m
  {
    if m > 0 {
      CandidateSetWithin(stem, m - 1, taken);
    }
  }

  lemma SubsetOfSameSize<T>(a: set<T>, b: set<T>)
    requires a <= b && |a| == |b|
    ensures a == b
  {
    assert a + b == b;
    assert a * b == a;
    assert |b - a| == 0;
    assert b - a == {};
  }

  /** The least k in [from, |taken|] whose candidate is free, or |taken| if none below is. */
  function FirstFree(taken: set<seq<byte>>, stem: seq<byte>, from: nat): nat
    requires from <= |taken|
    decreases |taken| - from
  {
    if from == |taken| || Candidate(stem, from) !in taken then from
    else FirstFree(taken, stem, from + 1)
  }

  lemma {:induction false} FirstFreeFrom(taken: set<seq<byte>>, stem: seq<byte>, from: nat)
    requires from <= |taken|
    requires forall i :: 0 <= i < from ==> Candidate(stem, i) in taken
    ensures var r := FirstFree(taken, stem, from);
            && from <= r <= |taken|
            && (forall i :: 0 <= i < r ==> Candidate(stem, i) in taken)
            && (r < |taken| ==> Candidate(stem, r) !in taken)
    decreases |taken| - from
  {
    if from < |taken| && Candidate(stem, from) in taken {
      FirstFreeFrom(taken, stem, from + 1);
    }
  }

  /**
   * Pigeonhole: among the first |taken| + 1 candidates one is free, so the
   * search below always finds a free name.
   */
  lemma FirstFreeIsFree(taken: set<seq<byte>>, stem: seq<byte>)
    ensures var r := FirstFree(taken, stem, 0);
            && r <= |taken|
            && Candidate(stem, r) !in taken
            && (forall i :: 0 <= i < r ==> Candidate(stem, i) in taken)
  {
    FirstFreeFrom(taken, stem, 0);
    var r := FirstFree(taken, stem, 0);
    if r == |taken| {
      CandidateSetWithin(stem, r, taken);
      CandidateSetSize(stem, r);
      SubsetOfSameSize(CandidateSet(stem, r), taken);
      CandidateOutside(stem, r, r);
    }
  }

  function NameSet(names: seq<seq<byte>>): set<seq<byte>> {
    set x | x in names
  }

  lemma {:induction false} NameSetSize(names: seq<seq<byte>>)
    ensures |NameSet(names)| <= |names|
    decreases |names|
  {
    if names != [] {
      var init := names[..|names| - 1];
      NameSetSize(init);
      assert NameSet(names) == NameSet(init) + {names[|names| - 1]};
    }
  }

  /** How many renamings the loop goes through before it finds a free name. */
  function SuffixIndex(taken: seq<seq<byte>>, stem: seq<byte>): nat {
    FirstFree(NameSet(taken), stem, 0)
  }

  /** The name a column called `stem` gets when `taken` are the names already in the catalog. */
  function UniqueName(taken: seq<seq<byte>>, stem: seq<byte>): seq<byte> {
    Candidate(stem, SuffixIndex(taken, stem))
  }

  /**
   * The rename rule: the new name is not taken; a free name is kept
   * unchanged; otherwise the name is stem_j for the least j >= 1 that is
   * free, and j <= |taken|.
   */
  lemma UniqueNameRule(taken: seq<seq<byte>>, stem: seq<byte>)
    ensures UniqueName(taken, stem) !in taken
    ensures stem !in taken ==> UniqueName(taken, stem) == stem
    ensures var j := SuffixIndex(taken, stem);
            && j <= |taken|
            && (stem in taken ==> 1 <= j && UniqueName(taken, stem) == stem + [UNDERSCORE] + Decimal(j))
            && (forall i :: 1 <= i < j ==> stem + [UNDERSCORE] + Decimal(i) in taken)
  {
    FirstFreeIsFree(NameSet(taken), stem);
    NameSetSize(taken);
    var j := SuffixIndex(taken, stem);
    forall i | 1 <= i < j
      ensures stem + [UNDERSCORE] + Decimal(i) in taken
    {
      assert Candidate(stem, i) in NameSet(taken);
    }
    if stem in taken {
      assert Candidate(stem, 0) in NameSet(taken);
    }
  }

  /**
   * The renaming loop of ReadColumns: while some column already in the
   * catalog has the current name, try the stem with the next suffix. It ends
   * with j at most |taken| + 1 and the name UniqueName describes.
   */
  method Deduplicate(taken: seq<seq<byte>>, stem: seq<byte>) returns (name: seq<byte>, j: nat)
    ensures name == UniqueName(taken, stem)
    ensures name !in taken
    ensures 1 <= j <= |taken| + 1
  {
    ghost var k := SuffixIndex(taken, stem);
    FirstFreeIsFree(NameSet(taken), stem);
    NameSetSize(taken);
    assert Candidate(stem, k) !in taken;
    name := stem;
    j := 1;
    while name in taken
      invariant 1 <= j <= k + 1
      invariant name == Candidate(stem, j - 1)
      decreases k + 1 - j
    {
      name := stem + [UNDERSCORE] + Decimal(j);
      j := j + 1;
    }
    assert Candidate(stem, j - 1) !in NameSet(taken);
  }
}
