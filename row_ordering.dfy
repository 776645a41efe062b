/**
  ROWS_SORTING: editable rows first, then partner display name ascending, then customer rows
  before vendor rows; and the stable sort that Java's ordered Stream.sorted performs with it.
*/
module RowOrdering {
  import opened PricingTypes

  /**
    The UTF-16 code units of one character, as a Java string stores it: one unit below U+10000,
    otherwise a high surrogate followed by a low surrogate.
  */
  function CodeUnits(c: char): (r: seq<int>)
    ensures 1 <= |r| <= 2
    ensures forall i | 0 <= i < |r| :: 0 <= r[i] < 0x10000
    ensures |r| == 2 <==> 0xD800 <= r[0] < 0xDC00
    ensures |r| == 2 ==> 0xDC00 <= r[1] < 0xE000
  {
    var n := c as int;
    if n < 0x10000 then [n]
    else [0xD800 + (n - 0x10000) / 0x400, 0xDC00 + (n - 0x10000) % 0x400]
  }

  /** The UTF-16 encoding of a string: the sequence of chars String.compareTo walks through. */
  function Utf16(s: string): (r: seq<int>)
    ensures |s| <= |r| <= 2 * |s|
  {
    if s == [] then [] else CodeUnits(s[0]) + Utf16(s[1..])
  }

  /** Lexicographic order on code units, a proper prefix first. */
  predicate UnitsLess(a: seq<int>, b: seq<int>)
    decreases |a|
  {
    |b| > 0 && (|a| == 0 || a[0] < b[0] || (a[0] == b[0] && UnitsLess(a[1..], b[1..])))
  }

  /** String.compareTo(a, b) < 0: Java compares the UTF-16 code units, not the code points. */
  predicate StrLess(a: string, b: string) {
    UnitsLess(Utf16(a), Utf16(b))
  }

  /** The first unit tells how many units a character takes, so the encoding of one character is decoded uniquely. */
  lemma CodeUnitsPrefix(x: char, y: char, u: seq<int>, v: seq<int>)
    requires CodeUnits(x) + u == CodeUnits(y) + v
    ensures x == y && u == v
  {
    var cx, cy := CodeUnits(x), CodeUnits(y);
    assert cx[0] == (cx + u)[0] == cy[0];
    assert |cx| == |cy|;
    if |cx| == 2 {
      assert cx[1] == (cx + u)[1] == cy[1];
      var nx := x as int - 0x10000;
      var ny := y as int - 0x10000;
      assert nx == (nx / 0x400) * 0x400 + nx % 0x400;
      assert ny == (ny / 0x400) * 0x400 + ny % 0x400;
    }
    assert x as int == y as int;
    assert u == (cx + u)[|cx|..] == (cy + v)[|cy|..] == v;
  }

  /** Distinct strings have distinct UTF-16 encodings. */
  lemma {:induction false} Utf16Injective(a: string, b: string)
    requires Utf16(a) == Utf16(b)
    ensures a == b
    decreases |a|
  {
    if a != [] && b != [] {
      CodeUnitsPrefix(a[0], b[0], Utf16(a[1..]), Utf16(b[1..]));
      Utf16Injective(a[1..], b[1..]);
      assert a == [a[0]] + a[1..] && b == [b[0]] + b[1..];
    }
  }

  lemma {:induction false} UnitsLessIrreflexive(a: seq<int>)
    ensures !UnitsLess(a, a)
    decreases |a|
  {
    if |a| > 0 {
      UnitsLessIrreflexive(a[1..]);
    }
  }

  lemma {:induction false} UnitsLessTransitive(a: seq<int>, b: seq<int>, c: seq<int>)
    requires UnitsLess(a, b) && UnitsLess(b, c)
    ensures UnitsLess(a, c)
    decreases |a|
  {
    if |a| > 0 && a[0] == b[0] && b[0] == c[0] {
      UnitsLessTransitive(a[1..], b[1..], c[1..]);
    }
  }

  lemma {:induction false} UnitsLessTrichotomy(a: seq<int>, b: seq<int>)
    ensures a == b || UnitsLess(a, b) || UnitsLess(b, a)
    decreases |a|
  {
    if |a| > 0 && |b| > 0 && a[0] == b[0] {
      UnitsLessTrichotomy(a[1..], b[1..]);
      if a[1..] == b[1..] {
        assert a == [a[0]] + a[1..] && b == [b[0]] + b[1..];
      }
    }
  }

  lemma StrLessIrreflexive(a: string)
    ensures !StrLess(a, a)
  {
    UnitsLessIrreflexive(Utf16(a));
  }

  lemma StrLessTransitive(a: string, b: string, c: string)
    requires StrLess(a, b) && StrLess(b, c)
    ensures StrLess(a, c)
  {
    UnitsLessTransitive(Utf16(a), Utf16(b), Utf16(c));
  }

  lemma StrLessTrichotomy(a: string, b: string)
    ensures a == b || StrLess(a, b) || StrLess(b, a)
  {
    UnitsLessTrichotomy(Utf16(a), Utf16(b));
    if Utf16(a) == Utf16(b) {
      Utf16Injective(a, b);
    }
  }

  lemma StrLessAsymmetric(a: string, b: string)
    requires StrLess(a, b)
    ensures !StrLess(b, a)
  {
    if StrLess(b, a) {
      StrLessTransitive(a, b, a);
      StrLessIrreflexive(a);
    }
  }

  /**
    Where the code-unit order and the code-point order part: U+1F600 (units D83D DE00) sorts before
    U+FF21 (unit FF21), although its code point is the larger.
  */
  lemma SupplementaryBeforeHighBmp()
    ensures StrLess("\U{1F600}", "\U{FF21}") && !StrLess("\U{FF21}", "\U{1F600}")
    ensures ("\U{1F600}"[0] as int) > ("\U{FF21}"[0] as int)
  {
    assert Utf16("\U{1F600}") == [0xD83D, 0xDE00];
    assert Utf16("\U{FF21}") == [0xFF21];
  }

  /** The three keys ROWS_SORTING compares, in order. */
  datatype SortKey = SortKey(editableRank: int, displayName: string, directionRank: int)

  /** row.isEditable() ? 0 : 1, then row.getBpartnerDisplayName(), then row.isCustomer() ? 0 : 1. */
  function KeyOf(row: PricingConditionsRow): SortKey {
    SortKey(if row.editable then 0 else 1, row.BPartnerDisplayName(), if row.customer then 0 else 1)
  }

  /** Comparator.comparing(...).thenComparing(...).thenComparing(...): lexicographic on the keys. */
  predicate KeyLe(a: SortKey, b: SortKey) {
    a.editableRank < b.editableRank ||
    (a.editableRank == b.editableRank &&
      (StrLess(a.displayName, b.displayName) ||
        (a.displayName == b.displayName && a.directionRank <= b.directionRank)))
  }

  /** ROWS_SORTING.compare(a, b) <= 0. */
  predicate RowsSortingLe(a: PricingConditionsRow, b: PricingConditionsRow) {
    KeyLe(KeyOf(a), KeyOf(b))
  }

  /** ROWS_SORTING.compare(a, b) == 0 exactly when the three keys agree. */
  lemma RowsSortingEquivalent(a: PricingConditionsRow, b: PricingConditionsRow)
    ensures RowsSortingLe(a, b) && RowsSortingLe(b, a) <==> KeyOf(a) == KeyOf(b)
  {
    var ka, kb := KeyOf(a), KeyOf(b);
    if StrLess(ka.displayName, kb.displayName) {
      StrLessAsymmetric(ka.displayName, kb.displayName);
    }
    if StrLess(kb.displayName, ka.displayName) {
      StrLessAsymmetric(kb.displayName, ka.displayName);
    }
    StrLessIrreflexive(ka.displayName);
  }

  lemma RowsSortingTotal(a: PricingConditionsRow, b: PricingConditionsRow)
    ensures RowsSortingLe(a, b) || RowsSortingLe(b, a)
  {
    StrLessTrichotomy(KeyOf(a).displayName, KeyOf(b).displayName);
  }

  lemma RowsSortingTransitive(a: PricingConditionsRow, b: PricingConditionsRow, c: PricingConditionsRow)
    requires RowsSortingLe(a, b) && RowsSortingLe(b, c)
    ensures RowsSortingLe(a, c)
  {
    var ka, kb, kc := KeyOf(a), KeyOf(b), KeyOf(c);
    if StrLess(ka.displayName, kb.displayName) && StrLess(kb.displayName, kc.displayName) {
      StrLessTransitive(ka.displayName, kb.displayName, kc.displayName);
    }
  }

  /** Every earlier row compares at most equal to every later one. */
  ghost predicate Sorted(rows: seq<PricingConditionsRow>) {
    forall i, j | 0 <= i < j < |rows| :: RowsSortingLe(rows[i], rows[j])
  }

  /** The rows of `rows` whose sort keys are `key`, in their order. */
  function SameKeyRows(rows: seq<PricingConditionsRow>, key: SortKey): seq<PricingConditionsRow> {
    if rows == [] then []
    else (if KeyOf(rows[0]) == key then [rows[0]] else []) + SameKeyRows(rows[1..], key)
  }

  /** Inserts `x` before the first row it compares at most equal to. */
  function Insert(x: PricingConditionsRow, rows: seq<PricingConditionsRow>): (r: seq<PricingConditionsRow>)
    ensures multiset(r) == multiset(rows) + multiset{x}
  {
    if rows == [] then [x]
    else if RowsSortingLe(x, rows[0]) then [x] + rows
    else
      assert rows == [rows[0]] + rows[1..];
      [rows[0]] + Insert(x, rows[1..])
  }

  /** rows.stream().sorted(ROWS_SORTING): a stable insertion sort. */
  function SortRows(rows: seq<PricingConditionsRow>): (r: seq<PricingConditionsRow>)
    ensures multiset(r) == multiset(rows)
  {
    if rows == [] then []
    else
      assert rows == [rows[0]] + rows[1..];
      Insert(rows[0], SortRows(rows[1..]))
  }

  /** Every row of Insert(x, rows) is x or a row of rows. */
  lemma InsertMembers(x: PricingConditionsRow, rows: seq<PricingConditionsRow>, j: int)
    requires 0 <= j < |Insert(x, rows)|
    ensures Insert(x, rows)[j] == x || Insert(x, rows)[j] in rows
  {
    var r := Insert(x, rows);
    assert r[j] in multiset(r);
  }

  /** A row at most equal to the first of sorted rows is at most equal to all of them. */
  lemma PrependSorted(x: PricingConditionsRow, rows: seq<PricingConditionsRow>)
    requires Sorted(rows) && rows != [] && RowsSortingLe(x, rows[0])
    ensures Sorted([x] + rows)
  {
    var r := [x] + rows;
    forall i, j | 0 <= i < j < |r| ensures RowsSortingLe(r[i], r[j]) {
      if i == 0 && j > 1 {
        RowsSortingTransitive(x, rows[0], rows[j - 1]);
      }
    }
  }

  lemma PrependLeast(y: PricingConditionsRow, tail: seq<PricingConditionsRow>)
    requires Sorted(tail)
    requires forall j | 0 <= j < |tail| :: RowsSortingLe(y, tail[j])
    ensures Sorted([y] + tail)
  {
    var r := [y] + tail;
    forall i, j | 0 <= i < j < |r| ensures RowsSortingLe(r[i], r[j]) {
      if i == 0 {
        assert r[j] == tail[j - 1];
      } else {
        assert r[i] == tail[i - 1] && r[j] == tail[j - 1];
      }
    }
  }

  lemma {:induction false} InsertSorted(x: PricingConditionsRow, rows: seq<PricingConditionsRow>)
    requires Sorted(rows)
    ensures Sorted(Insert(x, rows))
  {
    if rows == [] {
    } else if RowsSortingLe(x, rows[0]) {
      PrependSorted(x, rows);
    } else {
      RowsSortingTotal(x, rows[0]);
      var tail := Insert(x, rows[1..]);
      assert Sorted(rows[1..]) by {
        forall i, j | 0 <= i < j < |rows[1..]| ensures RowsSortingLe(rows[1..][i], rows[1..][j]) {
          assert rows[1..][i] == rows[i + 1] && rows[1..][j] == rows[j + 1];
        }
      }
      InsertSorted(x, rows[1..]);
      forall j | 0 <= j < |tail| ensures RowsSortingLe(rows[0], tail[j]) {
        InsertMembers(x, rows[1..], j);
        if tail[j] != x {
          var k :| 0 <= k < |rows[1..]| && rows[1..][k] == tail[j];
          assert rows[k + 1] == tail[j];
        }
      }
      PrependLeast(rows[0], tail);
    }
  }

  /** The sorted rows are ordered by ROWS_SORTING and are a permutation of the input. */
  lemma {:induction false} SortRowsSorted(rows: seq<PricingConditionsRow>)
    ensures Sorted(SortRows(rows))
    ensures multiset(SortRows(rows)) == multiset(rows)
  {
    if rows != [] {
      SortRowsSorted(rows[1..]);
      InsertSorted(rows[0], SortRows(rows[1..]));
    }
  }

  /** Rows that ROWS_SORTING does not rank x at most equal to have another key than x. */
  lemma NotLeDistinctKeys(x: PricingConditionsRow, y: PricingConditionsRow)
    requires !RowsSortingLe(x, y)
    ensures KeyOf(x) != KeyOf(y)
  {
    RowsSortingEquivalent(x, y);
  }

  /** Prepending a row of another key than x to both sides keeps x in front of the same-key rows. */
  lemma PrependSameKeyRows(y: PricingConditionsRow, x: PricingConditionsRow, tail: seq<PricingConditionsRow>, rest: seq<PricingConditionsRow>, key: SortKey)
    requires KeyOf(x) != KeyOf(y)
    requires SameKeyRows(tail, key) == (if KeyOf(x) == key then [x] else []) + SameKeyRows(rest, key)
    ensures SameKeyRows([y] + tail, key) == (if KeyOf(x) == key then [x] else []) + SameKeyRows([y] + rest, key)
  {
    var r := SameKeyRows(rest, key);
    assert ([y] + tail)[1..] == tail && ([y] + rest)[1..] == rest;
    if KeyOf(y) == key {
      assert SameKeyRows(tail, key) == [] + r == r;
      assert SameKeyRows([y] + tail, key) == [y] + r == SameKeyRows([y] + rest, key);
      assert [] + SameKeyRows([y] + rest, key) == SameKeyRows([y] + rest, key);
    } else {
      assert SameKeyRows([y] + tail, key) == [] + SameKeyRows(tail, key) == SameKeyRows(tail, key);
      assert SameKeyRows([y] + rest, key) == [] + r == r;
    }
  }

  lemma {:induction false} InsertSameKeyRows(x: PricingConditionsRow, rows: seq<PricingConditionsRow>, key: SortKey)
    ensures SameKeyRows(Insert(x, rows), key) == (if KeyOf(x) == key then [x] else []) + SameKeyRows(rows, key)
  {
    var mine := if KeyOf(x) == key then [x] else [];
    if rows == [] {
      assert SameKeyRows([x], key) == mine + [];
    } else if RowsSortingLe(x, rows[0]) {
      assert ([x] + rows)[1..] == rows;
      assert SameKeyRows([x] + rows, key) == mine + SameKeyRows(rows, key);
    } else {
      InsertSameKeyRows(x, rows[1..], key);
      NotLeDistinctKeys(x, rows[0]);
      PrependSameKeyRows(rows[0], x, Insert(x, rows[1..]), rows[1..], key);
      assert rows == [rows[0]] + rows[1..];
    }
  }

  /** Stability: rows the comparator ranks equal keep their input order. */
  lemma {:induction false} SortRowsStable(rows: seq<PricingConditionsRow>, key: SortKey)
    ensures SameKeyRows(SortRows(rows), key) == SameKeyRows(rows, key)
  {
    if rows != [] {
      SortRowsStable(rows[1..], key);
      InsertSameKeyRows(rows[0], SortRows(rows[1..]), key);
    }
  }

  /**
    The three keys as the user sees them: in sorted rows, editable rows come first; among rows of
    the same editability display names ascend; among rows with the same name customers come first.
  */
  lemma SortedRowsOrder(rows: seq<PricingConditionsRow>, i: int, j: int)
    requires Sorted(rows) && 0 <= i < j < |rows|
    ensures rows[j].editable ==> rows[i].editable
    ensures rows[i].editable == rows[j].editable ==>
      rows[i].BPartnerDisplayName() == rows[j].BPartnerDisplayName() ||
      StrLess(rows[i].BPartnerDisplayName(), rows[j].BPartnerDisplayName())
    ensures rows[i].editable == rows[j].editable && rows[i].BPartnerDisplayName() == rows[j].BPartnerDisplayName() ==>
      rows[i].customer || rows[j].IsVendor()
  {
    assert RowsSortingLe(rows[i], rows[j]);
    StrLessIrreflexive(KeyOf(rows[i]).displayName);
  }
}
