/**
 * The `snippets` and `translations` tables of the snippet store, and the
 * effect of each SQL statement the store issues on them, stated over the
 * table contents. The table is a sequence of rows in insertion order; the
 * UNIQUE constraint on `abbv` is the predicate UniqueAbbvs.
 */
module Catalogue {
  import opened Wrappers
  import opened Collation
  import opened Like

  /** A row of `snippets`: (abbv, value, usage_count). */
  datatype Snippet = Snippet(abbv: string, value: string, usageCount: nat)

  /** `LIMIT 20` of the search query. */
  const SearchLimit: nat := 20

  /** The UNIQUE constraint on the `abbv` column: an abbreviation names at most one stored row. */
  predicate UniqueAbbvs(rows: seq<Snippet>) {
    forall i, j :: 0 <= i < j < |rows| ==> rows[i].abbv != rows[j].abbv
  }

  /** `SELECT ... FROM snippets WHERE abbv = ?` followed by `fetchone()`. */
  function Lookup(rows: seq<Snippet>, abbv: string): (r: Option<Snippet>)
    ensures r.Some? ==> r.value in rows && r.value.abbv == abbv
    ensures r.None? <==> forall x :: x in rows ==> x.abbv != abbv
  {
    if |rows| == 0 then None
    else if rows[0].abbv == abbv then Some(rows[0])
    else Lookup(rows[1..], abbv)
  }

  /** Under the UNIQUE constraint a lookup finds the one row carrying that abbreviation. */
  lemma {:induction false} LookupUnique(rows: seq<Snippet>, x: Snippet)
    requires UniqueAbbvs(rows) && x in rows
    ensures Lookup(rows, x.abbv) == Some(x)
  {
    if rows[0] != x {
      assert x in rows[1..];
      var k :| 0 <= k < |rows[1..]| && rows[1..][k] == x;
      assert rows[0].abbv != rows[k + 1].abbv;
      LookupUnique(rows[1..], x);
    }
  }

  lemma {:induction false} LookupAppend(rows: seq<Snippet>, x: Snippet, k: string)
    ensures Lookup(rows + [x], k) ==
      if Lookup(rows, k).Some? then Lookup(rows, k) else if x.abbv == k then Some(x) else None
  {
    if |rows| > 0 {
      assert (rows + [x])[1..] == rows[1..] + [x];
      LookupAppend(rows[1..], x, k);
    }
  }

  /** The count of a looked-up row after `usage_count = usage_count + 1`, with its value optionally replaced. */
  function Bumped(row: Option<Snippet>, newValue: Option<string>): Option<Snippet> {
    match row
    case None => None
    case Some(x) => Some(Snippet(x.abbv, if newValue.Some? then newValue.value else x.value, x.usageCount + 1))
  }

  /**
   * `UPDATE snippets SET [value = ?,] usage_count = usage_count + 1 WHERE abbv = ?`:
   * every row carrying `abbv` has its count raised by one (and its value replaced
   * when `newValue` is given); every other row, and the order, is untouched.
   */
  function BumpWhere(rows: seq<Snippet>, abbv: string, newValue: Option<string>): (r: seq<Snippet>)
    ensures |r| == |rows|
    ensures forall i :: 0 <= i < |r| ==> r[i].abbv == rows[i].abbv
    ensures forall i :: 0 <= i < |r| && rows[i].abbv != abbv ==> r[i] == rows[i]
    ensures forall i :: 0 <= i < |r| && rows[i].abbv == abbv ==>
      r[i].usageCount == rows[i].usageCount + 1 &&
      r[i].value == (if newValue.Some? then newValue.value else rows[i].value)
  {
    if |rows| == 0 then []
    else
      var head := if rows[0].abbv == abbv then Bumped(Some(rows[0]), newValue).value else rows[0];
      [head] + BumpWhere(rows[1..], abbv, newValue)
  }

  /** Seen through lookups, BumpWhere changes the row of `abbv` only. */
  lemma {:induction false} BumpWhereLookup(rows: seq<Snippet>, abbv: string, newValue: Option<string>, k: string)
    ensures Lookup(BumpWhere(rows, abbv, newValue), k) ==
      if k == abbv then Bumped(Lookup(rows, k), newValue) else Lookup(rows, k)
  {
    if |rows| > 0 {
      var r := BumpWhere(rows, abbv, newValue);
      assert r[0].abbv == rows[0].abbv;
      assert r[1..] == BumpWhere(rows[1..], abbv, newValue);
      if r[0].abbv != k {
        BumpWhereLookup(rows[1..], abbv, newValue, k);
      }
    }
  }

  /**
   * `INSERT INTO snippets (abbv, value) VALUES (?, ?) ON CONFLICT(abbv)
   * DO UPDATE SET value = ?, usage_count = usage_count + 1`: a new abbreviation
   * gets a row with count 0 at the end; an existing one gets the new value and
   * one more use. No other abbreviation changes and the UNIQUE constraint holds.
   */
  function UpsertRows(rows: seq<Snippet>, abbv: string, value: string): (r: seq<Snippet>)
    ensures Lookup(r, abbv) == Some(Snippet(abbv, value,
      if Lookup(rows, abbv).Some? then Lookup(rows, abbv).value.usageCount + 1 else 0))
    ensures forall k :: k != abbv ==> Lookup(r, k) == Lookup(rows, k)
    ensures |r| == if Lookup(rows, abbv).Some? then |rows| else |rows| + 1
    ensures UniqueAbbvs(rows) ==> UniqueAbbvs(r)
  {
    if Lookup(rows, abbv).Some? then
      BumpWhereLookup(rows, abbv, Some(value), abbv);
      assert forall k :: k != abbv ==> Lookup(BumpWhere(rows, abbv, Some(value)), k) == Lookup(rows, k) by {
        forall k | k != abbv {
          BumpWhereLookup(rows, abbv, Some(value), k);
        }
      }
      BumpWhere(rows, abbv, Some(value))
    else
      var row := Snippet(abbv, value, 0);
      LookupAppend(rows, row, abbv);
      assert forall k :: k != abbv ==> Lookup(rows + [row], k) == Lookup(rows, k) by {
        forall k | k != abbv {
          LookupAppend(rows, row, k);
        }
      }
      rows + [row]
  }

  /**
   * `DELETE FROM snippets WHERE abbv = ?`: no row with `abbv` is left, the other
   * rows keep their contents and order, and an absent `abbv` changes nothing.
   */
  function DeleteRows(rows: seq<Snippet>, abbv: string): (r: seq<Snippet>)
    ensures Lookup(r, abbv) == None
    ensures forall k :: k != abbv ==> Lookup(r, k) == Lookup(rows, k)
    ensures forall x :: x in r <==> x in rows && x.abbv != abbv
    ensures Lookup(rows, abbv) == None ==> r == rows
  {
    if |rows| == 0 then []
    else
      var tail := DeleteRows(rows[1..], abbv);
      if rows[0].abbv == abbv then tail
      else
        var r := [rows[0]] + tail;
        assert r[1..] == tail;
        r
  }

  /** Under the UNIQUE constraint a delete removes exactly one row when `abbv` is present, and the constraint still holds. */
  lemma {:induction false} DeleteRowsUnique(rows: seq<Snippet>, abbv: string)
    requires UniqueAbbvs(rows)
    ensures UniqueAbbvs(DeleteRows(rows, abbv))
    ensures |DeleteRows(rows, abbv)| == if Lookup(rows, abbv).Some? then |rows| - 1 else |rows|
  {
    if |rows| > 0 {
      HeadAbsentFromTail(rows);
      DeleteRowsUnique(rows[1..], abbv);
      var tail := DeleteRows(rows[1..], abbv);
      if rows[0].abbv != abbv {
        ConsUnique(rows[0], tail);
      }
    }
  }

  /** Under the UNIQUE constraint no later row shares the first row's abbreviation. */
  lemma HeadAbsentFromTail(rows: seq<Snippet>)
    requires UniqueAbbvs(rows) && |rows| > 0
    ensures forall x :: x in rows[1..] ==> x.abbv != rows[0].abbv
    ensures UniqueAbbvs(rows[1..])
  {
    forall x | x in rows[1..] ensures x.abbv != rows[0].abbv {
      var k :| 0 <= k < |rows[1..]| && rows[1..][k] == x;
      assert rows[0].abbv != rows[k + 1].abbv;
    }
  }

  lemma ConsUnique(x: Snippet, t: seq<Snippet>)
    requires UniqueAbbvs(t) && forall y :: y in t ==> y.abbv != x.abbv
    ensures UniqueAbbvs([x] + t)
  {
    var r := [x] + t;
    forall i, j | 0 <= i < j < |r| ensures r[i].abbv != r[j].abbv {
      assert r[j] == t[j - 1];
      if i > 0 {
        assert r[i] == t[i - 1];
      }
    }
  }

  /**
   * `UPDATE snippets SET usage_count = 0`: every count becomes 0; no row is
   * added or removed and no abbreviation or value changes.
   */
  function ResetRows(rows: seq<Snippet>): (r: seq<Snippet>)
    ensures |r| == |rows|
    ensures forall i :: 0 <= i < |r| ==>
      r[i].abbv == rows[i].abbv && r[i].value == rows[i].value && r[i].usageCount == 0
    ensures forall k ::
      Lookup(r, k) == if Lookup(rows, k).Some? then Some(Lookup(rows, k).value.(usageCount := 0)) else None
    ensures UniqueAbbvs(rows) ==> UniqueAbbvs(r)
  {
    if |rows| == 0 then []
    else
      var tail := ResetRows(rows[1..]);
      assert ([rows[0].(usageCount := 0)] + tail)[1..] == tail;
      [rows[0].(usageCount := 0)] + tail
  }

  /** Resetting twice is the same as resetting once. */
  lemma ResetIdempotent(rows: seq<Snippet>)
    ensures ResetRows(ResetRows(rows)) == ResetRows(rows)
  {
  }

  // ----- search -----

  /**
   * `ORDER BY usage_count DESC, abbv ASC`: `x` is listed strictly ahead of `y`.
   * A higher count always comes first, a lower count never does, and no row
   * comes ahead of itself.
   */
  predicate Before(x: Snippet, y: Snippet): (r: bool)
    ensures x.usageCount > y.usageCount ==> r
    ensures r ==> x.usageCount >= y.usageCount && x != y
  {
    x.usageCount > y.usageCount || (x.usageCount == y.usageCount && LexLess(x.abbv, y.abbv))
  }

  /**
   * `abbv LIKE '%filter%' OR value LIKE '%filter%'`: for a filter without
   * wildcards, the filter occurs in the abbreviation or in the value up to
   * ASCII case; the empty filter keeps every row.
   */
  predicate Matches(filter: string, x: Snippet): (r: bool)
    ensures NoWildcards(filter) ==> (r <==> ContainsFolded(x.abbv, filter) || ContainsFolded(x.value, filter))
    ensures filter == "" ==> r
  {
    assert NoWildcards(filter) ==>
      (Like.Like(ContainsPattern(filter), x.abbv) <==> ContainsFolded(x.abbv, filter)) &&
      (Like.Like(ContainsPattern(filter), x.value) <==> ContainsFolded(x.value, filter)) by {
      if NoWildcards(filter) {
        SearchConditionIsSubstring(filter, x.abbv);
        SearchConditionIsSubstring(filter, x.value);
      }
    }
    EmptyFilterMatchesAll(x.abbv);
    Like.Like(ContainsPattern(filter), x.abbv) || Like.Like(ContainsPattern(filter), x.value)
  }

  /** No element is listed after one it should precede. */
  predicate Ordered(s: seq<Snippet>) {
    forall i, j :: 0 <= i < j < |s| ==> !Before(s[j], s[i])
  }

  lemma BeforeAsymmetric(x: Snippet, y: Snippet)
    requires Before(x, y)
    ensures !Before(y, x)
  {
    if x.usageCount == y.usageCount {
      LexLessAsymmetric(x.abbv, y.abbv);
    }
  }

  lemma NotBeforeTransitive(x: Snippet, y: Snippet, z: Snippet)
    requires !Before(x, y) && !Before(y, z)
    ensures !Before(x, z)
  {
    if x.usageCount == z.usageCount {
      LexLessTotal(x.abbv, y.abbv);
      LexLessTotal(y.abbv, z.abbv);
      if LexLess(z.abbv, y.abbv) && LexLess(y.abbv, x.abbv) {
        LexLessTransitive(z.abbv, y.abbv, x.abbv);
        LexLessAsymmetric(z.abbv, x.abbv);
      }
    }
  }

  /** Under the UNIQUE constraint the order is total: of two different rows one precedes the other. */
  lemma BeforeTotal(x: Snippet, y: Snippet)
    requires x.abbv != y.abbv
    ensures Before(x, y) || Before(y, x)
  {
    LexLessTotal(x.abbv, y.abbv);
  }

  /** Place `x` into the ordered sequence `s`. */
  function Insert(x: Snippet, s: seq<Snippet>): (r: seq<Snippet>)
    ensures multiset(r) == multiset(s) + multiset{x}
    ensures Ordered(s) ==> Ordered(r)
  {
    if |s| == 0 then [x]
    else if Before(s[0], x) then
      var tail := Insert(x, s[1..]);
      assert s == [s[0]] + s[1..];
      assert Ordered(s) ==> Ordered([s[0]] + tail) by {
        if Ordered(s) {
          BeforeAsymmetric(s[0], x);
          HeadLeadsTail(s);
          forall y | y in tail ensures !Before(y, s[0]) {
            assert y in multiset(tail);
            assert y == x || y in multiset(s[1..]);
          }
          ConsOrdered(s[0], tail);
        }
      }
      [s[0]] + tail
    else
      assert Ordered(s) ==> Ordered([x] + s) by {
        if Ordered(s) {
          HeadLeadsTail(s);
          forall y | y in s ensures !Before(y, x) {
            if y != s[0] {
              assert s == [s[0]] + s[1..];
              NotBeforeTransitive(y, s[0], x);
            }
          }
          ConsOrdered(x, s);
        }
      }
      [x] + s
  }

  /** In an ordered sequence nothing should precede the first element. */
  lemma HeadLeadsTail(s: seq<Snippet>)
    requires Ordered(s) && |s| > 0
    ensures Ordered(s[1..])
    ensures forall y :: y in s[1..] ==> !Before(y, s[0])
  {
    forall y | y in s[1..] ensures !Before(y, s[0]) {
      var k :| 0 <= k < |s[1..]| && s[1..][k] == y;
      assert s[k + 1] == y;
    }
  }

  lemma ConsOrdered(x: Snippet, t: seq<Snippet>)
    requires Ordered(t) && forall y :: y in t ==> !Before(y, x)
    ensures Ordered([x] + t)
  {
    var r := [x] + t;
    forall i, j | 0 <= i < j < |r| ensures !Before(r[j], r[i]) {
      assert r[j] == t[j - 1];
      if i > 0 {
        assert r[i] == t[i - 1];
      }
    }
  }

  /** Insertion sort into the search order. */
  function Sort(s: seq<Snippet>): (r: seq<Snippet>)
    ensures multiset(r) == multiset(s)
    ensures Ordered(r)
  {
    if |s| == 0 then []
    else
      assert s == [s[0]] + s[1..];
      Insert(s[0], Sort(s[1..]))
  }

  /** The rows the WHERE clause keeps, in table order. */
  function Filter(rows: seq<Snippet>, filter: string): (r: seq<Snippet>)
    ensures multiset(r) <= multiset(rows)
    ensures forall x :: x in r <==> x in rows && Matches(filter, x)
  {
    if |rows| == 0 then []
    else
      assert rows == [rows[0]] + rows[1..];
      var tail := Filter(rows[1..], filter);
      if Matches(filter, rows[0]) then [rows[0]] + tail else tail
  }

  /**
   * The first `SearchLimit` elements of an ordering of `matching`: a permutation
   * of part of it, ordered, and leaving out only elements that rank no higher
   * than everything kept.
   */
  lemma {:induction false} TopOfOrdered(matching: seq<Snippet>, sorted: seq<Snippet>)
    requires multiset(sorted) == multiset(matching) && Ordered(sorted)
    ensures var r := sorted[..if |sorted| <= SearchLimit then |sorted| else SearchLimit];
      && multiset(r) <= multiset(matching)
      && (forall x :: x in r ==> x in matching)
      && (forall x :: x in matching && x !in r ==> |r| == SearchLimit && forall y :: y in r ==> !Before(x, y))
  {
    var n := if |sorted| <= SearchLimit then |sorted| else SearchLimit;
    var r := sorted[..n];
    assert sorted == r + sorted[n..];
    assert multiset(sorted) == multiset(r) + multiset(sorted[n..]);
    forall x | x in r ensures x in matching {
      assert x in multiset(matching);
    }
    forall x | x in matching && x !in r
      ensures |r| == SearchLimit && forall y :: y in r ==> !Before(x, y)
    {
      assert x in multiset(sorted);
      var k :| 0 <= k < |sorted| && sorted[k] == x;
      assert k >= n;
      forall y | y in r ensures !Before(x, y) {
        var i :| 0 <= i < n && r[i] == y;
        assert sorted[i] == y;
      }
    }
  }

  /**
   * `SELECT abbv, value, usage_count FROM snippets WHERE abbv LIKE ? OR value LIKE ?
   * ORDER BY usage_count DESC, abbv ASC LIMIT 20` with `%filter%` bound twice.
   * At most 20 rows of the table, each matching the filter, in the search order;
   * a matching row is left out only when 20 rows are returned and none of them
   * ranks below it.
   */
  function Search(rows: seq<Snippet>, filter: string): (r: seq<Snippet>)
    ensures |r| <= SearchLimit
    ensures multiset(r) <= multiset(rows)
    ensures forall x :: x in r ==> Matches(filter, x)
    ensures Ordered(r)
    ensures forall x :: x in rows && Matches(filter, x) && x !in r ==>
      |r| == SearchLimit && forall y :: y in r ==> !Before(x, y)
  {
    var matching := Filter(rows, filter);
    var sorted := Sort(matching);
    TopOfOrdered(matching, sorted);
    sorted[..if |sorted| <= SearchLimit then |sorted| else SearchLimit]
  }

  /** A sub-multiset that misses an element of the larger one is strictly smaller. */
  lemma SmallerWhenMissing(a: seq<Snippet>, b: seq<Snippet>, x: Snippet)
    requires multiset(a) <= multiset(b) && x in b && x !in a
    ensures |a| < |b|
  {
    var rest := multiset(b) - multiset{x};
    assert multiset(a) <= rest;
    var extra := rest - multiset(a);
    assert multiset(a) + extra == rest;
    assert rest + multiset{x} == multiset(b);
  }

  /** With at most 20 snippets, the empty filter lists every one of them. */
  lemma EmptySearchListsAll(rows: seq<Snippet>)
    requires |rows| <= SearchLimit
    ensures forall x :: x in Search(rows, "") <==> x in rows
  {
    var r := Search(rows, "");
    forall x | x in rows ensures x in r {
      EmptyFilterMatchesAll(x.abbv);
      if x !in r {
        SmallerWhenMissing(r, rows, x);
      }
    }
    forall x | x in r ensures x in rows {
      assert x in multiset(r);
    }
  }

  /**
   * With a blank filter, three snippets whose usage counts all differ are
   * listed most-used first whatever their stored order: c used most, then a,
   * then b least, stored in any of the six orders.
   */
  lemma SearchRanksByUsage(rows: seq<Snippet>, a: Snippet, b: Snippet, c: Snippet)
    requires c.usageCount > a.usageCount > b.usageCount
    requires |rows| == 3 && a in rows && b in rows && c in rows
    ensures Search(rows, "") == [c, a, b]
  {
    var r := Search(rows, "");
    EmptySearchListsAll(rows);
    SubMultisetNoLonger(r, rows);
    OrderedThree(r, a, b, c);
  }

  lemma SubMultisetNoLonger(r: seq<Snippet>, rows: seq<Snippet>)
    requires multiset(r) <= multiset(rows)
    ensures |r| <= |rows|
  {
    var extra := multiset(rows) - multiset(r);
    assert multiset(r) + extra == multiset(rows);
    assert |multiset(rows)| == |multiset(r)| + |extra|;
  }

  /** An ordered sequence of at most three rows that holds c, a and b is exactly [c, a, b]. */
  lemma OrderedThree(r: seq<Snippet>, a: Snippet, b: Snippet, c: Snippet)
    requires c.usageCount > a.usageCount > b.usageCount
    requires |r| <= 3 && Ordered(r) && a in r && b in r && c in r
    ensures r == [c, a, b]
  {
    var ic :| 0 <= ic < |r| && r[ic] == c;
    var ia :| 0 <= ia < |r| && r[ia] == a;
    var ib :| 0 <= ib < |r| && r[ib] == b;
    assert Before(c, a) && Before(a, b) && Before(c, b);
    assert ic < ia && ia < ib;
  }

  /** The three-snippet example: py (20 uses), eml (10), sig (5). */
  lemma SearchRanksExample()
    ensures Search([Snippet("eml", "user@example.com", 10), Snippet("sig", "- My Signature", 5),
                    Snippet("py", "print(\"Hello, Python!\")", 20)], "")
         == [Snippet("py", "print(\"Hello, Python!\")", 20), Snippet("eml", "user@example.com", 10),
             Snippet("sig", "- My Signature", 5)]
  {
    var eml := Snippet("eml", "user@example.com", 10);
    var sig := Snippet("sig", "- My Signature", 5);
    var py := Snippet("py", "print(\"Hello, Python!\")", 20);
    var rows := [eml, sig, py];
    assert rows[0] == eml && rows[1] == sig && rows[2] == py;
    SearchRanksByUsage(rows, eml, sig, py);
  }

  // ----- translations -----

  /** The `translations` table: (key, lang) is its primary key. */
  type TranslationTable = map<(string, string), string>

  /** `SELECT key, text FROM translations WHERE lang = ?` collected into a dict. */
  function TranslationsFor(table: TranslationTable, lang: string): (r: map<string, string>)
    ensures forall key :: key in r <==> (key, lang) in table
    ensures forall key :: key in r ==> r[key] == table[(key, lang)]
  {
    map p | p in table.Keys && p.1 == lang :: p.0 := table[p]
  }
}
