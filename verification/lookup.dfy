/**
 The SNP lookup behind the "Analyze SNP" button: the query is stripped and
 lowercased, and every row of the reference table whose lowercased `SNP`
 cell equals it is kept, in table order.
 */
module SnpLookup {
  import opened Text
  import opened Records

  const SnpColumn := "SNP"

  /** The normalised query: `strip().lower()`. */
  function QueryKey(query: string): string {
    Lower(Trim(query))
  }

  /** The row test: the `SNP` cell is text whose lowercase form is `key`.
      A missing or unrenderable cell never matches. */
  predicate Matches(r: Record, key: string) {
    match Get(r, SnpColumn)
    case Some(Text(id)) => Lower(id) == key
    case _ => false
  }

  /** The rows of `table` that match `key`, in table order. */
  function Select(table: seq<Record>, key: string): seq<Record>
    decreases |table|
  {
    if |table| == 0 then []
    else (if Matches(table[0], key) then [table[0]] else []) + Select(table[1..], key)
  }

  function Lookup(table: seq<Record>, query: string): seq<Record> {
    Select(table, QueryKey(query))
  }

  /** `idx` lists, in increasing order, exactly the positions of the rows of
      `table` that match `key`, and `rows` holds those rows in that order. */
  ghost predicate SelectedInOrder(rows: seq<Record>, table: seq<Record>, key: string, idx: seq<nat>) {
    && |idx| == |rows|
    && (forall k :: 0 <= k < |idx| ==> idx[k] < |table| && rows[k] == table[idx[k]])
    && (forall k, l :: 0 <= k < l < |idx| ==> idx[k] < idx[l])
    && (forall i :: 0 <= i < |table| ==> (Matches(table[i], key) <==> i in idx))
  }

  /** Every position moved one row down. */
  ghost function Shift(idx: seq<nat>): (r: seq<nat>)
    ensures |r| == |idx|
    ensures forall k :: 0 <= k < |idx| ==> r[k] == idx[k] + 1
  {
    seq(|idx|, k requires 0 <= k < |idx| => idx[k] + 1)
  }

  lemma ShiftHas(idx: seq<nat>, i: nat)
    ensures i in Shift(idx) <==> i > 0 && i - 1 in idx
  {
    if i > 0 && i - 1 in idx {
      var k :| 0 <= k < |idx| && idx[k] == i - 1;
      assert Shift(idx)[k] == i;
    }
  }

  /** The positions of the rows `Select` keeps. */
  ghost function Positions(table: seq<Record>, key: string): (idx: seq<nat>)
    ensures |idx| == |Select(table, key)|
    ensures forall k :: 0 <= k < |idx| ==> idx[k] < |table|
  {
    if |table| == 0 then []
    else (if Matches(table[0], key) then [0] else []) + Shift(Positions(table[1..], key))
  }

  /** The `k`-th selected row sits at the `k`-th position. */
  lemma {:induction false} PositionAt(table: seq<Record>, key: string, k: nat)
    requires k < |Positions(table, key)|
    ensures Select(table, key)[k] == table[Positions(table, key)[k]]
    decreases |table|
  {
    var rest := table[1..];
    var m := Matches(table[0], key);
    var h := if m then 1 else 0;
    var pr := Positions(rest, key);
    var sr := Select(rest, key);
    assert Positions(table, key) == (if m then [0] else []) + Shift(pr);
    assert Select(table, key) == (if m then [table[0]] else []) + sr;
    if k >= h {
      PositionAt(rest, key, k - h);
      assert Select(table, key)[k] == sr[k - h];
      assert Positions(table, key)[k] == pr[k - h] + 1;
      assert table[pr[k - h] + 1] == rest[pr[k - h]];
    }
  }

  lemma PositionsPick(table: seq<Record>, key: string)
    ensures forall k :: 0 <= k < |Positions(table, key)| ==>
      Select(table, key)[k] == table[Positions(table, key)[k]]
  {
    forall k | 0 <= k < |Positions(table, key)| ensures Select(table, key)[k] == table[Positions(table, key)[k]] {
      PositionAt(table, key, k);
    }
  }

  lemma {:induction false} PositionsIncreasing(table: seq<Record>, key: string)
    ensures forall k, l :: 0 <= k < l < |Positions(table, key)| ==>
      Positions(table, key)[k] < Positions(table, key)[l]
    decreases |table|
  {
    if |table| > 0 {
      PositionsIncreasing(table[1..], key);
    }
  }

  lemma {:induction false} PositionsExact(table: seq<Record>, key: string)
    ensures forall i :: 0 <= i < |table| ==> (Matches(table[i], key) <==> i in Positions(table, key))
    decreases |table|
  {
    if |table| > 0 {
      var rest := table[1..];
      PositionsExact(rest, key);
      forall i | 0 <= i < |table| ensures Matches(table[i], key) <==> i in Positions(table, key) {
        ShiftHas(Positions(rest, key), i);
        if i > 0 {
          assert rest[i - 1] == table[i];
        }
      }
    }
  }

  /** Lookup returns exactly the rows whose lowercased `SNP` cell equals the
      stripped, lowercased query, each once and in table order. */
  lemma LookupExact(table: seq<Record>, query: string)
    ensures exists idx :: SelectedInOrder(Lookup(table, query), table, QueryKey(query), idx)
  {
    var idx := Positions(table, QueryKey(query));
    PositionsPick(table, QueryKey(query));
    PositionsIncreasing(table, QueryKey(query));
    PositionsExact(table, QueryKey(query));
    assert SelectedInOrder(Lookup(table, query), table, QueryKey(query), idx);
  }

  /** An unmatched query yields the empty sequence, and only an unmatched one does. */
  lemma LookupEmpty(table: seq<Record>, query: string)
    ensures Lookup(table, query) == [] <==> forall i :: 0 <= i < |table| ==> !Matches(table[i], QueryKey(query))
  {
    var idx := Positions(table, QueryKey(query));
    PositionsExact(table, QueryKey(query));
    if idx != [] {
      assert idx[0] in idx;
    }
  }

  /** Queries that differ only in letter case select the same rows. */
  lemma LookupCaseInsensitive(table: seq<Record>, q1: string, q2: string)
    requires Lower(q1) == Lower(q2)
    ensures Lookup(table, q1) == Lookup(table, q2)
  {
    TrimLower(q1);
    TrimLower(q2);
  }

  /** In particular the upper-case form of a query selects the same rows. */
  lemma LookupUpper(table: seq<Record>, query: string)
    ensures Lookup(table, Upper(query)) == Lookup(table, query)
  {
    LowerUpper(query);
    LookupCaseInsensitive(table, Upper(query), query);
  }

  /** Surrounding whitespace in the query is ignored. */
  lemma LookupIgnoresPadding(table: seq<Record>, query: string, pre: string, post: string)
    requires AllSpace(pre) && AllSpace(post)
    ensures Lookup(table, pre + query + post) == Lookup(table, query)
  {
    TrimIgnoresPadding(query, pre, post);
  }

  /** The key for the upper-case identifier is its lowercase form. */
  lemma QueryKeyExample()
    ensures QueryKey("RS1801133") == "rs1801133"
  {
    TrimExact("RS1801133", 0, 9);
    var l := Lower("RS1801133");
    assert forall i :: 0 <= i < 9 ==> l[i] == "rs1801133"[i];
  }

  lemma LowerExample()
    ensures Lower("rs1801133") == "rs1801133"
  {
    var l := Lower("rs1801133");
    assert forall i :: 0 <= i < 9 ==> l[i] == "rs1801133"[i];
  }

  /** The upper-case identifier finds the example record. */
  lemma ExampleLookup()
    ensures Lookup(ExampleTable(), "RS1801133") == ExampleTable()
  {
    QueryKeyExample();
    LowerExample();
    var table := ExampleTable();
    assert Get(table[0], SnpColumn) == Some(Text("rs1801133"));
    assert Matches(table[0], "rs1801133");
    assert table[1..] == [];
    assert Select(table[1..], "rs1801133") == [];
  }
}
