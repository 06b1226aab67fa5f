/**
 A student's grade table. The program keeps grades in a dictionary from
 subject to grade; a dictionary remembers the order in which subjects were
 first inserted and holds each subject once. This module represents it as an
 insertion-ordered sequence of (subject, grade) entries with distinct subjects,
 and relates that sequence to the plain map it denotes.
 */
module Grades {

  /** One (subject, grade) entry. */
  type Entry = (string, real)

  /** No subject occurs twice. */
  predicate DistinctSubjects(g: seq<Entry>) {
    forall i, j :: 0 <= i < j < |g| ==> g[i].0 != g[j].0
  }

  /** The grade table of one student, in insertion order. */
  type Table = g: seq<Entry> | DistinctSubjects(g) witness []

  /** The accepted grade range, both ends included. */
  predicate ValidGrade(x: real) {
    0.0 <= x <= 100.0
  }

  /** Every stored grade lies in the accepted range. */
  predicate AllValid(g: seq<Entry>) {
    forall i :: 0 <= i < |g| ==> ValidGrade(g[i].1)
  }

  /** The map a grade table denotes: one key per entry, carrying that entry's grade. */
  function AsMap(g: Table): (m: map<string, real>)
    ensures |m| == |g|
    ensures forall i :: 0 <= i < |g| ==> g[i].0 in m && m[g[i].0] == g[i].1
    ensures forall k :: k in m ==> exists i :: 0 <= i < |g| && g[i].0 == k
  {
    if |g| == 0 then map[]
    else
      var rest: Table := g[1..];
      var m' := AsMap(rest);
      assert g[0].0 !in m' by {
        forall i | 0 <= i < |rest|
          ensures rest[i].0 != g[0].0
        {
          assert rest[i] == g[i + 1];
        }
      }
      m'[g[0].0 := g[0].1]
  }

  /** Where `subject` sits in `g`, or `|g|` when it is absent: a left-to-right scan. */
  function Position(g: seq<Entry>, subject: string): (i: nat)
    ensures i <= |g|
    ensures i < |g| ==> g[i].0 == subject
    ensures forall j :: 0 <= j < i ==> g[j].0 != subject
  {
    if |g| == 0 then 0
    else if g[0].0 == subject then 0
    else 1 + Position(g[1..], subject)
  }

  /**
   Stores `grade` under `subject`, as a dictionary assignment does: an existing
   subject keeps its position and gets the new grade; a new subject goes last.
   */
  function Put(g: Table, subject: string, grade: real): (r: Table)
    ensures AsMap(r) == AsMap(g)[subject := grade]
    ensures subject in AsMap(g) ==> |r| == |g| && forall i :: 0 <= i < |g| ==> r[i].0 == g[i].0
    ensures subject !in AsMap(g) ==> r == g + [(subject, grade)]
    ensures forall i :: 0 <= i < |r| ==> r[i] == (subject, grade) || r[i] in g
  {
    var i := Position(g, subject);
    if i < |g| then
      ReplaceEntry(g, i, grade);
      g[i := (subject, grade)]
    else
      AppendEntry(g, subject, grade);
      g + [(subject, grade)]
  }

  /** Storing a valid grade keeps every grade of the table valid. */
  lemma PutKeepsValid(g: Table, subject: string, grade: real)
    requires ValidGrade(grade)
    ensures AllValid(g) ==> AllValid(Put(g, subject, grade))
  {
  }

  /** Overwriting the grade of an entry keeps the subjects and updates the map at that subject. */
  lemma ReplaceEntry(g: Table, i: nat, grade: real)
    requires i < |g|
    ensures DistinctSubjects(g[i := (g[i].0, grade)])
    ensures AsMap(g[i := (g[i].0, grade)]) == AsMap(g)[g[i].0 := grade]
  {
    var r: Table := g[i := (g[i].0, grade)];
    var m := AsMap(g)[g[i].0 := grade];
    forall j | 0 <= j < |r|
      ensures r[j].0 in m && m[r[j].0] == r[j].1
    {
      if j != i {
        assert g[j].0 != g[i].0 by {
          if j < i { assert g[j].0 != g[i].0; } else { assert g[i].0 != g[j].0; }
        }
      }
    }
    MapsAgree(r, m);
  }

  /** Appending an entry for a new subject keeps the subjects distinct and adds that key. */
  lemma AppendEntry(g: Table, subject: string, grade: real)
    requires Position(g, subject) == |g|
    ensures DistinctSubjects(g + [(subject, grade)])
    ensures subject !in AsMap(g)
    ensures AsMap(g + [(subject, grade)]) == AsMap(g)[subject := grade]
  {
    var r: Table := g + [(subject, grade)];
    var m := AsMap(g)[subject := grade];
    forall j | 0 <= j < |r|
      ensures r[j].0 in m && m[r[j].0] == r[j].1
    {
      if j < |g| {
        assert r[j] == g[j];
      }
    }
    MapsAgree(r, m);
  }

  /** A table denotes `m` as soon as it has `m`'s size and agrees with `m` on every entry. */
  lemma MapsAgree(g: Table, m: map<string, real>)
    requires |g| == |m|
    requires forall i :: 0 <= i < |g| ==> g[i].0 in m && m[g[i].0] == g[i].1
    ensures AsMap(g) == m
  {
    var a := AsMap(g);
    assert a.Keys <= m.Keys;
    SubsetOfSameSize(a.Keys, m.Keys);
  }

  /** A subset as large as its superset is the superset. */
  lemma SubsetOfSameSize<T>(a: set<T>, b: set<T>)
    requires a <= b && |a| == |b|
    ensures a == b
  {
    assert b == a + (b - a);
    assert |b - a| == 0;
  }

  /** The sum of the grades in a table, in table order. */
  function Total(g: seq<Entry>): real
  {
    if |g| == 0 then 0.0 else g[0].1 + Total(g[1..])
  }

  /** The sum of `m`'s values over the keys in `s`, taken in no particular order. */
  ghost function SumOver(m: map<string, real>, s: set<string>): real
    requires s <= m.Keys
    decreases s
  {
    if s == {} then 0.0
    else
      var k :| k in s;
      m[k] + SumOver(m, s - {k})
  }

  /** The sum of all the values of a map: what summing a dictionary's values yields. */
  ghost function MapSum(m: map<string, real>): real
  {
    SumOver(m, m.Keys)
  }

  /** Any key of `s` can be taken out first. */
  lemma {:induction false} SumOverRemove(m: map<string, real>, s: set<string>, k: string)
    requires s <= m.Keys && k in s
    ensures SumOver(m, s) == m[k] + SumOver(m, s - {k})
    decreases s
  {
    var j :| j in s && SumOver(m, s) == m[j] + SumOver(m, s - {j});
    if j != k {
      SumOverRemove(m, s - {j}, k);
      SumOverRemove(m, s - {k}, j);
      assert s - {j} - {k} == s - {k} - {j};
    }
  }

  /** The sum over `s` reads only the values at keys in `s`. */
  lemma {:induction false} SumOverFrame(m: map<string, real>, m': map<string, real>, s: set<string>)
    requires s <= m.Keys && s <= m'.Keys
    requires forall k :: k in s ==> m[k] == m'[k]
    ensures SumOver(m, s) == SumOver(m', s)
    decreases s
  {
    if s != {} {
      var k :| k in s;
      SumOverRemove(m, s, k);
      SumOverRemove(m', s, k);
      SumOverFrame(m, m', s - {k});
    }
  }

  /** Summing the table in order gives the order-free sum of the map it denotes. */
  lemma {:induction false} TotalIsMapSum(g: Table)
    ensures Total(g) == MapSum(AsMap(g))
  {
    if |g| > 0 {
      var rest: Table := g[1..];
      TotalIsMapSum(rest);
      var m := AsMap(g);
      var m' := AsMap(rest);
      assert m == m'[g[0].0 := g[0].1];
      SumOverRemove(m, m.Keys, g[0].0);
      assert m.Keys - {g[0].0} == m'.Keys;
      SumOverFrame(m, m', m'.Keys);
    }
  }

  /** Grades in [0, 100] sum to something in [0, 100 * count]. */
  lemma {:induction false} TotalBounds(g: seq<Entry>)
    requires AllValid(g)
    ensures 0.0 <= Total(g) <= 100.0 * (|g| as real)
  {
    if |g| > 0 {
      assert ValidGrade(g[0].1);
      TotalBounds(g[1..]);
    }
  }
}
