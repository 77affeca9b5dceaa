/**
  Numbering the entities and relations of a knowledge graph by their names, in order.
 */
module IdMaps {
  import opened FiniteSets

  datatype Row = Row(head: string, relation: string, tail: string)

  datatype Triple = Triple(head: nat, relation: nat, tail: nat)

  // ---- the order of names --------------------------------------------------------------

  predicate Less(a: string, b: string) {
    b != "" && (a == "" || a[0] < b[0] || (a[0] == b[0] && Less(a[1..], b[1..])))
  }

  /** The order of a dictionary: a is a proper prefix of b, or smaller at the first place
      where they differ. */
  ghost predicate Precedes(a: string, b: string) {
    || (|a| < |b| && b[..|a|] == a)
    || exists k :: 0 <= k < |a| && k < |b| && a[..k] == b[..k] && a[k] < b[k]
  }

  lemma {:induction false} LessMeans(a: string, b: string)
    ensures Less(a, b) <==> Precedes(a, b)
  {
    if a != "" && b != "" {
      if a[0] == b[0] {
        LessMeans(a[1..], b[1..]);
        PrecedesBehind(a, b);
      } else {
        PrecedesAtFirst(a, b);
      }
    }
  }

  lemma PrecedesAtFirst(a: string, b: string)
    requires a != "" && b != "" && a[0] != b[0]
    ensures Precedes(a, b) <==> a[0] < b[0]
  {
    assert a[..0] == b[..0];
    forall k | 0 < k <= |a| && k <= |b| ensures a[..k] != b[..k] {
      assert a[..k][0] == a[0] && b[..k][0] == b[0];
    }
    assert a[..|a|] == a;
  }

  /** Equal first characters do not matter. */
  lemma PrecedesBehind(a: string, b: string)
    requires a != "" && b != "" && a[0] == b[0]
    ensures Precedes(a, b) <==> Precedes(a[1..], b[1..])
  {
    assert a == [a[0]] + a[1..] && b == [b[0]] + b[1..];
    if |a| < |b| {
      assert b[..|a|] == [b[0]] + b[1..][..|a| - 1];
    }
    if k :| 0 <= k < |a| && k < |b| && a[..k] == b[..k] && a[k] < b[k] {
      assert a[1..][..k - 1] == a[..k][1..] && b[1..][..k - 1] == b[..k][1..];
      assert a[1..][k - 1] < b[1..][k - 1];
    }
    if k :| 0 <= k < |a[1..]| && k < |b[1..]| && a[1..][..k] == b[1..][..k] && a[1..][k] < b[1..][k] {
      assert a[..k + 1] == [a[0]] + a[1..][..k] && b[..k + 1] == [b[0]] + b[1..][..k];
      assert a[k + 1] < b[k + 1];
    }
  }

  lemma {:induction false} LessIsTotal(a: string, b: string)
    ensures Less(a, b) || a == b || Less(b, a)
    ensures !(Less(a, b) && (a == b || Less(b, a)))
  {
    if a != "" && b != "" && a[0] == b[0] {
      LessIsTotal(a[1..], b[1..]);
      assert a == [a[0]] + a[1..] && b == [b[0]] + b[1..];
    }
  }

  lemma {:induction false} LessIsTransitive(a: string, b: string, c: string)
    requires Less(a, b) && Less(b, c)
    ensures Less(a, c)
  {
    if a != "" && a[0] == b[0] == c[0] {
      LessIsTransitive(a[1..], b[1..], c[1..]);
    }
  }

  ghost predicate Ascending(names: seq<string>) {
    forall i, j :: 0 <= i < j < |names| ==> Less(names[i], names[j])
  }

  // ---- sorting ----------------------------------------------------------------------------

  /** Puts a new name where it belongs. */
  method Insert(names: seq<string>, name: string) returns (more: seq<string>)
    requires Ascending(names) && name !in names
    ensures Ascending(more) && forall x :: x in more <==> x in names || x == name
  {
    var k := 0;
    while k < |names| && Less(names[k], name)
      invariant k <= |names| && forall i :: 0 <= i < k ==> Less(names[i], name)
    {
      k := k + 1;
    }
    forall j | k <= j < |names| ensures Less(name, names[j]) {
      LessIsTotal(names[k], name);
      if j > k {
        LessIsTransitive(name, names[k], names[j]);
      }
    }
    more := names[..k] + [name] + names[k..];
    assert forall i :: 0 <= i < |more| ==> more[i] == if i < k then names[i] else if i == k then name else names[i - 1];
    assert forall x :: x in names ==> x in names[..k] || x in names[k..];
  }

  method Sorted(names: set<string>) returns (list: seq<string>)
    ensures Ascending(list) && forall x :: x in list <==> x in names
  {
    list := [];
    var rest := names;
    while rest != {}
      invariant rest <= names && Ascending(list) && forall x :: x in list <==> x in names - rest
      decreases rest
    {
      var name :| name in rest;
      list := Insert(list, name);
      rest := rest - {name};
    }
  }

  // ---- numbering ----------------------------------------------------------------------------

  /** The names are numbered from zero, in their order. */
  ghost predicate NumbersInOrder(ids: map<string, nat>, names: set<string>) {
    && ids.Keys == names
    && (forall a :: a in names ==> ids[a] < |names|)
    && (forall a, b :: a in names && b in names ==> (ids[a] < ids[b] <==> Precedes(a, b)))
  }

  lemma DifferentNumbers(ids: map<string, nat>, names: set<string>, a: string, b: string)
    requires NumbersInOrder(ids, names) && a in names && b in names && ids[a] == ids[b]
    ensures a == b
  {
    LessIsTotal(a, b);
    LessMeans(a, b);
    LessMeans(b, a);
  }

  lemma NumbersInject(ids: map<string, nat>, names: set<string>, s: set<string>)
    requires NumbersInOrder(ids, names) && s <= names
    ensures s <= ids.Keys && InjectiveOn(s, ids)
  {
    forall a, b | a in s && b in s && ids[a] == ids[b] ensures a == b {
      DifferentNumbers(ids, names, a, b);
    }
  }

  ghost function Before(names: set<string>, a: string): (s: set<string>)
    ensures s <= names
  {
    set b | b in names && Precedes(b, a)
  }

  /** A name's number is how many names come before it. */
  lemma NumberIsRank(ids: map<string, nat>, names: set<string>, a: string)
    requires NumbersInOrder(ids, names) && a in names
    ensures ids[a] == |Before(names, a)|
  {
    var lower, upper := Before(names, a), names - Before(names, a);
    NumbersInject(ids, names, lower);
    NumbersInject(ids, names, upper);
    BelowCardinality(ids[a]);
    BelowCardinality(|names|);
    assert MapsInto(lower, Below(ids[a]), ids);
    assert MapsInto(upper, Below(|names|) - Below(ids[a]), ids);
    hide *;
    InjectionBound(lower, Below(ids[a]), ids);
    InjectionBound(upper, Below(|names|) - Below(ids[a]), ids);
    SizesAdd(names, lower);
    BelowIncludes(ids[a], |names|);
    SizesAdd(Below(|names|), Below(ids[a]));
  }

  lemma SizesAdd<T>(s: set<T>, t: set<T>)
    requires t <= s
    ensures |s| == |t| + |s - t|
  {
    assert s == t + (s - t);
  }

  lemma BelowIncludes(m: nat, n: nat)
    requires m <= n
    ensures Below(m) <= Below(n)
  {
  }

  /** So the numbering depends on the names alone, not on the order they were met in. */
  lemma NumberingIsUnique(ids: map<string, nat>, ids': map<string, nat>, names: set<string>)
    requires NumbersInOrder(ids, names) && NumbersInOrder(ids', names)
    ensures ids == ids'
  {
    forall a | a in names ensures ids[a] == ids'[a] {
      NumberIsRank(ids, names, a);
      NumberIsRank(ids', names, a);
    }
  }

  method Enumerate(names: set<string>) returns (ids: map<string, nat>)
    ensures NumbersInOrder(ids, names)
  {
    var list := Sorted(names);
    ids := map[];
    for i := 0 to |list|
      invariant forall x :: x in ids <==> x in list[..i]
      invariant forall k :: 0 <= k < i ==> list[k] in ids && ids[list[k]] == k
    {
      forall k | 0 <= k < i ensures list[k] != list[i] {
        LessIsTotal(list[k], list[i]);
      }
      ids := ids[list[i] := i];
    }
    Positions(list, ids, names);
  }

  lemma Positions(list: seq<string>, ids: map<string, nat>, names: set<string>)
    requires Ascending(list) && (forall x :: x in list <==> x in names)
    requires forall x :: x in ids <==> x in list
    requires forall k :: 0 <= k < |list| ==> list[k] in ids && ids[list[k]] == k
    ensures NumbersInOrder(ids, names)
  {
    assert ids.Keys == names;
    InverseBound(list, names);
    forall a, b | a in names && b in names ensures ids[a] < ids[b] <==> Precedes(a, b) {
      var i, j := ids[a], ids[b];
      LessIsTotal(a, b);
      LessMeans(a, b);
    }
  }

  lemma {:induction false} InverseBound(list: seq<string>, names: set<string>)
    requires Ascending(list) && (forall x :: x in list <==> x in names)
    ensures |list| == |names|
    decreases |list|
  {
    if list != [] {
      var n := |list| - 1;
      forall i | 0 <= i < n ensures list[i] != list[n] {
        LessIsTotal(list[i], list[n]);
      }
      assert list == list[..n] + [list[n]];
      InverseBound(list[..n], names - {list[n]});
    }
  }

  // ---- the graph's names -----------------------------------------------------------------------

  ghost predicate IsEntityOf(splits: seq<seq<Row>>, name: string) {
    exists i, j :: 0 <= i < |splits| && 0 <= j < |splits[i]| && (splits[i][j].head == name || splits[i][j].tail == name)
  }

  ghost predicate IsRelationOf(splits: seq<seq<Row>>, name: string) {
    exists i, j :: 0 <= i < |splits| && 0 <= j < |splits[i]| && splits[i][j].relation == name
  }

  /** What the first i splits and the first j rows of the next one name. */
  ghost predicate Collected(splits: seq<seq<Row>>, i: nat, j: nat, entities: set<string>, relations: set<string>)
    requires i <= |splits| && (i < |splits| ==> j <= |splits[i]|)
  {
    && (forall x :: x in entities <==>
          exists k, l :: 0 <= k < |splits| && 0 <= l < |splits[k]| && (k < i || (k == i && l < j)) &&
                         (splits[k][l].head == x || splits[k][l].tail == x))
    && (forall x :: x in relations <==>
          exists k, l :: 0 <= k < |splits| && 0 <= l < |splits[k]| && (k < i || (k == i && l < j)) &&
                         splits[k][l].relation == x)
  }

  method BuildIdMaps(dataset: seq<seq<Row>>) returns (ent2id: map<string, nat>, rel2id: map<string, nat>)
    ensures forall x :: x in ent2id <==> IsEntityOf(dataset, x)
    ensures forall x :: x in rel2id <==> IsRelationOf(dataset, x)
    ensures NumbersInOrder(ent2id, ent2id.Keys) && NumbersInOrder(rel2id, rel2id.Keys)
  {
    var entities, relations := {}, {};
    for i := 0 to |dataset|
      invariant Collected(dataset, i, 0, entities, relations)
    {
      for j := 0 to |dataset[i]|
        invariant Collected(dataset, i, j, entities, relations)
      {
        var row := dataset[i][j];
        entities := entities + {row.head, row.tail};
        relations := relations + {row.relation};
      }
    }
    ent2id := Enumerate(entities);
    rel2id := Enumerate(relations);
  }

  // ---- rows and triples ------------------------------------------------------------------------

  /** The rows with names replaced by numbers. */
  ghost predicate Numbered(rows: seq<Row>, ent2id: map<string, nat>, rel2id: map<string, nat>, triples: seq<Triple>) {
    && |triples| == |rows|
    && forall i :: 0 <= i < |rows| ==>
         var row := rows[i];
         && row.head in ent2id && row.tail in ent2id && row.relation in rel2id
         && triples[i] == Triple(ent2id[row.head], rel2id[row.relation], ent2id[row.tail])
  }

  method RowsToTriples(rows: seq<Row>, ent2id: map<string, nat>, rel2id: map<string, nat>)
    returns (triples: seq<Triple>)
    requires forall row :: row in rows ==> row.head in ent2id && row.tail in ent2id && row.relation in rel2id
    ensures Numbered(rows, ent2id, rel2id, triples)
  {
    triples := [];
    for i := 0 to |rows|
      invariant Numbered(rows[..i], ent2id, rel2id, triples)
    {
      var row := rows[i];
      triples := triples + [Triple(ent2id[row.head], rel2id[row.relation], ent2id[row.tail])];
    }
    assert rows[..|rows|] == rows;
  }

  /** No information is lost: the triples determine the rows; and their numbers are in range. */
  lemma TriplesDetermineRows(rows: seq<Row>, rows': seq<Row>, ent2id: map<string, nat>, rel2id: map<string, nat>,
                        triples: seq<Triple>)
    requires NumbersInOrder(ent2id, ent2id.Keys) && NumbersInOrder(rel2id, rel2id.Keys)
    requires Numbered(rows, ent2id, rel2id, triples) && Numbered(rows', ent2id, rel2id, triples)
    ensures rows == rows'
    ensures forall t :: t in triples ==> t.head < |ent2id| && t.tail < |ent2id| && t.relation < |rel2id|
  {
    forall i | 0 <= i < |rows| ensures rows[i] == rows'[i] {
      assert triples[i].head == ent2id[rows[i].head];
      DifferentNumbers(ent2id, ent2id.Keys, rows[i].head, rows'[i].head);
      DifferentNumbers(ent2id, ent2id.Keys, rows[i].tail, rows'[i].tail);
      DifferentNumbers(rel2id, rel2id.Keys, rows[i].relation, rows'[i].relation);
    }
    assert |ent2id| == |ent2id.Keys| && |rel2id| == |rel2id.Keys|;
  }
}
