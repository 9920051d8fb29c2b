/** The statement the generic admin POST route builds from a request body:
    the body's property names become the column list, one `?` per property
    becomes the value list, and the property values are bound in the same order. */
module SqlInsert {
  import opened Strings
  import opened Schema

  /** A JSON request body: its properties in `Object.keys` order. */
  type Body = seq<(string, Cell)>

  /** A JavaScript object never has two properties of the same name. */
  predicate DistinctKeys(body: Body) {
    forall i, j :: 0 <= i < j < |body| ==> body[i].0 != body[j].0
  }

  /** `Object.keys(body)`. */
  function Keys(body: Body): seq<string>
  {
    seq(|body|, k requires 0 <= k < |body| => body[k].0)
  }

  /** `Object.values(body)`. */
  function Values(body: Body): seq<Cell>
  {
    seq(|body|, k requires 0 <= k < |body| => body[k].1)
  }

  /** The value of property `c`, or NULL (the column default) when the body has none. */
  function Lookup(body: Body, c: string): Cell
  {
    if body == [] then Null
    else if body[0].0 == c then body[0].1
    else Lookup(body[1..], c)
  }

  /** `columns.map(() => '?')`. */
  function Placeholders(n: nat): seq<string>
  {
    seq(n, _ => "?")
  }

  /** The INSERT statement for `table` naming `columns`. */
  function InsertSql(table: string, columns: seq<string>): string
  {
    "INSERT INTO " + table + " (" + Join(columns, ',') + ") VALUES ("
      + Join(Placeholders(|columns|), ',') + ")"
  }

  /** What the engine stores in column `c`: the parameter bound to the first
      `?` whose position names `c` in the column list, NULL when none does. */
  function Bound(columns: seq<string>, values: seq<Cell>, c: string): Cell
    requires |columns| == |values|
  {
    if columns == [] then Null
    else if columns[0] == c then values[0]
    else Bound(columns[1..], values[1..], c)
  }

  lemma {:induction false} JoinFree(parts: seq<string>, sep: char, c: char)
    requires sep != c
    requires forall k :: 0 <= k < |parts| ==> Free(parts[k], c)
    ensures Free(Join(parts, sep), c)
    decreases |parts|
  {
    if |parts| > 1 {
      JoinFree(parts[1..], sep, c);
      var rest := Join(parts[1..], sep);
      assert Join(parts, sep) == parts[0] + [sep] + rest;
      forall i | 0 <= i < |parts[0] + [sep] + rest| ensures (parts[0] + [sep] + rest)[i] != c {
        if i > |parts[0]| {
          assert (parts[0] + [sep] + rest)[i] == rest[i - |parts[0]| - 1];
        }
      }
    }
  }

  /** The value list holds one `?` per column. */
  lemma {:induction false} PlaceholderCount(n: nat)
    ensures Count(Join(Placeholders(n), ','), '?') == n
    decreases n
  {
    if n == 1 {
      assert Join(Placeholders(1), ',') == "?";
    } else if n > 1 {
      assert Placeholders(n)[1..] == Placeholders(n - 1);
      assert Join(Placeholders(n), ',') == "?" + "," + Join(Placeholders(n - 1), ',');
      PlaceholderCount(n - 1);
      CountAppend("?", ",", '?');
      CountAppend("?" + ",", Join(Placeholders(n - 1), ','), '?');
    }
  }

  lemma CountSeven(a: string, b: string, c: string, d: string, e: string, f: string, g: string, x: char)
    ensures Count(a + b + c + d + e + f + g, x)
         == Count(a, x) + Count(b, x) + Count(c, x) + Count(d, x) + Count(e, x) + Count(f, x) + Count(g, x)
  {
    CountAppend(a, b, x);
    CountAppend(a + b, c, x);
    CountAppend(a + b + c, d, x);
    CountAppend(a + b + c + d, e, x);
    CountAppend(a + b + c + d + e, f, x);
    CountAppend(a + b + c + d + e + f, g, x);
  }

  /** Fixed text free of `?` around the three varying parts adds no parameters. */
  lemma CountFramed(p1: string, table: string, p2: string, cols: string, p3: string, marks: string, p4: string)
    requires '?' !in p1 && '?' !in p2 && '?' !in p3 && '?' !in p4
    requires Free(table, '?') && Free(cols, '?')
    ensures Count(p1 + table + p2 + cols + p3 + marks + p4, '?') == Count(marks, '?')
  {
    CountFree(p1, '?');
    CountFree(p2, '?');
    CountFree(p3, '?');
    CountFree(p4, '?');
    CountFree(table, '?');
    CountFree(cols, '?');
    CountSeven(p1, table, p2, cols, p3, marks, p4, '?');
  }

  /** When neither the table name nor any property name contains `?`, the
      statement has exactly as many `?` parameters as the body has properties. */
  lemma OnePlaceholderPerColumn(table: string, columns: seq<string>)
    requires Free(table, '?')
    requires forall k :: 0 <= k < |columns| ==> Free(columns[k], '?')
    ensures Count(InsertSql(table, columns), '?') == |columns|
  {
    JoinFree(columns, ',', '?');
    PlaceholderCount(|columns|);
    CountFramed("INSERT INTO ", table, " (", Join(columns, ','), ") VALUES (", Join(Placeholders(|columns|), ','), ")");
  }

  /** For a non-empty body whose property names hold no comma, the column
      list reads back as the property names and the value list as one `?` per
      property: the two lists have the same length. */
  lemma ListsReadBack(body: Body)
    requires |body| >= 1
    requires forall k :: 0 <= k < |body| ==> Free(body[k].0, ',')
    ensures Split(Join(Keys(body), ','), ',') == Keys(body)
    ensures Split(Join(Placeholders(|body|), ','), ',') == Placeholders(|body|)
    ensures |Keys(body)| == |Values(body)| == |Placeholders(|body|)| == |body|
  {
    SplitJoin(Keys(body), ',');
    SplitJoin(Placeholders(|body|), ',');
  }

  /** Binding `Object.values` positionally against `Object.keys` stores in each
      column the value the body gives that property. */
  lemma {:induction false} BindingFollowsBody(body: Body, c: string)
    ensures Bound(Keys(body), Values(body), c) == Lookup(body, c)
    decreases |body|
  {
    if body != [] {
      assert Keys(body)[1..] == Keys(body[1..]);
      assert Values(body)[1..] == Values(body[1..]);
      BindingFollowsBody(body[1..], c);
    }
  }

  /** With distinct property names, the value stored for a property is the one at its position. */
  lemma {:induction false} LookupAt(body: Body, k: nat)
    requires DistinctKeys(body) && k < |body|
    ensures Lookup(body, body[k].0) == body[k].1
    decreases k
  {
    if k > 0 {
      assert DistinctKeys(body[1..]);
      LookupAt(body[1..], k - 1);
    }
  }

  /** A property the body does not have leaves its column NULL. */
  lemma {:induction false} LookupMissing(body: Body, c: string)
    requires forall k :: 0 <= k < |body| ==> body[k].0 != c
    ensures Lookup(body, c) == Null
    decreases |body|
  {
    if body != [] {
      LookupMissing(body[1..], c);
    }
  }
}
