/** HTTPHeaders: the case-insensitive, modifiable list of header fields. */
module Headers {
  import opened Text

  datatype Field = Field(name: string, value: string)

  ghost predicate KeyedByLowerName(m: map<string, Field>) {
    forall k :: k in m ==> Lower(m[k].name) == k
  }

  /** std::map with the comparator StrCaseLess: two names are the same key when
      they agree in lower case. A field remembers the spelling it was inserted with. */
  type HeaderMap = m: map<string, Field> | KeyedByLowerName(m) witness map[]

  predicate Has(m: HeaderMap, name: string) { Lower(name) in m }

  function Get(m: HeaderMap, name: string): string {
    if Has(m, name) then m[Lower(name)].value else ""
  }

  /** headers[name] = data, which keeps the spelling of a key that is already there. */
  function Put(m: HeaderMap, name: string, data: string): HeaderMap {
    var spelling := if Has(m, name) then m[Lower(name)].name else name;
    m[Lower(name) := Field(spelling, data)]
  }

  function FieldLine(f: Field): string { f.name + ": " + f.value }

  function FormatFields(fs: seq<Field>): string {
    if fs == [] then "" else FieldLine(fs[0]) + CRLF + FormatFields(fs[1..])
  }

  /** The order of the keys: lexicographical_compare on the lower-case characters. */
  predicate Less(a: string, b: string) {
    b != "" && (a == "" || a[0] < b[0] || (a[0] == b[0] && Less(a[1..], b[1..])))
  }

  lemma {:induction false} LessIsTotal(a: string, b: string)
    ensures a == b || Less(a, b) || Less(b, a)
  {
    if a != "" && b != "" && a[0] == b[0] {
      LessIsTotal(a[1..], b[1..]);
      if a[1..] == b[1..] { assert a == [a[0]] + a[1..] && b == [b[0]] + b[1..]; }
    }
  }

  lemma {:induction false} LessIsTransitive(a: string, b: string, c: string)
    requires Less(a, b) && Less(b, c)
    ensures Less(a, c)
  {
    if a != "" && a[0] == b[0] == c[0] { LessIsTransitive(a[1..], b[1..], c[1..]); }
  }

  predicate IsLeast(k: string, keys: set<string>) {
    k in keys && forall j :: j in keys && j != k ==> Less(k, j)
  }

  lemma {:induction false} LeastExists(keys: set<string>)
    requires keys != {}
    ensures exists k :: k in keys && IsLeast(k, keys)
    decreases |keys|
  {
    var x :| x in keys;
    var rest := keys - {x};
    assert keys == rest + {x};
    if rest == {} {
      assert IsLeast(x, keys);
    } else {
      LeastExists(rest);
      var k :| k in rest && IsLeast(k, rest);
      LessIsTotal(x, k);
      if Less(x, k) {
        forall j | j in keys && j != x ensures Less(x, j) {
          assert j in rest;
          if j != k { LessIsTransitive(x, k, j); }
        }
        assert IsLeast(x, keys);
      } else {
        assert forall j :: j in keys ==> j == x || j in rest;
        assert IsLeast(k, keys);
      }
    }
  }

  ghost predicate Ascending(fs: seq<Field>) {
    forall i, j :: 0 <= i < j < |fs| ==> Less(Lower(fs[i].name), Lower(fs[j].name))
  }

  /** Inserts the fields one after the other. */
  function PutAll(m: HeaderMap, fs: seq<Field>): HeaderMap
    decreases |fs|
  {
    if fs == [] then m else PutAll(Put(m, fs[0].name, fs[0].value), fs[1..])
  }

  ghost predicate DistinctNames(fs: seq<Field>) {
    forall i, j :: 0 <= i < j < |fs| ==> Lower(fs[i].name) != Lower(fs[j].name)
  }

  /** fs lists every entry of m exactly once. */
  ghost predicate Enumerates(fs: seq<Field>, m: HeaderMap) {
    && DistinctNames(fs)
    && (forall i :: 0 <= i < |fs| ==> Lower(fs[i].name) in m && m[Lower(fs[i].name)] == fs[i])
    && PutAll(map[], fs) == m
  }

  lemma {:induction false} PutAllAppend(m: HeaderMap, fs: seq<Field>, f: Field)
    ensures PutAll(m, fs + [f]) == Put(PutAll(m, fs), f.name, f.value)
    decreases |fs|
  {
    if fs == [] {
      assert fs + [f] == [f];
      assert PutAll(m, [f]) == PutAll(Put(m, f.name, f.value), [f][1..]);
    } else {
      assert (fs + [f])[1..] == fs[1..] + [f];
      PutAllAppend(Put(m, fs[0].name, fs[0].value), fs[1..], f);
    }
  }

  /** The value that was set last under any spelling of the name. */
  function LastValue(fs: seq<Field>, name: string): Option<string> {
    if fs == [] then None
    else
      var last := fs[|fs| - 1];
      if Lower(last.name) == Lower(name) then Some(last.value) else LastValue(fs[..|fs| - 1], name)
  }

  /** After any sequence of SetHeader calls, GetHeader gives the value set last under the
      same name up to case, and what was there before where there is none. */
  lemma {:induction false} LastSetWins(m: HeaderMap, fs: seq<Field>, name: string)
    ensures Has(PutAll(m, fs), name) <==> LastValue(fs, name).Some? || Has(m, name)
    ensures Get(PutAll(m, fs), name) == match LastValue(fs, name)
              case Some(value) => value
              case None => Get(m, name)
    decreases |fs|
  {
    hide Lower;
    if fs != [] {
      var front, last := fs[..|fs| - 1], fs[|fs| - 1];
      assert fs == front + [last];
      LastSetWins(m, front, name);
      PutAllAppend(m, front, last);
    }
  }

  lemma {:induction false} FormatAppend(fs: seq<Field>, f: Field)
    ensures FormatFields(fs + [f]) == FormatFields(fs) + FieldLine(f) + CRLF
  {
    if fs == [] {
      assert fs + [f] == [f];
      assert FormatFields([f]) == FieldLine(f) + CRLF + FormatFields([f][1..]);
    } else {
      assert (fs + [f])[1..] == fs[1..] + [f];
      FormatAppend(fs[1..], f);
    }
  }

  /** The loop of GetFormattedHeaders has visited the keys outside left, the least ones. */
  ghost predicate Visited(m: HeaderMap, left: set<string>, order: seq<Field>) {
    && left <= m.Keys && DistinctNames(order) && Ascending(order) && PutAll(map[], order) == m - left
    && (forall i :: 0 <= i < |order| ==>
          var k := Lower(order[i].name); k in m && k !in left && m[k] == order[i])
    && (forall i, k :: 0 <= i < |order| && k in left ==> Less(Lower(order[i].name), k))
  }

  lemma NothingVisited(m: HeaderMap)
    ensures Visited(m, m.Keys, [])
  {
    assert m - m.Keys == map[];
  }

  lemma VisitLeast(m: HeaderMap, left: set<string>, order: seq<Field>, k: string)
    requires Visited(m, left, order) && k in left && IsLeast(k, left)
    ensures k in m && Visited(m, left - {k}, order + [m[k]])
  {
    hide Lower, Less;
    PutAllAppend(map[], order, m[k]);
    assert Put(m - left, m[k].name, m[k].value) == m - (left - {k});
  }

  lemma AllVisited(m: HeaderMap, order: seq<Field>)
    requires Visited(m, {}, order)
    ensures Enumerates(order, m) && Ascending(order)
  {
    hide Lower, Less;
    assert m - {} == m;
  }

  class HTTPHeaders {
    var fields: HeaderMap

    constructor ()
      ensures fields == map[]
    {
      fields := map[];
    }

    method SetHeader(name: string, data: string)
      modifies this
      ensures fields == Put(old(fields), name, data)
    {
      fields := Put(fields, name, data);
    }

    method CreateHeader(name: string, data: string)
      modifies this
      ensures fields == if Has(old(fields), name) then old(fields) else Put(old(fields), name, data)
    {
      if !IsSet(name) { SetHeader(name, data); }
    }

    method RemoveHeader(name: string)
      modifies this
      ensures fields == old(fields) - {Lower(name)}
    {
      fields := fields - {Lower(name)};
    }

    method Clear()
      modifies this
      ensures fields == map[]
    {
      fields := map[];
    }

    function GetHeader(name: string): string
      reads this
    {
      Get(fields, name)
    }

    predicate IsSet(name: string)
      reads this
    {
      Has(fields, name)
    }

    /** One line for every entry, in the order of the keys. */
    method GetFormattedHeaders() returns (re: string)
      ensures exists order :: Enumerates(order, fields) && Ascending(order) && re == FormatFields(order)
    {
      hide Visited, Enumerates, Ascending, IsLeast;
      re := "";
      ghost var order: seq<Field> := [];
      var left := fields.Keys;
      NothingVisited(fields);
      while left != {}
        invariant Visited(fields, left, order) && re == FormatFields(order)
        decreases left
      {
        LeastExists(left);
        var k :| k in left && IsLeast(k, left);
        VisitLeast(fields, left, order, k);
        var f := fields[k];
        FormatAppend(order, f);
        re := re + FieldLine(f) + CRLF;
        order := order + [f];
        left := left - {k};
      }
      AllVisited(fields, order);
    }
  }
}
