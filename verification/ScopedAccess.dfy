/** Scoped access tables (core/platform/auth/session.py): a table maps scope types to
    scope ids to permission codes. The code fills it row by row in nested dictionaries;
    its meaning is the set of (type, id, permission) triples it grants. */
module ScopedAccess {
  import opened Text

  type Triple = (string, string, string)
  type Table = map<string, map<string, set<string>>>

  /** One item of a raw `scoped_access` mapping, in iteration order. `rows` is `None`
      when the value is not a mapping; the code skips such items. */
  datatype Entry = Entry(scopeType: string, rows: Option<seq<(string, set<string>)>>)

  const PROJECT: string := "project"

  // ----- meaning of a table ------------------------------------------------

  predicate Grants(m: Table, t: string, i: string, p: string) {
    t in m && i in m[t] && p in m[t][i]
  }

  function Triples(m: Table): (r: set<Triple>)
    ensures forall t, i, p :: (t, i, p) in r <==> Grants(m, t, i, p)
  {
    set t, i, p | t in m && i in m[t] && p in m[t][i] :: (t, i, p)
  }

  /** No empty scope type and no empty permission set is stored. */
  predicate Tight(m: Table) {
    forall t :: t in m ==> m[t] != map[] && forall i :: i in m[t] ==> m[t][i] != {}
  }

  function Ids(s: set<Triple>, t: string): set<string> {
    set x | x in s && x.0 == t :: x.1
  }

  function Codes(s: set<Triple>, t: string, i: string): set<string> {
    set x | x in s && x.0 == t && x.1 == i :: x.2
  }

  function FromTriples(s: set<Triple>): Table {
    var types := set x | x in s :: x.0;
    map t | t in types :: map i | i in Ids(s, t) :: Codes(s, t, i)
  }

  lemma FromTriplesMeaning(s: set<Triple>)
    ensures Tight(FromTriples(s)) && Triples(FromTriples(s)) == s
  {
    var m := FromTriples(s);
    assert Triples(m) == s;
    forall t, i | t in m && i in m[t] ensures m[t][i] != {} {
      var x :| x in s && x.0 == t && x.1 == i;
      assert x.2 in m[t][i];
    }
    forall t | t in m ensures m[t] != map[] {
      var x :| x in s && x.0 == t;
      assert x.1 in m[t];
    }
  }

  lemma SameCodes(a: Table, b: Table, t: string, i: string)
    requires Triples(a) == Triples(b)
    requires t in a && i in a[t] && t in b && i in b[t]
    ensures a[t][i] == b[t][i]
  {
    forall p ensures p in a[t][i] <==> p in b[t][i] {
      assert Grants(a, t, i, p) <==> (t, i, p) in Triples(a);
      assert Grants(b, t, i, p) <==> (t, i, p) in Triples(b);
    }
  }

  lemma SameRows(a: Table, b: Table, t: string)
    requires Triples(a) == Triples(b)
    requires t in a && t in b && a[t].Keys == b[t].Keys
    ensures a[t] == b[t]
  {
    forall i | i in a[t] ensures a[t][i] == b[t][i] {
      SameCodes(a, b, t, i);
    }
  }

  /** A tight table is determined by what it grants. */
  lemma TightIsUnique(a: Table, b: Table)
    requires Tight(a) && Tight(b) && Triples(a) == Triples(b)
    ensures a == b
  {
    TightIncluded(a, b);
    TightIncluded(b, a);
    assert a.Keys == b.Keys;
    forall t | t in a ensures a[t] == b[t] {
      assert a[t].Keys == b[t].Keys;
      SameRows(a, b, t);
    }
  }

  lemma TightIncluded(a: Table, b: Table)
    requires Tight(a) && Triples(a) <= Triples(b)
    ensures forall t :: t in a ==> t in b && forall i :: i in a[t] ==> i in b[t]
  {
    forall t | t in a
      ensures t in b && forall i :: i in a[t] ==> i in b[t]
    {
      forall i | i in a[t] ensures t in b && i in b[t] {
        var p :| p in a[t][i];
        assert (t, i, p) in Triples(b);
      }
      var i :| i in a[t];
    }
  }

  // ----- normalisation -----------------------------------------------------

  /** `_normalize_permission_set`: strip every code and drop the blank ones. */
  function NormalizeCodes(ps: set<string>): set<string> {
    set p | p in ps && Strip(p) != "" :: Strip(p)
  }

  predicate Kept(x: Triple) {
    Key(x.0) != "" && Strip(x.1) != "" && Strip(x.2) != ""
  }

  function NormalizeTriple(x: Triple): Triple {
    (Key(x.0), Strip(x.1), Strip(x.2))
  }

  function NormalizeTriples(s: set<Triple>): set<Triple> {
    set x | x in s && Kept(x) :: NormalizeTriple(x)
  }

  predicate Normal(x: Triple) {
    Kept(x) && NormalizeTriple(x) == x
  }

  lemma NormalizedIsNormal(x: Triple)
    requires Kept(x)
    ensures Normal(NormalizeTriple(x))
  {
    KeyIdempotent(x.0);
    StripIdempotent(x.1);
    StripIdempotent(x.2);
  }

  lemma NormalizeTriplesUnion(a: set<Triple>, b: set<Triple>)
    ensures NormalizeTriples(a + b) == NormalizeTriples(a) + NormalizeTriples(b)
  {
  }

  lemma NormalizeTriplesNormal(s: set<Triple>)
    ensures forall x :: x in NormalizeTriples(s) ==> Normal(x)
  {
    forall y | y in NormalizeTriples(s) ensures Normal(y) {
      var x :| x in s && Kept(x) && y == NormalizeTriple(x);
      NormalizedIsNormal(x);
    }
  }

  lemma NormalTriplesAreFixed(s: set<Triple>)
    requires forall x :: x in s ==> Normal(x)
    ensures NormalizeTriples(s) == s
  {
  }

  // Raw rows, in iteration order, as triples.

  function RowTriples(t: string, row: (string, set<string>)): set<Triple> {
    set p | p in row.1 :: (t, row.0, p)
  }

  function RowsTriples(t: string, rows: seq<(string, set<string>)>): set<Triple> {
    if rows == [] then {} else RowsTriples(t, rows[..|rows| - 1]) + RowTriples(t, rows[|rows| - 1])
  }

  function EntryTriples(e: Entry): set<Triple> {
    match e.rows
    case None => {}
    case Some(rows) => RowsTriples(e.scopeType, rows)
  }

  function EntriesTriples(es: seq<Entry>): set<Triple> {
    if es == [] then {} else EntriesTriples(es[..|es| - 1]) + EntryTriples(es[|es| - 1])
  }

  /** What `_normalize_scoped_access` means: the tight table of all normalised triples. */
  function Normalized(es: seq<Entry>, project: seq<(string, set<string>)>): Table {
    FromTriples(NormalizeTriples(EntriesTriples(es) + RowsTriples(PROJECT, project)))
  }

  // ----- the loops of _normalize_scoped_access ------------------------------

  function MergeRow(m: Table, t: string, i: string, ps: set<string>): Table {
    var rows := if t in m then m[t] else map[];
    var existing := if i in rows then rows[i] else {};
    m[t := rows[i := existing + ps]]
  }

  lemma MergeRowMeaning(m: Table, t: string, i: string, ps: set<string>)
    requires Tight(m) && ps != {}
    ensures Tight(MergeRow(m, t, i, ps))
    ensures Triples(MergeRow(m, t, i, ps)) == Triples(m) + RowTriples(t, (i, ps))
  {
    var r := MergeRow(m, t, i, ps);
    forall u, j, p
      ensures Grants(r, u, j, p) <==> (u, j, p) in Triples(m) + RowTriples(t, (i, ps))
    {
    }
    forall u | u in r
      ensures r[u] != map[] && forall j :: j in r[u] ==> r[u][j] != {}
    {
      if u == t { assert i in r[t]; }
    }
  }

  /** The local helper `_merge`. */
  method Merge(m: Table, scopeType: string, scopeId: string, codes: set<string>) returns (r: Table)
    requires Tight(m)
    ensures Tight(r)
    ensures Triples(r) == Triples(m) + NormalizeTriples(RowTriples(scopeType, (scopeId, codes)))
  {
    var t, i := Key(scopeType), Strip(scopeId);
    var raw := RowTriples(scopeType, (scopeId, codes));
    if t == "" || i == "" {
      assert NormalizeTriples(raw) == {};
      return m;
    }
    var ps := NormalizeCodes(codes);
    assert NormalizeTriples(raw) == RowTriples(t, (i, ps)) by {
      NormalizeRow(scopeType, scopeId, codes);
    }
    if ps == {} {
      return m;
    }
    MergeRowMeaning(m, t, i, ps);
    r := MergeRow(m, t, i, ps);
  }

  lemma NormalizeRow(t: string, i: string, codes: set<string>)
    requires Key(t) != "" && Strip(i) != ""
    ensures NormalizeTriples(RowTriples(t, (i, codes))) == RowTriples(Key(t), (Strip(i), NormalizeCodes(codes)))
  {
    var a, b := NormalizeTriples(RowTriples(t, (i, codes))), RowTriples(Key(t), (Strip(i), NormalizeCodes(codes)));
    forall x | x in b ensures x in a {
      var q :| q in NormalizeCodes(codes) && x == (Key(t), Strip(i), q);
      var p :| p in codes && Strip(p) != "" && Strip(p) == q;
      assert (t, i, p) in RowTriples(t, (i, codes)) && Kept((t, i, p)) && NormalizeTriple((t, i, p)) == x;
    }
    forall x | x in a ensures x in b {
      var y :| y in RowTriples(t, (i, codes)) && Kept(y) && x == NormalizeTriple(y);
      assert y.2 in codes && Strip(y.2) in NormalizeCodes(codes);
    }
  }

  method MergeRows(m: Table, scopeType: string, rows: seq<(string, set<string>)>) returns (r: Table)
    requires Tight(m)
    ensures Tight(r)
    ensures Triples(r) == Triples(m) + NormalizeTriples(RowsTriples(scopeType, rows))
  {
    r := m;
    for j := 0 to |rows|
      invariant Tight(r)
      invariant Triples(r) == Triples(m) + NormalizeTriples(RowsTriples(scopeType, rows[..j]))
    {
      NormalizeTriplesUnion(RowsTriples(scopeType, rows[..j]), RowTriples(scopeType, rows[j]));
      assert rows[..j + 1][..j] == rows[..j];
      r := Merge(r, scopeType, rows[j].0, rows[j].1);
    }
    assert rows[..|rows|] == rows;
  }

  /** `_normalize_scoped_access`, with the dictionaries given in any iteration order. */
  method NormalizeScopedAccess(scoped: seq<Entry>, project: seq<(string, set<string>)>) returns (m: Table)
    ensures m == Normalized(scoped, project)
  {
    m := map[];
    for k := 0 to |scoped|
      invariant Tight(m) && Triples(m) == NormalizeTriples(EntriesTriples(scoped[..k]))
    {
      NormalizeTriplesUnion(EntriesTriples(scoped[..k]), EntryTriples(scoped[k]));
      assert scoped[..k + 1][..k] == scoped[..k];
      match scoped[k].rows
      case None =>
      case Some(rows) => m := MergeRows(m, scoped[k].scopeType, rows);
    }
    assert scoped[..|scoped|] == scoped;
    NormalizeTriplesUnion(EntriesTriples(scoped), RowsTriples(PROJECT, project));
    m := MergeRows(m, PROJECT, project);
    FromTriplesMeaning(Triples(m));
    TightIsUnique(m, Normalized(scoped, project));
  }

  // ----- what the normalised table says -------------------------------------

  ghost predicate RowGrants(t: string, row: (string, set<string>), x: Triple) {
    exists p :: p in row.1 && Kept((t, row.0, p)) && NormalizeTriple((t, row.0, p)) == x
  }

  ghost predicate EntriesGrant(es: seq<Entry>, x: Triple) {
    exists k, j :: 0 <= k < |es| && es[k].rows.Some? && 0 <= j < |es[k].rows.value|
                   && RowGrants(es[k].scopeType, es[k].rows.value[j], x)
  }

  ghost predicate RowsGrant(t: string, rows: seq<(string, set<string>)>, x: Triple) {
    exists j :: 0 <= j < |rows| && RowGrants(t, rows[j], x)
  }

  lemma {:induction false} RowsTriplesAt(t: string, rows: seq<(string, set<string>)>, y: Triple)
    ensures y in RowsTriples(t, rows) <==> exists j :: 0 <= j < |rows| && y in RowTriples(t, rows[j])
  {
    if rows != [] {
      var front := rows[..|rows| - 1];
      RowsTriplesAt(t, front, y);
      assert forall j :: 0 <= j < |front| ==> front[j] == rows[j];
      assert y in RowTriples(t, rows[|rows| - 1]) ==> y in RowsTriples(t, rows);
    }
  }

  lemma {:induction false} EntriesTriplesAt(es: seq<Entry>, y: Triple)
    ensures y in EntriesTriples(es) <==> exists k :: 0 <= k < |es| && y in EntryTriples(es[k])
  {
    if es != [] {
      var front := es[..|es| - 1];
      EntriesTriplesAt(front, y);
      assert forall j :: 0 <= j < |front| ==> front[j] == es[j];
    }
  }

  lemma RowsGrantIsTriple(t: string, rows: seq<(string, set<string>)>, x: Triple)
    ensures x in NormalizeTriples(RowsTriples(t, rows)) <==> RowsGrant(t, rows, x)
  {
  }

  lemma EntriesGrantIsTriple(es: seq<Entry>, x: Triple)
    ensures x in NormalizeTriples(EntriesTriples(es)) <==> EntriesGrant(es, x)
  {
    if x in NormalizeTriples(EntriesTriples(es)) {
      var y :| y in EntriesTriples(es) && Kept(y) && NormalizeTriple(y) == x;
      EntriesTriplesAt(es, y);
      var k :| 0 <= k < |es| && y in EntryTriples(es[k]);
      assert x in NormalizeTriples(RowsTriples(es[k].scopeType, es[k].rows.value));
      RowsGrantIsTriple(es[k].scopeType, es[k].rows.value, x);
    }
    if EntriesGrant(es, x) {
      var k, j :| 0 <= k < |es| && es[k].rows.Some? && 0 <= j < |es[k].rows.value|
                  && RowGrants(es[k].scopeType, es[k].rows.value[j], x);
      RowsGrantIsTriple(es[k].scopeType, es[k].rows.value, x);
      var y :| y in RowsTriples(es[k].scopeType, es[k].rows.value) && Kept(y) && NormalizeTriple(y) == x;
      EntriesTriplesAt(es, y);
      assert y in EntryTriples(es[k]);
    }
  }

  /** The normalised table is the pointwise union over all raw rows whose normalised keys
      coincide, stores nothing empty, and holds only normalised keys and codes. */
  lemma NormalizationIsPointwiseUnion(es: seq<Entry>, project: seq<(string, set<string>)>)
    ensures Tight(Normalized(es, project))
    ensures forall t, i, p :: Grants(Normalized(es, project), t, i, p)
                          <==> EntriesGrant(es, (t, i, p)) || RowsGrant(PROJECT, project, (t, i, p))
    ensures forall t, i, p :: Grants(Normalized(es, project), t, i, p) ==> Normal((t, i, p))
  {
    var a, b := EntriesTriples(es), RowsTriples(PROJECT, project);
    FromTriplesMeaning(NormalizeTriples(a + b));
    NormalizeTriplesUnion(a, b);
    NormalizeTriplesNormal(a + b);
    forall t, i, p
      ensures Grants(Normalized(es, project), t, i, p)
         <==> EntriesGrant(es, (t, i, p)) || RowsGrant(PROJECT, project, (t, i, p))
    {
      EntriesGrantIsTriple(es, (t, i, p));
      RowsGrantIsTriple(PROJECT, project, (t, i, p));
      assert Grants(Normalized(es, project), t, i, p) <==> (t, i, p) in Triples(Normalized(es, project));
    }
  }

  /** Iterating the same rows in another order, with other nesting or with repetitions,
      gives the same table. */
  lemma NormalizationIgnoresOrder(es: seq<Entry>, ps: seq<(string, set<string>)>,
                                  fs: seq<Entry>, qs: seq<(string, set<string>)>)
    requires forall x :: EntriesGrant(es, x) || RowsGrant(PROJECT, ps, x)
                    <==> EntriesGrant(fs, x) || RowsGrant(PROJECT, qs, x)
    ensures Normalized(es, ps) == Normalized(fs, qs)
  {
    NormalizationIsPointwiseUnion(es, ps);
    NormalizationIsPointwiseUnion(fs, qs);
    var a, b := Normalized(es, ps), Normalized(fs, qs);
    forall x: Triple ensures x in Triples(a) <==> x in Triples(b) {
      assert x == (x.0, x.1, x.2);
    }
    TightIsUnique(a, b);
  }

  // ----- principals: tables in, tables out ----------------------------------

  function ProjectRows(m: Table): map<string, set<string>> {
    if PROJECT in m then m[PROJECT] else map[]
  }

  function ProjectTriples(rows: map<string, set<string>>): set<Triple> {
    set i, p | i in rows && p in rows[i] :: (PROJECT, i, p)
  }

  /** Normalisation as a function of the dictionaries themselves. */
  function NormalizeTable(m: Table, project: map<string, set<string>>): Table {
    FromTriples(NormalizeTriples(Triples(m) + ProjectTriples(project)))
  }

  ghost predicate EnumeratesRows(rows: seq<(string, set<string>)>, m: map<string, set<string>>) {
    && (forall j :: 0 <= j < |rows| ==> rows[j].0 in m && rows[j].1 == m[rows[j].0])
    && (forall i :: i in m ==> (i, m[i]) in rows)
  }

  ghost predicate Enumerates(es: seq<Entry>, m: Table) {
    && (forall k :: 0 <= k < |es| ==>
          es[k].scopeType in m && es[k].rows.Some? && EnumeratesRows(es[k].rows.value, m[es[k].scopeType]))
    && (forall t :: t in m ==> exists k :: 0 <= k < |es| && es[k].scopeType == t)
  }

  lemma EnumeratedRowTriples(t: string, rows: seq<(string, set<string>)>, m: map<string, set<string>>)
    requires EnumeratesRows(rows, m)
    ensures RowsTriples(t, rows) == set i, p | i in m && p in m[i] :: (t, i, p)
  {
    forall y: Triple
      ensures y in RowsTriples(t, rows) <==> y.0 == t && y.1 in m && y.2 in m[y.1]
    {
      RowsTriplesAt(t, rows, y);
      if y.0 == t && y.1 in m && y.2 in m[y.1] {
        var j :| 0 <= j < |rows| && rows[j] == (y.1, m[y.1]);
        assert y == (t, rows[j].0, y.2) && y in RowTriples(t, rows[j]);
      }
    }
  }

  lemma EnumeratedTriples(es: seq<Entry>, m: Table)
    requires Enumerates(es, m)
    ensures EntriesTriples(es) == Triples(m)
  {
    forall y: Triple ensures y in EntriesTriples(es) <==> y in Triples(m) {
      EntriesTriplesAt(es, y);
      assert y == (y.0, y.1, y.2);
      forall k | 0 <= k < |es|
        ensures y in EntryTriples(es[k]) <==> y.0 == es[k].scopeType && Grants(m, y.0, y.1, y.2)
      {
        EnumeratedRowTriples(es[k].scopeType, es[k].rows.value, m[es[k].scopeType]);
      }
    }
  }

  /** Whatever order the two dictionaries are iterated in, the loops compute `NormalizeTable`. */
  lemma NormalizationOfTables(es: seq<Entry>, m: Table,
                              ps: seq<(string, set<string>)>, project: map<string, set<string>>)
    requires Enumerates(es, m) && EnumeratesRows(ps, project)
    ensures Normalized(es, ps) == NormalizeTable(m, project)
  {
    EnumeratedTriples(es, m);
    EnumeratedRowTriples(PROJECT, ps, project);
  }

  lemma ProjectPartIsIncluded(m: Table)
    ensures ProjectTriples(ProjectRows(m)) <= Triples(m)
  {
  }

  /** A normalised table is a fixed point, although its project part is folded in again. */
  lemma NormalizationIsIdempotent(m: Table, project: map<string, set<string>>)
    ensures var n := NormalizeTable(m, project); NormalizeTable(n, ProjectRows(n)) == n
  {
    var raw := Triples(m) + ProjectTriples(project);
    NormalizeTriplesNormal(raw);
    NormalTableIsFixed(NormalizeTriples(raw));
  }

  lemma NormalTableIsFixed(s: set<Triple>)
    requires forall x :: x in s ==> Normal(x)
    ensures var n := FromTriples(s); NormalizeTable(n, ProjectRows(n)) == n
  {
    var n := FromTriples(s);
    FromTriplesMeaning(s);
    ProjectPartIsIncluded(n);
    assert Triples(n) + ProjectTriples(ProjectRows(n)) == s;
    NormalTriplesAreFixed(s);
  }
}
