/** The subllmit registry: `create_subllmit`, `api_search_subllmits` and
    `api_get_all_subllmits`. The `subllmits` table is a sequence in row
    order; a new row takes the id after the last one (SQLite's rowid rule
    for a table that never loses rows). */
module Registry {
  import opened Entities
  import opened Text

  /** `Subllmit.name.ilike('%' + query + '%')`, kept in table order. */
  function Search(subs: seq<Subllmit>, query: string): (r: seq<Subllmit>)
    ensures |r| <= |subs|
    ensures forall s :: s in r <==> s in subs && ContainsIgnoringCase(s.name, query)
  {
    if subs == [] then []
    else
      assert subs == [subs[0]] + subs[1..];
      (if ContainsIgnoringCase(subs[0].name, query) then [subs[0]] else []) + Search(subs[1..], query)
  }

  /** The default query `''` lists the whole table, in order. */
  lemma {:induction false} EmptyQueryListsAll(subs: seq<Subllmit>)
    ensures Search(subs, "") == subs
  {
    if subs != [] {
      EmptyQueryMatches(subs[0].name);
      EmptyQueryListsAll(subs[1..]);
      assert subs == [subs[0]] + subs[1..];
    }
  }

  /** `Subllmit.query.filter_by(name=name).first()` finds a row. */
  predicate HasName(subs: seq<Subllmit>, name: string)
  {
    exists s :: s in subs && s.name == name
  }

  /** The registry's invariant: ids ascend in row order and are positive, and
      names are unique, non-empty and free of surrounding whitespace. */
  ghost predicate Valid(subs: seq<Subllmit>)
  {
    && (forall i, j :: 0 <= i < j < |subs| ==> subs[i].id < subs[j].id && subs[i].name != subs[j].name)
    && (forall s :: s in subs ==> s.id >= 1 && s.name != [] && Trimmed(s.name))
  }

  /** The id SQLite gives the next row: one past the last, or 1 in an empty table. */
  function NextId(subs: seq<Subllmit>): (id: int)
    ensures Valid(subs) ==> id >= 1 && forall s :: s in subs ==> s.id < id
  {
    if subs == [] then 1 else subs[|subs| - 1].id + 1
  }

  /** How `create_subllmit` answers a POST. */
  datatype Outcome = Created(id: int) | MissingName | EmptyName | NameTaken

  /** `create_subllmit` on the table `subs` with the form field `raw`: the
      answer and the table afterwards. */
  function Create(subs: seq<Subllmit>, raw: Option<string>): (r: (Outcome, seq<Subllmit>))
    ensures r.0 == MissingName <==> raw.None?
    ensures r.0 == EmptyName <==> raw.Some? && Strip(raw.value) == []
    ensures r.0 == NameTaken <==> raw.Some? && Strip(raw.value) != [] && HasName(subs, Strip(raw.value))
    ensures r.0.Created? ==> r.1 == subs + [Subllmit(r.0.id, Strip(raw.value))]
    ensures !r.0.Created? ==> r.1 == subs
  {
    match raw
    case None => (MissingName, subs)
    case Some(text) =>
      var name := Strip(text);
      if name == [] then (EmptyName, subs)
      else if HasName(subs, name) then (NameTaken, subs)
      else (Created(NextId(subs)), subs + [Subllmit(NextId(subs), name)])
  }

  /** Creation keeps names unique, non-empty and stripped, and ids ascending. */
  lemma CreateKeepsValid(subs: seq<Subllmit>, raw: Option<string>)
    requires Valid(subs)
    ensures Valid(Create(subs, raw).1)
  {
    var r := Create(subs, raw);
    if r.0.Created? {
      var name := Strip(raw.value);
      AppendKeepsValid(subs, Subllmit(NextId(subs), name));
    }
  }

  /** Appending a row with a fresh, clean name and an id above every other keeps the invariant. */
  lemma AppendKeepsValid(subs: seq<Subllmit>, s: Subllmit)
    requires Valid(subs) && !HasName(subs, s.name)
    requires s.name != [] && Trimmed(s.name) && s.id == NextId(subs)
    ensures Valid(subs + [s])
  {
    var t := subs + [s];
    forall i, j | 0 <= i < j < |t| ensures t[i].id < t[j].id && t[i].name != t[j].name {
      if j == |subs| {
        assert t[i] in subs;
      }
    }
  }

  /** Creating the same name again changes nothing and is refused. */
  lemma CreateTwice(subs: seq<Subllmit>, raw: Option<string>)
    ensures var once := Create(subs, raw).1;
      && !Create(once, raw).0.Created?
      && Create(once, raw).1 == once
  {
    var (o, once) := Create(subs, raw);
    if o.Created? {
      assert once[|subs|] in once;
    }
  }

  /** A successful creation adds exactly one row, under the stripped name,
      and leaves the name findable. */
  lemma CreatedIsFound(subs: seq<Subllmit>, raw: Option<string>)
    requires Create(subs, raw).0.Created?
    ensures var t := Create(subs, raw).1;
      && |t| == |subs| + 1
      && HasName(t, Strip(raw.value))
      && !HasName(subs, Strip(raw.value))
  {
    var t := Create(subs, raw).1;
    assert t[|subs|] in t;
  }
}
