/** The service catalog of the front end: the record shape, the searches
    the handlers run over the `services` array, the id assignment of the
    create form, the filter of the delete action, the quote-flow lookup
    and the stock severity of the detail view. The state that holds the
    array is the class in module App. */
module Catalog {
  import opened Search

  /** One service listing. `promotion` is the empty string when there is
      none. JavaScript numbers are modelled as unbounded integers. */
  datatype Service = Service(id: int, name: string, icon: string, description: string,
                             price: int, stock: int, promotion: string)

  /** What the service form submits: every field but the id, which the
      store assigns (on create) or keeps (on update). */
  datatype Draft = Draft(name: string, icon: string, description: string,
                         price: int, stock: int, promotion: string)

  /** `{ ...serviceData, id }`: the draft's fields under the given id. */
  function WithId(d: Draft, id: int): Service {
    Service(id, d.name, d.icon, d.description, d.price, d.stock, d.promotion)
  }

  /** Some record of the catalog carries the id. */
  predicate HasId(s: seq<Service>, id: int) {
    exists j :: 0 <= j < |s| && s[j].id == id
  }

  /** The catalog invariant: no two records share an id. */
  predicate UniqueIds(s: seq<Service>) {
    forall i, j :: 0 <= i < j < |s| ==> s[i].id != s[j].id
  }

  /** The callbacks `s => s.id === id`, `s => s.id !== id` and
      `s => s.name === name`, named so that every use is the same term. */
  function IdIs(id: int): Service -> bool {
    (x: Service) => x.id == id
  }

  function IdIsNot(id: int): Service -> bool {
    (x: Service) => x.id != id
  }

  function NameIs(name: string): Service -> bool {
    (x: Service) => x.name == name
  }

  /** `services.findIndex(s => s.id === id)` of the update branch. */
  function IndexOfId(s: seq<Service>, id: int): (r: int)
    ensures -1 <= r < |s|
    ensures r == -1 <==> !HasId(s, id)
    ensures 0 <= r ==> s[r].id == id && forall j :: 0 <= j < r ==> s[j].id != id
  {
    FindIndex(s, IdIs(id))
  }

  /** `services.find(s => s.id === id)`. */
  function FindById(s: seq<Service>, id: int): (r: Option<Service>)
    ensures r.None? <==> !HasId(s, id)
    ensures r.Some? ==> r.value in s && r.value.id == id
  {
    Find(s, IdIs(id))
  }

  /** `services.find(s => s.name === name)`: the first service with that
      name; later services of the same name are never found. */
  function FindByName(s: seq<Service>, name: string): (r: Option<Service>)
    ensures r.None? <==> forall j :: 0 <= j < |s| ==> s[j].name != name
    ensures r.Some? ==> exists i :: 0 <= i < |s| && s[i] == r.value && r.value.name == name &&
                                    forall j :: 0 <= j < i ==> s[j].name != name
  {
    Find(s, NameIs(name))
  }

  /** `Math.max(...ids)` of a non-empty catalog. */
  function MaxId(s: seq<Service>): (m: int)
    requires |s| > 0
    ensures HasId(s, m)
    ensures forall j :: 0 <= j < |s| ==> s[j].id <= m
  {
    if |s| == 1 then s[0].id
    else
      var m := MaxId(s[1..]);
      assert forall j :: 1 <= j < |s| ==> s[j] == s[1..][j - 1];
      if s[0].id > m then s[0].id else m
  }

  /** The id the create branch assigns, `Math.max(...ids) + 1`. On an
      empty catalog `Math.max()` is -Infinity and there is no integer id:
      the result is None. Otherwise the id is one past the largest id,
      so it is larger than, and different from, every existing id. */
  function NextId(s: seq<Service>): (r: Option<int>)
    ensures r.None? <==> |s| == 0
    ensures r.Some? ==> HasId(s, r.value - 1)
    ensures r.Some? ==> forall j :: 0 <= j < |s| ==> s[j].id < r.value
  {
    if |s| == 0 then None else Some(MaxId(s) + 1)
  }

  /** `services.filter(s => s.id !== id)` of the delete action. */
  function Without(s: seq<Service>, id: int): (r: seq<Service>)
    ensures !HasId(r, id)
    ensures forall j :: 0 <= j < |s| && s[j].id != id ==> s[j] in r
    ensures forall j :: 0 <= j < |r| ==> r[j] in s
  {
    Filter(s, IdIsNot(id))
  }

  /** Creating on a non-empty catalog appends one record carrying the
      draft under a fresh id, one past the largest, and keeps the ids
      distinct when they were. */
  lemma CreateAppendsFresh(s: seq<Service>, d: Draft)
    requires |s| > 0
    ensures NextId(s).Some?
    ensures var t := s + [WithId(d, NextId(s).value)];
            |t| == |s| + 1 && t[..|s|] == s && !HasId(s, NextId(s).value) &&
            (UniqueIds(s) ==> UniqueIds(t))
  {
    var n := NextId(s).value;
    var t := s + [WithId(d, n)];
    assert t[..|s|] == s;
  }

  /** Replacing the record at `i` by one with the same id keeps the ids
      as they were, so it keeps them distinct. */
  lemma ReplaceKeepsIds(s: seq<Service>, i: int, x: Service)
    requires 0 <= i < |s| && x.id == s[i].id
    ensures forall j :: 0 <= j < |s| ==> s[i := x][j].id == s[j].id
    ensures UniqueIds(s) ==> UniqueIds(s[i := x])
  {
    var t := s[i := x];
    assert forall j :: 0 <= j < |s| ==> t[j].id == s[j].id;
  }

  /** Filtering never creates a duplicate id. */
  lemma {:induction false} FilterKeepsUnique(s: seq<Service>, p: Service -> bool)
    requires UniqueIds(s)
    ensures UniqueIds(Filter(s, p))
  {
    if |s| > 0 {
      var rest := Filter(s[1..], p);
      FilterKeepsUnique(s[1..], p);
      forall j | 0 <= j < |rest| ensures rest[j].id != s[0].id {
        var k :| 0 <= k < |s[1..]| && s[1..][k] == rest[j];
        assert s[k + 1] == rest[j];
      }
      if p(s[0]) {
        var r := [s[0]] + rest;
        forall i, j | 0 <= i < j < |r| ensures r[i].id != r[j].id {
          if i > 0 {
            assert r[i] == rest[i - 1] && r[j] == rest[j - 1];
          } else {
            assert r[j] == rest[j - 1];
          }
        }
      }
    }
  }

  /** Delete removes every record with the id and nothing else, keeps the
      survivors in order (filtering distributes over concatenation), keeps
      the ids distinct, and a second delete of the same id changes nothing. */
  lemma DeleteProperties(s: seq<Service>, id: int)
    ensures FindById(Without(s, id), id).None?
    ensures Without(Without(s, id), id) == Without(s, id)
    ensures forall a, b :: a + b == s ==> Without(s, id) == Without(a, id) + Without(b, id)
    ensures UniqueIds(s) ==> UniqueIds(Without(s, id))
  {
    FilterIdempotent(s, IdIsNot(id));
    forall a, b | a + b == s ensures Without(s, id) == Without(a, id) + Without(b, id) {
      FilterAppend(a, b, IdIsNot(id));
    }
    if UniqueIds(s) {
      FilterKeepsUnique(s, IdIsNot(id));
    }
  }

  /** Deleting an id that no record carries changes nothing. */
  lemma DeleteAbsent(s: seq<Service>, id: int)
    requires !HasId(s, id)
    ensures Without(s, id) == s
  {
    assert forall j :: 0 <= j < |s| ==> IdIsNot(id)(s[j]);
    FilterAllKept(s, IdIsNot(id));
  }

  /** After a delete, the id can no longer be found by `findIndex`: an
      edit cursor still naming it points at no record. */
  lemma StaleAfterDelete(s: seq<Service>, id: int)
    ensures IndexOfId(Without(s, id), id) == -1
  {
  }

  /** The lookup of the quote flow: by id when the id is truthy (present
      and not 0), otherwise by name; in both cases the first match. */
  function LookupForQuote(s: seq<Service>, name: string, id: Option<int>): (r: Option<Service>)
    ensures id.Some? && id.value != 0 ==>
              (r.None? <==> !HasId(s, id.value)) &&
              (r.Some? ==> exists i :: 0 <= i < |s| && s[i] == r.value && r.value.id == id.value &&
                                       forall j :: 0 <= j < i ==> s[j].id != id.value)
    ensures !(id.Some? && id.value != 0) ==>
              (r.None? <==> forall j :: 0 <= j < |s| ==> s[j].name != name) &&
              (r.Some? ==> exists i :: 0 <= i < |s| && s[i] == r.value && r.value.name == name &&
                                       forall j :: 0 <= j < i ==> s[j].name != name)
  {
    if id.Some? && id.value != 0 then
      Find(s, IdIs(id.value))
    else FindByName(s, name)
  }

  /** The three colours of the stock figure in the detail view. */
  datatype StockTier = High | Medium | Low

  /** `stock > 5 ? green : stock > 2 ? yellow : red`: the tiers
      partition the integers at the thresholds 2 and 5. */
  function TierOf(stock: int): (t: StockTier)
    ensures t == High <==> stock > 5
    ensures t == Medium <==> 3 <= stock <= 5
    ensures t == Low <==> stock <= 2
  {
    if stock > 5 then High else if stock > 2 then Medium else Low
  }

  /** The colour the detail view paints each tier with: green, yellow
      and red, one per tier. */
  function TierColor(t: StockTier): (c: string)
    ensures c == "#28a745" <==> t == High
    ensures c == "#ffc107" <==> t == Medium
    ensures c == "#dc3545" <==> t == Low
  {
    match t
    case High => "#28a745"
    case Medium => "#ffc107"
    case Low => "#dc3545"
  }

  function Rank(t: StockTier): nat {
    match t
    case Low => 0
    case Medium => 1
    case High => 2
  }

  /** More stock never gives a lower tier, and tiers that differ are
      painted with different colours. */
  lemma TierProperties(a: int, b: int)
    ensures a <= b ==> Rank(TierOf(a)) <= Rank(TierOf(b))
    ensures TierOf(a) != TierOf(b) ==> TierColor(TierOf(a)) != TierColor(TierOf(b))
  {
  }
}
