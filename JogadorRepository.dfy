/** The store behind JogadorRepository. The repository's operations come from the persistence
    framework and are not part of the program's text; this module states the behaviour the
    program relies on: a table of players keyed by an identity column that counts up from 1. */
module Repository {
  import opened Wrappers
  import opened Model

  /** A page request: page number and page size. */
  datatype PageRequest = PageRequest(page: nat, size: nat)

  /** A page of results: its content, the request it answers and the total number of matches. */
  datatype Page<T> = Page(content: seq<T>, pageable: PageRequest, totalElements: nat)

  /** A strictly ascending sequence drawn from `s` is no longer than `s` is large. */
  lemma {:induction false} AscendingWithinSetIsBounded(xs: seq<int>, s: set<int>)
    requires forall i, j :: 0 <= i < j < |xs| ==> xs[i] < xs[j]
    requires forall i :: 0 <= i < |xs| ==> xs[i] in s
    ensures |xs| <= |s|
  {
    if xs != [] {
      var rest := xs[1..];
      forall i | 0 <= i < |rest|
        ensures rest[i] in s - {xs[0]}
      {
        assert xs[0] < xs[i + 1];
      }
      AscendingWithinSetIsBounded(rest, s - {xs[0]});
    }
  }

  class JogadorRepository {
    /** The rows of the table, by id. */
    var records: map<int, Jogador>
    /** The next value of the identity column. */
    var nextId: int

    /** Every row sits under its own id, and every id was handed out by the identity column. */
    ghost predicate Valid()
      reads this
    {
      1 <= nextId &&
      forall k :: k in records ==> 1 <= k < nextId && records[k].id == Some(k)
    }

    /** An empty table. */
    constructor ()
      ensures Valid()
      ensures records == map[] && nextId == 1
    {
      records := map[];
      nextId := 1;
    }

    /** The derived query `existsByCodinome`: is there a row with exactly this codename? */
    function ExistsByCodinome(codinome: Text): (b: bool)
      reads this
      ensures b <==> CodinomeTaken(records, codinome)
    {
      CodinomeTaken(records, codinome)
    }

    /** `findById`: the row stored under `id`, or an empty result. */
    function FindById(id: int): (r: Option<Jogador>)
      reads this
      requires Valid()
      ensures r.None? <==> id !in records
      ensures r.Some? ==> r.value.id == Some(id) && records[id] == r.value
    {
      if id in records then Some(records[id]) else None
    }

    /** `save`: an entity without an id is inserted under the next identity value; one whose id
        is a stored row overwrites that row; one whose id is not stored is inserted as a copy
        under the next identity value. The saved entity is returned. */
    method Save(entity: Jogador) returns (saved: Jogador)
      requires Valid()
      modifies this
      ensures Valid()
      ensures saved.id.Some? && saved.id.value in records && records[saved.id.value] == saved
      ensures entity.id.Some? && entity.id.value in old(records) ==>
                saved == entity && records == old(records)[entity.id.value := entity] &&
                nextId == old(nextId)
      ensures !(entity.id.Some? && entity.id.value in old(records)) ==>
                old(nextId) !in old(records) &&
                saved == entity.(id := Some(old(nextId))) &&
                records == old(records)[old(nextId) := saved] &&
                nextId == old(nextId) + 1
    {
      if entity.id.Some? && entity.id.value in records {
        saved := entity;
        records := records[entity.id.value := entity];
      } else {
        saved := entity.(id := Some(nextId));
        records := records[nextId := saved];
        nextId := nextId + 1;
      }
    }

    /** `delete`: removes the row with the entity's id; an entity without an id, or with an id
        that is not stored, leaves the table as it is. */
    method Delete(entity: Jogador)
      requires Valid()
      modifies this
      ensures Valid()
      ensures entity.id.None? ==> records == old(records)
      ensures entity.id.Some? ==> records == old(records) - {entity.id.value}
      ensures nextId == old(nextId)
    {
      if entity.id.Some? {
        records := records - {entity.id.value};
      }
    }

    /** The ids in [lo, hi) of the rows that satisfy `matches`, in ascending order. */
    function MatchingIds(matches: Jogador -> bool, lo: int, hi: int): (ids: seq<int>)
      reads this
      ensures forall k :: k in ids <==> lo <= k < hi && k in records && matches(records[k])
      ensures forall i :: 0 <= i < |ids| ==> ids[i] in records && matches(records[ids[i]])
      ensures forall i, j :: 0 <= i < j < |ids| ==> ids[i] < ids[j]
      decreases hi - lo
    {
      if hi <= lo then []
      else
        var rest := MatchingIds(matches, lo + 1, hi);
        assert forall i :: 0 <= i < |rest| ==> rest[i] in rest && lo < rest[i];
        if lo in records && matches(records[lo]) then [lo] + rest else rest
    }

    /** The rows stored under `ids`, in the order of `ids`. */
    function RowsAt(ids: seq<int>): (rows: seq<Jogador>)
      reads this
      requires forall i :: 0 <= i < |ids| ==> ids[i] in records
      ensures |rows| == |ids|
      ensures forall i :: 0 <= i < |ids| ==> rows[i] == records[ids[i]]
    {
      if ids == [] then [] else [records[ids[0]]] + RowsAt(ids[1..])
    }

    /** `findAll(example, pageable)`: every row that satisfies `matches`, in ascending id order,
        with the number of such rows. */
    function FindAll(matches: Jogador -> bool, pageable: PageRequest): (p: Page<Jogador>)
      reads this
      requires Valid()
      ensures p.pageable == pageable && p.totalElements == |p.content|
      ensures forall i :: 0 <= i < |p.content| ==>
                p.content[i].id.Some? && p.content[i].id.value in records &&
                records[p.content[i].id.value] == p.content[i] && matches(p.content[i])
      ensures forall k :: k in records && matches(records[k]) ==> records[k] in p.content
      ensures forall i, j :: 0 <= i < j < |p.content| ==> p.content[i].id.value < p.content[j].id.value
      ensures |p.content| <= |records|
    {
      var ids := MatchingIds(matches, 1, nextId);
      AscendingWithinSetIsBounded(ids, records.Keys);
      var content := RowsAt(ids);
      assert forall i :: 0 <= i < |ids| ==> content[i].id == Some(ids[i]);
      assert forall k :: k in records && matches(records[k]) ==> records[k] in content by {
        forall k | k in records && matches(records[k])
          ensures records[k] in content
        {
          var i :| 0 <= i < |ids| && ids[i] == k;
          assert content[i] == records[k];
        }
      }
      Page(content, pageable, |ids|)
    }
  }
}
