/** An abstract model of the per-connection `IdIndex`: the mapping from a
    stable entity id to the small network id used on the wire. Network ids
    are non-negative and pairwise distinct; -1 is the "not found" answer. */
module IdIndexes {

  /** The answer of a lookup that found nothing and allocated nothing. */
  const NotFound: int := -1

  datatype IdIndex = IdIndex(ids: map<int, int>)

  /** No two entities share a network id, and every network id is >= 0. */
  predicate Valid(x: IdIndex)
  {
    (forall e :: e in x.ids ==> x.ids[e] >= 0) &&
    (forall e1, e2 :: e1 in x.ids && e2 in x.ids && e1 != e2 ==> x.ids[e1] != x.ids[e2])
  }

  /** The network ids currently handed out. */
  function Used(x: IdIndex): set<int>
  {
    set e | e in x.ids :: x.ids[e]
  }

  /** The smallest id at or above k that is not in `used`. */
  function FirstFree(used: set<int>, k: int): (r: int)
    ensures r >= k && r !in used
    ensures forall j :: k <= j < r ==> j in used
    decreases |used|
  {
    if k in used then
      var r := FirstFree(used - {k}, k + 1);
      assert forall j :: k <= j < r ==> j in used by {
        forall j | k <= j < r ensures j in used {
          if j > k { assert j in used - {k}; }
        }
      }
      r
    else k
  }

  /** `getId(entity, create)`: the entity's network id; when it has none,
      either the smallest unused id, newly recorded (create), or NotFound. */
  function GetId(x: IdIndex, entity: int, create: bool): (r: (IdIndex, int))
    ensures entity in x.ids ==> r == (x, x.ids[entity])
    ensures entity !in x.ids && !create ==> r == (x, NotFound)
    ensures entity !in x.ids && create ==>
      r.1 >= 0 && r.1 !in Used(x) && (forall j :: 0 <= j < r.1 ==> j in Used(x)) &&
      r.0.ids == x.ids[entity := r.1]
  {
    if entity in x.ids then (x, x.ids[entity])
    else if create then
      var id := FirstFree(Used(x), 0);
      (IdIndex(x.ids[entity := id]), id)
    else (x, NotFound)
  }

  /** `retireId(networkId)`: forgets the entity holding that id, so the id
      can be handed out again. */
  function Retire(x: IdIndex, networkId: int): (r: IdIndex)
    ensures forall e :: e in r.ids <==> e in x.ids && x.ids[e] != networkId
    ensures forall e :: e in r.ids ==> r.ids[e] == x.ids[e]
    ensures Used(r) == Used(x) - {networkId}
  {
    var r := IdIndex(map e | e in x.ids && x.ids[e] != networkId :: x.ids[e]);
    assert Used(r) == Used(x) - {networkId} by {
      forall n | n in Used(x) - {networkId} ensures n in Used(r) {
        var e :| e in x.ids && x.ids[e] == n;
        assert e in r.ids;
      }
    }
    r
  }

  /** The index after retiring every id of `networkIds`, in any order. */
  function RetireAll(x: IdIndex, networkIds: seq<int>): IdIndex
  {
    IdIndex(map e | e in x.ids && x.ids[e] !in networkIds :: x.ids[e])
  }

  /** Retiring one more id extends the retired sequence by that id. */
  lemma RetireExtendsRetireAll(x: IdIndex, networkIds: seq<int>, networkId: int)
    ensures Retire(RetireAll(x, networkIds), networkId) == RetireAll(x, networkIds + [networkId])
  {
  }

  /** Lookups keep the index valid; a lookup that may not create changes
      nothing, and one that may create leaves every earlier entry alone. */
  lemma GetIdKeepsValid(x: IdIndex, entity: int, create: bool)
    requires Valid(x)
    ensures Valid(GetId(x, entity, create).0)
    ensures !create ==> GetId(x, entity, create).0 == x
    ensures forall e :: e in x.ids ==> e in GetId(x, entity, create).0.ids &&
                                       GetId(x, entity, create).0.ids[e] == x.ids[e]
  {
    var (r, id) := GetId(x, entity, create);
    if entity !in x.ids && create {
      forall e | e in x.ids ensures x.ids[e] != id {
        assert x.ids[e] in Used(x);
      }
    }
  }

  /** Retiring keeps the index valid. */
  lemma RetireAllKeepsValid(x: IdIndex, networkIds: seq<int>)
    requires Valid(x)
    ensures Valid(RetireAll(x, networkIds))
  {
  }

  /** Ids are reused before the index grows: once retired, an id is handed
      to the next new entity whenever every smaller id is still taken. */
  lemma RetiredIdIsReused(x: IdIndex, networkId: int, entity: int)
    requires Valid(x) && networkId in Used(x)
    requires forall j :: 0 <= j < networkId ==> j in Used(x)
    requires entity !in Retire(x, networkId).ids
    ensures GetId(Retire(x, networkId), entity, true).1 == networkId
  {
    var r := Retire(x, networkId);
    var id := GetId(r, entity, true).1;
    assert networkId !in Used(r);
  }
}
