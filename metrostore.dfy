/** The `updateMetro` action of forumClient/src/stores/metroStore.ts: an upsert of a station's
    coordinates in a list. The coordinates are only stored, so they are reals here. */
module MetroStore {

  datatype Metro = Metro(id: string, lat: real, lng: real)

  /** The position of the first station with that id (`Array.prototype.find`), or -1. */
  function FirstIndex(metros: seq<Metro>, id: string): (k: int)
    ensures -1 <= k < |metros|
    ensures k >= 0 ==> metros[k].id == id
    ensures forall j :: 0 <= j < |metros| && (k < 0 || j < k) ==> metros[j].id != id
  {
    if metros == [] then -1
    else if metros[0].id == id then 0
    else
      var k := FirstIndex(metros[1..], id);
      assert forall j :: 1 <= j < |metros| ==> metros[j] == metros[1..][j - 1];
      if k < 0 then -1 else k + 1
  }

  /** The list after `updateMetro(id, lat, lng)`: the first station with that id moved, or a new
      station pushed at the end. */
  function Upserted(metros: seq<Metro>, id: string, lat: real, lng: real): seq<Metro>
  {
    var k := FirstIndex(metros, id);
    if k >= 0 then metros[k := metros[k].(lat := lat, lng := lng)] else metros + [Metro(id, lat, lng)]
  }

  /** A known id: the first station with it gets the new coordinates, the length and every other
      station stay. */
  lemma UpsertExisting(metros: seq<Metro>, id: string, lat: real, lng: real, k: int)
    requires 0 <= k < |metros| && metros[k].id == id
    requires forall j :: 0 <= j < k ==> metros[j].id != id
    ensures var r := Upserted(metros, id, lat, lng);
      && |r| == |metros|
      && r[k] == Metro(id, lat, lng)
      && forall j :: 0 <= j < |metros| && j != k ==> r[j] == metros[j]
  {
    var f := FirstIndex(metros, id);
    assert f == k;
  }

  /** An unknown id: the new station is pushed at the end and nothing else changes. */
  lemma UpsertAbsent(metros: seq<Metro>, id: string, lat: real, lng: real)
    requires forall j :: 0 <= j < |metros| ==> metros[j].id != id
    ensures Upserted(metros, id, lat, lng) == metros + [Metro(id, lat, lng)]
  {
    var f := FirstIndex(metros, id);
    assert f < 0;
  }

  /** After the call a station with that id exists, at the position `find` reaches first, with
      the new coordinates. */
  lemma UpsertFinds(metros: seq<Metro>, id: string, lat: real, lng: real)
    ensures var r := Upserted(metros, id, lat, lng);
      var k := FirstIndex(r, id);
      k >= 0 && r[k] == Metro(id, lat, lng)
  {
    var r := Upserted(metros, id, lat, lng);
    var f := FirstIndex(metros, id);
    var k := FirstIndex(r, id);
    if f >= 0 {
      assert r[f].id == id;
      assert forall j :: 0 <= j < f ==> r[j] == metros[j];
    } else {
      assert r[|metros|].id == id;
      assert forall j :: 0 <= j < |metros| ==> r[j] == metros[j];
    }
  }

  /** Repeating the call gives the same list. */
  lemma UpsertIdempotent(metros: seq<Metro>, id: string, lat: real, lng: real)
    ensures Upserted(Upserted(metros, id, lat, lng), id, lat, lng) == Upserted(metros, id, lat, lng)
  {
    var r := Upserted(metros, id, lat, lng);
    UpsertFinds(metros, id, lat, lng);
    var k := FirstIndex(r, id);
    assert r[k := r[k].(lat := lat, lng := lng)] == r;
  }

  /** Distinct ids. */
  ghost predicate UniqueIds(metros: seq<Metro>)
  {
    forall i, j :: 0 <= i < j < |metros| ==> metros[i].id != metros[j].id
  }

  /** Distinct ids stay distinct. */
  lemma UpsertKeepsUnique(metros: seq<Metro>, id: string, lat: real, lng: real)
    requires UniqueIds(metros)
    ensures UniqueIds(Upserted(metros, id, lat, lng))
  {
    var r := Upserted(metros, id, lat, lng);
    var f := FirstIndex(metros, id);
    if f >= 0 {
      assert forall j :: 0 <= j < |r| ==> r[j].id == metros[j].id;
    } else {
      forall i, j | 0 <= i < j < |r| ensures r[i].id != r[j].id {
        if j == |metros| { assert metros[i].id != id; }
      }
    }
  }

  /** The store's state. */
  class Store {
    var metros: seq<Metro>

    constructor ()
      ensures metros == []
    {
      metros := [];
    }

    /** `updateMetro(id, lat, lng)`: a scan for the first station with that id, whose fields
        are then set, or a push. */
    method UpdateMetro(id: string, lat: real, lng: real)
      modifies this
      ensures metros == Upserted(old(metros), id, lat, lng)
    {
      var i := 0;
      while i < |metros| && metros[i].id != id
        invariant 0 <= i <= |metros|
        invariant forall j :: 0 <= j < i ==> metros[j].id != id
      {
        i := i + 1;
      }
      if i < |metros| {
        UpsertExisting(metros, id, lat, lng, i);
        metros := metros[i := metros[i].(lat := lat, lng := lng)];
      } else {
        UpsertAbsent(metros, id, lat, lng);
        metros := metros + [Metro(id, lat, lng)];
      }
    }
  }
}
