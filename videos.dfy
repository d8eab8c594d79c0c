/** The metadata record of an uploaded video (the `Video` schema) and the
    listing order of the collection: by `uploadDate`, newest first. */
module Videos {

  /** The document identifier the collection assigns to a record. */
  type VideoId = nat

  /** One document of the `Video` collection. `uploadDate` is a clock
      reading in milliseconds. */
  datatype Video = Video(
    id: VideoId,
    filename: string,
    originalName: string,
    mimetype: string,
    size: nat,
    uploadDate: nat,
    description: string)

  /** Every record is at least as recent as the ones after it. */
  predicate NewestFirst(vs: seq<Video>)
  {
    forall i, j :: 0 <= i < j < |vs| ==> vs[i].uploadDate >= vs[j].uploadDate
  }

  /** Places `v` before the first record that is not more recent than it. */
  function InsertByDate(v: Video, vs: seq<Video>): (r: seq<Video>)
    ensures multiset(r) == multiset(vs) + multiset{v}
  {
    if vs == [] || v.uploadDate >= vs[0].uploadDate then
      [v] + vs
    else
      assert vs == [vs[0]] + vs[1..];
      [vs[0]] + InsertByDate(v, vs[1..])
  }

  lemma {:induction false} InsertKeepsOrder(v: Video, vs: seq<Video>)
    requires NewestFirst(vs)
    ensures NewestFirst(InsertByDate(v, vs))
  {
    if vs == [] || v.uploadDate >= vs[0].uploadDate {
      forall w | w in vs ensures w.uploadDate <= v.uploadDate {
        var i :| 0 <= i < |vs| && vs[i] == w;
        assert i == 0 || vs[0].uploadDate >= vs[i].uploadDate;
      }
      PrependNewest(v, vs);
    } else {
      var rest := InsertByDate(v, vs[1..]);
      InsertKeepsOrder(v, vs[1..]);
      assert vs == [vs[0]] + vs[1..];
      forall w | w in rest ensures w.uploadDate <= vs[0].uploadDate {
        assert w in multiset(vs[1..]) + multiset{v};
      }
      PrependNewest(vs[0], rest);
    }
  }

  lemma PrependNewest(x: Video, vs: seq<Video>)
    requires NewestFirst(vs)
    requires forall w :: w in vs ==> w.uploadDate <= x.uploadDate
    ensures NewestFirst([x] + vs)
  {
    var r := [x] + vs;
    forall i, j | 0 <= i < j < |r| ensures r[i].uploadDate >= r[j].uploadDate {
      assert r[j] == vs[j - 1];
      if i > 0 { assert r[i] == vs[i - 1]; }
    }
  }

  /** A collection that stores each record under its own id holds as many
      distinct records as ids, so listing its records loses none. */
  lemma {:induction false} RecordsByIdCount(records: map<VideoId, Video>)
    requires forall id :: id in records ==> records[id].id == id
    ensures |records.Values| == |records|
    decreases |records|
  {
    if records != map[] {
      var k :| k in records;
      var rest := records - {k};
      RecordsByIdCount(rest);
      forall v | v in records.Values ensures v in rest.Values + {records[k]} {
        var j :| j in records && records[j] == v;
        if j != k { assert j in rest && rest[j] == v; }
      }
      forall v | v in rest.Values ensures v in records.Values && v != records[k] {
        var j :| j in rest && rest[j] == v;
        assert j in records && records[j] == v;
      }
      assert records.Values == rest.Values + {records[k]};
      assert records.Keys == rest.Keys + {k};
    }
  }

  /** The collection's records, sorted on `uploadDate` in descending order,
      as the listing query asks the database to do. */
  method SortNewestFirst(records: set<Video>) returns (vs: seq<Video>)
    ensures NewestFirst(vs)
    ensures multiset(vs) == multiset(records)
  {
    vs := [];
    var rest := records;
    while rest != {}
      invariant rest <= records
      invariant NewestFirst(vs)
      invariant multiset(vs) == multiset(records - rest)
      decreases rest
    {
      var v :| v in rest;
      assert records - (rest - {v}) == (records - rest) + {v};
      InsertKeepsOrder(v, vs);
      vs := InsertByDate(v, vs);
      rest := rest - {v};
    }
    assert records - rest == records;
  }
}
