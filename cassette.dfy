/** The cassette of vcr/cassette.py: recorded requests and their responses, kept in
    the order they were first recorded, with a count of how often each request was
    played back. Requests and responses are opaque values compared by equality. */
module Cassettes {
  import opened Wrappers
  import opened OrderedDicts

  /** One request and the response it got, as the interception layer records them. */
  datatype Exchange<K, V> = Exchange(request: K, response: V)

  /** What reading a stored cassette gives: its requests and its responses as two
      sequences, or an `IOError` when the file cannot be read. */
  datatype Stored<K, V> = IOError | Loaded(requests: seq<K>, responses: seq<V>)

  /** Python's `zip`: pairs up the two sequences and stops at the shorter one. */
  function Zip<K, V>(ks: seq<K>, vs: seq<V>): (z: seq<Exchange<K, V>>)
    ensures |z| == if |ks| < |vs| then |ks| else |vs|
    ensures forall i :: 0 <= i < |z| ==> z[i] == Exchange(ks[i], vs[i])
  {
    if ks == [] || vs == [] then [] else [Exchange(ks[0], vs[0])] + Zip(ks[1..], vs[1..])
  }

  /** The requests of a sequence of exchanges, in order. */
  function RequestsOf<K, V>(xs: seq<Exchange<K, V>>): (ks: seq<K>)
    ensures |ks| == |xs|
    ensures forall i :: 0 <= i < |xs| ==> ks[i] == xs[i].request
  {
    if xs == [] then [] else RequestsOf(xs[..|xs| - 1]) + [xs[|xs| - 1].request]
  }

  /** The response of the last exchange in `xs` for request `k`, if there is one. */
  function LastResponse<K(==), V>(xs: seq<Exchange<K, V>>, k: K): (r: Option<V>)
    ensures r.None? <==> forall i :: 0 <= i < |xs| ==> xs[i].request != k
    ensures r.Some? ==> exists i :: && 0 <= i < |xs| && xs[i] == Exchange(k, r.value)
                                    && forall j :: i < j < |xs| ==> xs[j].request != k
  {
    if xs == [] then None
    else if xs[|xs| - 1].request == k then Some(xs[|xs| - 1].response)
    else LastResponse(xs[..|xs| - 1], k)
  }

  /** Appending each exchange in turn: the loop of `load` over the stored pairs and
      the loop of `__exit__` over the recorded exchanges. */
  function AppendAll<K(!new), V>(d: OrderedMap<K, V>, xs: seq<Exchange<K, V>>): (r: OrderedMap<K, V>)
    requires d.Valid()
    ensures r.Valid()
  {
    if xs == [] then d
    else AppendAll(d, xs[..|xs| - 1]).Put(xs[|xs| - 1].request, xs[|xs| - 1].response)
  }

  /** One more exchange appended is one more `Put`. */
  lemma AppendAllStep<K(!new), V>(d: OrderedMap<K, V>, xs: seq<Exchange<K, V>>, i: nat)
    requires d.Valid() && i < |xs|
    ensures AppendAll(d, xs[..i + 1]) == AppendAll(d, xs[..i]).Put(xs[i].request, xs[i].response)
  {
    assert xs[..i + 1][..i] == xs[..i];
  }

  /** After the appends, a request maps to the response of its last exchange; a
      request no exchange mentions keeps what it had. So later duplicates win. */
  lemma {:induction false} AppendAllGet<K(!new), V>(d: OrderedMap<K, V>, xs: seq<Exchange<K, V>>, k: K)
    requires d.Valid()
    ensures AppendAll(d, xs).Get(k) == if LastResponse(xs, k).Some? then LastResponse(xs, k) else d.Get(k)
  {
    if xs != [] {
      AppendAllGet(d, xs[..|xs| - 1], k);
    }
  }

  /** The appends keep every earlier key, in its earlier position. */
  lemma {:induction false} AppendAllKeepsOrder<K(!new), V>(d: OrderedMap<K, V>, xs: seq<Exchange<K, V>>)
    requires d.Valid()
    ensures |d.Keys()| <= |AppendAll(d, xs).Keys()|
    ensures AppendAll(d, xs).Keys()[..|d.Keys()|] == d.Keys()
  {
    if xs != [] {
      var before := AppendAll(d, xs[..|xs| - 1]);
      var x := xs[|xs| - 1];
      AppendAllKeepsOrder(d, xs[..|xs| - 1]);
      var after := before.Put(x.request, x.response);
      assert after == AppendAll(d, xs);
      var n := |d.Keys()|;
      if before.Contains(x.request) {
        assert after.Keys() == before.Keys();
      } else {
        assert after.Keys() == before.Keys() + [x.request];
        assert after.Keys()[..n] == before.Keys()[..n];
      }
    }
  }

  /** A request that is neither stored nor in any exchange is still absent after
      the appends. */
  lemma StaysAbsent<K(!new), V>(d: OrderedMap<K, V>, xs: seq<Exchange<K, V>>, k: K)
    requires d.Valid() && !d.Contains(k)
    requires forall i :: 0 <= i < |xs| ==> xs[i].request != k
    ensures !AppendAll(d, xs).Contains(k)
  {
    AppendAllGet(d, xs, k);
  }

  /** Appending exchanges whose requests are new and pairwise different adds those
      requests at the end, in the order of the exchanges. */
  lemma {:induction false} AppendAllFresh<K(!new), V>(d: OrderedMap<K, V>, xs: seq<Exchange<K, V>>)
    requires d.Valid()
    requires Distinct(RequestsOf(xs))
    requires forall i :: 0 <= i < |xs| ==> !d.Contains(xs[i].request)
    ensures AppendAll(d, xs).Keys() == d.Keys() + RequestsOf(xs)
  {
    if xs != [] {
      var n := |xs| - 1;
      var init := xs[..n];
      var ks := RequestsOf(xs);
      var k := xs[n].request;
      assert ks == RequestsOf(init) + [k];
      assert Distinct(RequestsOf(init)) by {
        assert RequestsOf(init) == ks[..n];
      }
      AppendAllFresh(d, init);
      forall i | 0 <= i < n ensures init[i].request != k {
        assert ks[i] != ks[n];
      }
      StaysAbsent(d, init, k);
      var before := AppendAll(d, init);
      assert AppendAll(d, xs) == before.Put(k, xs[n].response);
      assert before.Put(k, xs[n].response).Keys() == before.Keys() + [k];
      assert d.Keys() + ks == (d.Keys() + RequestsOf(init)) + [k];
    }
  }

  /** In the exchanges built from a dictionary's keys and values, each key's last
      (and only) response is its value. */
  lemma ZipLastResponse<K(!new), V>(d: OrderedMap<K, V>, k: K)
    requires d.Valid()
    ensures LastResponse(Zip(d.Keys(), d.Values()), k) == d.Get(k)
  {
    var xs := Zip(d.Keys(), d.Values());
    var r := LastResponse(xs, k);
    if k in d.entries {
      var i :| 0 <= i < |d.order| && d.order[i] == k;
      assert xs[i].request == k;
      var j :| 0 <= j < |xs| && xs[j] == Exchange(k, r.value);
      assert d.order[j] == d.order[i];
    } else {
      assert forall i :: 0 <= i < |xs| ==> xs[i].request == d.order[i];
    }
  }

  /** Reloading the saved pairs puts the requests back in their order. */
  lemma ReloadKeys<K(!new), V>(d: OrderedMap<K, V>)
    requires d.Valid()
    ensures AppendAll(Empty(), Zip(d.Keys(), d.Values())).Keys() == d.Keys()
  {
    var xs := Zip(d.Keys(), d.Values());
    assert RequestsOf(xs) == d.order;
    AppendAllFresh(Empty(), xs);
  }

  /** Reloading the saved pairs gives every request its response back. */
  lemma ReloadLookups<K(!new), V>(d: OrderedMap<K, V>, k: K)
    requires d.Valid()
    ensures AppendAll(Empty(), Zip(d.Keys(), d.Values())).Get(k) == d.Get(k)
  {
    AppendAllGet(Empty(), Zip(d.Keys(), d.Values()), k);
    ZipLastResponse(d, k);
  }

  /** Saving a cassette's requests and responses and loading them back gives the
      same requests in the same order with the same responses. */
  lemma SaveLoadRoundTrip<K(!new), V>(d: OrderedMap<K, V>)
    requires d.Valid()
    ensures AppendAll(Empty(), Zip(d.Keys(), d.Values())) == d
  {
    var r := AppendAll(Empty(), Zip(d.Keys(), d.Values()));
    ReloadKeys(d);
    forall k ensures r.Get(k) == d.Get(k) {
      ReloadLookups(d, k);
    }
    SameLookupsSameEntries(r, d);
  }

  /** `vcr.cassette.Cassette`. */
  class Cassette<K(==, !new), V> {
    /** Where the cassette is stored; fixed for the life of the instance. */
    const path: string
    /** `data`: request to response, in recording order. */
    var data: OrderedMap<K, V>
    /** `play_counts`: how often each request was played. */
    var playCounts: OrderedMap<K, nat>

    ghost predicate Valid()
      reads this
    {
      data.Valid() && playCounts.Valid()
    }

    /** `Cassette(path)`: an empty cassette bound to `path`. */
    constructor (path: string)
      ensures Valid() && this.path == path
      ensures data == Empty() && playCounts == Empty()
      ensures Len() == 0 && Requests() == [] && PlayCount() == 0
    {
      this.path := path;
      data := Empty();
      playCounts := Empty();
    }

    /** `Cassette.load(path)`, given what reading the stored cassette at `path`
        gives: the stored pairs appended in order, or an empty cassette when the
        read fails. */
    static method Load(path: string, stored: Stored<K, V>) returns (c: Cassette<K, V>)
      ensures fresh(c) && c.Valid() && c.path == path && c.playCounts == Empty()
      ensures stored.IOError? ==> c.data == Empty()
      ensures stored.Loaded? ==> c.data == AppendAll(Empty(), Zip(stored.requests, stored.responses))
    {
      c := new Cassette(path);
      match stored
      case IOError =>
      case Loaded(requests, responses) =>
        var pairs := Zip(requests, responses);
        for i := 0 to |pairs|
          invariant c.Valid() && c.path == path && c.playCounts == Empty()
          invariant c.data == AppendAll(Empty(), pairs[..i])
        {
          AppendAllStep(Empty(), pairs, i);
          c.Append(pairs[i].request, pairs[i].response);
        }
        assert pairs[..|pairs|] == pairs;
    }

    /** `play_count`: the sum of all play counts. */
    function PlayCount(): (p: nat)
      reads this
      requires Valid()
      ensures p == Sum(playCounts.Values())
    {
      TotalIsSumOfValues(playCounts);
      Total(playCounts)
    }

    /** `requests`: the recorded requests in recording order. */
    function Requests(): (rs: seq<K>)
      reads this
      requires Valid()
      ensures Distinct(rs)
      ensures forall r :: r in rs <==> data.Contains(r)
    {
      data.Keys()
    }

    /** `responses`: the recorded responses, the `i`-th one answering the `i`-th
        request. */
    function Responses(): (rs: seq<V>)
      reads this
      requires Valid()
      ensures |rs| == |Requests()| == Len()
      ensures forall i :: 0 <= i < |rs| ==> ResponseOf(Requests()[i]) == Ok(rs[i])
    {
      LenIsKeyCount(data);
      data.Values()
    }

    /** `mark_played(request)`: one more play of `request`, counted from zero for a
        request never played, and recorded or not. */
    method MarkPlayed(request: K)
      requires Valid()
      modifies this
      ensures Valid() && data == old(data)
      ensures playCounts == Increment(old(playCounts), request)
      ensures CountOf(playCounts, request) == CountOf(old(playCounts), request) + 1
      ensures forall r :: r != request ==> CountOf(playCounts, r) == CountOf(old(playCounts), r)
      ensures PlayCount() == old(PlayCount()) + 1
    {
      playCounts := Increment(playCounts, request);
    }

    /** `append(request, response)`: records the pair; a request recorded before
        keeps its place and gets the new response, a new one goes last. */
    method Append(request: K, response: V)
      requires Valid()
      modifies this
      ensures Valid() && playCounts == old(playCounts)
      ensures data == old(data).Put(request, response)
      ensures Contains(request) && ResponseOf(request) == Ok(response)
      ensures forall r :: r != request ==> ResponseOf(r) == old(ResponseOf(r))
      ensures old(Contains(request)) ==> Requests() == old(Requests()) && Len() == old(Len())
      ensures !old(Contains(request)) ==> Requests() == old(Requests()) + [request] && Len() == old(Len()) + 1
    {
      data := data.Put(request, response);
    }

    /** `response_of(request)` (also `get_response`): the recorded response, or a
        `KeyError` for a request never recorded. */
    function ResponseOf(request: K): (r: Result<V>)
      reads this
      requires Valid()
      ensures r.Err? <==> !Contains(request)
      ensures r.Err? ==> r.error == KeyError
      ensures r.Ok? ==> data.Get(request) == Some(r.value)
    {
      match data.Get(request)
      case Some(v) => Ok(v)
      case None => Err(KeyError)
    }

    /** `len(cassette)`: the number of recorded requests. */
    function Len(): (n: nat)
      reads this
      requires Valid()
      ensures n == |Requests()|
    {
      LenIsKeyCount(data);
      data.Len()
    }

    /** `request in cassette` */
    predicate Contains(request: K): (b: bool)
      reads this
      requires Valid()
      ensures b <==> request in Requests()
    {
      data.Contains(request)
    }

    /** The bookkeeping of `__exit__`: appends the exchanges recorded during the
        scope, in order, and returns the requests and responses that are then
        saved. */
    method Exit(record: seq<Exchange<K, V>>) returns (requests: seq<K>, responses: seq<V>)
      requires Valid()
      modifies this
      ensures Valid() && playCounts == old(playCounts)
      ensures data == AppendAll(old(data), record)
      ensures requests == Requests() && responses == Responses()
    {
      for i := 0 to |record|
        invariant Valid() && playCounts == old(playCounts)
        invariant data == AppendAll(old(data), record[..i])
      {
        AppendAllStep(old(data), record, i);
        Append(record[i].request, record[i].response);
      }
      assert record[..|record|] == record;
      requests, responses := Requests(), Responses();
    }
  }
}
